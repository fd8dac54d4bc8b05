/** Socket addresses and the table that maps private addresses to public ones. */
module IoAddr {
  import opened Options
  import opened Octets

  const AF_INET := 2
  const AF_INET6 := 10

  /** The address union as it lies in memory: the port octets are shared by both families. */
  datatype RawAddr = RawAddr(family: int, port: seq<byte>, v4: seq<byte>, v6: seq<byte>)

  const ZERO_ADDR: RawAddr := RawAddr(0, [0, 0], [0, 0, 0, 0], [0, 0, 0, 0, 0, 0, 0, 0, 0, 0, 0, 0, 0, 0, 0, 0])

  type Addr = a: RawAddr | |a.port| == 2 && |a.v4| == 4 && |a.v6| == 16
    witness ZERO_ADDR

  predicate IsInet(a: Addr) { a.family == AF_INET || a.family == AF_INET6 }

  function GetPort(a: Addr): nat {
    if IsInet(a) then Get16(a.port, 0) else 0
  }

  function SetPort(a: Addr, port: nat): Addr {
    if IsInet(a) then a.(port := Put16(port)) else a
  }

  predicate AddrEqNoPort(a: Addr, b: Addr) {
    a.family == b.family
    && ((a.family == AF_INET && a.v4 == b.v4) || (a.family == AF_INET6 && a.v6 == b.v6))
  }

  predicate AddrEq(a: Addr, b: Addr) { AddrEqNoPort(a, b) && a.port == b.port }

  /** Equal addresses are of the same family, IPv4 or IPv6, with the same octets; addr_eq also
      compares the port. */
  lemma EqualExactly(a: Addr, b: Addr)
    ensures AddrEqNoPort(a, b) <==>
      (a.family == b.family == 2 && a.v4 == b.v4) || (a.family == b.family == 10 && a.v6 == b.v6)
    ensures AddrEq(a, b) <==> AddrEqNoPort(a, b) && a.port == b.port
  {
  }

  /** addr_any_no_port. */
  predicate AnyNoPort(a: Addr) {
    if a.family == AF_INET then a.v4 == ZERO_ADDR.v4
    else if a.family == AF_INET6 then a.v6 == ZERO_ADDR.v6
    else true
  }

  lemma PortRoundTrip(a: Addr, b: Addr)
    requires IsInet(a) && IsInet(b)
    ensures SetPort(a, GetPort(b)).port == b.port
  {
    Get16Put16(b.port, 0);
    assert b.port[0..2] == b.port;
  }

  /* ---------- The mapping table ---------- */

  /** The first entry of `table` with the same address as `a`, ports aside. */
  function FirstEqual(table: seq<Addr>, a: Addr): (r: Option<nat>)
    ensures r.Some? ==> r.value < |table| && AddrEqNoPort(a, table[r.value])
    ensures forall i :: 0 <= i < (if r.Some? then r.value else |table|) ==> !AddrEqNoPort(a, table[i])
  {
    FirstEqualFrom(table, a, 0)
  }

  function FirstEqualFrom(table: seq<Addr>, a: Addr, i: nat): (r: Option<nat>)
    requires i <= |table|
    ensures r.Some? ==> i <= r.value < |table| && AddrEqNoPort(a, table[r.value])
    ensures forall k :: i <= k < (if r.Some? then r.value else |table|) ==> !AddrEqNoPort(a, table[k])
    decreases |table| - i
  {
    if i == |table| then None
    else if AddrEqNoPort(a, table[i]) then Some(i)
    else FirstEqualFrom(table, a, i + 1)
  }

  /** Translation from the addresses of `from` to those of `to`; the port is kept. */
  function Translate(from: seq<Addr>, to: seq<Addr>, a: Addr): Addr
    requires |from| == |to|
  {
    var i := FirstEqual(from, a);
    if i.Some? then SetPort(to[i.value], GetPort(a)) else a
  }

  /** The address is that of the entry at the first match, the port stays; what no entry matches
      stays altogether. */
  lemma TranslateExactly(from: seq<Addr>, to: seq<Addr>, a: Addr)
    requires |from| == |to|
    ensures (forall k :: 0 <= k < |from| ==> !AddrEqNoPort(a, from[k])) ==> Translate(from, to, a) == a
    ensures forall k :: 0 <= k < |from| && AddrEqNoPort(a, from[k]) && (forall l :: 0 <= l < k ==> !AddrEqNoPort(a, from[l])) ==>
      Translate(from, to, a) == if to[k].family == 2 || to[k].family == 10 then to[k].(port := a.port) else to[k]
  {
    forall k | 0 <= k < |from| && AddrEqNoPort(a, from[k]) && (forall l :: 0 <= l < k ==> !AddrEqNoPort(a, from[l]))
      ensures Translate(from, to, a) == if to[k].family == 2 || to[k].family == 10 then to[k].(port := a.port) else to[k]
    {
      assert FirstEqual(from, a) == Some(k);
      if IsInet(to[k]) {
        PortRoundTrip(to[k], a);
      }
    }
  }

  /** Every entry is an address of its own. */
  ghost predicate DistinctTable(table: seq<Addr>) {
    && (forall k :: 0 <= k < |table| ==> IsInet(table[k]))
    && forall k, l :: 0 <= k < l < |table| ==> !AddrEqNoPort(table[k], table[l])
  }

  /** A new entry stays behind the old ones: it translates only what none of them does. */
  lemma AddedTranslates(from: seq<Addr>, to: seq<Addr>, x: Addr, y: Addr, a: Addr)
    requires |from| == |to|
    ensures Translate(from + [x], to + [y], a) ==
      if FirstEqual(from, a).Some? then Translate(from, to, a)
      else if AddrEqNoPort(a, x) then SetPort(y, GetPort(a))
      else a
  {
    var i, j := FirstEqual(from, a), FirstEqual(from + [x], a);
    if i.Some? {
      assert (from + [x])[i.value] == from[i.value] && (to + [y])[i.value] == to[i.value];
    } else {
      assert (from + [x])[|from|] == x && (to + [y])[|to|] == y;
    }
  }

  /** A table stays distinct exactly when an address that it does not hold is added. */
  lemma AddedDistinct(table: seq<Addr>, x: Addr)
    ensures DistinctTable(table + [x]) <==> DistinctTable(table) && IsInet(x) && FirstEqual(table, x).None?
  {
    var t := table + [x];
    assert forall k :: 0 <= k < |table| ==> t[k] == table[k];
    assert t[|table|] == x;
    if DistinctTable(t) && FirstEqual(table, x).Some? {
      assert AddrEqNoPort(t[FirstEqual(table, x).value], t[|table|]);
    }
  }

  /** The two global tables. */
  class AddrMap {
    var publicAddrs: seq<Addr>
    var privateAddrs: seq<Addr>

    predicate Valid()
      reads this
    {
      |publicAddrs| == |privateAddrs|
    }

    constructor ()
      ensures Valid() && publicAddrs == [] && privateAddrs == []
    {
      publicAddrs, privateAddrs := [], [];
    }

    /** ioa_addr_add_mapping. */
    method AddMapping(apub: Addr, apriv: Addr)
      requires Valid()
      modifies this
      ensures Valid()
      ensures publicAddrs == old(publicAddrs) + [apub] && privateAddrs == old(privateAddrs) + [apriv]
      ensures DistinctTable(publicAddrs) <==>
        old(DistinctTable(publicAddrs)) && IsInet(apub) && FirstEqual(old(publicAddrs), apub).None?
    {
      AddedDistinct(publicAddrs, apub);
      publicAddrs := publicAddrs + [apub];
      privateAddrs := privateAddrs + [apriv];
    }

    /** map_addr_from_public_to_private. */
    method FromPublicToPrivate(publicAddr: Addr) returns (privateAddr: Addr)
      requires Valid()
      ensures privateAddr == Translate(publicAddrs, privateAddrs, publicAddr)
    {
      var i := 0;
      while i < |publicAddrs|
        invariant 0 <= i <= |publicAddrs|
        invariant FirstEqual(publicAddrs, publicAddr) == FirstEqualFrom(publicAddrs, publicAddr, i)
      {
        if AddrEqNoPort(publicAddr, publicAddrs[i]) {
          privateAddr := SetPort(privateAddrs[i], GetPort(publicAddr));
          return;
        }
        i := i + 1;
      }
      privateAddr := publicAddr;
    }

    /** map_addr_from_private_to_public. */
    method FromPrivateToPublic(privateAddr: Addr) returns (publicAddr: Addr)
      requires Valid()
      ensures publicAddr == Translate(privateAddrs, publicAddrs, privateAddr)
    {
      var i := 0;
      while i < |privateAddrs|
        invariant 0 <= i <= |privateAddrs|
        invariant FirstEqual(privateAddrs, privateAddr) == FirstEqualFrom(privateAddrs, privateAddr, i)
      {
        if AddrEqNoPort(privateAddr, privateAddrs[i]) {
          publicAddr := SetPort(publicAddrs[i], GetPort(privateAddr));
          return;
        }
        i := i + 1;
      }
      publicAddr := privateAddr;
    }
  }

  lemma FirstEqualSame(table: seq<Addr>, a: Addr, b: Addr)
    requires forall c: Addr :: AddrEqNoPort(a, c) == AddrEqNoPort(b, c)
    ensures FirstEqual(table, a) == FirstEqual(table, b)
  {
    var r, q := FirstEqual(table, a), FirstEqual(table, b);
    if r.Some? {
      assert AddrEqNoPort(b, table[r.value]);
    }
    if q.Some? {
      assert AddrEqNoPort(a, table[q.value]);
    }
  }

  /** What the tables must satisfy for one address: the public entry it maps to leads back to
      an entry with its private address, or it is not mapped and no public entry has it. */
  predicate MapsBack(pub: seq<Addr>, priv: seq<Addr>, a: Addr)
    requires |pub| == |priv|
  {
    var i := FirstEqual(priv, a);
    if i.Some? then
      var j := FirstEqual(pub, pub[i.value]);
      j.Some? && AddrEqNoPort(priv[j.value], priv[i.value])
    else FirstEqual(pub, a).None?
  }

  /** Mapping to public and back is the identity on an address exactly when its table entries
      lead back. */
  lemma MapRoundTrip(pub: seq<Addr>, priv: seq<Addr>, a: Addr)
    requires |pub| == |priv| && IsInet(a)
    ensures AddrEq(Translate(pub, priv, Translate(priv, pub, a)), a) <==> MapsBack(pub, priv, a)
  {
    var i := FirstEqual(priv, a);
    if i.Some? {
      var p := Translate(priv, pub, a);
      if IsInet(pub[i.value]) {
        PortRoundTrip(pub[i.value], a);
        FirstEqualSame(pub, p, pub[i.value]);
        var j := FirstEqual(pub, p);
        if j.Some? && IsInet(priv[j.value]) {
          PortRoundTrip(priv[j.value], p);
        }
      }
    } else {
      var j := FirstEqual(pub, a);
      if j.Some? && IsInet(priv[j.value]) {
        assert !AddrEqNoPort(a, priv[j.value]);
      }
    }
  }

  function Inet(a: byte, b: byte, c: byte, d: byte): Addr {
    ZERO_ADDR.(family := AF_INET, v4 := [a, b, c, d])
  }

  /** Two private addresses behind one public address: the second comes back as the first. */
  lemma SharedPublicMisleads()
    ensures var one, two, shared := Inet(10, 0, 0, 1), Inet(10, 0, 0, 2), Inet(8, 8, 8, 8);
      var pub, priv := [shared, shared], [one, two];
      && !MapsBack(pub, priv, two)
      && Translate(pub, priv, Translate(priv, pub, two)) == one
  {
    var one, two, shared := Inet(10, 0, 0, 1), Inet(10, 0, 0, 2), Inet(8, 8, 8, 8);
    var pub, priv := [shared, shared], [one, two];
    assert one.v4[3] != two.v4[3];
    assert AddrEqNoPort(two, priv[1]) && AddrEqNoPort(shared, pub[0]);
    assert FirstEqual(priv, two) == Some(1);
    assert Put16(0) == [0, 0];
    assert Translate(priv, pub, two) == shared;
    assert FirstEqual(pub, shared) == Some(0);
  }

  /** Pairwise different public entries suffice, if no unmapped address equals one of them. */
  lemma DistinctMapsBack(pub: seq<Addr>, priv: seq<Addr>, a: Addr)
    requires |pub| == |priv| && DistinctTable(pub)
    requires FirstEqual(priv, a).None? ==> FirstEqual(pub, a).None?
    ensures MapsBack(pub, priv, a)
  {
    var i := FirstEqual(priv, a);
    if i.Some? {
      assert AddrEqNoPort(pub[i.value], pub[i.value]);
      var j := FirstEqual(pub, pub[i.value]);
      assert j.Some? && j.value <= i.value;
      if j.value < i.value {
        assert AddrEqNoPort(pub[j.value], pub[i.value]);
        assert false;
      }
    }
  }
}
