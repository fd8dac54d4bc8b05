/** Address attributes: the plain and XORed encodings, and addresses travelling in messages. */
module StunAddr {
  import opened Options
  import opened Octets
  import opened StunDefs
  import opened StunWire
  import opened StunBuffers
  import opened IoAddr

  /* ---------- Encoding ---------- */

  function XorAll(a: seq<byte>, k: seq<byte>): (r: seq<byte>)
    requires |a| == |k|
    ensures |r| == |a|
  {
    seq(|a|, i requires 0 <= i < |a| => Xor(a[i], k[i]))
  }

  lemma XorAllCancels(a: seq<byte>, k: seq<byte>)
    requires |a| == |k|
    ensures XorAll(XorAll(a, k), k) == a
  {
    hide Xor;
    forall i | 0 <= i < |a|
      ensures XorAll(XorAll(a, k), k)[i] == a[i]
    {
      XorCancels(a[i], k[i]);
    }
  }

  /** The octets a field is XORed with: those of the cookie, then of the transaction id; or
      zeros, which change nothing, when the field is plain. */
  function Masked(xorEd: bool, a: seq<byte>, k: seq<byte>): (r: seq<byte>)
    requires |a| == |k|
    ensures |r| == |a|
  {
    if xorEd then XorAll(a, k) else a
  }

  /** Octet by octet, in order. */
  lemma MaskedOctets(xorEd: bool, a: seq<byte>, k: seq<byte>)
    requires |a| == |k|
    ensures forall i :: 0 <= i < |a| ==> Masked(xorEd, a, k)[i] == if xorEd then Xor(a[i], k[i]) else a[i]
  {
  }

  lemma MaskedCancels(xorEd: bool, a: seq<byte>, k: seq<byte>)
    requires |a| == |k|
    ensures Masked(xorEd, Masked(xorEd, a, k), k) == a
  {
    if xorEd {
      XorAllCancels(a, k);
    }
  }

  /** stun_addr_encode; an unset family counts as IPv4. */
  function Encode(a: Addr, xorEd: bool, mc: nat, tid: seq<byte>): (r: Option<seq<byte>>)
    requires |tid| == 12
    ensures r.Some? ==> |r.value| == 8 || |r.value| == 20
  {
    if a.family == AF_INET || a.family == 0 then
      Some([0, 1] + Masked(xorEd, a.port, Put16(mc / 0x1_0000)) + Masked(xorEd, a.v4, Put32(mc)))
    else if a.family == AF_INET6 then
      Some([0, 2] + Masked(xorEd, a.port, Put16(mc / 0x1_0000)) + Masked(xorEd, a.v6, Put32(mc) + tid))
    else None
  }

  /** How many octets of a field of `len` octets the decoder looks at, at most. */
  function FieldRead(len: nat): nat {
    if len < 8 then 0 else if len == 8 || len == 20 then len else 2
  }

  /** stun_addr_decode: return value and address; fields that are not decoded keep what `ca`
      held. */
  function Decode(ca: Addr, cfield: seq<byte>, len: nat, xorEd: bool, mc: nat, tid: seq<byte>): (int, Addr)
    requires |tid| == 12 && FieldRead(len) <= |cfield|
  {
    if len < 8 || cfield[0] != 0 || (cfield[1] != 1 && cfield[1] != 2) then (-1, ca)
    else if cfield[1] == 1 then
      if len != 8 then (-1, ca.(family := AF_INET))
      else (0, ca.(family := AF_INET,
                   port := Masked(xorEd, cfield[2..4], Put16(mc / 0x1_0000)),
                   v4 := Masked(xorEd, cfield[4..8], Put32(mc))))
    else if len != 20 then (-1, ca.(family := AF_INET6))
    else (0, ca.(family := AF_INET6,
                 port := Masked(xorEd, cfield[2..4], Put16(mc / 0x1_0000)),
                 v6 := Masked(xorEd, cfield[4..20], Put32(mc) + tid)))
  }

  /** The in-place encoder with its index loops. */
  method StunAddrEncode(ca: Addr, cfield: array<byte>, xorEd: bool, mc: nat, tid: seq<byte>) returns (r: int, clen: nat)
    requires |tid| == 12 && 20 <= cfield.Length
    modifies cfield
    ensures clen <= cfield.Length && (r == 0 || r == -1)
    ensures Encode(ca, xorEd, mc, tid) == if r == 0 then Some(cfield[..clen]) else None
  {
    hide Put16, Put32, Masked;
    clen := 0;
    var high, magic := Put16(mc / 0x1_0000), Put32(mc);
    if ca.family == AF_INET || ca.family == 0 {
      clen := 8;
      cfield[0], cfield[1] := 0, 1;
      StorePort(cfield, xorEd, ca.port, high);
      StoreV4(cfield, xorEd, ca.v4, magic);
      assert cfield[..8] == cfield[..4] + cfield[4..8];
      assert cfield[..4] == [0, 1] + Masked(xorEd, ca.port, high);
      return 0, clen;
    } else if ca.family == AF_INET6 {
      clen := 20;
      cfield[0], cfield[1] := 0, 2;
      StorePort(cfield, xorEd, ca.port, high);
      StoreV6(cfield, xorEd, ca.v6, magic, tid);
      assert cfield[..20] == cfield[..4] + cfield[4..20];
      assert cfield[..4] == [0, 2] + Masked(xorEd, ca.port, high);
      return 0, clen;
    } else {
      return -1, clen;
    }
  }

  method StorePort(cfield: array<byte>, xorEd: bool, port: seq<byte>, high: seq<byte>)
    requires 20 <= cfield.Length && |port| == 2 && |high| == 2
    modifies cfield
    ensures cfield[..4] == old(cfield[..2]) + Masked(xorEd, port, high)
    ensures cfield[4..] == old(cfield[4..])
  {
    hide Xor;
    if xorEd {
      cfield[2], cfield[3] := Xor(port[0], high[0]), Xor(port[1], high[1]);
    } else {
      cfield[2], cfield[3] := port[0], port[1];
    }
  }

  method StoreV4(cfield: array<byte>, xorEd: bool, v4: seq<byte>, magic: seq<byte>)
    requires 20 <= cfield.Length && |v4| == 4 && |magic| == 4
    modifies cfield
    ensures cfield[..4] == old(cfield[..4])
    ensures cfield[4..8] == Masked(xorEd, v4, magic)
  {
    hide Xor;
    if xorEd {
      cfield[4], cfield[5] := Xor(v4[0], magic[0]), Xor(v4[1], magic[1]);
      cfield[6], cfield[7] := Xor(v4[2], magic[2]), Xor(v4[3], magic[3]);
    } else {
      cfield[4], cfield[5], cfield[6], cfield[7] := v4[0], v4[1], v4[2], v4[3];
    }
  }

  method StoreV6(cfield: array<byte>, xorEd: bool, v6: seq<byte>, magic: seq<byte>, tid: seq<byte>)
    requires 20 <= cfield.Length && |v6| == 16 && |magic| == 4 && |tid| == 12
    modifies cfield
    ensures cfield[..4] == old(cfield[..4])
    ensures cfield[4..20] == Masked(xorEd, v6, magic + tid)
  {
    hide Xor, XorAll;
    ghost var head := cfield[..4];
    if xorEd {
      XorLoop(cfield, 4, v6[..4], magic);
      ghost var first := cfield[..8];
      XorLoop(cfield, 8, v6[4..], tid);
      assert cfield[..4] == first[..4] == head;
      assert cfield[4..20] == first[4..8] + cfield[8..20];
      XorAllConcat(v6[..4], magic, v6[4..], tid);
      assert v6[..4] + v6[4..] == v6;
    } else {
      forall i | 0 <= i < 16 {
        cfield[4 + i] := v6[i];
      }
      assert cfield[4..20] == v6;
    }
  }

  lemma XorAllConcat(a: seq<byte>, k: seq<byte>, b: seq<byte>, l: seq<byte>)
    requires |a| == |k| && |b| == |l|
    ensures XorAll(a + b, k + l) == XorAll(a, k) + XorAll(b, l)
  {
    hide Xor;
  }

  method XorLoop(dst: array<byte>, at: nat, src: seq<byte>, key: seq<byte>)
    requires |src| == |key| && at + |src| <= dst.Length
    modifies dst
    ensures dst[..at] == old(dst[..at]) && dst[at + |src|..] == old(dst[at + |src|..])
    ensures dst[at..at + |src|] == XorAll(src, key)
  {
    hide Xor;
    var i := 0;
    while i < |src|
      invariant 0 <= i <= |src|
      invariant dst[..at] == old(dst[..at]) && dst[at + |src|..] == old(dst[at + |src|..])
      invariant forall k :: 0 <= k < i ==> dst[at + k] == Xor(src[k], key[k])
    {
      dst[at + i] := Xor(src[i], key[i]);
      i := i + 1;
    }
  }

  /** The in-place decoder of the field at offset `at`, with its index loops. */
  method StunAddrDecode(ca: Addr, buf: array<byte>, at: nat, len: nat, xorEd: bool, mc: nat, tid: seq<byte>)
    returns (r: int, res: Addr)
    requires |tid| == 12 && at + FieldRead(len) <= buf.Length
    ensures (r, res) == Decode(ca, buf[at..], len, xorEd, mc, tid)
  {
    hide Put16, Put32, Xor;
    res := ca;
    if len < 8 {
      return -1, res;
    }
    ghost var f := buf[at..];
    assert f[0] == buf[at] && f[1] == buf[at + 1];
    if buf[at] != 0 || (buf[at + 1] != 1 && buf[at + 1] != 2) {
      return -1, res;
    }
    res := res.(family := if buf[at + 1] == 1 then AF_INET else AF_INET6);
    if len != (if res.family == AF_INET then 8 else 20) {
      return -1, res;
    }
    var high, magic := Put16(mc / 0x1_0000), Put32(mc);
    assert f[2..4] == buf[at + 2..at + 4];
    var port := LoadMasked(buf, at + 2, xorEd, high);
    if res.family == AF_INET {
      assert f[4..8] == buf[at + 4..at + 8];
      var v4 := LoadMasked(buf, at + 4, xorEd, magic);
      res := res.(port := port, v4 := v4);
    } else {
      assert f[4..20] == buf[at + 4..at + 20];
      var v6 := LoadMasked(buf, at + 4, xorEd, magic + tid);
      res := res.(port := port, v6 := v6);
    }
    return 0, res;
  }

  /** Copies octets out of the buffer, then XORs them one by one if asked to. */
  method LoadMasked(buf: array<byte>, at: nat, xorEd: bool, key: seq<byte>) returns (v: seq<byte>)
    requires at + |key| <= buf.Length
    ensures v == Masked(xorEd, buf[at..at + |key|], key)
  {
    hide Xor;
    v := buf[at..at + |key|];
    if xorEd {
      var src := v;
      var dst := new byte[|key|];
      XorLoop(dst, 0, src, key);
      v := dst[..];
      assert v == dst[0..|key|];
    }
  }

  /** Decoding an encoded IPv4 or IPv6 address gives an equal address, XORed or plain. */
  lemma EncodeDecode(a: Addr, ca: Addr, xorEd: bool, mc: nat, tid: seq<byte>, tail: seq<byte>)
    requires |tid| == 12 && IsInet(a)
    ensures var code := Encode(a, xorEd, mc, tid);
      && code.Some?
      && var d := Decode(ca, code.value + tail, |code.value|, xorEd, mc, tid);
        d.0 == 0 && AddrEq(d.1, a)
  {
    hide Masked, Put16, Put32;
    var code := Encode(a, xorEd, mc, tid).value;
    var f := code + tail;
    MaskedCancels(xorEd, a.port, Put16(mc / 0x1_0000));
    assert f[2..4] == Masked(xorEd, a.port, Put16(mc / 0x1_0000));
    if a.family == AF_INET {
      MaskedCancels(xorEd, a.v4, Put32(mc));
      assert f[4..8] == Masked(xorEd, a.v4, Put32(mc));
    } else {
      MaskedCancels(xorEd, a.v6, Put32(mc) + tid);
      assert f[4..20] == Masked(xorEd, a.v6, Put32(mc) + tid);
    }
  }

  /* ---------- Address attributes ---------- */

  predicate XorType(t: nat) {
    t == STUN_ATTRIBUTE_XOR_MAPPED_ADDRESS || t == STUN_ATTRIBUTE_XOR_PEER_ADDRESS
    || t == STUN_ATTRIBUTE_XOR_RELAYED_ADDRESS
  }

  /** stun_attr_is_addr. */
  predicate AddrType(t: nat) {
    || XorType(t)
    || t == STUN_ATTRIBUTE_MAPPED_ADDRESS || t == STUN_ATTRIBUTE_ALTERNATE_SERVER
    || t == OLD_STUN_ATTRIBUTE_RESPONSE_ADDRESS || t == OLD_STUN_ATTRIBUTE_SOURCE_ADDRESS
    || t == OLD_STUN_ATTRIBUTE_CHANGED_ADDRESS || t == OLD_STUN_ATTRIBUTE_REFLECTED_FROM
    || t == STUN_ATTRIBUTE_RESPONSE_ORIGIN || t == STUN_ATTRIBUTE_OTHER_ADDRESS
  }

  /** The value that stun_attr_add_addr_str adds for `a`. */
  function AddrValue(pub: seq<Addr>, priv: seq<Addr>, s: seq<byte>, t: nat, a: Addr): Option<seq<byte>>
    requires |pub| == |priv| && |s| >= STUN_HEADER_LENGTH
  {
    Encode(Translate(priv, pub, a), XorType(t), STUN_MAGIC_COOKIE, TransactionId(s))
  }

  /** The address types, by number; three of them are XORed. */
  lemma AddrTypes(t: nat)
    ensures XorType(t) <==> t == 0x0012 || t == 0x0016 || t == 0x0020
    ensures AddrType(t) <==>
      || t == 0x0001 || t == 0x0002 || t == 0x0004 || t == 0x0005 || t == 0x000B
      || t == 0x0012 || t == 0x0016 || t == 0x0020 || t == 0x8023 || t == 0x802B || t == 0x802C
  {
  }

  /** The value of an address attribute: zero, the family, then port and address, XORed with the
      magic cookie and the transaction id exactly for the types 0x0012, 0x0016 and 0x0020. An
      address of another family has none. */
  lemma AddrValueExactly(pub: seq<Addr>, priv: seq<Addr>, s: seq<byte>, t: nat, a: Addr)
    requires |pub| == |priv| && |s| >= STUN_HEADER_LENGTH
    ensures var p, v := Translate(priv, pub, a), AddrValue(pub, priv, s, t, a);
      var xorEd := t == 0x0012 || t == 0x0016 || t == 0x0020;
      && (p.family == 2 || p.family == 0 ==>
        v == Some([0, 1] + Masked(xorEd, p.port, [0x21, 0x12]) + Masked(xorEd, p.v4, [0x21, 0x12, 0xA4, 0x42])))
      && (p.family == 10 ==>
        v == Some([0, 2] + Masked(xorEd, p.port, [0x21, 0x12])
                  + Masked(xorEd, p.v6, [0x21, 0x12, 0xA4, 0x42] + s[8..20])))
      && (p.family != 0 && p.family != 2 && p.family != 10 ==> v == None)
  {
    hide Translate, Masked;
    CookieOctets();
  }

  lemma CookieOctets()
    ensures Put32(0x2112A442) == [0x21, 0x12, 0xA4, 0x42] && Put16(0x2112A442 / 0x1_0000) == [0x21, 0x12]
  {
  }

  /** stun_attr_add_addr_str: return value and message. */
  function AddAddr(pub: seq<Addr>, priv: seq<Addr>, s: seq<byte>, t: nat, a: Addr): (r: (int, seq<byte>))
    requires |pub| == |priv| && |s| >= STUN_HEADER_LENGTH
    ensures |r.1| >= |s|
  {
    var v := AddrValue(pub, priv, s, t, a);
    if v.Some? && HasRoom(s, v.value) then (0, Appended(s, t, v.value, [])) else (-1, s)
  }

  /** The same on a buffer, whatever its header declares. */
  function AddrAdded(pub: seq<Addr>, priv: seq<Addr>, b: State, t: nat, a: Addr): (int, State)
    requires |pub| == |priv| && Usable(b)
  {
    var v := AddrValue(pub, priv, b.mem, t, a);
    if v.Some? then StrAdded(b, t, v.value) else (-1, b)
  }

  /** On a consistent message this is the abstract add. */
  lemma AddrAddedIsAdd(pub: seq<Addr>, priv: seq<Addr>, b: State, t: nat, a: Addr)
    requires |pub| == |priv| && Usable(b) && Consistent(b.mem[..b.len])
    ensures var (r, b1) := AddrAdded(pub, priv, b, t, a);
      (r, b1.mem[..b1.len]) == AddAddr(pub, priv, b.mem[..b.len], t, a)
  {
    hide RoundUp4, Put16, Get16, StrAdded, Appended, Encode, Translate, XorType;
    var s := b.mem[..b.len];
    SliceOfSlice(b.mem, 0, b.len, 8, STUN_HEADER_LENGTH);
    var v := AddrValue(pub, priv, s, t, a);
    if v.Some? {
      StrAddedIsAppended(b, t, v.value);
      assert RoundUp4(|v.value|) == |v.value| by {
        RoundUpFours(v.value);
      }
      if HasRoom(s, v.value) {
        assert b.mem[b.len + 4 + |v.value|..b.len + 4 + |v.value|] == [];
      }
    }
  }

  lemma RoundUpFours(v: seq<byte>)
    requires |v| == 8 || |v| == 20
    ensures RoundUp4(|v|) == |v|
  {
  }

  /** In-place form: map, encode into a local field, add. */
  method AddAddrStr(b: StunBuffer, map_: AddrMap, t: nat, ca: Addr) returns (r: int)
    requires b.Valid() && STUN_HEADER_LENGTH <= b.len && t < 0x1_0000 && map_.Valid()
    modifies b, b.buf
    ensures b.Valid()
    ensures (r, b.Value()) == AddrAdded(map_.publicAddrs, map_.privateAddrs, old(b.Value()), t, ca)
  {
    hide Put16, Get16, Encode, Translate, StrAdded, XorType;
    ghost var m := b.buf[..];
    var tid := b.buf[8..STUN_HEADER_LENGTH];
    assert tid == TransactionId(m);
    var publicAddr := map_.FromPrivateToPublic(ca);
    var cfield := new byte[64];
    var code, clen := StunAddrEncode(publicAddr, cfield, XorType(t), STUN_MAGIC_COOKIE, tid);
    assert b.buf[..] == m;
    if code < 0 {
      return -1;
    }
    var v := cfield[..clen];
    assert v[..clen] == v;
    r := b.AddStr(t, Some(v), clen);
    if r < 0 {
      return -1;
    }
    return 0;
  }

  /** The octets that the decoder looks at lie inside the memory. */
  predicate FieldInside(m: seq<byte>, off: nat)
    requires off + 4 <= |m|
  {
    off + 4 + FieldRead(AttrLen(m, off)) <= |m|
  }

  /** stun_attr_get_addr_str for the attribute at `off` of a message at the front of the memory
      `m`. `garbage` is what the local address held before decoding. */
  function GetAddr(pub: seq<Addr>, priv: seq<Addr>, m: seq<byte>, off: nat, default: Option<Addr>, garbage: Addr): Option<Addr>
    requires |pub| == |priv| && STUN_HEADER_LENGTH <= off && off + 4 <= |m| && FieldInside(m, off)
  {
    var n := AttrLen(m, off);
    if n < 1 then None
    else
      var d := Decode(garbage, m[off + 4..], n, XorType(AttrType(m, off)), STUN_MAGIC_COOKIE, TransactionId(m));
      if d.0 < 0 then None
      else
        Some(OrDefault(default, Translate(pub, priv, d.1)))
  }

  /** What a field decodes to. Only 8 octets of family 1 and 20 of family 2 do; the types 0x0012,
      0x0016 and 0x0020 are XORed back; and an unspecified address gives way to the default,
      with the port that came. */
  lemma GetAddrExactly(pub: seq<Addr>, priv: seq<Addr>, m: seq<byte>, off: nat, default: Option<Addr>, garbage: Addr)
    requires |pub| == |priv| && STUN_HEADER_LENGTH <= off && off + 4 <= |m| && FieldInside(m, off)
    ensures var t, n := Get16(m, off), Get16(m, off + 2);
      var xorEd := t == 0x0012 || t == 0x0016 || t == 0x0020;
      var r := GetAddr(pub, priv, m, off, default, garbage);
      && (n == 8 && m[off + 4] == 0 && m[off + 5] == 1 ==>
        r == Some(OrDefault(default, Translate(pub, priv, garbage.(family := 2,
          port := Masked(xorEd, m[off + 6..off + 8], [0x21, 0x12]),
          v4 := Masked(xorEd, m[off + 8..off + 12], [0x21, 0x12, 0xA4, 0x42]))))))
      && (n == 20 && m[off + 4] == 0 && m[off + 5] == 2 ==>
        r == Some(OrDefault(default, Translate(pub, priv, garbage.(family := 10,
          port := Masked(xorEd, m[off + 6..off + 8], [0x21, 0x12]),
          v6 := Masked(xorEd, m[off + 8..off + 24], [0x21, 0x12, 0xA4, 0x42] + m[8..20]))))))
      && (r.Some? ==> (n == 8 || n == 20) && m[off + 4] == 0 && m[off + 5] == if n == 8 then 1 else 2)
  {
    hide Translate, Masked, Get16;
    CookieOctets();
    var f, n := m[off + 4..], AttrLen(m, off);
    if n == 8 || n == 20 {
      assert f[0] == m[off + 4] && f[1] == m[off + 5];
      SliceOfSlice(m, off + 4, |m|, 2, 4);
      SliceOfSlice(m, off + 4, |m|, 4, if n == 8 then 8 else 20);
      assert m[off + 4..|m|] == f;
    }
  }

  function OrDefault(default: Option<Addr>, a: Addr): Addr {
    if default.Some? && AnyNoPort(a) then SetPort(default.value, GetPort(a)) else a
  }

  /** Unspecified are the zero addresses and those of another family. */
  lemma DefaultExactly(default: Addr, a: Addr)
    ensures OrDefault(None, a) == a
    ensures AnyNoPort(a) <==>
      (a.family == 2 ==> a.v4 == [0, 0, 0, 0])
      && (a.family == 10 ==> a.v6 == [0, 0, 0, 0, 0, 0, 0, 0, 0, 0, 0, 0, 0, 0, 0, 0])
    ensures !AnyNoPort(a) ==> OrDefault(Some(default), a) == a
    ensures AnyNoPort(a) && IsInet(a) && IsInet(default) ==> OrDefault(Some(default), a) == default.(port := a.port)
  {
    if IsInet(a) && IsInet(default) {
      PortRoundTrip(default, a);
    }
  }

  /** The attribute at `off` is an address of type `t`. */
  predicate IsAddr(m: seq<byte>, off: nat, t: nat)
    requires off + 4 <= |m|
  {
    AddrType(AttrType(m, off)) && AttrType(m, off) == t
  }

  /** Every field that the search reads, up to the first that decodes, is inside the memory. */
  predicate FieldsInside(m: seq<byte>, off: nat, t: nat)
    requires Readable(m) && AttrPosition(m, off)
    decreases DeclaredLen(m) - off
  {
    HeaderInside(m, off);
    && (IsAddr(m, off, t) ==> FieldInside(m, off))
    && (!(IsAddr(m, off, t) && GetAddr([], [], m, off, None, ZERO_ADDR).Some?) ==>
      var next := NextAttr(m, off);
      next.Some? ==> FieldsInside(m, next.value, t))
  }

  /** Whether an address decodes does not depend on the tables or on what was there before. */
  lemma SameOutcome(pub: seq<Addr>, priv: seq<Addr>, m: seq<byte>, off: nat, default: Option<Addr>, garbage: Addr)
    requires |pub| == |priv| && STUN_HEADER_LENGTH <= off && off + 4 <= |m| && FieldInside(m, off)
    ensures GetAddr(pub, priv, m, off, default, garbage).Some? <==> GetAddr([], [], m, off, None, ZERO_ADDR).Some?
  {
    hide Masked, Put16, Put32, Get16, Translate;
  }

  /** stun_attr_get_first_addr_str from offset `off` on. */
  function FirstAddrFrom(pub: seq<Addr>, priv: seq<Addr>, m: seq<byte>, off: nat, t: nat, default: Option<Addr>, garbage: Addr): Option<Addr>
    requires |pub| == |priv| && Readable(m) && AttrPosition(m, off) && FieldsInside(m, off, t)
    decreases DeclaredLen(m) - off
  {
    HeaderInside(m, off);
    var here := if IsAddr(m, off, t) then GetAddr(pub, priv, m, off, default, garbage) else None;
    if here.Some? then here
    else
      var next := NextAttr(m, off);
      if next.Some? then
        assert FieldsInside(m, next.value, t) by {
          if IsAddr(m, off, t) {
            SameOutcome(pub, priv, m, off, default, garbage);
          }
        }
        FirstAddrFrom(pub, priv, m, next.value, t, default, garbage)
      else None
  }

  /** Only the address types are searched for. */
  lemma {:induction false} FirstAddrOtherType(pub: seq<Addr>, priv: seq<Addr>, m: seq<byte>, off: nat, t: nat, default: Option<Addr>, garbage: Addr)
    requires |pub| == |priv| && Readable(m) && AttrPosition(m, off)
    requires t !in {0x0001, 0x0002, 0x0004, 0x0005, 0x000B, 0x0012, 0x0016, 0x0020, 0x8023, 0x802B, 0x802C}
    ensures FieldsInside(m, off, t) && FirstAddrFrom(pub, priv, m, off, t, default, garbage) == None
    decreases DeclaredLen(m) - off
  {
    hide GetAddr, Get16, NextAttr, FieldInside;
    HeaderInside(m, off);
    if NextAttr(m, off).Some? {
      FirstAddrOtherType(pub, priv, m, NextAttr(m, off).value, t, default, garbage);
    }
  }

  /** The search finds nothing when no attribute of the type decodes. */
  lemma {:induction false} FirstAddrNone(pub: seq<Addr>, priv: seq<Addr>, m: seq<byte>, off: nat, t: nat, default: Option<Addr>, garbage: Addr)
    requires |pub| == |priv| && Readable(m) && AttrPosition(m, off)
    requires forall p :: p in WalkFrom(m, off) ==> p >= STUN_HEADER_LENGTH && p + 4 <= |m|
    requires forall p :: p in WalkFrom(m, off) && IsAddr(m, p, t) ==>
      FieldInside(m, p) && GetAddr(pub, priv, m, p, default, garbage) == None
    ensures FieldsInside(m, off, t)
    ensures FirstAddrFrom(pub, priv, m, off, t, default, garbage) == None
    decreases DeclaredLen(m) - off
  {
    hide GetAddr, IsAddr, Get16, NextAttr, FieldInside;
    HeaderInside(m, off);
    assert off in WalkFrom(m, off);
    if IsAddr(m, off, t) {
      SameOutcome(pub, priv, m, off, default, garbage);
    }
    if NextAttr(m, off).Some? {
      var rest := WalkFrom(m, NextAttr(m, off).value);
      assert WalkFrom(m, off) == [off] + rest;
      assert forall p :: p in rest ==> p in WalkFrom(m, off);
      FirstAddrNone(pub, priv, m, NextAttr(m, off).value, t, default, garbage);
    }
  }

  /** The search returns what the first attribute of the type that decodes holds, skipping those
      that do not. */
  lemma {:induction false} FirstAddrIsFirst(pub: seq<Addr>, priv: seq<Addr>, m: seq<byte>, off: nat, t: nat, default: Option<Addr>, garbage: Addr, i: nat)
    requires |pub| == |priv| && Readable(m) && AttrPosition(m, off) && i < |WalkFrom(m, off)|
    requires forall j :: 0 <= j <= i ==> WalkFrom(m, off)[j] >= STUN_HEADER_LENGTH && WalkFrom(m, off)[j] + 4 <= |m|
    requires forall j :: 0 <= j <= i && IsAddr(m, WalkFrom(m, off)[j], t) ==> FieldInside(m, WalkFrom(m, off)[j])
    requires forall j :: 0 <= j < i && IsAddr(m, WalkFrom(m, off)[j], t) ==>
      GetAddr(pub, priv, m, WalkFrom(m, off)[j], default, garbage) == None
    requires IsAddr(m, WalkFrom(m, off)[i], t) && GetAddr(pub, priv, m, WalkFrom(m, off)[i], default, garbage).Some?
    ensures FieldsInside(m, off, t)
    ensures FirstAddrFrom(pub, priv, m, off, t, default, garbage) == GetAddr(pub, priv, m, WalkFrom(m, off)[i], default, garbage)
    decreases i
  {
    hide GetAddr, IsAddr, Get16, NextAttr, FieldInside;
    HeaderInside(m, off);
    var w := WalkFrom(m, off);
    assert w[0] == off;
    if i == 0 {
      SameOutcome(pub, priv, m, off, default, garbage);
    } else {
      var next := NextAttr(m, off).value;
      assert w == [off] + WalkFrom(m, next);
      assert forall j :: 0 <= j < |WalkFrom(m, next)| ==> WalkFrom(m, next)[j] == w[j + 1];
      FirstAddrIsFirst(pub, priv, m, next, t, default, garbage, i - 1);
    }
  }

  /** What the search over the first `len` octets of the memory reads is there. */
  predicate AddrsInside(m: seq<byte>, len: nat, t: nat) {
    Walkable(m, len) && (len >= STUN_HEADER_LENGTH && FirstAttr(m).Some? ==> FieldsInside(m, STUN_HEADER_LENGTH, t))
  }

  function FirstAddr(pub: seq<Addr>, priv: seq<Addr>, m: seq<byte>, len: nat, t: nat, default: Option<Addr>, garbage: Addr): Option<Addr>
    requires |pub| == |priv| && AddrsInside(m, len, t)
  {
    if len >= STUN_HEADER_LENGTH && FirstAttr(m).Some? then
      FirstAddrFrom(pub, priv, m, STUN_HEADER_LENGTH, t, default, garbage)
    else None
  }

  /** In-place form: decode, translate, and fall back to the default. */
  method GetAddrStr(b: StunBuffer, map_: AddrMap, off: nat, default: Option<Addr>, garbage: Addr) returns (r: int, ca: Addr)
    requires b.Valid() && map_.Valid()
    requires STUN_HEADER_LENGTH <= off && off + 4 <= b.buf.Length && FieldInside(b.buf[..], off)
    ensures r == 0 || r == -1
    ensures GetAddr(map_.publicAddrs, map_.privateAddrs, b.buf[..], off, default, garbage)
         == if r == 0 then Some(ca) else None
  {
    hide Get16, Decode, Translate, XorType;
    ca := ZERO_ADDR;
    var tid := b.buf[8..STUN_HEADER_LENGTH];
    assert tid == TransactionId(b.buf[..]);
    var t, n := AttrType(b.buf[..], off), AttrLen(b.buf[..], off);
    if n < 1 {
      return -1, ca;
    }
    assert b.buf[off + 4..] == b.buf[..][off + 4..];
    var code, publicAddr := StunAddrDecode(garbage, b.buf, off + 4, n, XorType(t), STUN_MAGIC_COOKIE, tid);
    if code < 0 {
      return -1, ca;
    }
    ca := map_.FromPublicToPrivate(publicAddr);
    if default.Some? && AnyNoPort(ca) {
      var port := GetPort(ca);
      ca := SetPort(default.value, port);
    }
    return 0, ca;
  }

  method GetFirstAddrStr(b: StunBuffer, map_: AddrMap, t: nat, default: Option<Addr>, garbage: Addr) returns (r: int, ca: Addr)
    requires b.Valid() && map_.Valid() && AddrsInside(b.buf[..], b.len, t)
    ensures r == 0 || r == -1
    ensures FirstAddr(map_.publicAddrs, map_.privateAddrs, b.buf[..], b.len, t, default, garbage)
         == if r == 0 then Some(ca) else None
  {
    hide GetAddr, AddrType, Get16, Translate;
    ca := ZERO_ADDR;
    if b.len < STUN_HEADER_LENGTH {
      return -1, ca;
    }
    ghost var m := b.buf[..];
    ghost var pub, priv := map_.publicAddrs, map_.privateAddrs;
    var attr := FirstAttr(b.buf[..]);
    while attr.Some?
      invariant attr.Some? ==> AttrPosition(m, attr.value) && FieldsInside(m, attr.value, t)
      invariant attr.Some? ==>
        FirstAddr(pub, priv, m, b.len, t, default, garbage) == FirstAddrFrom(pub, priv, m, attr.value, t, default, garbage)
      invariant attr.None? ==> FirstAddr(pub, priv, m, b.len, t, default, garbage) == None
      decreases if attr.Some? then DeclaredLen(m) - attr.value else -1
    {
      HeaderInside(m, attr.value);
      if IsAddr(b.buf[..], attr.value, t) {
        r, ca := GetAddrStr(b, map_, attr.value, default, garbage);
        SameOutcome(pub, priv, m, attr.value, default, garbage);
        if r == 0 {
          return;
        }
      }
      attr := NextAttr(b.buf[..], attr.value);
    }
    return -1, ca;
  }

  /* ---------- Round trip through a message ---------- */

  /** When the first attribute of the type decodes, its address is the answer, and nothing
      behind it is read. */
  lemma {:induction false} FirstAddrFound(pub: seq<Addr>, priv: seq<Addr>, m: seq<byte>, off: nat, at: nat, t: nat, default: Option<Addr>, garbage: Addr)
    requires |pub| == |priv| && Readable(m) && AttrPosition(m, off) && AddrType(t)
    requires FindFrom(m, off, t) == Some(at) && FieldInside(m, at)
    requires GetAddr(pub, priv, m, at, default, garbage).Some?
    ensures FieldsInside(m, off, t)
    ensures FirstAddrFrom(pub, priv, m, off, t, default, garbage) == GetAddr(pub, priv, m, at, default, garbage)
    decreases DeclaredLen(m) - off
  {
    hide GetAddr, AddrType, Get16;
    HeaderInside(m, off);
    if AttrType(m, off) == t {
      SameOutcome(pub, priv, m, at, default, garbage);
    } else {
      FirstAddrFound(pub, priv, m, NextAttr(m, off).value, at, t, default, garbage);
    }
  }

  /** The attribute just behind `s`, as written by AddAddrStr and read back from any memory
      that an extension of the message lies in. */
  lemma GetAddrBack(pub: seq<Addr>, priv: seq<Addr>, s: seq<byte>, t: nat, a: Addr, m: seq<byte>, len: nat, garbage: Addr)
    requires |pub| == |priv| && IsInet(a) && MapsBack(pub, priv, a)
    requires |s| >= STUN_HEADER_LENGTH && AddrValue(pub, priv, s, t, a).Some?
    requires len <= |m| && Extends(s, m[..len])
    requires StoredAt(m[..len], |s|, Attr(t, AddrValue(pub, priv, s, t, a).value))
    ensures |s| + 4 <= |m| && FieldInside(m, |s|)
    ensures var r := GetAddr(pub, priv, m, |s|, None, garbage);
      r.Some? && AddrEq(r.value, a)
  {
    hide Encode, Decode, Masked, XorType, Get16, Translate, MapsBack, AddrEq;
    var off := |s|;
    var v := AddrValue(pub, priv, s, t, a).value;
    var p := Translate(priv, pub, a);
    MapRoundTrip(pub, priv, a);
    MappedIsInet(pub, priv, a);
    SameTid(s, m, len);
    SamePrefix16(m, len, off);
    SamePrefix16(m, len, off + 2);
    var field := m[off + 4..];
    assert field[..|v|] == m[..len][off + 4..off + 4 + |v|] == v;
    assert field == v + field[|v|..];
    EncodeDecode(p, garbage, XorType(t), STUN_MAGIC_COOKIE, TransactionId(s), field[|v|..]);
    assert AttrType(m, off) == t && AttrLen(m, off) == |v|;
    var d := Decode(garbage, field, |v|, XorType(t), STUN_MAGIC_COOKIE, TransactionId(m));
    assert d.0 == 0 && AddrEq(d.1, p);
    EqualTranslate(pub, priv, d.1, p, a);
    assert GetAddr(pub, priv, m, off, None, garbage) == Some(Translate(pub, priv, d.1));
  }

  lemma SameTid(s: seq<byte>, m: seq<byte>, len: nat)
    requires len <= |m| && Extends(s, m[..len])
    ensures TransactionId(m) == TransactionId(s)
  {
    var r := m[..len];
    SliceOfSlice(r, 4, |s|, 4, 16);
    SliceOfSlice(s, 4, |s|, 4, 16);
    assert s[4..] == s[4..|s|];
    SliceOfSlice(m, 0, len, 8, STUN_HEADER_LENGTH);
    assert m[0..len] == r;
  }

  lemma MappedIsInet(pub: seq<Addr>, priv: seq<Addr>, a: Addr)
    requires |pub| == |priv| && IsInet(a) && MapsBack(pub, priv, a)
    ensures IsInet(Translate(priv, pub, a))
  {
  }

  /** Equal addresses translate to equal addresses. */
  lemma EqualTranslate(pub: seq<Addr>, priv: seq<Addr>, d: Addr, p: Addr, a: Addr)
    requires |pub| == |priv| && AddrEq(d, p) && AddrEq(Translate(pub, priv, p), a)
    ensures AddrEq(Translate(pub, priv, d), a)
  {
    FirstEqualSame(pub, d, p);
  }

  /** A whole message: an IPv4 or IPv6 address added under a type that no earlier attribute
      has comes back equal, plain or XORed, through the mapping table, whatever attributes
      are added behind it and whatever memory the message lies in. */
  lemma AddrRoundTrip(pub: seq<Addr>, priv: seq<Addr>, s: seq<byte>, attrs: seq<Attr>, t: nat, a: Addr,
                      calls: seq<Call>, m: seq<byte>, garbage: Addr)
    requires |pub| == |priv| && IsInet(a) && MapsBack(pub, priv, a)
    requires IsMessage(s, attrs) && AddrType(t) && forall i :: 0 <= i < |attrs| ==> attrs[i].typ != t
    requires forall i :: 0 <= i < |calls| ==> ValidCall(calls[i])
    requires AddAddr(pub, priv, s, t, a).0 == 0 && AddAll(AddAddr(pub, priv, s, t, a).1, calls) <= m
    ensures var r := AddAll(AddAddr(pub, priv, s, t, a).1, calls);
      && AddrsInside(m, |r|, t)
      && var found := FirstAddr(pub, priv, m, |r|, t, None, garbage);
        found.Some? && AddrEq(found.value, a)
  {
    hide Encode, Translate, GetAddr, AddAll, Accepted, Lists, Appended, HasRoom, Get16, Find, MapsBack;
    MappedIsInet(pub, priv, a);
    EncodeInet(pub, priv, s, t, a);
    var v := AddrValue(pub, priv, s, t, a).value;
    var q := Appended(s, t, v, []);
    AppendedParts(s, t, v, []);
    AppendedIsMessage(s, attrs, t, v, []);
    AddAllIsMessage(q, attrs + [Attr(t, v)], calls);
    var r := AddAll(q, calls);
    ExtendsTransitive(s, q, r);
    var all := attrs + [Attr(t, v)] + Accepted(q, calls);
    assert all == attrs + ([Attr(t, v)] + Accepted(q, calls));
    OffsetBehind(s, attrs, [Attr(t, v)] + Accepted(q, calls));
    assert FirstOfType(all, |attrs|, t);
    FindListed(r, all, |attrs|, t);
    assert m[..|r|] == r;
    MessageReadable(r, all);
    FindPrefix(r, m, t);
    GetAddrBack(pub, priv, s, t, a, m, |r|, garbage);
    FirstAddrFoundFirst(pub, priv, m, |r|, |s|, t, garbage);
  }

  lemma FirstAddrFoundFirst(pub: seq<Addr>, priv: seq<Addr>, m: seq<byte>, len: nat, at: nat, t: nat, garbage: Addr)
    requires |pub| == |priv| && Walkable(m, len) && AddrType(t) && FindIn(m, len, t) == Some(at)
    requires FieldInside(m, at) && GetAddr(pub, priv, m, at, None, garbage).Some?
    ensures AddrsInside(m, len, t)
    ensures FirstAddr(pub, priv, m, len, t, None, garbage) == GetAddr(pub, priv, m, at, None, garbage)
  {
    hide GetAddr, AddrType, Get16, FindFrom, FirstAddrFrom, FieldsInside;
    FirstAddrFound(pub, priv, m, STUN_HEADER_LENGTH, at, t, None, garbage);
  }

  /** An IPv4 or IPv6 address is refused only for want of room. */
  lemma AddrAdds(pub: seq<Addr>, priv: seq<Addr>, s: seq<byte>, t: nat, a: Addr)
    requires |pub| == |priv| && IsInet(a) && MapsBack(pub, priv, a) && |s| >= STUN_HEADER_LENGTH
    ensures AddAddr(pub, priv, s, t, a).0 == 0 <==>
      |s| + 4 + (if Translate(priv, pub, a).family == AF_INET then 8 else 20) < MAX_STUN_MESSAGE_SIZE
  {
    hide Translate, MapsBack, Masked, Appended, Put16, Put32;
    MappedIsInet(pub, priv, a);
    EncodeInet(pub, priv, s, t, a);
  }

  lemma EncodeInet(pub: seq<Addr>, priv: seq<Addr>, s: seq<byte>, t: nat, a: Addr)
    requires |pub| == |priv| && |s| >= STUN_HEADER_LENGTH && IsInet(Translate(priv, pub, a))
    ensures AddrValue(pub, priv, s, t, a).Some?
    ensures IsPadding([], AddrValue(pub, priv, s, t, a).value)
  {
    hide Translate, Masked;
  }
}
