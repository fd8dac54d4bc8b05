/** SASLprep over the code's one-octet table (a restriction of RFC 4013). */
module SaslPrep {
  import opened Octets

  /** Octets that make the preparation fail. */
  predicate Prohibited(c: byte) {
    c == 0x7F || c < 0x1F || 0x80 <= c <= 0x9F
  }

  function Mapped(c: byte): seq<byte> {
    if c == 0xAD then [] else if c == 0xA0 then [0x20] else [c]
  }

  /** The prepared text: every 0xAD removed, every 0xA0 turned into a space. */
  function Prepared(t: seq<byte>): seq<byte> {
    if t == [] then [] else Prepared(t[..|t| - 1]) + Mapped(t[|t| - 1])
  }

  /** The number of octets before the first prohibited one. */
  function CleanPrefix(t: seq<byte>): (k: nat)
    ensures k <= |t| && forall i :: 0 <= i < k ==> !Prohibited(t[i])
    ensures k < |t| ==> Prohibited(t[k])
  {
    if t == [] || Prohibited(t[0]) then 0 else 1 + CleanPrefix(t[1..])
  }

  lemma CleanPrefixIs(t: seq<byte>, k: nat)
    requires k < |t| && Prohibited(t[k]) && forall i :: 0 <= i < k ==> !Prohibited(t[i])
    ensures CleanPrefix(t) == k
  {
  }

  /** The pass has read `strin` octets of the text and written what they prepare to. */
  ghost predicate Scanned(m: seq<byte>, now: seq<byte>, strin: nat, strout: nat)
    requires 0 in m
  {
    var t := CString(m);
    && strout <= strin <= |t| < |m|
    && (forall i :: 0 <= i < strin ==> !Prohibited(t[i]))
    && |Prepared(t[..strin])| == strout
    && now == Prepared(t[..strin]) + m[strout..]
  }

  lemma ScanStart(m: seq<byte>)
    requires 0 in m
    ensures Scanned(m, m, 0, 0)
  {
    TextEnds(m);
    assert CString(m)[..0] == [];
  }

  /** The octet about to be read has not been overwritten. */
  lemma ScanRead(m: seq<byte>, now: seq<byte>, strin: nat, strout: nat)
    requires 0 in m && Scanned(m, now, strin, strout)
    ensures |now| == |m| && strout <= strin < |m|
    ensures now[strin] == 0 <==> strin == |CString(m)|
    ensures now[strin] != 0 ==> now[strin] == CString(m)[strin]
  {
    hide CString, Prepared;
    TextEnds(m);
  }

  lemma ScanSkip(m: seq<byte>, now: seq<byte>, strin: nat, strout: nat)
    requires 0 in m && Scanned(m, now, strin, strout)
    requires strin < |CString(m)| && CString(m)[strin] == 0xAD
    ensures Scanned(m, now, strin + 1, strout)
  {
    var t := CString(m);
    assert t[..strin + 1][..strin] == t[..strin];
  }

  lemma ScanStore(m: seq<byte>, now: seq<byte>, strin: nat, strout: nat, c: byte)
    requires 0 in m && Scanned(m, now, strin, strout)
    requires strin < |CString(m)| && !Prohibited(CString(m)[strin]) && Mapped(CString(m)[strin]) == [c]
    ensures |now| == |m| && strout < |m|
    ensures Scanned(m, now[strout := c], strin + 1, strout + 1)
  {
    var t := CString(m);
    assert t[..strin + 1][..strin] == t[..strin];
    StoreBehind(Prepared(t[..strin]), m, strout, c);
  }

  lemma StoreBehind(out: seq<byte>, m: seq<byte>, k: nat, c: byte)
    requires |out| == k < |m|
    ensures (out + m[k..])[k := c] == out + [c] + m[k + 1..]
  {
  }

  /** How a run over the memory `m` ends: on success the prepared text and its zero, on
      failure what was prepared in front of the first prohibited octet; the rest untouched. */
  ghost predicate Outcome(m: seq<byte>, r: int, after: seq<byte>)
    requires 0 in m
  {
    var t := CString(m);
    var k := CleanPrefix(t);
    var done := Prepared(t[..k]);
    && |done| < |m|
    && r == (if k < |t| then -1 else 0)
    && after == if r == 0 then done + [0] + m[|done| + 1..] else done + m[|done|..]
  }

  lemma Failed(m: seq<byte>, now: seq<byte>, strin: nat, strout: nat)
    requires 0 in m && Scanned(m, now, strin, strout)
    requires strin < |CString(m)| && Prohibited(CString(m)[strin])
    ensures Outcome(m, -1, now)
  {
    hide CString, Prepared, CleanPrefix;
    CleanPrefixIs(CString(m), strin);
  }

  lemma Succeeded(m: seq<byte>, now: seq<byte>, strout: nat)
    requires 0 in m && Scanned(m, now, |CString(m)|, strout)
    ensures |now| == |m| && strout < |m| && Outcome(m, 0, now[strout := 0])
  {
    hide CString, Prepared, CleanPrefix;
    var t := CString(m);
    CleanPrefixAll(t);
    StoreBehind(Prepared(t[..|t|]), m, strout, 0);
  }

  /** `*strout = c; ++strout; ++strin` for the octet just read. */
  method Emit(s: array<byte>, c: byte, strin0: nat, strout0: nat, ghost m: seq<byte>) returns (strin: nat, strout: nat)
    requires 0 in m && Scanned(m, s[..], strin0, strout0)
    requires strin0 < |CString(m)| && !Prohibited(CString(m)[strin0]) && Mapped(CString(m)[strin0]) == [c]
    modifies s
    ensures strin == strin0 + 1 && strin <= |CString(m)| && Scanned(m, s[..], strin, strout)
  {
    hide CString, Prepared, Scanned;
    ghost var now := s[..];
    ScanStore(m, now, strin0, strout0, c);
    s[strout0] := c;
    assert s[..] == now[strout0 := c];
    strin, strout := strin0 + 1, strout0 + 1;
  }

  /** `*strout = 0` at the end of the text. */
  method Finish(s: array<byte>, strout: nat, ghost m: seq<byte>)
    requires 0 in m && Scanned(m, s[..], |CString(m)|, strout)
    modifies s
    ensures Outcome(m, 0, s[..])
  {
    hide CString, Prepared, Scanned, Outcome;
    ghost var now := s[..];
    Succeeded(m, now, strout);
    s[strout] := 0;
    assert s[..] == now[strout := 0];
  }

  /** The two-pointer pass over a zero-terminated string in place. */
  method SASLprep(s: array<byte>) returns (r: int)
    requires 0 in s[..]
    modifies s
    ensures Outcome(old(s[..]), r, s[..])
  {
    hide CString, Prepared, Scanned, Outcome;
    ghost var m := s[..];
    var strin, strout := 0, 0;
    ScanStart(m);
    while true
      invariant strin <= |CString(m)| && Scanned(m, s[..], strin, strout)
      decreases |CString(m)| - strin
    {
      ScanRead(m, s[..], strin, strout);
      var c := s[strin];
      if c == 0 {
        Finish(s, strout, m);
        return 0;
      }
      if c == 0xAD {
        ScanSkip(m, s[..], strin, strout);
        strin := strin + 1;
      } else if c == 0xA0 || c == 0x20 {
        strin, strout := Emit(s, 0x20, strin, strout, m);
      } else if c == 0x7F || c < 0x1F || 0x80 <= c <= 0x9F {
        Failed(m, s[..], strin, strout);
        return -1;
      } else {
        strin, strout := Emit(s, c, strin, strout, m);
      }
    }
  }

  lemma CleanPrefixAll(t: seq<byte>)
    requires forall i :: 0 <= i < |t| ==> !Prohibited(t[i])
    ensures CleanPrefix(t) == |t| && t[..|t|] == t
  {
  }

  lemma TextEnds(m: seq<byte>)
    requires 0 in m
    ensures |CString(m)| < |m| && m[|CString(m)|] == 0
    ensures forall i :: 0 <= i < |CString(m)| ==> m[i] == CString(m)[i] && m[i] != 0
  {
    if m[0] != 0 {
      assert m == [m[0]] + m[1..];
      TextEnds(m[1..]);
    }
  }

  /** What becomes of each octet: 0xAD goes, 0xA0 becomes a space, any other stays. */
  lemma PreparedExactly(t: seq<byte>, c: byte)
    ensures Prepared([]) == []
    ensures Prepared(t + [c]) == Prepared(t) + if c == 0xAD then [] else if c == 0xA0 then [0x20] else [c]
  {
    assert (t + [c])[..|t|] == t;
  }

  /** The run succeeds exactly when the text has no octet below 0x1F, 0x7F, or from 0x80 to 0x9F;
      otherwise it stops at the first of them. */
  lemma OutcomeExactly(m: seq<byte>, r: int, after: seq<byte>)
    requires 0 in m && Outcome(m, r, after)
    ensures r == 0 || r == -1
    ensures var t := CString(m);
      r == 0 <==> forall i :: 0 <= i < |t| ==> 0x1F <= t[i] && t[i] != 0x7F && !(0x80 <= t[i] <= 0x9F)
    ensures r == 0 ==> Prepared(CString(m)) + [0] <= after
  {
    hide CString, Prepared;
    var t := CString(m);
    var k := CleanPrefix(t);
    if k < |t| {
      assert Prohibited(t[k]);
      assert t[k] < 0x1F || t[k] == 0x7F || 0x80 <= t[k] <= 0x9F;
      assert r == -1;
    } else {
      assert t[..k] == t;
    }
  }

  /** The result is shorter by exactly the number of 0xAD octets. */
  lemma {:induction false} PreparedLength(t: seq<byte>)
    ensures |Prepared(t)| == |t| - multiset(t)[0xAD]
  {
    if t != [] {
      var u := t[..|t| - 1];
      PreparedLength(u);
      assert t == u + [t[|t| - 1]];
    }
  }

  /** Prepared text holds no prohibited octet, no soft hyphen and no non-breaking space. */
  lemma {:induction false} PreparedClean(t: seq<byte>)
    requires forall c :: c in t ==> !Prohibited(c) && c != 0
    ensures forall c :: c in Prepared(t) ==> !Prohibited(c) && c != 0 && c != 0xAD && c != 0xA0
  {
    if t != [] {
      var n := |t| - 1;
      assert forall c :: c in t[..n] ==> c in t;
      PreparedClean(t[..n]);
      MappedClean(t[n]);
      assert Prepared(t) == Prepared(t[..n]) + Mapped(t[n]);
    }
  }

  lemma MappedClean(b: byte)
    requires !Prohibited(b) && b != 0
    ensures forall c :: c in Mapped(b) ==> !Prohibited(c) && c != 0 && c != 0xAD && c != 0xA0
  {
  }

  lemma {:induction false} PreparedFixed(t: seq<byte>)
    requires forall i :: 0 <= i < |t| ==> t[i] != 0xAD && t[i] != 0xA0
    ensures Prepared(t) == t
  {
    if t != [] {
      var u := t[..|t| - 1];
      forall i | 0 <= i < |u|
        ensures u[i] != 0xAD && u[i] != 0xA0
      {
        assert u[i] == t[i];
      }
      PreparedFixed(u);
      assert t == u + [t[|t| - 1]];
    }
  }

  /** A second preparation succeeds and changes nothing. */
  lemma PreparedTwice(t: seq<byte>)
    requires CleanPrefix(t) == |t| && 0 !in t
    ensures CleanPrefix(Prepared(t)) == |Prepared(t)|
    ensures Prepared(Prepared(t)) == Prepared(t) && 0 !in Prepared(t)
  {
    var u := Prepared(t);
    PreparedClean(t);
    forall i | 0 <= i < |u|
      ensures !Prohibited(u[i]) && u[i] != 0xAD && u[i] != 0xA0
    {
      assert u[i] in u;
    }
    PreparedFixed(u);
    CleanPrefixAll(u);
  }

  /** Whatever a successful run left behind, a second run over it succeeds and changes no
      octet at all. */
  lemma SecondRunChangesNothing(m: seq<byte>, once: seq<byte>, r: int, twice: seq<byte>)
    requires 0 in m && Outcome(m, 0, once)
    ensures 0 in once
    ensures Outcome(once, r, twice) <==> r == 0 && twice == once
  {
    hide CString, Prepared, CleanPrefix;
    var t := CString(m);
    assert t[..|t|] == t;
    PreparedTwice(t);
    var u := Prepared(t);
    TextOf(once, u);
    assert u[..|u|] == u;
    assert u + [0] + once[|u| + 1..] == once;
  }

  lemma {:induction false} TextOf(m: seq<byte>, u: seq<byte>)
    requires u + [0] <= m && 0 !in u
    ensures 0 in m && CString(m) == u
    decreases |u|
  {
    assert m[|u|] == (u + [0])[|u|] == 0;
    if u != [] {
      assert m[0] == (u + [0])[0] == u[0];
      assert m[1..|u| + 1] == (u + [0])[1..] == u[1..] + [0];
      assert u[1..] + [0] <= m[1..];
      TextOf(m[1..], u[1..]);
      assert u == [u[0]] + u[1..];
    }
  }
}
