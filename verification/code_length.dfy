/** The variable-length code of miniupnp: seven bits an octet, most significant group first,
    the top bit saying that another octet follows. */
module CodeLength {
  import opened Options

  /* The groups of seven bits with the follow-on bit set, and the last group. */
  function More28(n: bv32): bv8 { (((n >> 28) | 0x80) & 0xFF) as bv8 }
  function More21(n: bv32): bv8 { (((n >> 21) | 0x80) & 0xFF) as bv8 }
  function More14(n: bv32): bv8 { (((n >> 14) | 0x80) & 0xFF) as bv8 }
  function More7(n: bv32): bv8 { (((n >> 7) | 0x80) & 0xFF) as bv8 }
  function Last(n: bv32): bv8 { (n & 0x7F) as bv8 }

  /** The octets that CODELENGTH stores for `n`. */
  function Encode(n: bv32): (s: seq<bv8>)
    ensures 1 <= |s| <= 5
  {
    (if n >= 268435456 then [More28(n)] else [])
    + (if n >= 2097152 then [More21(n)] else [])
    + (if n >= 16384 then [More14(n)] else [])
    + (if n >= 128 then [More7(n)] else [])
    + [Last(n)]
  }

  /** The octets on both sides of each step in length. */
  lemma EncodeValues()
    ensures Encode(0) == [0x00] && Encode(127) == [0x7F]
    ensures Encode(128) == [0x81, 0x00] && Encode(300) == [0x82, 0x2C] && Encode(16383) == [0xFF, 0x7F]
    ensures Encode(16384) == [0x81, 0x80, 0x00] && Encode(2097151) == [0xFF, 0xFF, 0x7F]
    ensures Encode(2097152) == [0x81, 0x80, 0x80, 0x00] && Encode(268435455) == [0xFF, 0xFF, 0xFF, 0x7F]
    ensures Encode(268435456) == [0x81, 0x80, 0x80, 0x80, 0x00]
    ensures Encode(0xFFFF_FFFF) == [0x8F, 0xFF, 0xFF, 0xFF, 0x7F]
  {
  }

  /** `if (needed) *(p++) = c`. */
  method PushIf(needed: bool, buf: array<bv8>, p: nat, c: bv8) returns (p1: nat)
    requires p <= buf.Length && (needed ==> p < buf.Length)
    modifies buf
    ensures p1 == p + if needed then 1 else 0
    ensures buf[..p1] == old(buf[..p]) + if needed then [c] else []
    ensures forall k :: p1 <= k < buf.Length ==> buf[k] == old(buf[k])
  {
    p1 := p;
    if needed {
      buf[p] := c;
      p1 := p + 1;
    }
  }

  /** CODELENGTH(n, p): returns the advanced pointer. */
  method CODELENGTH(n: bv32, buf: array<bv8>, p0: nat) returns (p: nat)
    requires p0 + |Encode(n)| <= buf.Length
    modifies buf
    ensures p == p0 + |Encode(n)|
    ensures buf[..p] == old(buf[..p0]) + Encode(n)
    ensures forall k :: p <= k < buf.Length ==> buf[k] == old(buf[k])
  {
    hide More28, More21, More14, More7, Last;
    ghost var before := buf[..p0];
    p := PushIf(n >= 268435456, buf, p0, More28(n));
    ghost var a := if n >= 268435456 then [More28(n)] else [];
    p := PushIf(n >= 2097152, buf, p, More21(n));
    ghost var b := a + if n >= 2097152 then [More21(n)] else [];
    assert buf[..p] == before + b;
    p := PushIf(n >= 16384, buf, p, More14(n));
    ghost var c := b + if n >= 16384 then [More14(n)] else [];
    assert buf[..p] == before + c;
    p := PushIf(n >= 128, buf, p, More7(n));
    ghost var d := c + if n >= 128 then [More7(n)] else [];
    assert buf[..p] == before + d;
    p := PushIf(true, buf, p, Last(n));
  }

  predicate Follows(c: bv8) { c & 0x80 != 0 }

  function Shifted(n: bv32, c: bv8): bv32 { (n << 7) | (c & 0x7F) as bv32 }

  /** A decoded number and the octets it took. */
  datatype Decoded = Decoded(n: bv32, used: nat)

  /** Decoding `s` with `n` accumulated so far; none when the code does not end in `s`. */
  function DecodeFrom(s: seq<bv8>, n: bv32): (r: Option<Decoded>)
    ensures r.Some? ==> 1 <= r.value.used <= |s|
  {
    if s == [] then None
    else
      var n1 := Shifted(n, s[0]);
      if Follows(s[0]) then
        var r := DecodeFrom(s[1..], n1);
        if r.Some? then Some(Decoded(r.value.n, r.value.used + 1)) else None
      else Some(Decoded(n1, 1))
  }

  function Decode(s: seq<bv8>): (r: Option<Decoded>)
    ensures r.Some? ==> 1 <= r.value.used <= |s|
  {
    DecodeFrom(s, 0)
  }

  /** DECODELENGTH(n, p): the do-while loop; the code must end inside the buffer. */
  method DECODELENGTH(buf: array<bv8>, p0: nat) returns (n: bv32, p: nat)
    requires p0 <= buf.Length && Decode(buf[p0..]).Some?
    ensures p0 < p <= buf.Length
    ensures Decode(buf[p0..]) == Some(Decoded(n, p - p0))
  {
    hide Shifted, Follows;
    n, p := 0, p0;
    var more := true;
    while more
      invariant p0 <= p <= buf.Length
      invariant more ==> DecodeFrom(buf[p..], n).Some?
      invariant more ==>
        var d := DecodeFrom(buf[p..], n).value;
        Decode(buf[p0..]) == Some(Decoded(d.n, d.used + (p - p0)))
      invariant !more ==> Decode(buf[p0..]) == Some(Decoded(n, p - p0)) && p0 < p
      decreases more, buf.Length - p
    {
      assert buf[p..][1..] == buf[p + 1..];
      n := Shifted(n, buf[p]);
      more := Follows(buf[p]);
      p := p + 1;
    }
  }

  /* ---------- Round trips ---------- */

  lemma DecodeStep(c: bv8, s: seq<bv8>, n: bv32)
    ensures DecodeFrom([c] + s, n) ==
      if Follows(c) then
        (var r := DecodeFrom(s, Shifted(n, c));
        if r.Some? then Some(Decoded(r.value.n, r.value.used + 1)) else None)
      else Some(Decoded(Shifted(n, c), 1))
  {
    hide Shifted, Follows;
    assert ([c] + s)[1..] == s;
  }

  lemma FollowOn(n: bv32)
    ensures Follows(More28(n)) && Follows(More21(n)) && Follows(More14(n)) && Follows(More7(n)) && !Follows(Last(n))
  {
  }

  lemma Join28(n: bv32)
    ensures Shifted(0, More28(n)) == n >> 28
  {
  }

  lemma Join21(n: bv32)
    ensures Shifted(n >> 28, More21(n)) == n >> 21
  {
  }

  lemma Join14(n: bv32)
    ensures Shifted(n >> 21, More14(n)) == n >> 14
  {
  }

  lemma Join7(n: bv32)
    ensures Shifted(n >> 14, More7(n)) == n >> 7
  {
  }

  lemma Join0(n: bv32)
    ensures Shifted(n >> 7, Last(n)) == n
  {
  }

  lemma Zero28(n: bv32, s: seq<bv8>)
    requires n < 268435456
    ensures DecodeFrom(s, n >> 28) == DecodeFrom(s, 0)
  {
    hide DecodeFrom;
  }

  lemma Zero21(n: bv32, s: seq<bv8>)
    requires n < 2097152
    ensures DecodeFrom(s, n >> 21) == DecodeFrom(s, 0)
  {
    hide DecodeFrom;
  }

  lemma Zero14(n: bv32, s: seq<bv8>)
    requires n < 16384
    ensures DecodeFrom(s, n >> 14) == DecodeFrom(s, 0)
  {
    hide DecodeFrom;
  }

  lemma Zero7(n: bv32, s: seq<bv8>)
    requires n < 128
    ensures DecodeFrom(s, n >> 7) == DecodeFrom(s, 0)
  {
    hide DecodeFrom;
  }

  lemma Decode1(n: bv32, rest: seq<bv8>)
    ensures DecodeFrom([Last(n)] + rest, n >> 7) == Some(Decoded(n, 1))
  {
    hide Shifted, Follows, Last;
    FollowOn(n);
    Join0(n);
    DecodeStep(Last(n), rest, n >> 7);
  }

  lemma Decode2(n: bv32, rest: seq<bv8>)
    ensures DecodeFrom([More7(n)] + ([Last(n)] + rest), n >> 14) == Some(Decoded(n, 2))
  {
    hide Shifted, Follows, Last, More7;
    FollowOn(n);
    Join7(n);
    Decode1(n, rest);
    DecodeStep(More7(n), [Last(n)] + rest, n >> 14);
  }

  lemma Decode3(n: bv32, rest: seq<bv8>)
    ensures DecodeFrom([More14(n)] + ([More7(n)] + ([Last(n)] + rest)), n >> 21) == Some(Decoded(n, 3))
  {
    hide Shifted, Follows, Last, More7, More14;
    FollowOn(n);
    Join14(n);
    Decode2(n, rest);
    DecodeStep(More14(n), [More7(n)] + ([Last(n)] + rest), n >> 21);
  }

  lemma Decode4(n: bv32, rest: seq<bv8>)
    ensures DecodeFrom([More21(n)] + ([More14(n)] + ([More7(n)] + ([Last(n)] + rest))), n >> 28) == Some(Decoded(n, 4))
  {
    hide Shifted, Follows, Last, More7, More14, More21;
    FollowOn(n);
    Join21(n);
    Decode3(n, rest);
    DecodeStep(More21(n), [More14(n)] + ([More7(n)] + ([Last(n)] + rest)), n >> 28);
  }

  lemma Decode5(n: bv32, rest: seq<bv8>)
    ensures DecodeFrom([More28(n)] + ([More21(n)] + ([More14(n)] + ([More7(n)] + ([Last(n)] + rest)))), 0) == Some(Decoded(n, 5))
  {
    hide Shifted, Follows, Last, More7, More14, More21, More28;
    FollowOn(n);
    Join28(n);
    Decode4(n, rest);
    DecodeStep(More28(n), [More21(n)] + ([More14(n)] + ([More7(n)] + ([Last(n)] + rest))), 0);
  }

  lemma Range5(n: bv32, rest: seq<bv8>)
    requires 268435456 <= n
    ensures Decode(Encode(n) + rest) == Some(Decoded(n, |Encode(n)|))
  {
    hide DecodeFrom, Last, More7, More14, More21, More28;
    var s := [More28(n)] + ([More21(n)] + ([More14(n)] + ([More7(n)] + ([Last(n)] + rest))));
    assert Encode(n) + rest == s;
    Decode5(n, rest);
  }

  lemma Range4(n: bv32, rest: seq<bv8>)
    requires 2097152 <= n < 268435456
    ensures Decode(Encode(n) + rest) == Some(Decoded(n, |Encode(n)|))
  {
    hide DecodeFrom, Last, More7, More14, More21, More28;
    var s := [More21(n)] + ([More14(n)] + ([More7(n)] + ([Last(n)] + rest)));
    assert Encode(n) + rest == s;
    Decode4(n, rest);
    Zero28(n, s);
  }

  lemma Range3(n: bv32, rest: seq<bv8>)
    requires 16384 <= n < 2097152
    ensures Decode(Encode(n) + rest) == Some(Decoded(n, |Encode(n)|))
  {
    hide DecodeFrom, Last, More7, More14, More21, More28;
    var s := [More14(n)] + ([More7(n)] + ([Last(n)] + rest));
    assert Encode(n) + rest == s;
    Decode3(n, rest);
    Zero21(n, s);
  }

  lemma Range2(n: bv32, rest: seq<bv8>)
    requires 128 <= n < 16384
    ensures Decode(Encode(n) + rest) == Some(Decoded(n, |Encode(n)|))
  {
    hide DecodeFrom, Last, More7, More14, More21, More28;
    var s := [More7(n)] + ([Last(n)] + rest);
    assert Encode(n) + rest == s;
    Decode2(n, rest);
    Zero14(n, s);
  }

  lemma Range1(n: bv32, rest: seq<bv8>)
    requires n < 128
    ensures Decode(Encode(n) + rest) == Some(Decoded(n, |Encode(n)|))
  {
    hide DecodeFrom, Last, More7, More14, More21, More28;
    var s := [Last(n)] + rest;
    assert Encode(n) + rest == s;
    Decode1(n, rest);
    Zero7(n, s);
  }

  /** Decoding an encoding gives the number back and stops right behind it. */
  lemma DecodeEncode(n: bv32, rest: seq<bv8>)
    ensures Decode(Encode(n) + rest) == Some(Decoded(n, |Encode(n)|))
  {
    hide Encode, Decode;
    if n >= 268435456 {
      Range5(n, rest);
    } else if n >= 2097152 {
      Range4(n, rest);
    } else if n >= 16384 {
      Range3(n, rest);
    } else if n >= 128 {
      Range2(n, rest);
    } else {
      Range1(n, rest);
    }
  }

  function EncodeAll(ns: seq<bv32>): seq<bv8> {
    if ns == [] then [] else Encode(ns[0]) + EncodeAll(ns[1..])
  }

  /** Decoding `k` numbers in a row, with the octets left over. */
  function DecodeAll(s: seq<bv8>, k: nat): Option<(seq<bv32>, seq<bv8>)> {
    if k == 0 then Some(([], s))
    else
      var d := Decode(s);
      if d.None? then None
      else
        var r := DecodeAll(s[d.value.used..], k - 1);
        if r.None? then None else Some(([d.value.n] + r.value.0, r.value.1))
  }

  /** A stream of encodings, followed by any octets, decodes to the same numbers and leaves
      exactly those octets. */
  lemma {:induction false} StreamRoundTrip(ns: seq<bv32>, rest: seq<bv8>)
    ensures DecodeAll(EncodeAll(ns) + rest, |ns|) == Some((ns, rest))
    decreases |ns|
  {
    hide Encode, Decode;
    if ns == [] {
      assert EncodeAll(ns) + rest == rest;
    } else {
      var tail := EncodeAll(ns[1..]) + rest;
      assert EncodeAll(ns) + rest == Encode(ns[0]) + tail;
      DecodeEncode(ns[0], tail);
      assert (Encode(ns[0]) + tail)[|Encode(ns[0])|..] == tail;
      StreamRoundTrip(ns[1..], rest);
      assert [ns[0]] + ns[1..] == ns;
    }
  }

  /** A canonical code: only the last octet ends it, no leading group is zero, and five groups
      carry no more than 32 bits. */
  predicate Canonical(s: seq<bv8>) {
    && 1 <= |s| <= 5
    && (forall i :: 0 <= i < |s| - 1 ==> Follows(s[i]))
    && !Follows(s[|s| - 1])
    && (|s| > 1 ==> s[0] != 0x80)
    && (|s| == 5 ==> s[0] & 0x7F < 16)
  }

  lemma Leading28(n: bv32)
    requires n >= 268435456
    ensures More28(n) != 0x80 && More28(n) & 0x7F < 16
  {
  }

  lemma Leading21(n: bv32)
    requires 2097152 <= n < 268435456
    ensures More21(n) != 0x80
  {
  }

  lemma Leading14(n: bv32)
    requires 16384 <= n < 2097152
    ensures More14(n) != 0x80
  {
  }

  lemma Leading7(n: bv32)
    requires 128 <= n < 16384
    ensures More7(n) != 0x80
  {
  }

  /** No encoding has a redundant leading group. */
  lemma EncodeCanonical(n: bv32)
    ensures Canonical(Encode(n))
  {
    hide Follows, Last, More7, More14, More21, More28;
    FollowOn(n);
    if n >= 268435456 {
      Leading28(n);
    } else if n >= 2097152 {
      Leading21(n);
    } else if n >= 16384 {
      Leading14(n);
    } else if n >= 128 {
      Leading7(n);
    }
  }

  lemma Back1(c0: bv8)
    requires !Follows(c0)
    ensures var n := Shifted(0, c0);
      && n < 128
      && Last(n) == c0
  {
  }

  lemma Back2(c0: bv8, c1: bv8)
    requires Follows(c0) && !Follows(c1) && c0 != 0x80
    ensures var n := Shifted(Shifted(0, c0), c1);
      && 128 <= n < 16384
      && More7(n) == c0 && Last(n) == c1
  {
  }

  lemma Back3(c0: bv8, c1: bv8, c2: bv8)
    requires Follows(c0) && Follows(c1) && !Follows(c2) && c0 != 0x80
    ensures var n := Shifted(Shifted(Shifted(0, c0), c1), c2);
      && 16384 <= n < 2097152
      && More14(n) == c0 && More7(n) == c1 && Last(n) == c2
  {
  }

  lemma Back4(c0: bv8, c1: bv8, c2: bv8, c3: bv8)
    requires Follows(c0) && Follows(c1) && Follows(c2) && !Follows(c3) && c0 != 0x80
    ensures var n := Shifted(Shifted(Shifted(Shifted(0, c0), c1), c2), c3);
      && 2097152 <= n < 268435456
      && More21(n) == c0 && More14(n) == c1 && More7(n) == c2 && Last(n) == c3
  {
  }

  lemma Back5(c0: bv8, c1: bv8, c2: bv8, c3: bv8, c4: bv8)
    requires Follows(c0) && Follows(c1) && Follows(c2) && Follows(c3) && !Follows(c4) && c0 != 0x80 && c0 & 0x7F < 16
    ensures var n := Shifted(Shifted(Shifted(Shifted(Shifted(0, c0), c1), c2), c3), c4);
      && 268435456 <= n
      && More28(n) == c0 && More21(n) == c1 && More14(n) == c2 && More7(n) == c3 && Last(n) == c4
  {
  }

  lemma DecodeNext(s: seq<bv8>, n: bv32)
    requires s != []
    ensures DecodeFrom(s, n) ==
      if Follows(s[0]) then
        (var r := DecodeFrom(s[1..], Shifted(n, s[0]));
        if r.Some? then Some(Decoded(r.value.n, r.value.used + 1)) else None)
      else Some(Decoded(Shifted(n, s[0]), 1))
  {
  }

  lemma Unroll1(s: seq<bv8>)
    requires |s| == 1 && Canonical(s)
    ensures Decode(s) == Some(Decoded(Shifted(0, s[0]), 1))
  {
    hide Shifted, Follows;
    DecodeNext(s, 0);
  }

  lemma Canonical1(s: seq<bv8>)
    requires |s| == 1 && Canonical(s)
    ensures Decode(s).Some? && Encode(Decode(s).value.n) == s && Decode(s).value.used == |s|
  {
    hide Shifted, Follows, Last, More7, More14, More21, More28, DecodeFrom;
    Unroll1(s);
    Back1(s[0]);
    assert s == [s[0]];
  }

  lemma Unroll2(s: seq<bv8>)
    requires |s| == 2 && Canonical(s)
    ensures Decode(s) == Some(Decoded(Shifted(Shifted(0, s[0]), s[1]), 2))
  {
    hide Shifted, Follows;
    DecodeNext(s, 0);
    var t1 := s[1..];
    assert t1[0] == s[1];
    DecodeNext(t1, Shifted(0, s[0]));
  }

  lemma Canonical2(s: seq<bv8>)
    requires |s| == 2 && Canonical(s)
    ensures Decode(s).Some? && Encode(Decode(s).value.n) == s && Decode(s).value.used == |s|
  {
    hide Shifted, Follows, Last, More7, More14, More21, More28, DecodeFrom;
    Unroll2(s);
    Back2(s[0], s[1]);
    assert s == [s[0], s[1]];
  }

  lemma Unroll3(s: seq<bv8>)
    requires |s| == 3 && Canonical(s)
    ensures Decode(s) == Some(Decoded(Shifted(Shifted(Shifted(0, s[0]), s[1]), s[2]), 3))
  {
    hide Shifted, Follows;
    DecodeNext(s, 0);
    var t1 := s[1..];
    assert t1[0] == s[1];
    DecodeNext(t1, Shifted(0, s[0]));
    var t2 := t1[1..];
    assert t2[0] == s[2];
    DecodeNext(t2, Shifted(Shifted(0, s[0]), s[1]));
  }

  lemma Canonical3(s: seq<bv8>)
    requires |s| == 3 && Canonical(s)
    ensures Decode(s).Some? && Encode(Decode(s).value.n) == s && Decode(s).value.used == |s|
  {
    hide Shifted, Follows, Last, More7, More14, More21, More28, DecodeFrom;
    Unroll3(s);
    Back3(s[0], s[1], s[2]);
    assert s == [s[0], s[1], s[2]];
  }

  lemma Unroll4(s: seq<bv8>)
    requires |s| == 4 && Canonical(s)
    ensures Decode(s) == Some(Decoded(Shifted(Shifted(Shifted(Shifted(0, s[0]), s[1]), s[2]), s[3]), 4))
  {
    hide Shifted, Follows;
    DecodeNext(s, 0);
    var t1 := s[1..];
    assert t1[0] == s[1];
    DecodeNext(t1, Shifted(0, s[0]));
    var t2 := t1[1..];
    assert t2[0] == s[2];
    DecodeNext(t2, Shifted(Shifted(0, s[0]), s[1]));
    var t3 := t2[1..];
    assert t3[0] == s[3];
    DecodeNext(t3, Shifted(Shifted(Shifted(0, s[0]), s[1]), s[2]));
  }

  lemma Canonical4(s: seq<bv8>)
    requires |s| == 4 && Canonical(s)
    ensures Decode(s).Some? && Encode(Decode(s).value.n) == s && Decode(s).value.used == |s|
  {
    hide Shifted, Follows, Last, More7, More14, More21, More28, DecodeFrom;
    Unroll4(s);
    Back4(s[0], s[1], s[2], s[3]);
    assert s == [s[0], s[1], s[2], s[3]];
  }

  lemma Unroll5(s: seq<bv8>)
    requires |s| == 5 && Canonical(s)
    ensures Decode(s) == Some(Decoded(Shifted(Shifted(Shifted(Shifted(Shifted(0, s[0]), s[1]), s[2]), s[3]), s[4]), 5))
  {
    hide Shifted, Follows;
    DecodeNext(s, 0);
    var t1 := s[1..];
    assert t1[0] == s[1];
    DecodeNext(t1, Shifted(0, s[0]));
    var t2 := t1[1..];
    assert t2[0] == s[2];
    DecodeNext(t2, Shifted(Shifted(0, s[0]), s[1]));
    var t3 := t2[1..];
    assert t3[0] == s[3];
    DecodeNext(t3, Shifted(Shifted(Shifted(0, s[0]), s[1]), s[2]));
    var t4 := t3[1..];
    assert t4[0] == s[4];
    DecodeNext(t4, Shifted(Shifted(Shifted(Shifted(0, s[0]), s[1]), s[2]), s[3]));
  }

  lemma Canonical5(s: seq<bv8>)
    requires |s| == 5 && Canonical(s)
    ensures Decode(s).Some? && Encode(Decode(s).value.n) == s && Decode(s).value.used == |s|
  {
    hide Shifted, Follows, Last, More7, More14, More21, More28, DecodeFrom;
    Unroll5(s);
    Back5(s[0], s[1], s[2], s[3], s[4]);
    assert s == [s[0], s[1], s[2], s[3], s[4]];
  }

  /** Encoding and decoding are inverse to each other between 32-bit numbers and canonical
      codes: every canonical code is the encoding of what it decodes to. */
  lemma EncodeDecode(s: seq<bv8>)
    requires Canonical(s)
    ensures Decode(s).Some? && Decode(s).value.used == |s|
    ensures Encode(Decode(s).value.n) == s
  {
    hide Canonical, Encode, Decode;
    CanonicalSize(s);
    match |s|
    case 1 => Canonical1(s);
    case 2 => Canonical2(s);
    case 3 => Canonical3(s);
    case 4 => Canonical4(s);
    case _ => Canonical5(s);
  }

  lemma CanonicalSize(s: seq<bv8>)
    requires Canonical(s)
    ensures 1 <= |s| <= 5
  {
  }
}
