/** STUN messages as octet sequences: the header, the attribute walk of the parser, and the
    attribute list that a well-formed message stands for. */
module StunWire {
  import opened Options
  import opened Octets
  import opened StunDefs

  /** An attribute as its sender means it, before padding. */
  datatype Attr = Attr(typ: nat, value: seq<byte>)

  function RoundUp4(n: nat): (r: nat)
    ensures n <= r < n + 4 && r % 4 == 0
  {
    if n % 4 == 0 then n else n + 4 - n % 4
  }

  /* ---------- What the parser reads ---------- */

  /** stun_get_command_message_len_str: -1 when there is no room for a header. */
  function DeclaredLen(s: seq<byte>): int {
    if |s| < STUN_HEADER_LENGTH then -1 else Get16(s, 2) + STUN_HEADER_LENGTH
  }

  /** The declared message, with its last attribute padded, lies inside the memory. */
  predicate Readable(s: seq<byte>) {
    |s| < STUN_HEADER_LENGTH || RoundUp4(Get16(s, 2) + STUN_HEADER_LENGTH) <= |s|
  }

  /** Where an attribute header may start. */
  predicate AttrPosition(s: seq<byte>, off: nat) {
    STUN_HEADER_LENGTH <= off && off % 4 == 0 && off < DeclaredLen(s)
  }

  /** In a readable memory every attribute header that the walk can reach lies inside. */
  lemma HeaderInside(s: seq<byte>, off: nat)
    requires Readable(s) && AttrPosition(s, off)
    ensures off + 4 <= |s|
  {
  }

  function AttrType(s: seq<byte>, off: nat): nat
    requires off + 4 <= |s|
  {
    Get16(s, off)
  }

  function AttrLen(s: seq<byte>, off: nat): nat
    requires off + 4 <= |s|
  {
    Get16(s, off + 2)
  }

  /** stun_attr_get_first_str. */
  function FirstAttr(s: seq<byte>): Option<nat> {
    if DeclaredLen(s) > STUN_HEADER_LENGTH then Some(STUN_HEADER_LENGTH) else None
  }

  /** stun_attr_get_next_str after the attribute at `off`. */
  function NextAttr(s: seq<byte>, off: nat): (r: Option<nat>)
    requires off + 4 <= |s|
    ensures r.Some? && off % 4 == 0 ==> off + 4 <= r.value && r.value % 4 == 0 && r.value < DeclaredLen(s)
  {
    hide RoundUp4, AttrLen;
    var attrEnd := off + 4 + RoundUp4(AttrLen(s, off));
    assert off % 4 == 0 ==> attrEnd % 4 == 0;
    if attrEnd < DeclaredLen(s) then Some(attrEnd) else None
  }

  /** The offsets that the walk visits from `off` on. */
  function WalkFrom(s: seq<byte>, off: nat): seq<nat>
    requires Readable(s) && AttrPosition(s, off)
    decreases DeclaredLen(s) - off
  {
    HeaderInside(s, off);
    var next := NextAttr(s, off);
    [off] + if next.Some? then WalkFrom(s, next.value) else []
  }

  function Walk(s: seq<byte>): seq<nat>
    requires Readable(s)
  {
    var first := FirstAttr(s);
    if first.Some? then WalkFrom(s, first.value) else []
  }

  /** The first visited offset whose attribute has type `t`. */
  function FindFrom(s: seq<byte>, off: nat, t: nat): (r: Option<nat>)
    requires Readable(s) && AttrPosition(s, off)
    ensures r.Some? ==> AttrPosition(s, r.value) && r.value + 4 <= |s| && AttrType(s, r.value) == t
    decreases DeclaredLen(s) - off
  {
    HeaderInside(s, off);
    if AttrType(s, off) == t then Some(off)
    else
      var next := NextAttr(s, off);
      if next.Some? then FindFrom(s, next.value, t) else None
  }

  /** stun_attr_get_first_by_type_str. */
  function Find(s: seq<byte>, t: nat): (r: Option<nat>)
    requires Readable(s)
    ensures r.Some? ==> AttrPosition(s, r.value) && r.value + 4 <= |s| && AttrType(s, r.value) == t
  {
    var first := FirstAttr(s);
    if first.Some? then FindFrom(s, first.value, t) else None
  }

  /** stun_tid_from_message_str. */
  function TransactionId(s: seq<byte>): (tid: seq<byte>)
    requires |s| >= STUN_HEADER_LENGTH
    ensures |tid| == 12
  {
    s[8..STUN_HEADER_LENGTH]
  }

  /** stun_is_command_message_str. */
  predicate IsCommandMessage(s: seq<byte>) {
    && |s| >= STUN_HEADER_LENGTH
    && !ValidChannel(Get16(s, 0))
    && TopBitsClear(s[0])
    && Get32(s, 4) == STUN_MAGIC_COOKIE
    && Get16(s, 2) % 4 == 0
    && Get16(s, 2) + STUN_HEADER_LENGTH == |s|
  }

  /** In the memory behind any header the walk stays on 4-octet boundaries, moves forward by
      at least four octets, keeps each attribute header in front of the padded end, and so
      comes to an end. */
  lemma {:induction false} WalkStaysInside(m: seq<byte>, off: nat)
    requires Readable(m) && AttrPosition(m, off)
    ensures forall i :: 0 <= i < |WalkFrom(m, off)| ==>
      AttrPosition(m, WalkFrom(m, off)[i]) && WalkFrom(m, off)[i] + 4 <= RoundUp4(DeclaredLen(m)) <= |m|
    ensures forall i :: 0 < i < |WalkFrom(m, off)| ==> WalkFrom(m, off)[i - 1] + 4 <= WalkFrom(m, off)[i]
    ensures |WalkFrom(m, off)| * 4 <= RoundUp4(DeclaredLen(m)) - off
    decreases DeclaredLen(m) - off
  {
    hide Get16, NextAttr, RoundUp4;
    HeaderInside(m, off);
    BehindHeader(m, off);
    var next := NextAttr(m, off);
    if next.Some? {
      WalkStaysInside(m, next.value);
      var rest := WalkFrom(m, next.value);
      hide WalkFrom, AttrPosition, Readable;
      assert WalkFrom(m, off) == [off] + rest && rest[0] == next.value by {
        WalkUnrolls(m, off);
      }
      InFront(m, off, rest);
    }
  }

  lemma BehindHeader(m: seq<byte>, off: nat)
    requires Readable(m) && AttrPosition(m, off)
    ensures off + 4 <= RoundUp4(DeclaredLen(m)) <= |m|
  {
    hide Get16;
  }

  lemma WalkUnrolls(m: seq<byte>, off: nat)
    requires Readable(m) && AttrPosition(m, off)
    ensures off + 4 <= |m|
    ensures var next := NextAttr(m, off);
      if next.None? then WalkFrom(m, off) == [off]
      else
        && AttrPosition(m, next.value)
        && WalkFrom(m, off) == [off] + WalkFrom(m, next.value) && WalkFrom(m, next.value)[0] == next.value
  {
    hide Get16, NextAttr;
    HeaderInside(m, off);
  }

  /** One more offset in front of a walk. */
  lemma InFront(m: seq<byte>, off: nat, rest: seq<nat>)
    requires AttrPosition(m, off) && off + 4 <= RoundUp4(DeclaredLen(m)) <= |m|
    requires rest != [] && off + 4 <= rest[0]
    requires forall i :: 0 <= i < |rest| ==> AttrPosition(m, rest[i]) && rest[i] + 4 <= RoundUp4(DeclaredLen(m)) <= |m|
    requires forall i :: 0 < i < |rest| ==> rest[i - 1] + 4 <= rest[i]
    ensures var w := [off] + rest;
      && (forall i :: 0 <= i < |w| ==> AttrPosition(m, w[i]) && w[i] + 4 <= RoundUp4(DeclaredLen(m)) <= |m|)
      && (forall i :: 0 < i < |w| ==> w[i - 1] + 4 <= w[i])
  {
    hide RoundUp4, Get16;
  }

  lemma NextExactly(m: seq<byte>, off: nat)
    requires off + 4 <= |m| && off % 4 == 0
    ensures var next, n := NextAttr(m, off), Get16(m, off + 2);
      if off + 4 + RoundUp4(n) >= DeclaredLen(m) then next == None
      else next.Some? && off + 4 + n <= next.value < off + 8 + n && next.value % 4 == 0
  {
  }

  /** The walk leaves nothing out: it starts where it is told, each further offset is the
      multiple of four that ends the attribute before, and the last attribute reaches the
      declared end. */
  lemma {:induction false} WalkCovers(m: seq<byte>, off: nat)
    requires Readable(m) && AttrPosition(m, off)
    ensures WalkFrom(m, off) != [] && WalkFrom(m, off)[0] == off
    ensures forall i :: 0 <= i < |WalkFrom(m, off)| ==> WalkFrom(m, off)[i] + 4 <= |m|
    ensures forall i :: 0 < i < |WalkFrom(m, off)| ==>
      var p, q := WalkFrom(m, off)[i - 1], WalkFrom(m, off)[i];
      p + 4 + Get16(m, p + 2) <= q < p + 8 + Get16(m, p + 2) && q % 4 == 0
    ensures var p := WalkFrom(m, off)[|WalkFrom(m, off)| - 1];
      p + 4 + RoundUp4(Get16(m, p + 2)) >= DeclaredLen(m)
    decreases DeclaredLen(m) - off
  {
    hide Get16, NextAttr, RoundUp4, Readable, AttrPosition, WalkFrom;
    WalkUnrolls(m, off);
    var next := NextAttr(m, off);
    Aligned(m, off);
    NextExactly(m, off);
    if next.Some? {
      WalkCovers(m, next.value);
      var rest := WalkFrom(m, next.value);
      forall i | 0 < i < |WalkFrom(m, off)|
        ensures var p, q := WalkFrom(m, off)[i - 1], WalkFrom(m, off)[i];
          p + 4 + Get16(m, p + 2) <= q < p + 8 + Get16(m, p + 2) && q % 4 == 0
      {
        if i > 1 {
          assert WalkFrom(m, off)[i - 1] == rest[i - 2] && WalkFrom(m, off)[i] == rest[i - 1];
        }
      }
    }
  }

  lemma Aligned(m: seq<byte>, off: nat)
    requires AttrPosition(m, off)
    ensures off % 4 == 0 && off < DeclaredLen(m)
  {
  }

  /** What a command message is, octet by octet: two zero bits in front, the magic cookie, and a
      length that is a multiple of four and fits. */
  lemma CommandExactly(s: seq<byte>)
    ensures IsCommandMessage(s) <==>
      && |s| >= 20 && |s| % 4 == 0
      && s[0] < 64
      && s[4] == 0x21 && s[5] == 0x12 && s[6] == 0xA4 && s[7] == 0x42
      && |s| == s[2] as nat * 256 + s[3] as nat + 20
  {
    if |s| >= 20 {
      TopBitsClearExactly(s[0]);
    }
  }

  /** A command message is its own padded end. */
  lemma CommandReadable(s: seq<byte>)
    requires IsCommandMessage(s)
    ensures Readable(s) && RoundUp4(DeclaredLen(s)) == |s|
  {
    hide Get16, Get32;
  }

  /** The codec's own buffer holds whatever the walk can reach up to this header length. */
  lemma BufferReadable(m: seq<byte>)
    requires |m| == MAX_STUN_MESSAGE_SIZE
    ensures Readable(m) <==> Get16(m, 2) <= 65484
  {
    hide Get16;
  }

  /** The memory `m` holds whatever the walk over its first `len` octets can reach; the walk
      ends where the header says, which may be before or behind `len`. */
  predicate Walkable(m: seq<byte>, len: nat) {
    len <= |m| && (len >= STUN_HEADER_LENGTH ==> Readable(m))
  }

  /** stun_attr_get_first_by_type_str on the first `len` octets of the memory `m`. */
  function FindIn(m: seq<byte>, len: nat, t: nat): (r: Option<nat>)
    requires Walkable(m, len)
    ensures r.Some? ==>
      len >= STUN_HEADER_LENGTH && AttrPosition(m, r.value) && r.value + 4 <= |m| && AttrType(m, r.value) == t
  {
    if len < STUN_HEADER_LENGTH then None else Find(m, t)
  }

  lemma PrefixSame(s: seq<byte>, m: seq<byte>, off: nat)
    requires s <= m && Readable(s) && AttrPosition(s, off)
    ensures Readable(m) && AttrPosition(m, off) && off + 4 <= |s|
    ensures AttrType(m, off) == AttrType(s, off) && NextAttr(m, off) == NextAttr(s, off)
    ensures NextAttr(s, off).Some? ==> AttrPosition(s, NextAttr(s, off).value)
    ensures NextAttr(s, off).Some? ==> off < NextAttr(s, off).value < DeclaredLen(s)
  {
    hide RoundUp4;
  }

  lemma {:induction false} FindFromPrefix(s: seq<byte>, m: seq<byte>, off: nat, t: nat)
    requires s <= m && Readable(s) && AttrPosition(s, off)
    ensures Readable(m) && AttrPosition(m, off) && FindFrom(m, off, t) == FindFrom(s, off, t)
    decreases DeclaredLen(s) - off
  {
    hide RoundUp4, NextAttr, Readable, AttrPosition, DeclaredLen, Get16;
    PrefixSame(s, m, off);
    HeaderInside(s, off);
    var next := NextAttr(s, off);
    if next.Some? {
      FindFromPrefix(s, m, next.value, t);
    }
  }

  /** A search that ends inside a message does not look at the memory behind it. */
  lemma FindPrefix(s: seq<byte>, m: seq<byte>, t: nat)
    requires s <= m && |s| >= STUN_HEADER_LENGTH && Readable(s)
    ensures Walkable(m, |s|) && FindIn(m, |s|, t) == Find(s, t)
  {
    if FirstAttr(s).Some? {
      FindFromPrefix(s, m, STUN_HEADER_LENGTH, t);
    }
  }

  /* ---------- What a well-formed message stands for ---------- */

  /** The octets from `off` to the end are exactly `attrs`, each padded to four octets with
      any octets at all. */
  ghost predicate Lists(s: seq<byte>, off: nat, attrs: seq<Attr>)
    decreases |attrs|
  {
    if attrs == [] then off == |s|
    else
      var n := |attrs[0].value|;
      && off + 4 + RoundUp4(n) <= |s|
      && AttrType(s, off) == attrs[0].typ
      && AttrLen(s, off) == n
      && s[off + 4..off + 4 + n] == attrs[0].value
      && Lists(s, off + 4 + RoundUp4(n), attrs[1..])
  }

  /** The header length is the total minus the header, a multiple of 4. */
  predicate Consistent(s: seq<byte>) {
    && STUN_HEADER_LENGTH <= |s| < MAX_STUN_MESSAGE_SIZE
    && |s| % 4 == 0
    && Get16(s, 2) == |s| - STUN_HEADER_LENGTH
  }

  /** A consistent message carrying `attrs`. */
  ghost predicate IsMessage(s: seq<byte>, attrs: seq<Attr>) {
    Consistent(s) && Lists(s, STUN_HEADER_LENGTH, attrs)
  }

  /** Offset of attribute `i` of a list that starts at `off`. */
  function OffsetFrom(off: nat, attrs: seq<Attr>, i: nat): (r: nat)
    requires i <= |attrs|
    ensures r >= off + 4 * i
    ensures off % 4 == 0 ==> r % 4 == 0
    decreases i
  {
    hide RoundUp4;
    if i == 0 then off
    else
      var next := off + 4 + RoundUp4(|attrs[0].value|);
      assert off % 4 == 0 ==> next % 4 == 0;
      OffsetFrom(next, attrs[1..], i - 1)
  }

  function Offset(attrs: seq<Attr>, i: nat): nat
    requires i <= |attrs|
  {
    OffsetFrom(STUN_HEADER_LENGTH, attrs, i)
  }

  /** Every listed attribute is where its offset says, and the offsets end at the total. */
  lemma {:induction false} ListedAt(s: seq<byte>, off: nat, attrs: seq<Attr>, i: nat)
    requires Lists(s, off, attrs) && i <= |attrs|
    ensures OffsetFrom(off, attrs, i) <= |s|
    ensures i == |attrs| ==> OffsetFrom(off, attrs, i) == |s|
    ensures Lists(s, OffsetFrom(off, attrs, i), attrs[i..])
    decreases |attrs|
  {
    hide RoundUp4;
    if i == 0 {
      assert attrs[0..] == attrs;
      if attrs != [] {
        ListedAt(s, off + 4 + RoundUp4(|attrs[0].value|), attrs[1..], 0);
      }
    } else {
      ListedAt(s, off + 4 + RoundUp4(|attrs[0].value|), attrs[1..], i - 1);
      assert attrs[1..][i - 1..] == attrs[i..];
    }
  }

  lemma ListsInside(s: seq<byte>, off: nat, attrs: seq<Attr>)
    requires Lists(s, off, attrs)
    ensures off + 4 * |attrs| <= |s|
    decreases |attrs|
  {
    if attrs != [] {
      ListsInside(s, off + 4 + RoundUp4(|attrs[0].value|), attrs[1..]);
    }
  }

  lemma MessageReadable(s: seq<byte>, attrs: seq<Attr>)
    requires IsMessage(s, attrs)
    ensures |s| >= STUN_HEADER_LENGTH && Readable(s)
  {
    hide Get16;
  }

  lemma ConsistentReadable(s: seq<byte>, off: nat)
    requires Consistent(s) && STUN_HEADER_LENGTH <= off < |s| && off % 4 == 0
    ensures Readable(s) && AttrPosition(s, off) && DeclaredLen(s) == |s|
  {
    hide Get16;
  }

  lemma ListedNext(s: seq<byte>, off: nat, attrs: seq<Attr>)
    requires Consistent(s)
    requires STUN_HEADER_LENGTH <= off && off % 4 == 0
    requires Lists(s, off, attrs) && attrs != []
    ensures Readable(s) && AttrPosition(s, off) && off + 4 <= |s|
    ensures AttrType(s, off) == attrs[0].typ
    ensures NextAttr(s, off) ==
      if attrs[1..] == [] then None else Some(off + 4 + RoundUp4(|attrs[0].value|))
    ensures Lists(s, off + 4 + RoundUp4(|attrs[0].value|), attrs[1..])
  {
    hide RoundUp4, Get16, Consistent, Readable, AttrPosition, DeclaredLen;
    ListsInside(s, off + 4 + RoundUp4(|attrs[0].value|), attrs[1..]);
    ConsistentReadable(s, off);
  }

  /** The walk over a message visits its attributes in order: refinement of the parser. */
  lemma {:induction false} WalkListed(s: seq<byte>, off: nat, attrs: seq<Attr>)
    requires Consistent(s)
    requires STUN_HEADER_LENGTH <= off && off % 4 == 0
    requires Lists(s, off, attrs) && attrs != []
    ensures AttrPosition(s, off) && |WalkFrom(s, off)| == |attrs|
    ensures forall i :: 0 <= i < |attrs| ==> WalkFrom(s, off)[i] == OffsetFrom(off, attrs, i)
    decreases |attrs|
  {
    hide RoundUp4, NextAttr, Lists, Get16, AttrPosition, Readable, Consistent;
    var next := off + 4 + RoundUp4(|attrs[0].value|);
    ListedNext(s, off, attrs);
    if attrs[1..] != [] {
      WalkListed(s, next, attrs[1..]);
      forall i | 0 <= i < |attrs|
        ensures WalkFrom(s, off)[i] == OffsetFrom(off, attrs, i)
      {
        if i > 0 {
          assert WalkFrom(s, off)[i] == WalkFrom(s, next)[i - 1];
        }
      }
    }
  }

  /** Attribute `a` is stored at `off`. */
  predicate StoredAt(s: seq<byte>, off: nat, a: Attr) {
    && off + 4 + |a.value| <= |s|
    && AttrType(s, off) == a.typ
    && AttrLen(s, off) == |a.value|
    && s[off + 4..off + 4 + |a.value|] == a.value
  }

  lemma ListedStored(s: seq<byte>, attrs: seq<Attr>, i: nat)
    requires IsMessage(s, attrs) && i < |attrs|
    ensures StoredAt(s, Offset(attrs, i), attrs[i])
  {
    hide RoundUp4;
    ListedAt(s, STUN_HEADER_LENGTH, attrs, i);
  }

  /** Parsing what was built: the walk yields exactly the attribute triples, in order,
      whatever the padding octets hold. */
  lemma WalkRefinesList(s: seq<byte>, attrs: seq<Attr>)
    requires IsMessage(s, attrs)
    ensures |Walk(s)| == |attrs|
    ensures forall i :: 0 <= i < |attrs| ==> StoredAt(s, Walk(s)[i], attrs[i])
  {
    hide StoredAt, OffsetFrom;
    if attrs != [] {
      WalkListed(s, STUN_HEADER_LENGTH, attrs);
      forall i | 0 <= i < |attrs|
        ensures StoredAt(s, Walk(s)[i], attrs[i])
      {
        ListedStored(s, attrs, i);
      }
    }
  }

  /** The padded message determines its attribute list. */
  lemma {:induction false} ListUnique(s: seq<byte>, off: nat, a: seq<Attr>, b: seq<Attr>)
    requires Lists(s, off, a) && Lists(s, off, b)
    ensures a == b
    decreases |a|
  {
    if a == [] {
      assert b == [];
    } else {
      assert b != [] && a[0] == b[0];
      ListUnique(s, off + 4 + RoundUp4(|a[0].value|), a[1..], b[1..]);
      assert a == [a[0]] + a[1..] && b == [b[0]] + b[1..];
    }
  }

  /* ---------- Searching by type ---------- */

  ghost predicate FirstOfType(attrs: seq<Attr>, i: nat, t: nat) {
    i < |attrs| && attrs[i].typ == t && forall j :: 0 <= j < i ==> attrs[j].typ != t
  }

  /** Where an attribute lies depends only on the attributes before it. */
  lemma {:induction false} OffsetPrefix(off: nat, a: seq<Attr>, b: seq<Attr>, i: nat)
    requires i <= |a|
    ensures OffsetFrom(off, a + b, i) == OffsetFrom(off, a, i)
    decreases i
  {
    hide RoundUp4;
    if i > 0 {
      assert (a + b)[0] == a[0] && (a + b)[1..] == a[1..] + b;
      OffsetPrefix(off + 4 + RoundUp4(|a[0].value|), a[1..], b, i - 1);
    }
  }

  /** The first attribute behind a message's own list lies right behind the message. */
  lemma OffsetBehind(s: seq<byte>, attrs: seq<Attr>, more: seq<Attr>)
    requires IsMessage(s, attrs)
    ensures Offset(attrs + more, |attrs|) == |s|
  {
    hide RoundUp4;
    ListedAt(s, STUN_HEADER_LENGTH, attrs, |attrs|);
    OffsetPrefix(STUN_HEADER_LENGTH, attrs, more, |attrs|);
  }

  lemma {:induction false} FindFromListed(s: seq<byte>, off: nat, attrs: seq<Attr>, i: nat, t: nat)
    requires Consistent(s)
    requires STUN_HEADER_LENGTH <= off && off % 4 == 0
    requires Lists(s, off, attrs) && FirstOfType(attrs, i, t)
    ensures AttrPosition(s, off) && FindFrom(s, off, t) == Some(OffsetFrom(off, attrs, i))
    decreases |attrs|
  {
    hide RoundUp4;
    var next := off + 4 + RoundUp4(|attrs[0].value|);
    ListedNext(s, off, attrs);
    if i > 0 {
      assert attrs[0].typ != t;
      forall j | 0 <= j < i - 1
        ensures attrs[1..][j].typ != t
      {
        assert attrs[1..][j] == attrs[j + 1];
      }
      FindFromListed(s, next, attrs[1..], i - 1, t);
    }
  }

  /** The search returns the first attribute of the type. */
  lemma FindListed(s: seq<byte>, attrs: seq<Attr>, i: nat, t: nat)
    requires IsMessage(s, attrs) && FirstOfType(attrs, i, t)
    ensures Find(s, t) == Some(Offset(attrs, i))
    ensures StoredAt(s, Offset(attrs, i), attrs[i])
  {
    FindFromListed(s, STUN_HEADER_LENGTH, attrs, i, t);
    ListedStored(s, attrs, i);
  }

  lemma {:induction false} FindFromAbsent(s: seq<byte>, off: nat, attrs: seq<Attr>, t: nat)
    requires Consistent(s)
    requires STUN_HEADER_LENGTH <= off && off % 4 == 0
    requires Lists(s, off, attrs) && attrs != []
    requires forall j :: 0 <= j < |attrs| ==> attrs[j].typ != t
    ensures AttrPosition(s, off) && FindFrom(s, off, t) == None
    decreases |attrs|
  {
    hide RoundUp4;
    var next := off + 4 + RoundUp4(|attrs[0].value|);
    ListedNext(s, off, attrs);
    if attrs[1..] != [] {
      FindFromAbsent(s, next, attrs[1..], t);
    }
  }

  lemma FindAbsent(s: seq<byte>, attrs: seq<Attr>, t: nat)
    requires IsMessage(s, attrs)
    requires forall j :: 0 <= j < |attrs| ==> attrs[j].typ != t
    ensures Find(s, t) == None
  {
    if attrs != [] {
      FindFromAbsent(s, STUN_HEADER_LENGTH, attrs, t);
    }
  }

  /* ---------- Building ---------- */

  /** The header of a fresh message: type, zero length, cookie, transaction id. */
  function Header(msgType: bv16, cookie: nat, tid: seq<byte>): (s: seq<byte>)
    requires |tid| == 12
    ensures |s| == STUN_HEADER_LENGTH
  {
    TypeOctets(msgType & 0x3FFF) + Put16(0) + Put32(cookie) + tid
  }

  /** The octets of a header behind its type. */
  lemma HeaderOctets(msgType: bv16, tid: seq<byte>)
    requires |tid| == 12
    ensures Header(msgType, 0x2112A442, tid)[2..8] == [0, 0, 0x21, 0x12, 0xA4, 0x42]
    ensures Header(msgType, 0x2112A442, tid)[8..] == tid
    ensures Header(msgType, 0x2112A442, tid)[..2] == TypeOctets(msgType & 0x3FFF)
  {
    hide TypeOctets;
    assert Put32(0x2112A442) == [0x21, 0x12, 0xA4, 0x42];
    assert Put16(0) == [0, 0];
  }

  lemma FreshMessage(msgType: bv16, cookie: nat, tid: seq<byte>)
    requires |tid| == 12
    ensures IsMessage(Header(msgType, cookie, tid), [])
  {
    var s := Header(msgType, cookie, tid);
    assert s[2] == 0 && s[3] == 0;
  }

  /** The octets that stun_attr_add_str leaves in place as padding. */
  predicate IsPadding(pad: seq<byte>, v: seq<byte>) { |pad| == RoundUp4(|v|) - |v| }

  predicate HasRoom(s: seq<byte>, v: seq<byte>) { |s| + 4 + RoundUp4(|v|) < MAX_STUN_MESSAGE_SIZE }

  function WithLen(s: seq<byte>, total: nat): (r: seq<byte>)
    requires |s| >= STUN_HEADER_LENGTH && total >= STUN_HEADER_LENGTH
    ensures |r| == |s|
  {
    s[..2] + Put16(total - STUN_HEADER_LENGTH) + s[4..]
  }

  /** The message after one more attribute. */
  function Appended(s: seq<byte>, t: nat, v: seq<byte>, pad: seq<byte>): (r: seq<byte>)
    requires |s| >= STUN_HEADER_LENGTH && IsPadding(pad, v)
    ensures |r| == |s| + 4 + RoundUp4(|v|)
  {
    WithLen(s, |s| + 4 + RoundUp4(|v|)) + Put16(t) + Put16(|v|) + v + pad
  }

  /** `r` keeps every octet of `s` except the header length: type, cookie, transaction id and
      all attributes are where they were. */
  ghost predicate Extends(s: seq<byte>, r: seq<byte>) {
    && STUN_HEADER_LENGTH <= |s| <= |r|
    && r[..2] == s[..2] && r[4..|s|] == s[4..]
  }

  lemma ExtendsItself(s: seq<byte>)
    requires |s| >= STUN_HEADER_LENGTH
    ensures Extends(s, s)
  {
  }

  lemma ExtendsTransitive(s: seq<byte>, r: seq<byte>, q: seq<byte>)
    requires Extends(s, r) && Extends(r, q)
    ensures Extends(s, q)
  {
    assert q[4..|s|] == q[4..|r|][..|s| - 4] == r[4..|s|];
  }

  /** Once the header length is set back, an extended message starts with the old one. */
  lemma ExtendsPrefix(s: seq<byte>, r: seq<byte>, total: nat)
    requires Extends(s, r) && total >= STUN_HEADER_LENGTH
    ensures WithLen(r, total)[..|s|] == WithLen(s, total)
  {
    var p := Put16(total - STUN_HEADER_LENGTH);
    assert r[4..][..|s| - 4] == r[4..|s|];
    assert WithLen(r, total)[..|s|] == r[..2] + p + r[4..][..|s| - 4];
  }

  lemma AppendedParts(s: seq<byte>, t: nat, v: seq<byte>, pad: seq<byte>)
    requires |s| >= STUN_HEADER_LENGTH && IsPadding(pad, v)
    requires t < 0x1_0000 && HasRoom(s, v)
    ensures var r := Appended(s, t, v, pad);
      && Extends(s, r)
      && Get16(r, 2) == |r| - STUN_HEADER_LENGTH
      && StoredAt(r, |s|, Attr(t, v))
  {
    hide RoundUp4, Put16, Get16;
    var r := Appended(s, t, v, pad);
    Stored16(r, 2, |r| - STUN_HEADER_LENGTH);
    Stored16(r, |s|, t);
    Stored16(r, |s| + 2, |v|);
  }

  lemma Stored16(r: seq<byte>, i: nat, n: nat)
    requires i + 2 <= |r| && n < 0x1_0000 && r[i..i + 2] == Put16(n)
    ensures Get16(r, i) == n
  {
    Put16Get16(n);
    assert r[i] == r[i..i + 2][0] && r[i + 1] == r[i..i + 2][1];
  }

  lemma {:induction false} ListsAppend(s: seq<byte>, r: seq<byte>, off: nat, attrs: seq<Attr>, a: Attr)
    requires Lists(s, off, attrs)
    requires |r| == |s| + 4 + RoundUp4(|a.value|)
    requires off <= |s| && r[off..|s|] == s[off..]
    requires StoredAt(r, |s|, a)
    ensures Lists(r, off, attrs + [a])
    decreases |attrs|
  {
    hide RoundUp4, StoredAt, Get16;
    if attrs == [] {
      ListsOne(r, off, a);
      assert attrs + [a] == [a] && [a][1..] == [];
    } else {
      var n := |attrs[0].value|;
      var next := off + 4 + RoundUp4(n);
      SameFrom(s, r, off, next);
      Same16(s, r, off);
      Same16(s, r, off + 2);
      ListsAppend(s, r, next, attrs[1..], a);
      assert (attrs + [a])[0] == attrs[0] && (attrs + [a])[1..] == attrs[1..] + [a];
      assert r[off + 4..off + 4 + n] == s[off + 4..off + 4 + n];
    }
  }

  lemma ListsOne(r: seq<byte>, off: nat, a: Attr)
    requires off + 4 + RoundUp4(|a.value|) == |r| && StoredAt(r, off, a)
    ensures Lists(r, off, [a])
  {
    hide RoundUp4;
    assert [a][1..] == [];
  }

  lemma Same16(s: seq<byte>, r: seq<byte>, i: nat)
    requires i + 2 <= |s| && i + 2 <= |r| && s[i] == r[i] && s[i + 1] == r[i + 1]
    ensures Get16(s, i) == Get16(r, i)
  {
  }

  lemma SameFrom(s: seq<byte>, r: seq<byte>, off: nat, next: nat)
    requires off <= next <= |s| <= |r| && r[off..|s|] == s[off..]
    ensures r[next..|s|] == s[next..]
    ensures forall k :: off <= k < |s| ==> r[k] == s[k]
  {
    forall k | off <= k < |s| ensures r[k] == s[k] {
      assert r[off..|s|][k - off] == s[off..][k - off];
    }
  }

  /** Adding an attribute with room extends the list by exactly that attribute and keeps the
      header length equal to the total minus 20, a multiple of 4. */
  lemma AppendedIsMessage(s: seq<byte>, attrs: seq<Attr>, t: nat, v: seq<byte>, pad: seq<byte>)
    requires IsMessage(s, attrs) && IsPadding(pad, v) && t < 0x1_0000 && HasRoom(s, v)
    ensures IsMessage(Appended(s, t, v, pad), attrs + [Attr(t, v)])
  {
    hide RoundUp4, Appended, StoredAt, Lists;
    AppendedParts(s, t, v, pad);
    AppendedConsistent(s, t, v, pad);
    ExtendsFrom(s, Appended(s, t, v, pad));
    ListsAppend(s, Appended(s, t, v, pad), STUN_HEADER_LENGTH, attrs, Attr(t, v));
  }

  lemma AppendedConsistent(s: seq<byte>, t: nat, v: seq<byte>, pad: seq<byte>)
    requires Consistent(s) && IsPadding(pad, v) && t < 0x1_0000 && HasRoom(s, v)
    ensures Consistent(Appended(s, t, v, pad))
  {
    hide RoundUp4, Appended, StoredAt, Get16;
    AppendedParts(s, t, v, pad);
    SumOfFours(|s|, RoundUp4(|v|));
  }

  lemma ExtendsFrom(s: seq<byte>, r: seq<byte>)
    requires Extends(s, r)
    ensures r[STUN_HEADER_LENGTH..|s|] == s[STUN_HEADER_LENGTH..]
  {
    assert r[STUN_HEADER_LENGTH..|s|] == r[4..|s|][STUN_HEADER_LENGTH - 4..];
    assert s[STUN_HEADER_LENGTH..] == s[4..][STUN_HEADER_LENGTH - 4..];
  }

  lemma SumOfFours(a: nat, b: nat)
    requires a % 4 == 0 && b % 4 == 0
    ensures (a + 4 + b) % 4 == 0
  {
  }

  /* ---------- Whole building runs ---------- */

  /** One call of stun_attr_add_str: the attribute, and what the buffer held where the
      padding goes. */
  datatype Call = Call(typ: nat, value: seq<byte>, pad: seq<byte>)

  predicate ValidCall(c: Call) { c.typ < 0x1_0000 && IsPadding(c.pad, c.value) }

  function AddStr(s: seq<byte>, c: Call): (r: seq<byte>)
    requires |s| >= STUN_HEADER_LENGTH && ValidCall(c)
    ensures |r| >= |s|
  {
    if HasRoom(s, c.value) then Appended(s, c.typ, c.value, c.pad) else s
  }

  function AddAll(s: seq<byte>, calls: seq<Call>): (r: seq<byte>)
    requires |s| >= STUN_HEADER_LENGTH && forall i :: 0 <= i < |calls| ==> ValidCall(calls[i])
    ensures |r| >= |s|
    decreases |calls|
  {
    if calls == [] then s else AddAll(AddStr(s, calls[0]), calls[1..])
  }

  /** The attributes of the calls that are not refused. */
  function Accepted(s: seq<byte>, calls: seq<Call>): seq<Attr>
    requires |s| >= STUN_HEADER_LENGTH && forall i :: 0 <= i < |calls| ==> ValidCall(calls[i])
    decreases |calls|
  {
    if calls == [] then []
    else
      (if HasRoom(s, calls[0].value) then [Attr(calls[0].typ, calls[0].value)] else [])
      + Accepted(AddStr(s, calls[0]), calls[1..])
  }

  /** Any sequence of adds, refused ones included, leaves a consistent message whose list grew
      by exactly the accepted attributes; type, cookie and transaction id never change. */
  lemma {:induction false} AddAllIsMessage(s: seq<byte>, attrs: seq<Attr>, calls: seq<Call>)
    requires IsMessage(s, attrs) && forall i :: 0 <= i < |calls| ==> ValidCall(calls[i])
    ensures IsMessage(AddAll(s, calls), attrs + Accepted(s, calls))
    ensures Extends(s, AddAll(s, calls))
    decreases |calls|
  {
    hide RoundUp4, Appended, StoredAt, Lists, HasRoom, Extends, Get16;
    if calls == [] {
      assert attrs + [] == attrs;
      ExtendsItself(s);
    } else {
      var c := calls[0];
      var s1 := AddStr(s, c);
      if HasRoom(s, c.value) {
        AppendedParts(s, c.typ, c.value, c.pad);
        AppendedIsMessage(s, attrs, c.typ, c.value, c.pad);
        var attrs1 := attrs + [Attr(c.typ, c.value)];
        AddAllIsMessage(s1, attrs1, calls[1..]);
        ExtendsTransitive(s, s1, AddAll(s, calls));
        var later := Accepted(s1, calls[1..]);
        assert Accepted(s, calls) == [Attr(c.typ, c.value)] + later;
        assert attrs1 + later == attrs + ([Attr(c.typ, c.value)] + later);
      } else {
        assert s1 == s;
        AddAllIsMessage(s, attrs, calls[1..]);
        assert Accepted(s, calls) == Accepted(s1, calls[1..]);
      }
    }
  }
}
