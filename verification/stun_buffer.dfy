/** The caller's buffer and length, which the codec updates in place. */
module StunBuffers {
  import opened Options
  import opened Octets
  import opened StunDefs
  import opened StunWire

  /** The memory `m` with `v` stored at `at`. */
  function Put(m: seq<byte>, at: nat, v: seq<byte>): (r: seq<byte>)
    requires at + |v| <= |m|
    ensures |r| == |m|
  {
    m[..at] + v + m[at + |v|..]
  }

  /** Storing two adjacent pieces is storing them as one. */
  lemma PutAdjacent(m: seq<byte>, at: nat, v: seq<byte>, w: seq<byte>)
    requires at + |v| + |w| <= |m|
    ensures Put(Put(m, at, v), at + |v|, w) == Put(m, at, v + w)
  {
  }

  /** Storing inside a message changes the message alike. */
  lemma PutInside(m: seq<byte>, len: nat, at: nat, v: seq<byte>)
    requires at + |v| <= len <= |m|
    ensures Put(m, at, v)[..len] == Put(m[..len], at, v)
  {
    assert m[..len][..at] == m[..at] && m[..len][at + |v|..] == m[at + |v|..len];
  }

  /** The memory after stun_attr_add_str has written an attribute behind a message of `clen`
      declared octets: new header length, attribute header and value; nothing else. */
  function Written(m: seq<byte>, clen: nat, t: nat, v: seq<byte>): (r: seq<byte>)
    requires STUN_HEADER_LENGTH <= clen && clen + 4 + |v| <= |m|
    ensures |r| == |m|
  {
    m[..2] + Put16(RoundUp4(clen + 4 + |v|) - STUN_HEADER_LENGTH) + m[4..clen]
    + Put16(t) + Put16(|v|) + v + m[clen + 4 + |v|..]
  }

  lemma WrittenInOrder(m: seq<byte>, clen: nat, t: nat, v: seq<byte>)
    requires STUN_HEADER_LENGTH <= clen && clen + 4 + |v| <= |m|
    ensures Written(m, clen, t, v)
         == Put(Put(m, 2, Put16(RoundUp4(clen + 4 + |v|) - STUN_HEADER_LENGTH)), clen, Put16(t) + Put16(|v|) + v)
  {
    hide Put16, RoundUp4;
    var h := Put16(RoundUp4(clen + 4 + |v|) - STUN_HEADER_LENGTH);
    var m1 := Put(m, 2, h);
    assert m1[..clen] == m[..2] + h + m[4..clen];
    assert m1[clen + 4 + |v|..] == m[clen + 4 + |v|..];
  }

  lemma RoundUpBehind(clen: nat, n: nat)
    requires clen % 4 == 0
    ensures RoundUp4(clen + 4 + n) == clen + 4 + RoundUp4(n)
  {
  }

  /** On a consistent message, the written memory starts with the extended message. */
  lemma WrittenIsAppended(m: seq<byte>, clen: nat, t: nat, v: seq<byte>)
    requires STUN_HEADER_LENGTH <= clen && clen % 4 == 0
    requires clen + 4 + RoundUp4(|v|) <= |m|
    ensures var total := clen + 4 + RoundUp4(|v|);
      && Written(m, clen, t, v)[..total] == Appended(m[..clen], t, v, m[clen + 4 + |v|..total])
      && Written(m, clen, t, v)[total..] == m[total..]
  {
    hide RoundUp4, Put16;
    RoundUpBehind(clen, |v|);
    var total := clen + 4 + RoundUp4(|v|);
    assert m[..clen][..2] == m[..2] && m[..clen][4..] == m[4..clen];
    var a := m[..2] + Put16(total - STUN_HEADER_LENGTH) + m[4..clen] + Put16(t) + Put16(|v|) + v;
    SplitBehind(a, m, clen + 4 + |v|, total);
  }

  lemma SplitBehind(a: seq<byte>, m: seq<byte>, i: nat, j: nat)
    requires |a| == i <= j <= |m|
    ensures (a + m[i..])[..j] == a + m[i..j]
    ensures (a + m[i..])[j..] == m[j..]
  {
  }

  /** A buffer and its length as values. */
  datatype State = State(mem: seq<byte>, len: nat)

  /** Large enough for every message the codec builds, and holding at least a header. */
  predicate Usable(b: State) { MAX_STUN_MESSAGE_SIZE <= |b.mem| && STUN_HEADER_LENGTH <= b.len <= |b.mem| }

  /** stun_attr_add_str: return value and buffer, whatever the header declares. */
  function StrAdded(b: State, t: nat, v: seq<byte>): (r: (int, State))
    requires Usable(b)
    ensures Usable(r.1) && |r.1.mem| == |b.mem|
    ensures if r.0 == 0 then r.1.len >= STUN_HEADER_LENGTH + 4 + |v| else r == (-1, b)
  {
    var clen := DeclaredLen(b.mem);
    var total := RoundUp4(clen + 4 + |v|);
    if total >= MAX_STUN_MESSAGE_SIZE then (-1, b) else (0, State(Written(b.mem, clen, t, v), total))
  }

  /** On a consistent message the add is the abstract one, with whatever padding lies behind. */
  lemma StrAddedIsAppended(b: State, t: nat, v: seq<byte>)
    requires Usable(b) && Consistent(b.mem[..b.len])
    ensures var s := b.mem[..b.len];
      var total := |s| + 4 + RoundUp4(|v|);
      var r := StrAdded(b, t, v);
      && (HasRoom(s, v) ==>
        && r.0 == 0 && r.1.len == total
        && r.1.mem[..total] == Appended(s, t, v, b.mem[b.len + 4 + |v|..total])
        && r.1.mem[total..] == b.mem[total..])
      && (!HasRoom(s, v) ==> r == (-1, b))
  {
    hide RoundUp4, Put16, Get16, Written, Appended;
    SamePrefix16(b.mem, b.len, 2);
    RoundUpBehind(b.len, |v|);
    if HasRoom(b.mem[..b.len], v) {
      WrittenIsAppended(b.mem, b.len, t, v);
    }
  }

  /** Whatever the header declares: the attribute goes to the declared end, the header length is
      that of the padded total, and no other octet changes. It is refused exactly when the
      total would pass 65504 octets, the last multiple of four below the limit. */
  lemma StrAddedStores(b: State, t: nat, v: seq<byte>)
    requires Usable(b) && t < 0x1_0000
    ensures var clen := b.mem[2] as nat * 256 + b.mem[3] as nat + 20;
      var (r, b1) := StrAdded(b, t, v);
      && (r == 0 <==> clen + 4 + |v| <= 65504)
      && (r != 0 ==> r == -1 && b1 == b)
      && (r == 0 ==>
        && clen + 4 + |v| <= b1.len < clen + 8 + |v| && b1.len % 4 == 0
        && Get16(b1.mem, 2) == b1.len - 20
        && Get16(b1.mem, clen) == t && Get16(b1.mem, clen + 2) == |v|
        && b1.mem[clen + 4..clen + 4 + |v|] == v
        && b1.mem[..2] == b.mem[..2] && b1.mem[4..clen] == b.mem[4..clen]
        && b1.mem[clen + 4 + |v|..] == b.mem[clen + 4 + |v|..])
  {
    var clen := DeclaredLen(b.mem);
    if clen + 4 + |v| <= 65504 {
      StoredParts(b.mem, clen, t, v);
    }
  }

  lemma StoredParts(m: seq<byte>, clen: nat, t: nat, v: seq<byte>)
    requires STUN_HEADER_LENGTH <= clen && RoundUp4(clen + 4 + |v|) < 0x1_0000 && t < 0x1_0000
    requires clen + 4 + |v| <= |m|
    ensures var w := Written(m, clen, t, v);
      && Get16(w, 2) == RoundUp4(clen + 4 + |v|) - 20
      && Get16(w, clen) == t && Get16(w, clen + 2) == |v|
      && w[clen + 4..clen + 4 + |v|] == v
      && w[..2] == m[..2] && w[4..clen] == m[4..clen]
      && w[clen + 4 + |v|..] == m[clen + 4 + |v|..]
  {
    hide RoundUp4, Put16, Get16;
    var w, total := Written(m, clen, t, v), RoundUp4(clen + 4 + |v|);
    Stored16(w, 2, total - STUN_HEADER_LENGTH);
    Stored16(w, clen, t);
    Stored16(w, clen + 2, |v|);
  }

  class StunBuffer {
    const buf: array<byte>
    var len: nat

    /** The codec refuses to grow a message to 65507 octets, so such a buffer is large enough. */
    predicate Valid()
      reads this
    {
      MAX_STUN_MESSAGE_SIZE <= buf.Length && len <= buf.Length
    }

    function Bytes(): seq<byte>
      requires Valid()
      reads this, buf
    {
      buf[..len]
    }

    function Value(): State
      requires Valid()
      reads this, buf
    {
      State(buf[..], len)
    }

    constructor (memory: seq<byte>, length: nat)
      requires MAX_STUN_MESSAGE_SIZE <= |memory| && length <= |memory|
      ensures Valid() && fresh(buf) && buf[..] == memory && len == length
    {
      buf := new byte[|memory|](i requires 0 <= i < |memory| => memory[i]);
      len := length;
    }

    /** ns_bcopy into the buffer. */
    method Store(at: nat, v: seq<byte>)
      requires at + |v| <= buf.Length
      modifies buf
      ensures buf[..] == Put(old(buf[..]), at, v)
    {
      forall i | 0 <= i < |v| {
        buf[at + i] := v[i];
      }
    }

    /** stun_init_command_str and old_stun_init_command_str; `tid` stands for the random
        transaction id. */
    method InitCommand(msgType: bv16, cookie: nat, tid: seq<byte>)
      requires Valid() && |tid| == 12
      modifies this, buf
      ensures Valid() && Bytes() == Header(msgType, cookie, tid)
      ensures buf[STUN_HEADER_LENGTH..] == old(buf[STUN_HEADER_LENGTH..])
    {
      hide Put16, Put32, TypeOctets;
      ghost var m := buf[..];
      len := STUN_HEADER_LENGTH;
      Store(0, seq(STUN_HEADER_LENGTH, i => 0));
      ghost var z := buf[..];
      var t := msgType & 0x3FFF;
      Store(0, TypeOctets(t));
      Store(2, Put16(0));
      Store(4, Put32(cookie));
      Store(8, tid);
      PutAdjacent(z, 0, TypeOctets(t), Put16(0));
      PutAdjacent(z, 0, TypeOctets(t) + Put16(0), Put32(cookie));
      PutAdjacent(z, 0, TypeOctets(t) + Put16(0) + Put32(cookie), tid);
      assert buf[..] == Put(z, 0, TypeOctets(t) + Put16(0) + Put32(cookie) + tid);
      assert buf[..STUN_HEADER_LENGTH] == Header(msgType, cookie, tid);
      assert buf[STUN_HEADER_LENGTH..] == m[STUN_HEADER_LENGTH..];
    }

    /** stun_init_request_str, stun_init_indication_str and stun_init_success_response_str;
        a response copies the id of its request over the random one. */
    method Init(c: MessageClass, m: bv16, tid: seq<byte>, id: Option<seq<byte>>)
      requires Valid() && |tid| == 12 && (id.Some? ==> |id.value| == 12)
      modifies this, buf
      ensures Valid()
      ensures Bytes() == Header(TypeFor(c, m), STUN_MAGIC_COOKIE, if id.Some? then id.value else tid)
      ensures buf[STUN_HEADER_LENGTH..] == old(buf[STUN_HEADER_LENGTH..])
    {
      InitCommand(TypeFor(c, m), STUN_MAGIC_COOKIE, tid);
      if id.Some? {
        ghost var rest := buf[STUN_HEADER_LENGTH..];
        Store(8, id.value);
        assert buf[STUN_HEADER_LENGTH..] == rest;
      }
    }

    /** The stores of stun_attr_add_str, once it has found room. */
    method WriteAttr(clen: nat, attr: nat, v: seq<byte>)
      requires Valid() && STUN_HEADER_LENGTH <= clen
      requires RoundUp4(clen + 4 + |v|) <= buf.Length
      modifies buf
      ensures buf[..] == Written(old(buf[..]), clen, attr, v)
    {
      hide Put16, RoundUp4, Put, Written;
      ghost var m := buf[..];
      Store(2, Put16(RoundUp4(clen + 4 + |v|) - STUN_HEADER_LENGTH));
      ghost var m1 := buf[..];
      Store(clen, Put16(attr));
      Store(clen + 2, Put16(|v|));
      Store(clen + 4, v);
      PutAdjacent(m1, clen, Put16(attr), Put16(|v|));
      PutAdjacent(m1, clen, Put16(attr) + Put16(|v|), v);
      WrittenInOrder(m, clen, attr, v);
    }

    /** stun_attr_add_str: 0 when the attribute was written, -1 when there is no room. */
    method AddStr(attr: nat, avalue: Option<seq<byte>>, alen: int) returns (r: int)
      requires Valid() && STUN_HEADER_LENGTH <= len && attr < 0x1_0000
      requires avalue.Some? ==> alen <= |avalue.value|
      modifies this, buf
      ensures Valid()
      ensures (r, Value()) == StrAdded(old(Value()), attr, if avalue.None? || alen < 0 then [] else avalue.value[..alen])
    {
      hide Put16, Get16, RoundUp4, Written;
      var v := [];
      if alen >= 0 && avalue.Some? {
        v := avalue.value[..alen];
      }
      var clen := DeclaredLen(buf[..]);
      var newlen := RoundUp4(clen + 4 + |v|);
      if newlen >= MAX_STUN_MESSAGE_SIZE {
        return -1;
      }
      WriteAttr(clen, attr, v);
      len := newlen;
      return 0;
    }

    /** stun_attr_add_str on a consistent message: the message after the call. */
    method Add(c: nat, v: seq<byte>) returns (r: int)
      requires Valid() && Consistent(Bytes()) && c < 0x1_0000
      modifies this, buf
      ensures Valid()
      ensures r == if HasRoom(old(Bytes()), v) then 0 else -1
      ensures r == 0 ==>
        var total := old(len) + 4 + RoundUp4(|v|);
        && Bytes() == Appended(old(Bytes()), c, v, old(buf[..])[old(len) + 4 + |v|..total])
        && buf[total..] == old(buf[..])[total..]
      ensures r != 0 ==> len == old(len) && buf[..] == old(buf[..])
    {
      hide RoundUp4, Put16, Get16, StrAdded, Appended, HasRoom;
      StrAddedIsAppended(Value(), c, v);
      assert v[..|v|] == v;
      r := AddStr(c, Some(v), |v|);
      assert buf[len..] == buf[..][len..];
    }

    /** stun_attr_get_first_by_type_str. */
    method GetFirstByType(t: nat) returns (attr: Option<nat>)
      requires Valid() && Walkable(buf[..], len)
      ensures attr == FindIn(buf[..], len, t)
    {
      if len < STUN_HEADER_LENGTH {
        return None;
      }
      attr := FirstAttr(buf[..]);
      while attr.Some?
        invariant attr.Some? ==> AttrPosition(buf[..], attr.value) && Find(buf[..], t) == FindFrom(buf[..], attr.value, t)
        invariant attr.None? ==> Find(buf[..], t) == None
        decreases if attr.Some? then DeclaredLen(buf[..]) - attr.value else -1
      {
        HeaderInside(buf[..], attr.value);
        if AttrType(buf[..], attr.value) == t {
          return attr;
        }
        attr := NextAttr(buf[..], attr.value);
      }
    }
  }
}
