/** Recognising messages: channel or command, request, indication, success or error. */
module StunClassify {
  import opened Octets
  import opened StunDefs
  import opened StunWire

  /** is_channel_msg_str. */
  predicate IsChannelMsg(s: seq<byte>) { |s| >= 4 && ValidChannel(Get16(s, 0)) }

  /** stun_get_msg_type_str. */
  function MsgType(s: seq<byte>): bv16 {
    if |s| < 2 then 0xFFFF else TypeField(s) & 0x3FFF
  }

  /** stun_get_method_str. */
  function GetMethod(s: seq<byte>): bv16 {
    if |s| < 2 then 0xFFFF else MethodOfType(TypeField(s))
  }

  /** stun_is_request_str, stun_is_indication_str, stun_is_success_response_str and the answer
      of stun_is_error_response_str. */
  predicate IsOfClass(s: seq<byte>, c: MessageClass) {
    !IsChannelMsg(s) && HasClass(MsgType(s), c)
  }

  /** What the recognisers say about a message: independent of its attributes. */
  ghost predicate Recognised(s: seq<byte>, c: MessageClass, m: bv16, tid: seq<byte>) {
    && IsCommandMessage(s)
    && !IsChannelMsg(s)
    && (forall d :: IsOfClass(s, d) <==> d == c)
    && GetMethod(s) == m & 0x0FFF
    && TransactionId(s) == tid
  }

  /** A channel message has a first octet between 64 and 127. */
  lemma ChannelExactly(s: seq<byte>)
    ensures IsChannelMsg(s) <==> |s| >= 4 && 0x40 <= s[0] < 0x80
  {
  }

  /** The class is in the lowest bit of the first octet and in bit 4 of the second; a buffer too
      short for them reads as an error response. */
  lemma ClassExactly(s: seq<byte>, c: MessageClass)
    ensures |s| < 2 ==> (IsOfClass(s, c) <==> c == ErrorResponse)
    ensures |s| >= 2 ==> (IsOfClass(s, c) <==>
      && !(|s| >= 4 && 0x40 <= s[0] < 0x80)
      && Bits(s[0]) & 1 == (if c.SuccessResponse? || c.ErrorResponse? then 1 else 0)
      && Bits(s[1]) & 0x10 == (if c.Indication? || c.ErrorResponse? then 0x10 else 0))
  {
    ChannelExactly(s);
    if |s| >= 2 {
      FieldBits(Bits(s[0]), Bits(s[1]), c);
    }
  }

  lemma FieldBits(hi: bv8, lo: bv8, c: MessageClass)
    ensures var t := ((hi as bv16 << 8) | lo as bv16) & 0x3FFF;
      HasClass(t, c) <==>
        && hi & 1 == (if c.SuccessResponse? || c.ErrorResponse? then 1 else 0)
        && lo & 0x10 == (if c.Indication? || c.ErrorResponse? then 0x10 else 0)
  {
  }

  /** The method is in the bits between them. */
  lemma MethodExactly(s: seq<byte>)
    ensures |s| < 2 ==> GetMethod(s) == 0xFFFF
    ensures |s| >= 2 ==>
      var hi, lo := Bits(s[0]) as bv16, Bits(s[1]) as bv16;
      GetMethod(s) == ((hi & 0x3E) << 6) | ((lo & 0xE0) >> 1) | (lo & 0x0F)
  {
    if |s| >= 2 {
      MethodFields(Bits(s[0]), Bits(s[1]));
    }
  }

  lemma MethodFields(hi: bv8, lo: bv8)
    ensures MethodOfType((hi as bv16 << 8) | lo as bv16)
         == ((hi as bv16 & 0x3E) << 6) | ((lo as bv16 & 0xE0) >> 1) | (lo as bv16 & 0x0F)
  {
  }

  lemma HeaderParts(t: bv16, cookie: nat, tid: seq<byte>)
    requires |tid| == 12 && cookie < 0x1_0000_0000
    ensures var s := Header(t, cookie, tid);
      && s[..2] == TypeOctets(t & 0x3FFF)
      && Get16(s, 2) == 0
      && Get32(s, 4) == cookie
      && s[8..] == tid
  {
    hide TypeOctets, Put32;
    var s := Header(t, cookie, tid);
    assert s[2..4] == Put16(0);
    Stored16(s, 2, 0);
    assert s[4..8] == Put32(cookie) && Put32(cookie)[0..4] == Put32(cookie);
    Get32Injective(s, 4, Put32(cookie), 0);
    Put32Get32(cookie);
  }

  lemma FreshRecognised(c: MessageClass, m: bv16, tid: seq<byte>)
    requires |tid| == 12
    ensures Recognised(Header(TypeFor(c, m), STUN_MAGIC_COOKIE, tid), c, m, tid)
  {
    hide TypeFor, TypeOctets, TypeField, MethodOfType, Get16, Get32, TopBitsClear, HasClass, IsOfClass, GetMethod, MsgType, Header;
    var s := Header(TypeFor(c, m), STUN_MAGIC_COOKIE, tid);
    HeaderParts(TypeFor(c, m), STUN_MAGIC_COOKIE, tid);
    FreshType(c, m, s);
    forall d: MessageClass
      ensures IsOfClass(s, d) <==> d == c
    {
      FreshClass(c, m, s, d);
    }
    FreshMethod(c, m, s);
  }

  lemma FreshClass(c: MessageClass, m: bv16, s: seq<byte>, d: MessageClass)
    requires |s| >= 2 && s[..2] == TypeOctets(TypeFor(c, m) & 0x3FFF) && !IsChannelMsg(s)
    ensures IsOfClass(s, d) <==> d == c
  {
    hide TypeFor, HasClass, TypeField, TypeOctets;
    FreshField(c, m, s);
    ClassRoundTrip(c, m, d);
  }

  lemma FreshMethod(c: MessageClass, m: bv16, s: seq<byte>)
    requires |s| >= 2 && s[..2] == TypeOctets(TypeFor(c, m) & 0x3FFF)
    ensures GetMethod(s) == m & 0x0FFF
  {
    hide TypeFor, TypeField, MethodOfType, TypeOctets;
    FreshField(c, m, s);
    MethodRoundTrip(c, m);
  }

  lemma FreshField(c: MessageClass, m: bv16, s: seq<byte>)
    requires |s| >= 2 && s[..2] == TypeOctets(TypeFor(c, m) & 0x3FFF)
    ensures TypeField(s) == TypeFor(c, m) & 0x3FFF
    ensures TypeField(s) & 0x3FFF == TypeFor(c, m) & 0x3FFF
  {
    hide TypeOctets, TypeField, TypeFor;
    assert s[0] == s[..2][0] && s[1] == s[..2][1];
    TypeRoundTrip(TypeFor(c, m) & 0x3FFF);
    SameType(s, TypeOctets(TypeFor(c, m) & 0x3FFF));
    MaskTwice(TypeFor(c, m));
  }

  lemma FreshType(c: MessageClass, m: bv16, s: seq<byte>)
    requires |s| >= 2 && s[..2] == TypeOctets(TypeFor(c, m) & 0x3FFF)
    ensures TopBitsClear(s[0]) && !ValidChannel(Get16(s, 0))
  {
    hide TypeOctets, TypeField, TopBitsClear, TypeFor;
    assert s[0] == s[..2][0] && s[1] == s[..2][1];
    TypeIsNoChannel(TypeFor(c, m));
    SameType(s, TypeOctets(TypeFor(c, m) & 0x3FFF));
  }

  lemma MaskTwice(t: bv16)
    ensures (t & 0x3FFF) & 0x3FFF == t & 0x3FFF
  {
  }

  lemma SameType(s: seq<byte>, r: seq<byte>)
    requires |s| >= 2 && |r| >= 2 && s[0] == r[0] && s[1] == r[1]
    ensures TypeField(s) == TypeField(r)
    ensures Get16(s, 0) == Get16(r, 0)
  {
  }

  lemma ExtendsRecognised(s: seq<byte>, r: seq<byte>, c: MessageClass, m: bv16, tid: seq<byte>)
    requires Recognised(s, c, m, tid) && Consistent(r) && Extends(s, r)
    ensures Recognised(r, c, m, tid)
  {
    hide TypeField, MethodOfType, HasClass, Get16, IsCommandMessage, Extends;
    CommandExactly(s);
    CommandExactly(r);
    SameHeader(s, r);
    SameType(s, r);
    ConsistentLength(r);
    SliceOfSlice(r, 4, |s|, 4, 16);
    SliceOfSlice(s, 4, |s|, 4, 16);
    assert forall d :: IsOfClass(r, d) == IsOfClass(s, d);
  }

  lemma SameHeader(s: seq<byte>, r: seq<byte>)
    requires |s| >= STUN_HEADER_LENGTH && Extends(s, r)
    ensures |r| >= |s| && s[0] == r[0] && s[1] == r[1] && s[4..|s|] == r[4..|s|]
    ensures s[4] == r[4] && s[5] == r[5] && s[6] == r[6] && s[7] == r[7]
  {
    assert r[0] == r[..2][0] && r[1] == r[..2][1] && s[0] == s[..2][0] && s[1] == s[..2][1];
    var x, y := s[4..], r[4..|s|];
    assert x[0] == y[0] && x[1] == y[1] && x[2] == y[2] && x[3] == y[3];
  }

  lemma ConsistentLength(r: seq<byte>)
    requires Consistent(r)
    ensures |r| >= STUN_HEADER_LENGTH && |r| % 4 == 0 && |r| == r[2] as nat * 256 + r[3] as nat + 20
  {
  }

  /** Any run of the builder: an initialised message of any method and class stays recognised
      as exactly that, and is never taken for a channel message. */
  lemma BuiltRecognised(c: MessageClass, m: bv16, tid: seq<byte>, calls: seq<Call>)
    requires |tid| == 12 && forall i :: 0 <= i < |calls| ==> ValidCall(calls[i])
    ensures Recognised(AddAll(Header(TypeFor(c, m), STUN_MAGIC_COOKIE, tid), calls), c, m, tid)
  {
    hide TypeFor, Recognised, Lists, Header, AddAll;
    FreshMessage(TypeFor(c, m), STUN_MAGIC_COOKIE, tid);
    FreshRecognised(c, m, tid);
    var s := Header(TypeFor(c, m), STUN_MAGIC_COOKIE, tid);
    AddAllIsMessage(s, [], calls);
    ExtendsRecognised(s, AddAll(s, calls), c, m, tid);
  }
}
