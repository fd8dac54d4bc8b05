/** Constants of the STUN/TURN messages and the bit layout of the message type. */
module StunDefs {
  import opened Octets

  const STUN_HEADER_LENGTH := 20
  const MAX_STUN_MESSAGE_SIZE := 65507
  const STUN_MAGIC_COOKIE := 0x2112A442

  const STUN_METHOD_BINDING: bv16 := 0x0001

  const STUN_ATTRIBUTE_MAPPED_ADDRESS := 0x0001
  const OLD_STUN_ATTRIBUTE_RESPONSE_ADDRESS := 0x0002
  const OLD_STUN_ATTRIBUTE_SOURCE_ADDRESS := 0x0004
  const OLD_STUN_ATTRIBUTE_CHANGED_ADDRESS := 0x0005
  const STUN_ATTRIBUTE_MESSAGE_INTEGRITY := 0x0008
  const STUN_ATTRIBUTE_ERROR_CODE := 0x0009
  const OLD_STUN_ATTRIBUTE_REFLECTED_FROM := 0x000B
  const STUN_ATTRIBUTE_XOR_PEER_ADDRESS := 0x0012
  const STUN_ATTRIBUTE_REALM := 0x0014
  const STUN_ATTRIBUTE_NONCE := 0x0015
  const STUN_ATTRIBUTE_XOR_RELAYED_ADDRESS := 0x0016
  const STUN_ATTRIBUTE_XOR_MAPPED_ADDRESS := 0x0020
  const STUN_ATTRIBUTE_ALTERNATE_SERVER := 0x8023
  const STUN_ATTRIBUTE_FINGERPRINT := 0x8028
  const STUN_ATTRIBUTE_RESPONSE_ORIGIN := 0x802B
  const STUN_ATTRIBUTE_OTHER_ADDRESS := 0x802C

  predicate ValidChannel(chn: nat) { 0x4000 <= chn <= 0x7FFF }

  /* ---------- Message types ---------- */

  datatype MessageClass = Request | Indication | SuccessResponse | ErrorResponse

  function MakeType(m: bv16): bv16 {
    var method_ := m & 0x0FFF;
    (method_ & 0x000F) | ((method_ & 0x0070) << 1) | ((method_ & 0x0380) << 2) | ((method_ & 0x0C00) << 2)
  }

  function MethodOfType(tt: bv16): bv16 {
    (tt & 0x000F) | ((tt & 0x00E0) >> 1) | ((tt & 0x0E00) >> 2) | ((tt & 0x3000) >> 2)
  }

  /** stun_make_request, stun_make_indication, stun_make_success_response and
      stun_make_error_response. */
  function TypeFor(c: MessageClass, m: bv16): bv16 {
    match c
    case Request => MakeType(m) & 0xFEEF
    case Indication => (MakeType(m) & 0xFEEF) | 0x0010
    case SuccessResponse => (MakeType(m) & 0xFEEF) | 0x0100
    case ErrorResponse => MakeType(m) | 0x0110
  }

  predicate HasClass(msgType: bv16, c: MessageClass) {
    match c
    case Request => msgType & 0x0110 == 0x0000
    case Indication => msgType & 0x0110 == 0x0010
    case SuccessResponse => msgType & 0x0110 == 0x0100
    case ErrorResponse => msgType & 0x0110 == 0x0110
  }

  /** The method survives the interleaving with the class bits; only its low 12 bits are kept. */
  lemma MethodRoundTrip(c: MessageClass, m: bv16)
    ensures MethodOfType(TypeFor(c, m) & 0x3FFF) == m & 0x0FFF
  {
  }

  /** Section 6 of RFC 5389: from the top, two zero bits, five method bits, the upper class bit,
      three method bits, the lower class bit, four method bits. */
  lemma TypeLayout(c: MessageClass, m: bv16)
    ensures var t := TypeFor(c, m) & 0x3FFF;
      && t >> 14 == 0
      && (t >> 9) & 0x1F == (m >> 7) & 0x1F
      && (t >> 8) & 1 == (if c.SuccessResponse? || c.ErrorResponse? then 1 else 0)
      && (t >> 5) & 0x7 == (m >> 4) & 0x7
      && (t >> 4) & 1 == (if c.Indication? || c.ErrorResponse? then 1 else 0)
      && t & 0xF == m & 0xF
  {
    HighBits(c, m);
    MethodBits(c, m);
    ClassBits(c, m);
  }

  lemma HighBits(c: MessageClass, m: bv16)
    ensures (TypeFor(c, m) & 0x3FFF) >> 14 == 0
    ensures ((TypeFor(c, m) & 0x3FFF) >> 9) & 0x1F == (m >> 7) & 0x1F
  {
    match c case Request => case Indication => case SuccessResponse => case ErrorResponse =>
  }

  lemma MethodBits(c: MessageClass, m: bv16)
    ensures ((TypeFor(c, m) & 0x3FFF) >> 5) & 0x7 == (m >> 4) & 0x7
    ensures (TypeFor(c, m) & 0x3FFF) & 0xF == m & 0xF
  {
    match c case Request => case Indication => case SuccessResponse => case ErrorResponse =>
  }

  lemma ClassBits(c: MessageClass, m: bv16)
    ensures ((TypeFor(c, m) & 0x3FFF) >> 8) & 1 == (if c.SuccessResponse? || c.ErrorResponse? then 1 else 0)
    ensures ((TypeFor(c, m) & 0x3FFF) >> 4) & 1 == (if c.Indication? || c.ErrorResponse? then 1 else 0)
  {
    match c case Request => case Indication => case SuccessResponse => case ErrorResponse =>
  }

  /** Exactly one class holds, and it is the one the type was made for. */
  lemma ClassRoundTrip(c: MessageClass, m: bv16, d: MessageClass)
    ensures HasClass(TypeFor(c, m) & 0x3FFF, d) <==> c == d
  {
  }

  /** The four classes partition all message types. */
  lemma ClassesPartition(t: bv16)
    ensures exists c :: HasClass(t, c)
    ensures forall c, d :: HasClass(t, c) && HasClass(t, d) ==> c == d
  {
    assert HasClass(t, Request) || HasClass(t, Indication) || HasClass(t, SuccessResponse) || HasClass(t, ErrorResponse);
  }

  /* ---------- The type field as octets ---------- */

  function TypeOctets(t: bv16): (s: seq<byte>)
    ensures |s| == 2
  {
    [FromBits((t >> 8) as bv8), FromBits((t & 0xFF) as bv8)]
  }

  function TypeField(s: seq<byte>): bv16
    requires |s| >= 2
  {
    (Bits(s[0]) as bv16 << 8) | Bits(s[1]) as bv16
  }

  lemma TypeRoundTrip(t: bv16)
    ensures TypeField(TypeOctets(t)) == t
  {
    FromBitsRoundTrip((t >> 8) as bv8);
    FromBitsRoundTrip((t & 0xFF) as bv8);
  }

  /** The type is stored in network order. */
  lemma TypeOctetsOrder(t: bv16)
    ensures Bits(TypeOctets(t)[0]) as bv16 == t >> 8
    ensures Bits(TypeOctets(t)[1]) as bv16 == t & 0xFF
  {
    FromBitsRoundTrip((t >> 8) as bv8);
    FromBitsRoundTrip((t & 0xFF) as bv8);
  }

  lemma SmallBits(v: bv8)
    ensures v < 0x40 <==> v as int < 0x40
    ensures v & 0xC0 == 0 <==> v < 0x40
  {
  }

  predicate TopBitsClear(b: byte) { Bits(b) & 0xC0 == 0 }

  /** The two top bits are clear in the octets below 64. */
  lemma TopBitsClearExactly(b: byte)
    ensures TopBitsClear(b) <==> b < 64
  {
    BitsRoundTrip(b);
    SmallBits(Bits(b));
  }

  /** A type of 14 bits never looks like a channel number. */
  lemma TypeIsNoChannel(t: bv16)
    ensures TopBitsClear(TypeOctets(t & 0x3FFF)[0])
    ensures Get16(TypeOctets(t & 0x3FFF), 0) < 0x4000
  {
    var hi := ((t & 0x3FFF) >> 8) as bv8;
    FromBitsRoundTrip(hi);
    SmallBits(hi);
  }
}
