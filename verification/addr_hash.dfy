/** The address hashes, on a little-endian machine such as the target of this code. */
module AddrHash {
  import opened Octets
  import opened IoAddr

  /* ---------- hash_int32 ---------- */

  datatype Word32 = Word32(bits: bv32)

  function WordXor(a: Word32, b: Word32): Word32 { Word32(a.bits ^ b.bits) }
  function Shift4(a: Word32): Word32 { Word32(a.bits >> 4) }
  function Shift11(a: Word32): Word32 { Word32(a.bits >> 11) }
  function Spread(w: Word32): Word32 { Word32((w.bits ^ 0xDEAD_BEEF) + (w.bits << 5)) }

  function HashInt32(a: Word32): Word32 {
    var a1 := WordXor(a, Shift4(a));
    var a2 := Spread(a1);
    WordXor(a2, Shift11(a2))
  }

  lemma XorSwaps(a: Word32, b: Word32, c: Word32, d: Word32)
    requires WordXor(a, c) == WordXor(b, d)
    ensures WordXor(a, b) == WordXor(c, d)
  {
  }

  lemma XorZero(a: Word32, b: Word32)
    requires WordXor(a, b) == Word32(0)
    ensures a == b
  {
  }

  lemma Shift4OfXor(a: Word32, b: Word32)
    ensures Shift4(WordXor(a, b)) == WordXor(Shift4(a), Shift4(b))
  {
  }

  lemma Shift11OfXor(a: Word32, b: Word32)
    ensures Shift11(WordXor(a, b)) == WordXor(Shift11(a), Shift11(b))
  {
  }

  /** Only zero is its own shift. */
  lemma ShiftFixed(d: Word32)
    ensures d == Shift4(d) ==> d == Word32(0)
    ensures d == Shift11(d) ==> d == Word32(0)
  {
  }

  /** The difference of two words with the same folding is its own shift. */
  lemma Fold4Injective(a: Word32, b: Word32)
    requires WordXor(a, Shift4(a)) == WordXor(b, Shift4(b))
    ensures a == b
  {
    hide WordXor, Shift4, Shift11;
    XorSwaps(a, b, Shift4(a), Shift4(b));
    Shift4OfXor(a, b);
    ShiftFixed(WordXor(a, b));
    XorZero(a, b);
  }

  lemma Fold11Injective(a: Word32, b: Word32)
    requires WordXor(a, Shift11(a)) == WordXor(b, Shift11(b))
    ensures a == b
  {
    hide WordXor, Shift4, Shift11;
    XorSwaps(a, b, Shift11(a), Shift11(b));
    Shift11OfXor(a, b);
    ShiftFixed(WordXor(a, b));
    XorZero(a, b);
  }

  /** The sum is triangular: each bit of the word shows at its own place, disturbed only by
      lower bits. */
  lemma SpreadLow(a: Word32, b: Word32)
    requires Spread(a) == Spread(b)
    ensures a.bits << 12 == b.bits << 12
  {
  }

  lemma SpreadHigh(a: Word32, b: Word32)
    requires Spread(a) == Spread(b) && a.bits << 12 == b.bits << 12
    ensures a == b
  {
  }

  lemma SpreadInjective(a: Word32, b: Word32)
    requires Spread(a) == Spread(b)
    ensures a == b
  {
    hide Spread;
    SpreadLow(a, b);
    SpreadHigh(a, b);
  }

  /** hash_int32 never collides. */
  lemma HashInt32Injective(a: Word32, b: Word32)
    requires HashInt32(a) == HashInt32(b)
    ensures a == b
  {
    hide WordXor, Shift4, Shift11, Spread;
    var a1, b1 := WordXor(a, Shift4(a)), WordXor(b, Shift4(b));
    Fold11Injective(Spread(a1), Spread(b1));
    SpreadInjective(a1, b1);
    Fold4Injective(a, b);
  }

  /* ---------- hash_int64 ---------- */

  datatype Word64 = Word64(bits: bv64)

  function LongXor(a: Word64, b: Word64): Word64 { Word64(a.bits ^ b.bits) }
  function LongShift4(a: Word64): Word64 { Word64(a.bits >> 4) }
  function LongShift11(a: Word64): Word64 { Word64(a.bits >> 11) }
  function LongSpread(w: Word64): Word64 { Word64((w.bits ^ 0xDEAD_BEEF) + (w.bits << 5)) }

  function HashInt64(a: Word64): Word64 {
    var a1 := LongXor(a, LongShift4(a));
    var a2 := LongSpread(a1);
    LongXor(a2, LongShift11(a2))
  }

  lemma LongXorSwaps(a: Word64, b: Word64, c: Word64, d: Word64)
    requires LongXor(a, c) == LongXor(b, d)
    ensures LongXor(a, b) == LongXor(c, d)
  {
  }

  lemma LongXorZero(a: Word64, b: Word64)
    requires LongXor(a, b) == Word64(0)
    ensures a == b
  {
  }

  lemma LongShift4OfXor(a: Word64, b: Word64)
    ensures LongShift4(LongXor(a, b)) == LongXor(LongShift4(a), LongShift4(b))
  {
  }

  lemma LongShift11OfXor(a: Word64, b: Word64)
    ensures LongShift11(LongXor(a, b)) == LongXor(LongShift11(a), LongShift11(b))
  {
  }

  /** Only zero is its own shift. */
  lemma LongShiftFixed(d: Word64)
    ensures d == LongShift4(d) ==> d == Word64(0)
    ensures d == LongShift11(d) ==> d == Word64(0)
  {
  }

  /** The difference of two words with the same folding is its own shift. */
  lemma LongFold4Injective(a: Word64, b: Word64)
    requires LongXor(a, LongShift4(a)) == LongXor(b, LongShift4(b))
    ensures a == b
  {
    hide LongXor, LongShift4, LongShift11;
    LongXorSwaps(a, b, LongShift4(a), LongShift4(b));
    LongShift4OfXor(a, b);
    LongShiftFixed(LongXor(a, b));
    LongXorZero(a, b);
  }

  lemma LongFold11Injective(a: Word64, b: Word64)
    requires LongXor(a, LongShift11(a)) == LongXor(b, LongShift11(b))
    ensures a == b
  {
    hide LongXor, LongShift4, LongShift11;
    LongXorSwaps(a, b, LongShift11(a), LongShift11(b));
    LongShift11OfXor(a, b);
    LongShiftFixed(LongXor(a, b));
    LongXorZero(a, b);
  }

  lemma LongSpreadLow(a: Word64, b: Word64)
    requires LongSpread(a) == LongSpread(b)
    ensures a.bits << 44 == b.bits << 44
  {
  }

  lemma LongSpreadMiddle(a: Word64, b: Word64)
    requires LongSpread(a) == LongSpread(b) && a.bits << 44 == b.bits << 44
    ensures a.bits << 24 == b.bits << 24
  {
  }

  lemma LongSpreadUpper(a: Word64, b: Word64)
    requires LongSpread(a) == LongSpread(b) && a.bits << 24 == b.bits << 24
    ensures a.bits << 10 == b.bits << 10
  {
  }

  lemma LongSpreadHigh(a: Word64, b: Word64)
    requires LongSpread(a) == LongSpread(b) && a.bits << 10 == b.bits << 10
    ensures a == b
  {
  }

  lemma LongSpreadInjective(a: Word64, b: Word64)
    requires LongSpread(a) == LongSpread(b)
    ensures a == b
  {
    hide LongSpread;
    LongSpreadLow(a, b);
    LongSpreadMiddle(a, b);
    LongSpreadUpper(a, b);
    LongSpreadHigh(a, b);
  }

  /** hash_int64 never collides. */
  lemma HashInt64Injective(a: Word64, b: Word64)
    requires HashInt64(a) == HashInt64(b)
    ensures a == b
  {
    hide LongXor, LongShift4, LongShift11, LongSpread;
    var a1, b1 := LongXor(a, LongShift4(a)), LongXor(b, LongShift4(b));
    LongFold11Injective(LongSpread(a1), LongSpread(b1));
    LongSpreadInjective(a1, b1);
    LongFold4Injective(a, b);
  }

  /* ---------- addr_hash ---------- */

  /** Machine words as a little-endian machine reads them from memory octets. */
  function Load16(s: seq<byte>): Word32
    requires |s| == 2
  {
    Word32((Bits(s[1]) as bv32 << 8) | Bits(s[0]) as bv32)
  }

  function Load32(s: seq<byte>): Word32
    requires |s| == 4
  {
    Word32((Bits(s[3]) as bv32 << 24) | (Bits(s[2]) as bv32 << 16) | (Bits(s[1]) as bv32 << 8) | Bits(s[0]) as bv32)
  }

  function Load64(s: seq<byte>): Word64
    requires |s| == 8
  {
    Word64((Load32(s[4..]).bits as bv64 << 32) | Load32(s[..4]).bits as bv64)
  }

  function Add32(w: Word32, p: Word32): Word32 { Word32(w.bits + p.bits) }
  function Add64(w: Word64, p: Word32): Word64 { Word64(w.bits + p.bits as bv64) }

  /** The two halves of an IPv6 address, mixed and cut to 32 bits. */
  function Mix(high: Word64, low: Word64): Word32 {
    Word32((((HashInt64(high).bits << 3) + HashInt64(low).bits) & 0xFFFF_FFFF) as bv32)
  }

  function AddrHash(a: Addr): Word32 {
    if a.family == AF_INET then HashInt32(Add32(Load32(a.v4), Load16(a.port)))
    else Mix(Load64(a.v6[..8]), Add64(Load64(a.v6[8..]), Load16(a.port)))
  }

  function AddrHashNoPort(a: Addr): Word32 {
    if a.family == AF_INET then HashInt32(Load32(a.v4))
    else Mix(Load64(a.v6[..8]), Load64(a.v6[8..]))
  }

  function OctetAt(w: Word32, k: nat): byte {
    match k
    case 0 => FromBits((w.bits & 0xFF) as bv8)
    case 1 => FromBits(((w.bits >> 8) & 0xFF) as bv8)
    case 2 => FromBits(((w.bits >> 16) & 0xFF) as bv8)
    case _ => FromBits((w.bits >> 24) as bv8)
  }

  lemma LoadOctet0(s: seq<byte>)
    requires |s| == 4
    ensures OctetAt(Load32(s), 0) == s[0]
  {
    var w := Load32(s).bits;
    assert (w & 0xFF) as bv8 == Bits(s[0]);
    BitsRoundTrip(s[0]);
  }

  lemma LoadOctet1(s: seq<byte>)
    requires |s| == 4
    ensures OctetAt(Load32(s), 1) == s[1]
  {
    var w := Load32(s).bits;
    assert ((w >> 8) & 0xFF) as bv8 == Bits(s[1]);
    BitsRoundTrip(s[1]);
  }

  lemma LoadOctet2(s: seq<byte>)
    requires |s| == 4
    ensures OctetAt(Load32(s), 2) == s[2]
  {
    var w := Load32(s).bits;
    assert ((w >> 16) & 0xFF) as bv8 == Bits(s[2]);
    BitsRoundTrip(s[2]);
  }

  lemma LoadOctet3(s: seq<byte>)
    requires |s| == 4
    ensures OctetAt(Load32(s), 3) == s[3]
  {
    var w := Load32(s).bits;
    assert (w >> 24) as bv8 == Bits(s[3]);
    BitsRoundTrip(s[3]);
  }

  lemma LoadOctet(s: seq<byte>, k: nat)
    requires |s| == 4 && k < 4
    ensures OctetAt(Load32(s), k) == s[k]
  {
    hide OctetAt, Load32;
    if k == 0 { LoadOctet0(s); } else if k == 1 { LoadOctet1(s); } else if k == 2 { LoadOctet2(s); } else { LoadOctet3(s); }
  }

  lemma Load32Injective(s: seq<byte>, t: seq<byte>)
    requires |s| == 4 && |t| == 4 && Load32(s) == Load32(t)
    ensures s == t
  {
    hide Load32, OctetAt;
    forall k | 0 <= k < 4
      ensures s[k] == t[k]
    {
      LoadOctet(s, k);
      LoadOctet(t, k);
    }
  }

  /** On IPv4 the port-free hash tells addresses apart exactly as addr_eq_no_port does. */
  lemma HashNoPortExact(a: Addr, b: Addr)
    requires a.family == AF_INET && b.family == AF_INET
    ensures AddrHashNoPort(a) == AddrHashNoPort(b) <==> AddrEqNoPort(a, b)
  {
    hide HashInt32, Load32;
    if AddrHashNoPort(a) == AddrHashNoPort(b) {
      HashInt32Injective(Load32(a.v4), Load32(b.v4));
      Load32Injective(a.v4, b.v4);
    }
  }

  /** With the port, two IPv4 addresses collide exactly when address and port, as the machine
      reads them, have the same sum. */
  lemma HashCollides(a: Addr, b: Addr)
    requires a.family == AF_INET && b.family == AF_INET
    ensures AddrHash(a) == AddrHash(b) <==>
      Load32(a.v4).bits + Load16(a.port).bits == Load32(b.v4).bits + Load16(b.port).bits
  {
    hide HashInt32, Load32, Load16;
    if AddrHash(a) == AddrHash(b) {
      HashInt32Injective(Add32(Load32(a.v4), Load16(a.port)), Add32(Load32(b.v4), Load16(b.port)));
    }
  }

  /** Every address that is not IPv4 hashes its two halves, the port added to the second. */
  lemma HashHalves(a: Addr)
    requires a.family != AF_INET
    ensures AddrHash(a) == Mix(Load64(a.v6[..8]), Add64(Load64(a.v6[8..]), Load16(a.port)))
    ensures AddrHashNoPort(a) == Mix(Load64(a.v6[..8]), Load64(a.v6[8..]))
  {
    hide Mix, Load64, Load16, Add64;
  }

  /** The machine words: the first octet is the least significant. */
  lemma LoadOrder(s: seq<byte>, h: seq<byte>, l: seq<byte>)
    requires |s| == 4 && |h| == 2 && |l| == 8
    ensures forall k :: 0 <= k < 4 ==> OctetAt(Load32(s), k) == s[k]
    ensures Load16(h) == Load32(h + [0, 0])
    ensures Load64(l).bits & 0xFFFF_FFFF == Load32(l[..4]).bits as bv64
    ensures Load64(l).bits >> 32 == Load32(l[4..]).bits as bv64
  {
    forall k | 0 <= k < 4
      ensures OctetAt(Load32(s), k) == s[k]
    {
      LoadOctet(s, k);
    }
    LoadPort(h);
    LoadHalves(l);
  }

  lemma LoadPort(h: seq<byte>)
    requires |h| == 2
    ensures Load16(h) == Load32(h + [0, 0])
  {
    assert Bits(0) as bv32 == 0;
  }

  lemma LoadHalves(l: seq<byte>)
    requires |l| == 8
    ensures Load64(l).bits & 0xFFFF_FFFF == Load32(l[..4]).bits as bv64
    ensures Load64(l).bits >> 32 == Load32(l[4..]).bits as bv64
  {
    hide Load32;
    Halves(Load32(l[4..]).bits, Load32(l[..4]).bits);
  }

  lemma Halves(high: bv32, low: bv32)
    ensures ((high as bv64 << 32) | low as bv64) & 0xFFFF_FFFF == low as bv64
    ensures ((high as bv64 << 32) | low as bv64) >> 32 == high as bv64
  {
  }

  /** Known values. */
  lemma HashValues()
    ensures HashInt32(Word32(0)) == Word32(0xDEB6_6B58)
    ensures HashInt32(Word32(0x1234_5678)) == Word32(0x309B_0272)
    ensures HashInt64(Word64(0)) == Word64(0xDEB6_6B58)
    ensures HashInt64(Word64(0x1234_5678_9ABC_DEF0)) == Word64(0x75F7_C82C_D0DB_0272)
    ensures Mix(Word64(0), Word64(1)) == Word32(0xD469_C579)
    ensures Mix(Word64(1), Word64(0)) == Word32(0xD469_C120)
    ensures Mix(Word64(0x1234_5678_9ABC_DEF0), Word64(0x0FED_CBA9_8765_4321)) == Word32(0x11AD_1BFD)
  {
  }

  /** Equal addresses hash alike, with and without port. */
  lemma EqualHash(a: Addr, b: Addr)
    ensures AddrEq(a, b) ==> AddrHash(a) == AddrHash(b)
    ensures AddrEqNoPort(a, b) ==> AddrHashNoPort(a) == AddrHashNoPort(b)
  {
    hide HashInt32, Load32, Load64, Load16, Mix, Add32, Add64;
  }
}
