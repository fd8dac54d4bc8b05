/** MESSAGE-INTEGRITY and FINGERPRINT: what the builder appends and what the checks accept. */
module StunSecurity {
  import opened Options
  import opened Octets
  import opened StunDefs
  import opened StunWire
  import opened StunBuffers
  import opened StunClassify
  import Crc32

  /* ---------- Keyed hash ---------- */

  datatype ShaType = Sha1 | Sha256

  function ShaSize(sha: ShaType): nat {
    match sha
    case Sha1 => 20
    case Sha256 => 32
  }

  /** Any keyed hash: type, secret and data give an authentication code, or fail. */
  type Mac = (ShaType, seq<byte>, seq<byte>) -> Option<seq<byte>>

  ghost predicate MacSized(mac: Mac) {
    forall sha, secret, data ::
      mac(sha, secret, data).Some? ==> |mac(sha, secret, data).value| == ShaSize(sha)
  }

  /** A short-term credential is keyed with the password up to its first zero, any other with
      the given key. */
  datatype CredentialType = LongTerm | ShortTerm | NoCredentials | UndefinedCredentials

  /* ---------- Integrity ---------- */

  /** The call that reserves the attribute; `garbage` is what the local hash buffer held. */
  predicate IntegrityCall(sha: ShaType, garbage: seq<byte>) { |garbage| == ShaSize(sha) }

  /** The message with the attribute reserved but the code not yet computed. */
  function Reserved(s: seq<byte>, sha: ShaType, garbage: seq<byte>): (r: seq<byte>)
    requires |s| >= STUN_HEADER_LENGTH && IntegrityCall(sha, garbage)
    ensures |r| == |s| + 4 + ShaSize(sha)
  {
    Appended(s, STUN_ATTRIBUTE_MESSAGE_INTEGRITY, garbage, [])
  }

  /** stun_attr_add_integrity_str: return value and message. */
  function AddIntegrity(mac: Mac, sha: ShaType, secret: seq<byte>, s: seq<byte>, garbage: seq<byte>): (int, seq<byte>)
    requires |s| >= STUN_HEADER_LENGTH && IntegrityCall(sha, garbage)
  {
    if !HasRoom(s, garbage) then (-1, s)
    else
      var r := Reserved(s, sha, garbage);
      var code := mac(sha, secret, r[..|r| - 4 - ShaSize(sha)]);
      if code.None? then (-1, r) else (0, r[..|r| - ShaSize(sha)] + code.value)
  }

  datatype CheckResult = CheckResult(code: int, sha: Option<ShaType>)

  function ShaOfLen(n: nat): Option<ShaType> {
    if n == 32 then Some(Sha256) else if n == 20 then Some(Sha1) else None
  }

  /** stun_check_message_integrity_by_key_str on the first `len` octets of the memory `m`: -1
      failure, 0 wrong code, 1 correct; with the hash type it stores for its caller. */
  function CheckIntegrity(mac: Mac, secret: seq<byte>, m: seq<byte>, len: nat): CheckResult
    requires Walkable(m, len) && MacSized(mac)
  {
    var attr := FindIn(m, len, STUN_ATTRIBUTE_MESSAGE_INTEGRITY);
    if attr.None? then CheckResult(-1, None)
    else
      var off := attr.value;
      var sha := ShaOfLen(AttrLen(m, off));
      if sha.None? then CheckResult(-1, None)
      else
        var total := off + 4 + ShaSize(sha.value);
        if total > DeclaredLen(m) then CheckResult(-1, sha)
        else
          var code := mac(sha.value, secret, WithLen(m, total)[..off]);
          if code.None? then CheckResult(-1, sha)
          else if m[off + 4..total] != code.value then CheckResult(0, sha)
          else CheckResult(1, sha)
  }

  lemma AddIntegrityIsMessage(mac: Mac, sha: ShaType, secret: seq<byte>, s: seq<byte>, attrs: seq<Attr>, garbage: seq<byte>)
    requires MacSized(mac) && IntegrityCall(sha, garbage) && IsMessage(s, attrs)
    requires AddIntegrity(mac, sha, secret, s, garbage).0 == 0
    ensures var r := AddIntegrity(mac, sha, secret, s, garbage).1;
      var code := mac(sha, secret, WithLen(s, |s| + 4 + ShaSize(sha)));
      && code.Some?
      && r == Appended(s, STUN_ATTRIBUTE_MESSAGE_INTEGRITY, code.value, [])
      && IsMessage(r, attrs + [Attr(STUN_ATTRIBUTE_MESSAGE_INTEGRITY, code.value)])
      && Extends(s, r)
  {
    hide Lists, Put16;
    var n := ShaSize(sha);
    var r := Reserved(s, sha, garbage);
    assert r[..|r| - 4 - n] == WithLen(s, |s| + 4 + n);
    var code := mac(sha, secret, WithLen(s, |s| + 4 + n));
    assert r[..|r| - n] == WithLen(s, |s| + 4 + n) + Put16(STUN_ATTRIBUTE_MESSAGE_INTEGRITY) + Put16(n);
    AppendedParts(s, STUN_ATTRIBUTE_MESSAGE_INTEGRITY, code.value, []);
    AppendedIsMessage(s, attrs, STUN_ATTRIBUTE_MESSAGE_INTEGRITY, code.value, []);
  }

  /** What the memory starts with once the last octets of its message are replaced. */
  lemma StoredLast(m: seq<byte>, len: nat, v: seq<byte>)
    requires |v| <= len <= |m|
    ensures Put(m, len - |v|, v)[..len] == m[..len][..len - |v|] + v
  {
  }

  /** stun_attr_add_integrity_str: return value and buffer, whatever the header declares. The
      code goes to the last octets of the padded total. */
  function IntegrityAdded(mac: Mac, sha: ShaType, secret: seq<byte>, b: State, garbage: seq<byte>): (r: (int, State))
    requires Usable(b) && MacSized(mac) && IntegrityCall(sha, garbage)
    ensures Usable(r.1)
  {
    var (added, b1) := StrAdded(b, STUN_ATTRIBUTE_MESSAGE_INTEGRITY, garbage);
    if added < 0 then (-1, b)
    else
      var code := mac(sha, secret, b1.mem[..b1.len - 4 - ShaSize(sha)]);
      if code.None? then (-1, b1)
      else (0, State(Put(b1.mem, b1.len - ShaSize(sha), code.value), b1.len))
  }

  /** What is appended, octet by octet, and when: type 8, the length of the hash, and the hash of
      the message under its final length. */
  lemma AddIntegrityExactly(mac: Mac, sha: ShaType, secret: seq<byte>, s: seq<byte>, garbage: seq<byte>)
    requires MacSized(mac) && IntegrityCall(sha, garbage) && Consistent(s)
    ensures var n: byte := if sha == Sha256 then 32 else 20;
      var hash := mac(sha, secret, WithLen(s, |s| + 4 + n as nat));
      var (r, s1) := AddIntegrity(mac, sha, secret, s, garbage);
      && (r == 0 || r == -1)
      && (r == 0 <==> |s| + 4 + n as nat <= 65504 && hash.Some?)
      && (r == 0 ==> s1 == WithLen(s, |s| + 4 + n as nat) + [0x00, 0x08, 0x00, n] + hash.value)
      && (|s| + 4 + n as nat > 65504 ==> s1 == s)
  {
    hide Get16, Consistent, WithLen;
    var n := ShaSize(sha);
    Put16Small(8);
    Put16Small(n);
    ConsistentFours(s);
    if HasRoom(s, garbage) {
      var w := WithLen(s, |s| + 4 + n);
      var r := Reserved(s, sha, garbage);
      assert r == w + [0x00, 0x08, 0x00, n as byte] + garbage;
      assert r[..|r| - 4 - n] == w;
      assert r[..|r| - n] == w + [0x00, 0x08, 0x00, n as byte];
    }
  }

  lemma Put16Small(n: nat)
    requires n < 256
    ensures Put16(n) == [0x00, n as byte]
  {
  }

  lemma ConsistentFours(s: seq<byte>)
    requires Consistent(s)
    ensures |s| >= STUN_HEADER_LENGTH && |s| % 4 == 0
  {
  }

  /** On a consistent message this is the abstract add. */
  lemma IntegrityAddedIsAdd(mac: Mac, sha: ShaType, secret: seq<byte>, b: State, garbage: seq<byte>)
    requires Usable(b) && Consistent(b.mem[..b.len]) && MacSized(mac) && IntegrityCall(sha, garbage)
    ensures var (r, b1) := IntegrityAdded(mac, sha, secret, b, garbage);
      (r, b1.mem[..b1.len]) == AddIntegrity(mac, sha, secret, b.mem[..b.len], garbage)
  {
    hide RoundUp4, Put, Put16, Get16, StrAdded, Appended;
    var s, n := b.mem[..b.len], ShaSize(sha);
    StrAddedIsAppended(b, STUN_ATTRIBUTE_MESSAGE_INTEGRITY, garbage);
    if HasRoom(s, garbage) {
      var b1 := StrAdded(b, STUN_ATTRIBUTE_MESSAGE_INTEGRITY, garbage).1;
      assert b.mem[b.len + 4 + n..b.len + 4 + n] == [];
      assert b1.mem[..b1.len] == Reserved(s, sha, garbage);
      assert b1.mem[..b1.len][..b1.len - 4 - n] == b1.mem[..b1.len - 4 - n];
      var code := mac(sha, secret, b1.mem[..b1.len - 4 - n]);
      if code.Some? {
        StoredLast(b1.mem, b1.len, code.value);
      }
    }
  }

  /** Whatever the header declares: on success the last octets are the keyed hash of all that
      precedes the last attribute; without room nothing changes. */
  lemma IntegrityStores(mac: Mac, sha: ShaType, secret: seq<byte>, b: State, garbage: seq<byte>)
    requires Usable(b) && MacSized(mac) && IntegrityCall(sha, garbage)
    ensures var n := if sha == Sha256 then 32 else 20;
      var (r, b1) := IntegrityAdded(mac, sha, secret, b, garbage);
      var reserved := StrAdded(b, 0x0008, garbage);
      && (r == 0 || r == -1)
      && (reserved.0 != 0 ==> r == -1 && b1 == b)
      && (reserved.0 == 0 ==>
        && b1.len == reserved.1.len >= n
        && b1.mem[..b1.len - n] == reserved.1.mem[..b1.len - n] && b1.mem[b1.len..] == reserved.1.mem[b1.len..]
        && (r == 0 <==> mac(sha, secret, b1.mem[..b1.len - 4 - n]).Some?)
        && (r == 0 ==> mac(sha, secret, b1.mem[..b1.len - 4 - n]).value == b1.mem[b1.len - n..b1.len]))
  {
    hide StrAdded;
    var reserved := StrAdded(b, 0x0008, garbage);
    var (r, b1) := IntegrityAdded(mac, sha, secret, b, garbage);
    if reserved.0 == 0 {
      assert b1.mem[..b1.len - 4 - ShaSize(sha)] == reserved.1.mem[..b1.len - 4 - ShaSize(sha)];
    }
  }

  /** In-place form: reserve the attribute, hash what precedes it, fill in the code. */
  method AddIntegrityStr(b: StunBuffer, mac: Mac, ct: CredentialType, key: seq<byte>, pwd: seq<byte>, sha: ShaType, garbage: seq<byte>)
    returns (r: int)
    requires b.Valid() && STUN_HEADER_LENGTH <= b.len
    requires MacSized(mac) && IntegrityCall(sha, garbage)
    modifies b, b.buf
    ensures b.Valid()
    ensures (r, b.Value()) == IntegrityAdded(mac, sha, if ct == ShortTerm then CString(pwd) else key, old(b.Value()), garbage)
  {
    hide StrAdded, Put;
    assert garbage[..|garbage|] == garbage;
    r := b.AddStr(STUN_ATTRIBUTE_MESSAGE_INTEGRITY, Some(garbage), ShaSize(sha));
    if r < 0 {
      return -1;
    }
    ghost var b1 := b.Value();
    assert b.buf[..] == b1.mem;
    var code;
    if ct == ShortTerm {
      code := mac(sha, CString(pwd), b.buf[..b.len - 4 - ShaSize(sha)]);
    } else {
      code := mac(sha, key, b.buf[..b.len - 4 - ShaSize(sha)]);
    }
    assert b.buf[..b.len - 4 - ShaSize(sha)] == b1.mem[..b1.len - 4 - ShaSize(sha)];
    if code.None? {
      return -1;
    }
    b.Store(b.len - ShaSize(sha), code.value);
    return 0;
  }

  /** All verdicts, for any header: a hash type exactly when the first attribute has the length
      of one; 0 or 1 exactly when it lies in front of the declared end and the keyed hash of
      what precedes it, under the length that ends with it, can be computed; and 1 exactly when
      that is its value. */
  lemma CheckExactly(mac: Mac, secret: seq<byte>, m: seq<byte>, len: nat)
    requires Walkable(m, len) && MacSized(mac)
    ensures var r := CheckIntegrity(mac, secret, m, len);
      var attr := FindIn(m, len, 0x0008);
      && (r.code == -1 || r.code == 0 || r.code == 1)
      && (r.code >= 0 ==> r.sha.Some?)
      && (r.sha.Some? <==> attr.Some? && (Get16(m, attr.value + 2) == 20 || Get16(m, attr.value + 2) == 32))
      && (r.sha.Some? ==>
        var off, n := attr.value, Get16(m, attr.value + 2);
        && r.sha.value == (if n == 32 then Sha256 else Sha1)
        && (off + 4 + n > Get16(m, 2) + 20 ==> r.code == -1)
        && (off + 4 + n <= Get16(m, 2) + 20 ==>
          var hash := mac(r.sha.value, secret, m[..2] + Put16(off + 4 + n - 20) + m[4..off]);
          && (r.code >= 0 <==> hash.Some?)
          && off + 4 + n <= |m|
          && (hash.Some? ==> (r.code == 1 <==> m[off + 4..off + 4 + n] == hash.value))))
  {
    hide FindIn, Put16, Get16;
    var attr := FindIn(m, len, STUN_ATTRIBUTE_MESSAGE_INTEGRITY);
    if attr.Some? {
      var off, n := attr.value, AttrLen(m, attr.value);
      ReadableTotal(m);
      assert WithLen(m, off + 4 + n)[..off] == m[..2] + Put16(off + 4 + n - 20) + m[4..off];
    }
  }

  /** In-place form: the header length is cut back to this attribute for the hash, then
      restored, so the buffer ends octet for octet as it began. */
  method CheckMessageIntegrityByKey(b: StunBuffer, mac: Mac, ct: CredentialType, key: seq<byte>, pwd: seq<byte>)
    returns (r: int, sha: Option<ShaType>)
    requires b.Valid() && Walkable(b.buf[..], b.len) && MacSized(mac)
    modifies b.buf
    ensures b.buf[..] == old(b.buf[..])
    ensures CheckResult(r, sha)
         == CheckIntegrity(mac, if ct == ShortTerm then CString(pwd) else key, old(b.buf[..]), b.len)
  {
    hide FindIn, Put, Put16, Get16, WithLen, RoundUp4;
    ghost var m := b.buf[..];
    var sar := b.GetFirstByType(STUN_ATTRIBUTE_MESSAGE_INTEGRITY);
    if sar.None? {
      return -1, None;
    }
    var off := sar.value;
    sha := ShaOfLen(AttrLen(b.buf[..], off));
    if sha.None? {
      return -1, None;
    }
    var shasize := ShaSize(sha.value);
    var origLen := DeclaredLen(b.buf[..]);
    var newLen := off + 4 + shasize;
    if newLen > origLen {
      return -1, sha;
    }
    ReadableTotal(m);
    b.Store(2, Put16(newLen - STUN_HEADER_LENGTH));
    StoredLen(m, newLen, off);
    var code;
    if ct == ShortTerm {
      code := mac(sha.value, CString(pwd), b.buf[..newLen - 4 - shasize]);
    } else {
      code := mac(sha.value, key, b.buf[..newLen - 4 - shasize]);
    }
    b.Store(2, Put16(origLen - STUN_HEADER_LENGTH));
    RestoreLen(m, newLen, origLen);
    if code.None? {
      return -1, sha;
    }
    assert b.buf[off + 4..newLen] == m[off + 4..newLen];
    if b.buf[off + 4..newLen] != code.value {
      return 0, sha;
    }
    return 1, sha;
  }

  lemma ReadableTotal(m: seq<byte>)
    requires Readable(m)
    ensures DeclaredLen(m) <= |m|
  {
  }

  /** What the memory starts with once the header length is replaced. */
  lemma StoredLen(m: seq<byte>, newLen: nat, off: nat)
    requires STUN_HEADER_LENGTH <= |m| && newLen >= STUN_HEADER_LENGTH && off <= |m|
    ensures Put(m, 2, Put16(newLen - STUN_HEADER_LENGTH))[..off] == WithLen(m, newLen)[..off]
  {
    hide Put16;
  }

  lemma RestoreLen(m: seq<byte>, newLen: nat, origLen: nat)
    requires |m| >= STUN_HEADER_LENGTH && newLen >= STUN_HEADER_LENGTH
    requires origLen == Get16(m, 2) + STUN_HEADER_LENGTH
    ensures Put(Put(m, 2, Put16(newLen - STUN_HEADER_LENGTH)), 2, Put16(origLen - STUN_HEADER_LENGTH)) == m
  {
    hide Put16, Get16;
    Get16Put16(m, 2);
    assert m[..2] + m[2..4] + m[4..] == m;
  }

  /* ---------- Fingerprint ---------- */

  const FINGERPRINT_XOR: bv32 := 0x5354_554E

  /** The checksum as the attribute stores it: XORed, in network order. */
  function FingerprintOctets(crc: Crc32.Word): (s: seq<byte>)
    ensures |s| == 4
  {
    WordOctets(crc.bits ^ FINGERPRINT_XOR)
  }

  function WordOctets(x: bv32): (s: seq<byte>)
    ensures |s| == 4
  {
    [FromBits((x >> 24) as bv8), FromBits(((x >> 16) & 0xFF) as bv8),
     FromBits(((x >> 8) & 0xFF) as bv8), FromBits((x & 0xFF) as bv8)]
  }

  /** The stored octets, in network order, are the checksum XOR 0x5354554E. */
  lemma FingerprintOrder(crc: Crc32.Word, x: bv32)
    requires x == crc.bits ^ 0x5354_554E
    ensures FingerprintOctets(crc) == WordOctets(x)
    ensures Bits(FingerprintOctets(crc)[0]) as bv32 << 24 == x & 0xFF00_0000
    ensures Bits(FingerprintOctets(crc)[1]) as bv32 << 16 == x & 0x00FF_0000
    ensures Bits(FingerprintOctets(crc)[2]) as bv32 << 8 == x & 0x0000_FF00
    ensures Bits(FingerprintOctets(crc)[3]) as bv32 == x & 0x0000_00FF
  {
    hide WordOctets, Bits;
    FirstOctet(x);
    SecondOctet(x);
    ThirdOctet(x);
    FourthOctet(x);
  }

  lemma FirstOctet(x: bv32)
    ensures Bits(WordOctets(x)[0]) as bv32 << 24 == x & 0xFF00_0000
  {
    FromBitsRoundTrip((x >> 24) as bv8);
  }

  lemma SecondOctet(x: bv32)
    ensures Bits(WordOctets(x)[1]) as bv32 << 16 == x & 0x00FF_0000
  {
    FromBitsRoundTrip(((x >> 16) & 0xFF) as bv8);
  }

  lemma ThirdOctet(x: bv32)
    ensures Bits(WordOctets(x)[2]) as bv32 << 8 == x & 0x0000_FF00
  {
    FromBitsRoundTrip(((x >> 8) & 0xFF) as bv8);
  }

  lemma FourthOctet(x: bv32)
    ensures Bits(WordOctets(x)[3]) as bv32 == x & 0x0000_00FF
  {
    FromBitsRoundTrip((x & 0xFF) as bv8);
  }

  lemma FingerprintBits(a: Crc32.Word, b: Crc32.Word)
    requires FingerprintOctets(a) == FingerprintOctets(b)
    ensures a.bits ^ FINGERPRINT_XOR == b.bits ^ FINGERPRINT_XOR
  {
    hide WordOctets;
    WordOctetsInjective(a.bits ^ FINGERPRINT_XOR, b.bits ^ FINGERPRINT_XOR);
  }

  lemma SameBits(a: Crc32.Word, b: Crc32.Word, k: bv32)
    requires a.bits ^ k == b.bits ^ k
    ensures a.bits == b.bits
  {
  }

  /** The stored octets determine the checksum. */
  lemma FingerprintInjective(a: Crc32.Word, b: Crc32.Word)
    requires FingerprintOctets(a) == FingerprintOctets(b)
    ensures a == b
  {
    hide FingerprintOctets;
    FingerprintBits(a, b);
    SameBits(a, b, FINGERPRINT_XOR);
    Crc32.EqualBits(a, b);
  }

  lemma WordOctetsInjective(x: bv32, y: bv32)
    requires WordOctets(x) == WordOctets(y)
    ensures x == y
  {
    var s, t := WordOctets(x), WordOctets(y);
    assert s[0] == t[0] && s[1] == t[1] && s[2] == t[2] && s[3] == t[3];
    OctetInjective((x >> 24) as bv8, (y >> 24) as bv8);
    OctetInjective(((x >> 16) & 0xFF) as bv8, ((y >> 16) & 0xFF) as bv8);
    OctetInjective(((x >> 8) & 0xFF) as bv8, ((y >> 8) & 0xFF) as bv8);
    OctetInjective((x & 0xFF) as bv8, (y & 0xFF) as bv8);
  }

  lemma OctetInjective(v: bv8, w: bv8)
    requires FromBits(v) == FromBits(w)
    ensures v == w
  {
    FromBitsRoundTrip(v);
    FromBitsRoundTrip(w);
  }

  const ZERO_FINGERPRINT: seq<byte> := [0, 0, 0, 0]

  /** stun_attr_add_fingerprint_str. The result of the inner add is not looked at: without
      room the last four octets of the message are overwritten all the same. */
  function AddFingerprint(s: seq<byte>): (r: seq<byte>)
    requires |s| >= STUN_HEADER_LENGTH
    ensures |r| >= |s|
  {
    var r := AddStr(s, Call(STUN_ATTRIBUTE_FINGERPRINT, ZERO_FINGERPRINT, []));
    r[..|r| - 4] + FingerprintOctets(Crc32.Reference(r[..|r| - 8]))
  }

  lemma AddFingerprintIsMessage(s: seq<byte>, attrs: seq<Attr>)
    requires IsMessage(s, attrs) && HasRoom(s, ZERO_FINGERPRINT)
    ensures var r := AddFingerprint(s);
      var code := FingerprintOctets(Crc32.Reference(WithLen(s, |s| + 8)));
      && r == Appended(s, STUN_ATTRIBUTE_FINGERPRINT, code, [])
      && IsMessage(r, attrs + [Attr(STUN_ATTRIBUTE_FINGERPRINT, code)])
      && Extends(s, r)
  {
    hide Lists, Put16, FingerprintOctets, Crc32.Reference;
    var r := Appended(s, STUN_ATTRIBUTE_FINGERPRINT, ZERO_FINGERPRINT, []);
    assert r[..|r| - 8] == WithLen(s, |s| + 8);
    var code := FingerprintOctets(Crc32.Reference(WithLen(s, |s| + 8)));
    assert r[..|r| - 4] == WithLen(s, |s| + 8) + Put16(STUN_ATTRIBUTE_FINGERPRINT) + Put16(4);
    AppendedParts(s, STUN_ATTRIBUTE_FINGERPRINT, code, []);
    AppendedIsMessage(s, attrs, STUN_ATTRIBUTE_FINGERPRINT, code, []);
  }

  /** stun_is_command_message_full_check_str: the answer, and what is stored through
      fingerprint_present, if anything. */
  datatype FullResult = FullResult(ok: bool, present: Option<bool>)

  /** The fingerprint value that the check reads lies inside the memory. Only a message that
      ends in a bare fingerprint header makes the code read behind it. */
  predicate FingerprintInside(m: seq<byte>, len: nat)
    requires len <= |m|
  {
    var s := m[..len];
    IsCommandMessage(s) ==>
      (var attr := Find(s, STUN_ATTRIBUTE_FINGERPRINT);
      attr.Some? && AttrLen(s, attr.value) == 4 ==> attr.value + 8 <= |m|)
  }

  /** The check of the first `len` octets of the memory `m`. */
  function FullCheck(m: seq<byte>, len: nat, mustCheck: bool): FullResult
    requires len <= |m| && FingerprintInside(m, len)
  {
    var s := m[..len];
    if !IsCommandMessage(s) then FullResult(false, None)
    else
      var attr := Find(s, STUN_ATTRIBUTE_FINGERPRINT);
      if attr.None? then
        FullResult(MethodOfType(TypeField(s)) == STUN_METHOD_BINDING || !mustCheck, Some(false))
      else
        var off := attr.value;
        if AttrLen(s, off) != 4 then FullResult(false, None)
        else if m[off + 4..off + 8] == FingerprintOctets(Crc32.Reference(s[..off])) then FullResult(true, Some(true))
        else FullResult(false, None)
  }

  /** What is appended, octet by octet: type 0x8028, length 4, and the checksum of the message
      under its final length. Without room the last four octets of the message give way to the
      checksum of all but its last eight. */
  lemma AddFingerprintExactly(s: seq<byte>)
    requires Consistent(s)
    ensures |s| + 8 <= 65504 ==>
      AddFingerprint(s) == WithLen(s, |s| + 8) + [0x80, 0x28, 0x00, 0x04] + FingerprintOctets(Crc32.Reference(WithLen(s, |s| + 8)))
    ensures |s| + 8 > 65504 ==>
      AddFingerprint(s) == s[..|s| - 4] + FingerprintOctets(Crc32.Reference(s[..|s| - 8]))
  {
    hide FingerprintOctets, Crc32.Reference, Get16, Consistent, WithLen;
    ConsistentFours(s);
    Put16Small(4);
    assert Put16(0x8028) == [0x80, 0x28];
    if |s| + 8 <= 65504 {
      var w := WithLen(s, |s| + 8);
      var r := Appended(s, 0x8028, ZERO_FINGERPRINT, []);
      assert r == w + [0x80, 0x28, 0x00, 0x04] + ZERO_FINGERPRINT;
      assert r[..|r| - 8] == w;
      assert r[..|r| - 4] == w + [0x80, 0x28, 0x00, 0x04];
    }
  }

  /** stun_attr_add_fingerprint_str: the buffer, whatever the header declares. */
  function FingerprintAdded(b: State): (r: State)
    requires Usable(b)
    ensures Usable(r)
  {
    var b1 := StrAdded(b, STUN_ATTRIBUTE_FINGERPRINT, ZERO_FINGERPRINT).1;
    State(Put(b1.mem, b1.len - 4, FingerprintOctets(Crc32.Reference(b1.mem[..b1.len - 8]))), b1.len)
  }

  /** Whatever the header declares: the inner add, its refusal included, and then the checksum of
      all but the last eight octets in the last four. */
  lemma FingerprintStores(b: State)
    requires Usable(b)
    ensures var added := StrAdded(b, 0x8028, [0, 0, 0, 0]).1;
      var b1 := FingerprintAdded(b);
      && b1.len == added.len
      && b1.mem[..b1.len - 4] == added.mem[..b1.len - 4] && b1.mem[b1.len..] == added.mem[b1.len..]
      && b1.mem[b1.len - 4..b1.len] == FingerprintOctets(Crc32.Reference(b1.mem[..b1.len - 8]))
  {
    hide StrAdded, FingerprintOctets, Crc32.Reference;
    var added := StrAdded(b, 0x8028, [0, 0, 0, 0]).1;
    var b1 := FingerprintAdded(b);
    assert b1.mem[..b1.len - 8] == added.mem[..b1.len - 8];
  }

  /** On a consistent message this is the abstract add. */
  lemma FingerprintAddedIsAdd(b: State)
    requires Usable(b) && Consistent(b.mem[..b.len])
    ensures var b1 := FingerprintAdded(b); b1.mem[..b1.len] == AddFingerprint(b.mem[..b.len])
  {
    hide RoundUp4, Put, Put16, Get16, StrAdded, Appended, FingerprintOctets, Crc32.Reference;
    StrAddedIsAppended(b, STUN_ATTRIBUTE_FINGERPRINT, ZERO_FINGERPRINT);
    var b1 := StrAdded(b, STUN_ATTRIBUTE_FINGERPRINT, ZERO_FINGERPRINT).1;
    RoundUpFour();
    if HasRoom(b.mem[..b.len], ZERO_FINGERPRINT) {
      assert b.mem[b.len + 4 + 4..b.len + 8] == [];
    }
    assert b1.mem[..b1.len] == AddStr(b.mem[..b.len], Call(STUN_ATTRIBUTE_FINGERPRINT, ZERO_FINGERPRINT, []));
    assert b1.mem[..b1.len][..b1.len - 8] == b1.mem[..b1.len - 8];
    StoredLast(b1.mem, b1.len, FingerprintOctets(Crc32.Reference(b1.mem[..b1.len - 8])));
  }

  lemma RoundUpFour()
    ensures RoundUp4(4) == 4
  {
  }

  /** In-place form. */
  method AddFingerprintStr(b: StunBuffer) returns (r: int)
    requires b.Valid() && STUN_HEADER_LENGTH <= b.len
    modifies b, b.buf
    ensures b.Valid() && r == 0
    ensures b.Value() == FingerprintAdded(old(b.Value()))
  {
    hide StrAdded, Put, FingerprintOctets, Crc32.Reference;
    assert ZERO_FINGERPRINT[..4] == ZERO_FINGERPRINT;
    var refused := b.AddStr(STUN_ATTRIBUTE_FINGERPRINT, Some(ZERO_FINGERPRINT), 4);
    ghost var b1 := b.Value();
    var crc32 := Crc32.NsCrc32(b.buf, b.len - 8);
    assert b.buf[..b.len - 8] == b1.mem[..b1.len - 8];
    b.Store(b.len - 4, FingerprintOctets(crc32));
    return 0;
  }

  /** In-place form. */
  method IsCommandMessageFullCheck(b: StunBuffer, mustCheck: bool) returns (ok: bool, present: Option<bool>)
    requires b.Valid() && FingerprintInside(b.buf[..], b.len)
    ensures FullResult(ok, present) == FullCheck(b.buf[..], b.len, mustCheck)
  {
    hide Find, FindIn, FingerprintOctets, Crc32.Reference;
    ghost var m := b.buf[..];
    assert m[..b.len] == b.Bytes();
    if !IsCommandMessage(b.Bytes()) {
      return false, None;
    }
    FindPrefix(b.Bytes(), m, STUN_ATTRIBUTE_FINGERPRINT);
    var sar := b.GetFirstByType(STUN_ATTRIBUTE_FINGERPRINT);
    if sar.None? {
      present := Some(false);
      if MethodOfType(TypeField(b.Bytes())) == STUN_METHOD_BINDING {
        return true, present;
      }
      return !mustCheck, present;
    }
    var off := sar.value;
    if AttrLen(b.Bytes(), off) != 4 {
      return false, None;
    }
    var crc32 := Crc32.NsCrc32(b.buf, off);
    assert b.buf[..off] == b.Bytes()[..off];
    ok := b.buf[off + 4..off + 8] == FingerprintOctets(crc32);
    present := if ok then Some(true) else None;
  }

  /* ---------- What was built is accepted ---------- */

  ghost predicate NoneOfType(attrs: seq<Attr>, t: nat) {
    forall i :: 0 <= i < |attrs| ==> attrs[i].typ != t
  }

  /** The first attribute of its type, once appended, is found right behind the message it was
      appended to, however the message grows afterwards. */
  lemma FoundBehind(s: seq<byte>, attrs: seq<Attr>, a: Attr, more: seq<Attr>, r: seq<byte>)
    requires IsMessage(s, attrs) && NoneOfType(attrs, a.typ)
    requires IsMessage(r, attrs + [a] + more)
    ensures Readable(r) && Find(r, a.typ) == Some(|s|) && StoredAt(r, |s|, a)
  {
    hide Lists, StoredAt, Find;
    var all := attrs + [a] + more;
    assert all == attrs + ([a] + more);
    OffsetBehind(s, attrs, [a] + more);
    assert FirstOfType(all, |attrs|, a.typ);
    FindListed(r, all, |attrs|, a.typ);
  }

  lemma ExtendsCommand(s: seq<byte>, r: seq<byte>)
    requires Consistent(s) && Consistent(r) && IsCommandMessage(s) && Extends(s, r)
    ensures IsCommandMessage(r)
  {
    assert r[0] == r[..2][0] && r[1] == r[..2][1] && s[0] == s[..2][0] && s[1] == s[..2][1];
    assert r[4..8] == r[4..|s|][..4] && s[4..8] == s[4..][..4];
    Get32Injective(s, 4, r, 4);
  }

  /** The check of a message does not look at the memory behind it. */
  lemma CheckPrefix(mac: Mac, secret: seq<byte>, s: seq<byte>, m: seq<byte>)
    requires MacSized(mac) && s <= m && |s| >= STUN_HEADER_LENGTH && Readable(s)
    ensures Walkable(m, |s|) && CheckIntegrity(mac, secret, m, |s|) == CheckIntegrity(mac, secret, s, |s|)
  {
    hide Find, FindIn, Put16, RoundUp4;
    FindPrefix(s, m, STUN_ATTRIBUTE_MESSAGE_INTEGRITY);
    FindPrefix(s, s, STUN_ATTRIBUTE_MESSAGE_INTEGRITY);
    var attr := Find(s, STUN_ATTRIBUTE_MESSAGE_INTEGRITY);
    if attr.Some? {
      var off := attr.value;
      assert m[..|s|] == s;
      SamePrefix16(m, |s|, off + 2);
      SamePrefix16(m, |s|, 2);
      ReadableTotal(s);
      var sha := ShaOfLen(AttrLen(s, off));
      if sha.Some? && off + 4 + ShaSize(sha.value) <= DeclaredLen(s) {
        var total := off + 4 + ShaSize(sha.value);
        assert m[off + 4..total] == s[off + 4..total];
        assert WithLen(m, total)[..off] == WithLen(s, total)[..off];
      }
    }
  }

  /** The verdict on any integrity value, genuine or not, however the message grew behind it and
      in any memory: 1 exactly when it is the keyed hash of the message in front of it, under
      the header length that ends with it, and 0 otherwise. */
  lemma IntegrityDecides(mac: Mac, secret: seq<byte>, s: seq<byte>, attrs: seq<Attr>, tag: seq<byte>,
                         r: seq<byte>, more: seq<Attr>, memory: seq<byte>)
    requires MacSized(mac) && IsMessage(s, attrs) && NoneOfType(attrs, 0x0008)
    requires Extends(s, r) && r <= memory && IsMessage(r, attrs + [Attr(0x0008, tag)] + more)
    ensures Walkable(memory, |r|)
    ensures |tag| != 20 && |tag| != 32 ==> CheckIntegrity(mac, secret, memory, |r|) == CheckResult(-1, None)
    ensures |tag| == 20 || |tag| == 32 ==>
      var sha := if |tag| == 32 then Sha256 else Sha1;
      var hash := mac(sha, secret, WithLen(s, |s| + 4 + |tag|));
      CheckIntegrity(mac, secret, memory, |r|)
        == CheckResult(if hash.None? then -1 else if hash.value == tag then 1 else 0, Some(sha))
  {
    hide Lists, Find, Get16;
    FoundBehind(s, attrs, Attr(0x0008, tag), more, r);
    MessageReadable(r, attrs + [Attr(0x0008, tag)] + more);
    ExtendsPrefix(s, r, |s| + 4 + |tag|);
    CheckPrefix(mac, secret, r, memory);
  }

  /** Without an integrity attribute the check fails. */
  lemma IntegrityMissing(mac: Mac, secret: seq<byte>, r: seq<byte>, attrs: seq<Attr>, memory: seq<byte>)
    requires MacSized(mac) && r <= memory && IsMessage(r, attrs) && NoneOfType(attrs, 0x0008)
    ensures Walkable(memory, |r|) && CheckIntegrity(mac, secret, memory, |r|) == CheckResult(-1, None)
  {
    hide Lists, Find, Get16;
    FindAbsent(r, attrs, STUN_ATTRIBUTE_MESSAGE_INTEGRITY);
    MessageReadable(r, attrs);
    CheckPrefix(mac, secret, r, memory);
  }

  function IntegrityTag(mac: Mac, sha: ShaType, secret: seq<byte>, s: seq<byte>): Option<seq<byte>>
    requires |s| >= STUN_HEADER_LENGTH
  {
    mac(sha, secret, WithLen(s, |s| + 4 + ShaSize(sha)))
  }

  /** However a message grows behind its integrity attribute, and in any memory, the check still
      accepts it. */
  lemma IntegrityHolds(mac: Mac, sha: ShaType, secret: seq<byte>, s: seq<byte>, attrs: seq<Attr>,
                       r: seq<byte>, more: seq<Attr>, memory: seq<byte>)
    requires MacSized(mac) && IsMessage(s, attrs) && NoneOfType(attrs, STUN_ATTRIBUTE_MESSAGE_INTEGRITY)
    requires IntegrityTag(mac, sha, secret, s).Some?
    requires Extends(s, r) && r <= memory
    requires IsMessage(r, attrs + [Attr(STUN_ATTRIBUTE_MESSAGE_INTEGRITY, IntegrityTag(mac, sha, secret, s).value)] + more)
    ensures Walkable(memory, |r|) && CheckIntegrity(mac, secret, memory, |r|) == CheckResult(1, Some(sha))
  {
    IntegrityDecides(mac, secret, s, attrs, IntegrityTag(mac, sha, secret, s).value, r, more, memory);
  }

  /** The verdict on any fingerprint value, wherever it sits, in any memory: accepted exactly when
      it is the checksum of all that precedes it in the message as received. */
  lemma FingerprintDecides(s: seq<byte>, attrs: seq<Attr>, v: seq<byte>, r: seq<byte>, more: seq<Attr>,
                           m: seq<byte>, mustCheck: bool)
    requires IsMessage(s, attrs) && NoneOfType(attrs, 0x8028) && IsCommandMessage(s)
    requires Extends(s, r) && r <= m && IsMessage(r, attrs + [Attr(0x8028, v)] + more)
    ensures FingerprintInside(m, |r|)
    ensures FullCheck(m, |r|, mustCheck) ==
      if |v| == 4 && v == FingerprintOctets(Crc32.Reference(r[..|s|])) then FullResult(true, Some(true))
      else FullResult(false, None)
  {
    hide Lists, Find, Get16, FingerprintOctets, Crc32.Reference, IsCommandMessage;
    FoundBehind(s, attrs, Attr(0x8028, v), more, r);
    MessageConsistent(s, attrs);
    MessageConsistent(r, attrs + [Attr(0x8028, v)] + more);
    ExtendsCommand(s, r);
    assert m[..|r|] == r;
    if |v| == 4 {
      assert m[|s| + 4..|s| + 8] == r[|s| + 4..|s| + 8];
    }
  }

  /** Without a fingerprint a command passes exactly when it is a binding message or need not
      have one. */
  lemma FingerprintMissing(r: seq<byte>, attrs: seq<Attr>, m: seq<byte>, mustCheck: bool)
    requires IsMessage(r, attrs) && NoneOfType(attrs, 0x8028) && IsCommandMessage(r) && r <= m
    ensures FingerprintInside(m, |r|)
    ensures FullCheck(m, |r|, mustCheck) == FullResult(GetMethod(r) == 0x001 || !mustCheck, Some(false))
  {
    hide Lists, Find, IsCommandMessage;
    FindAbsent(r, attrs, STUN_ATTRIBUTE_FINGERPRINT);
    assert m[..|r|] == r;
  }

  /** What is no command message fails, and nothing is stored. */
  lemma FullCheckRefuses(m: seq<byte>, len: nat, mustCheck: bool)
    requires len <= |m| && !IsCommandMessage(m[..len])
    ensures FingerprintInside(m, len) && FullCheck(m, len, mustCheck) == FullResult(false, None)
  {
    hide IsCommandMessage, Find;
  }

  /** A fingerprint added last is accepted, in any memory. */
  lemma FingerprintHolds(s: seq<byte>, attrs: seq<Attr>, m: seq<byte>, mustCheck: bool)
    requires IsMessage(s, attrs) && NoneOfType(attrs, STUN_ATTRIBUTE_FINGERPRINT)
    requires IsCommandMessage(s) && HasRoom(s, ZERO_FINGERPRINT)
    requires AddFingerprint(s) <= m
    ensures FingerprintInside(m, |AddFingerprint(s)|)
    ensures FullCheck(m, |AddFingerprint(s)|, mustCheck) == FullResult(true, Some(true))
  {
    hide Lists, Find, Get16, FingerprintOctets, Crc32.Reference, AddFingerprint, IsCommandMessage;
    var r := AddFingerprint(s);
    var code := FingerprintOctets(Crc32.Reference(WithLen(s, |s| + 8)));
    AddFingerprintIsMessage(s, attrs);
    assert attrs + [Attr(STUN_ATTRIBUTE_FINGERPRINT, code)] + [] == attrs + [Attr(STUN_ATTRIBUTE_FINGERPRINT, code)];
    FoundBehind(s, attrs, Attr(STUN_ATTRIBUTE_FINGERPRINT, code), [], r);
    ExtendsCommand(s, r);
    assert m[..|r|] == r;
    assert r[..|s|] == WithLen(s, |s| + 8);
    assert m[|s| + 4..|s| + 8] == r[|s| + 4..|s| + 8];
  }

  /** The whole life of a message: initialise, add attributes, add the integrity attribute,
      add more attributes, add the fingerprint last. With room for the last two, both checks
      accept the result in any memory, although the header length has grown since the code
      was computed. */
  lemma BuildThenVerify(c: MessageClass, m: bv16, tid: seq<byte>, before: seq<Call>,
                        mac: Mac, sha: ShaType, secret: seq<byte>, garbage: seq<byte>,
                        after: seq<Call>, memory: seq<byte>, mustCheck: bool)
    requires |tid| == 12 && MacSized(mac) && IntegrityCall(sha, garbage)
    requires forall i :: 0 <= i < |before| ==> ValidCall(before[i])
    requires forall i :: 0 <= i < |after| ==> ValidCall(after[i])
    requires var s0 := Header(TypeFor(c, m), STUN_MAGIC_COOKIE, tid);
      && NoneOfType(Accepted(s0, before), STUN_ATTRIBUTE_MESSAGE_INTEGRITY)
      && NoneOfType(Accepted(s0, before), STUN_ATTRIBUTE_FINGERPRINT)
      && AddIntegrity(mac, sha, secret, AddAll(s0, before), garbage).0 == 0
    requires var s2 := AddIntegrity(mac, sha, secret, AddAll(Header(TypeFor(c, m), STUN_MAGIC_COOKIE, tid), before), garbage).1;
      && NoneOfType(Accepted(s2, after), STUN_ATTRIBUTE_FINGERPRINT)
      && HasRoom(AddAll(s2, after), ZERO_FINGERPRINT)
      && AddFingerprint(AddAll(s2, after)) <= memory
    ensures var r := AddFingerprint(AddAll(AddIntegrity(mac, sha, secret,
        AddAll(Header(TypeFor(c, m), STUN_MAGIC_COOKIE, tid), before), garbage).1, after));
      && Walkable(memory, |r|) && FingerprintInside(memory, |r|)
      && CheckIntegrity(mac, secret, memory, |r|) == CheckResult(1, Some(sha))
      && FullCheck(memory, |r|, mustCheck) == FullResult(true, Some(true))
      && Recognised(r, c, m, tid)
  {
    hide Lists, Header, TypeFor, AddAll, Accepted, AddIntegrity, AddFingerprint, Recognised, CheckIntegrity,
      FullCheck, Extends, FingerprintOctets, Crc32.Reference, HasRoom, Appended, IsMessage, Consistent;
    var s0 := Header(TypeFor(c, m), STUN_MAGIC_COOKIE, tid);
    FreshMessage(TypeFor(c, m), STUN_MAGIC_COOKIE, tid);
    FreshRecognised(c, m, tid);
    var s1 := AddAll(s0, before);
    var attrs1 := Accepted(s0, before);
    AddAllIsMessage(s0, [], before);
    assert [] + attrs1 == attrs1;
    var s2 := AddIntegrity(mac, sha, secret, s1, garbage).1;
    AddIntegrityIsMessage(mac, sha, secret, s1, attrs1, garbage);
    var tag := Attr(STUN_ATTRIBUTE_MESSAGE_INTEGRITY, IntegrityTag(mac, sha, secret, s1).value);
    var s3 := AddAll(s2, after);
    var attrs3 := attrs1 + [tag] + Accepted(s2, after);
    AddAllIsMessage(s2, attrs1 + [tag], after);
    var r := AddFingerprint(s3);
    AddFingerprintIsMessage(s3, attrs3);
    var fp := Attr(STUN_ATTRIBUTE_FINGERPRINT, FingerprintOctets(Crc32.Reference(WithLen(s3, |s3| + 8))));
    assert attrs3 + [fp] == attrs1 + [tag] + (Accepted(s2, after) + [fp]);
    ExtendsTransitive(s0, s1, s2);
    ExtendsTransitive(s0, s2, s3);
    ExtendsTransitive(s0, s3, r);
    ExtendsTransitive(s1, s2, s3);
    ExtendsTransitive(s1, s3, r);
    MessageConsistent(s0, []);
    MessageConsistent(s3, attrs3);
    MessageConsistent(r, attrs3 + [fp]);
    IntegrityHolds(mac, sha, secret, s1, attrs1, r, Accepted(s2, after) + [fp], memory);
    ExtendsRecognised(s0, s3, c, m, tid);
    RecognisedCommand(s3, c, m, tid);
    FingerprintHolds(s3, attrs3, memory, mustCheck);
    ExtendsRecognised(s0, r, c, m, tid);
  }

  lemma MessageConsistent(s: seq<byte>, attrs: seq<Attr>)
    requires IsMessage(s, attrs)
    ensures Consistent(s)
  {
  }

  lemma RecognisedCommand(s: seq<byte>, c: MessageClass, m: bv16, tid: seq<byte>)
    requires Recognised(s, c, m, tid)
    ensures IsCommandMessage(s)
  {
  }

  /** A command message whose first fingerprint is at `off`. */
  predicate FingerprintAt(s: seq<byte>, off: nat) {
    IsCommandMessage(s) && Find(s, STUN_ATTRIBUTE_FINGERPRINT) == Some(off)
  }

  /** The fingerprint tells apart any two messages that differ before it only in a burst of at
      most 32 bits: at most one of them passes. */
  lemma FingerprintDetects(m: seq<byte>, n: seq<byte>, len: nat, off: nat, k: nat, w: nat, p: bv32, mustCheck: bool)
    requires len <= |m| && len <= |n| && off + 8 <= len
    requires FingerprintAt(m[..len], off) && FingerprintAt(n[..len], off)
    requires m[off..len] == n[off..len] && m[..off] != n[..off]
    requires k + w <= off && m[..k] == n[..k] && m[k + w..off] == n[k + w..off]
    requires Crc32.Burst(m[k..k + w], n[k..k + w], p)
    ensures FingerprintInside(m, len) && FingerprintInside(n, len)
    ensures !FullCheck(m, len, mustCheck).ok || !FullCheck(n, len, mustCheck).ok
  {
    hide Find, FingerprintOctets, Crc32.Reference, Crc32.Burst, IsCommandMessage;
    var a, b := m[..len][..off], n[..len][..off];
    assert a == m[..off] && b == n[..off];
    assert a[..k] == m[..k] && b[..k] == n[..k];
    SliceOfSlice(m, 0, off, k, k + w);
    SliceOfSlice(n, 0, off, k, k + w);
    SliceOfSlice(m, 0, off, k + w, off);
    SliceOfSlice(n, 0, off, k + w, off);
    assert m[0..off] == a && n[0..off] == b;
    Crc32.BurstDetected(a, b, k, w, p);
    SliceOfSlice(m, off, len, 4, 8);
    SliceOfSlice(n, off, len, 4, 8);
    if FullCheck(m, len, mustCheck).ok && FullCheck(n, len, mustCheck).ok {
      FingerprintInjective(Crc32.Reference(a), Crc32.Reference(b));
    }
  }
}
