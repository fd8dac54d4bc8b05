/** Error responses and authentication challenges. */
module StunErrors {
  import opened Options
  import opened Octets
  import opened StunDefs
  import opened StunWire
  import opened StunBuffers
  import opened StunClassify

  const SHA_TOO_WEAK := 426

  function Ascii(s: string): seq<byte> {
    seq(|s|, i requires 0 <= i < |s| => (s[i] as int % 128) as byte)
  }

  /** The reason used when the caller gives none. */
  function DefaultReason(code: nat): seq<byte> {
    match code
    case 300 => Ascii("Try Alternate")
    case 400 => Ascii("Bad Request")
    case 401 => Ascii("Unauthorized")
    case 404 => Ascii("Not Found")
    case 420 => Ascii("Unknown Attribute")
    case 438 => Ascii("Stale Nonce")
    case 500 => Ascii("Server Error")
    case _ => Ascii("Unknown Error")
  }

  /** A given reason is used as it is; without one the text depends on the code. */
  lemma ReasonsExactly(code: nat, reason: seq<byte>)
    ensures ReasonOr(code, Some(reason)) == reason
    ensures code == 300 ==> ReasonOr(code, None) == Ascii("Try Alternate")
    ensures code == 400 ==> ReasonOr(code, None) == Ascii("Bad Request")
    ensures code == 401 ==> ReasonOr(code, None) == Ascii("Unauthorized")
    ensures code == 404 ==> ReasonOr(code, None) == Ascii("Not Found")
    ensures code == 420 ==> ReasonOr(code, None) == Ascii("Unknown Attribute")
    ensures code == 438 ==> ReasonOr(code, None) == Ascii("Stale Nonce")
    ensures code == 500 ==> ReasonOr(code, None) == Ascii("Server Error")
    ensures code !in {300, 400, 401, 404, 420, 438, 500} ==> ReasonOr(code, None) == Ascii("Unknown Error")
  {
    hide Ascii;
  }

  lemma AsciiExactly(s: string)
    requires forall i :: 0 <= i < |s| ==> s[i] as int < 128
    ensures |Ascii(s)| == |s| && forall i :: 0 <= i < |s| ==> Ascii(s)[i] as int == s[i] as int
  {
  }

  /* ---------- Building ---------- */

  function Cut(s: seq<byte>, n: nat): (r: seq<byte>)
    ensures r <= s && |r| == if |s| <= n then |s| else n
  {
    if |s| <= n then s else s[..n]
  }

  function Zeros(n: nat): (r: seq<byte>)
    ensures |r| == n && forall i :: 0 <= i < n ==> r[i] == 0
  {
    seq(n, i => 0)
  }

  /** The ERROR-CODE value: class and number, the reason cut to 508 octets, and zeros up to a
      multiple of four, which count as part of the value. */
  function ErrorValue(code: nat, reason: seq<byte>): (v: seq<byte>)
    ensures |v| == 4 + RoundUp4(|Cut(CString(reason), 508)|)
  {
    var text := Cut(CString(reason), 508);
    [0, 0, (code / 100 % 256) as byte, (code % 100) as byte] + text + Zeros(RoundUp4(|text|) - |text|)
  }

  /** Octet by octet: two zeros, the hundreds, the rest, at most 508 octets of text, zeros. */
  lemma ErrorValueExactly(code: nat, reason: seq<byte>)
    requires code < 25600
    ensures var text, v := CString(reason), ErrorValue(code, reason);
      var n := if |text| > 508 then 508 else |text|;
      && 4 + n <= |v| < 8 + n && |v| % 4 == 0
      && v[0] == 0 && v[1] == 0 && v[2] as int == code / 100 && v[3] as int == code % 100
      && v[4..4 + n] == text[..n]
      && forall i :: 4 + n <= i < |v| ==> v[i] == 0
  {
    hide CString;
    var text := Cut(CString(reason), 508);
    var pad := Zeros(RoundUp4(|text|) - |text|);
    assert ErrorValue(code, reason)[4..] == text + pad;
  }

  /** strncpy: at most `n` octets, zero-filled. */
  method StrNCpy(dst: array<byte>, at: nat, src: seq<byte>, n: nat)
    requires at + n <= dst.Length
    modifies dst
    ensures dst[..at] == old(dst[..at]) && dst[at + n..] == old(dst[at + n..])
    ensures dst[at..at + n] == Cut(CString(src), n) + Zeros(n - |Cut(CString(src), n)|)
  {
    var text := Cut(CString(src), n);
    ghost var full := text + Zeros(n - |text|);
    var i := 0;
    while i < n
      invariant 0 <= i <= n
      invariant dst[..at] == old(dst[..at]) && dst[at + n..] == old(dst[at + n..])
      invariant dst[at..at + i] == full[..i]
    {
      dst[at + i] := if i < |text| then text[i] else 0;
      assert dst[at..at + i + 1] == dst[at..at + i] + [full[i]];
      assert full[..i + 1] == full[..i] + [full[i]];
      i := i + 1;
    }
    assert full[..n] == full;
  }

  /** strlen of the octets from `at` on. */
  method StrLen(s: array<byte>, at: nat) returns (n: nat)
    requires at < s.Length && 0 in s[at..]
    ensures at + n < s.Length && s[at..at + n] == CString(s[at..])
  {
    hide CString;
    n := 0;
    while s[at + n] != 0
      invariant at + n < s.Length && 0 in s[at + n..]
      invariant 0 !in s[at..at + n]
      decreases s.Length - n
    {
      assert s[at + n..] == [s[at + n]] + s[at + n + 1..];
      assert s[at..at + n + 1] == s[at..at + n] + [s[at + n]];
      n := n + 1;
    }
    CStringIs(s[at..], n);
    assert s[at..][..n] == s[at..at + n];
  }

  lemma {:induction false} CStringIs(s: seq<byte>, n: nat)
    requires n <= |s| && 0 !in s[..n]
    ensures n < |s| && s[n] == 0 ==> CString(s) == s[..n]
    ensures n == |s| ==> CString(s) == s
    decreases n
  {
    if n > 0 {
      assert s[0] == s[..n][0];
      assert s[1..][..n - 1] == s[..n][1..];
      CStringIs(s[1..], n - 1);
      assert s == [s[0]] + s[1..];
    }
  }

  /** Overwriting the last of 509 copied octets cuts the text to 508. */
  lemma CutLast(c: seq<byte>, body: seq<byte>)
    requires |body| == 509 && body[508] == 0
    requires body[..508] == (Cut(c, 509) + Zeros(509 - |Cut(c, 509)|))[..508]
    ensures body == Cut(c, 508) + Zeros(509 - |Cut(c, 508)|)
  {
    var text, full := Cut(c, 508), Cut(c, 509) + Zeros(509 - |Cut(c, 509)|);
    forall k | 0 <= k < 509
      ensures body[k] == (text + Zeros(509 - |text|))[k]
    {
      if k < 508 {
        assert body[k] == body[..508][k] == full[k];
      }
    }
  }

  lemma CStringOfText(c: seq<byte>, n: nat)
    requires 0 !in c && n > 0
    ensures CString(c + Zeros(n)) == c
  {
    var s := c + Zeros(n);
    assert s[..|c|] == c;
    CStringIs(s, |c|);
  }

  /** The ERROR-CODE value, assembled in a local buffer. */
  method MakeErrorValue(code: nat, reason: seq<byte>) returns (v: seq<byte>)
    ensures v == ErrorValue(code, reason)
  {
    hide CString, Cut, Zeros, RoundUp4;
    var avalue := new byte[513];
    avalue[0], avalue[1] := 0, 0;
    avalue[2] := (code / 100 % 256) as byte;
    avalue[3] := (code % 100) as byte;
    ghost var head := avalue[..4];
    assert head == [0, 0, (code / 100 % 256) as byte, (code % 100) as byte];
    StrNCpy(avalue, 4, reason, 509);
    ghost var copied := avalue[4..513];
    avalue[512] := 0;
    ghost var c := CString(reason);
    ghost var text := Cut(c, 508);
    assert avalue[..4] == head;
    assert avalue[4..][..508] == copied[..508];
    CutLast(c, avalue[4..]);
    ghost var body := text + Zeros(509 - |text|);
    var len := StrLen(avalue, 4);
    assert 0 !in text;
    CStringOfText(text, 509 - |text|);
    assert |text| == len;
    var alen := RoundUp4(4 + len);
    v := avalue[..alen];
    ValueLayout(avalue[..], head, text, alen);
  }

  lemma ValueLayout(m: seq<byte>, head: seq<byte>, text: seq<byte>, alen: nat)
    requires |m| == 513 && m[..4] == head && |text| <= 508
    requires m[4..] == text + Zeros(509 - |text|) && alen == RoundUp4(4 + |text|)
    ensures alen <= 513 && m[..alen] == head + text + Zeros(RoundUp4(|text|) - |text|)
  {
    assert alen == 4 + RoundUp4(|text|);
    assert m == m[..4] + m[4..];
    assert Zeros(509 - |text|)[..RoundUp4(|text|) - |text|] == Zeros(RoundUp4(|text|) - |text|);
    assert m[..alen] == head + m[4..][..alen - 4];
  }

  function ReasonOr(code: nat, reason: Option<seq<byte>>): seq<byte> {
    if reason.Some? then reason.value else DefaultReason(code)
  }

  lemma ErrorValuePadded(code: nat, reason: seq<byte>)
    ensures IsPadding([], ErrorValue(code, reason))
    ensures |ErrorValue(code, reason)| <= 512
  {
  }

  /** The error response with no further attributes. */
  function ErrorResponseOf(m: bv16, tid: seq<byte>, code: nat, reason: seq<byte>): (r: seq<byte>)
    requires |tid| == 12
    ensures |r| >= STUN_HEADER_LENGTH
  {
    ErrorValuePadded(code, reason);
    Appended(Header(TypeFor(ErrorResponse, m), STUN_MAGIC_COOKIE, tid), STUN_ATTRIBUTE_ERROR_CODE, ErrorValue(code, reason), [])
  }

  /** stun_init_error_response_str. */
  method InitErrorResponse(b: StunBuffer, m: bv16, tid: seq<byte>, code: nat, reason: Option<seq<byte>>, id: Option<seq<byte>>)
    requires b.Valid() && |tid| == 12 && (id.Some? ==> |id.value| == 12)
    modifies b, b.buf
    ensures b.Valid()
    ensures b.Bytes() == ErrorResponseOf(m, if id.Some? then id.value else tid, code, ReasonOr(code, reason))
  {
    hide ErrorValue, Header, TypeFor, Put16, Get16, DefaultReason, Appended, Put;
    b.InitCommand(TypeFor(ErrorResponse, m), STUN_MAGIC_COOKIE, tid);
    FreshMessage(TypeFor(ErrorResponse, m), STUN_MAGIC_COOKIE, tid);
    ghost var s := b.Bytes();
    ghost var mem := b.buf[..];
    var v := MakeErrorValue(code, ReasonOr(code, reason));
    assert b.buf[..] == mem;
    ErrorValuePadded(code, ReasonOr(code, reason));
    var r := b.Add(STUN_ATTRIBUTE_ERROR_CODE, v);
    assert mem[|s| + 4 + |v|..|s| + 4 + RoundUp4(|v|)] == [];
    if id.Some? {
      StoreId(b, m, tid, id.value, v);
    }
  }

  method StoreId(b: StunBuffer, m: bv16, tid: seq<byte>, id: seq<byte>, v: seq<byte>)
    requires b.Valid() && |tid| == 12 && |id| == 12 && IsPadding([], v)
    requires b.Bytes() == Appended(Header(TypeFor(ErrorResponse, m), STUN_MAGIC_COOKIE, tid), STUN_ATTRIBUTE_ERROR_CODE, v, [])
    modifies b.buf
    ensures b.Bytes() == Appended(Header(TypeFor(ErrorResponse, m), STUN_MAGIC_COOKIE, id), STUN_ATTRIBUTE_ERROR_CODE, v, [])
  {
    hide TypeFor, Header, Appended, Put;
    PutInside(b.buf[..], b.len, 8, id);
    b.Store(8, id);
    CopyId(m, tid, id, v);
  }

  /** Copying a transaction id over the message is the same as having started with it. */
  lemma CopyId(m: bv16, tid: seq<byte>, id: seq<byte>, v: seq<byte>)
    requires |tid| == 12 && |id| == 12 && IsPadding([], v)
    ensures Put(Appended(Header(TypeFor(ErrorResponse, m), STUN_MAGIC_COOKIE, tid), STUN_ATTRIBUTE_ERROR_CODE, v, []), 8, id)
         == Appended(Header(TypeFor(ErrorResponse, m), STUN_MAGIC_COOKIE, id), STUN_ATTRIBUTE_ERROR_CODE, v, [])
  {
    hide TypeFor, TypeOctets, Put16, Put32, RoundUp4;
  }

  /* ---------- Parsing ---------- */

  /** The value of the first attribute of type `t` lies inside the memory. */
  predicate ValueInside(m: seq<byte>, len: nat, t: nat)
    requires Walkable(m, len)
  {
    var attr := FindIn(m, len, t);
    attr.Some? ==> attr.value + 4 + AttrLen(m, attr.value) <= |m|
  }

  /** stun_attr_get_value of the first attribute of a type; an empty value reads as none. */
  function ValueOf(m: seq<byte>, len: nat, t: nat): Option<seq<byte>>
    requires Walkable(m, len) && ValueInside(m, len, t)
  {
    var attr := FindIn(m, len, t);
    if attr.None? || AttrLen(m, attr.value) < 1 then None
    else Some(m[attr.value + 4..attr.value + 4 + AttrLen(m, attr.value)])
  }

  /** The answer of stun_is_error_response_str, the code it stores, and the message octets it
      copies in front of a zero; nothing is stored where a field is None. */
  datatype ErrorResult = ErrorResult(isError: bool, code: Option<nat>, msg: Option<seq<byte>>)

  /** What the parser of an error response reads is there. */
  predicate ErrorInside(m: seq<byte>, len: nat) {
    && len <= |m|
    && (IsOfClass(m[..len], ErrorResponse) ==> Walkable(m, len) && ValueInside(m, len, STUN_ATTRIBUTE_ERROR_CODE))
  }

  /** Parsing the first `len` octets of the memory `m`. */
  function ParseError(m: seq<byte>, len: nat, msgSize: nat): ErrorResult
    requires ErrorInside(m, len)
  {
    if !IsOfClass(m[..len], ErrorResponse) then ErrorResult(false, None, None)
    else
      var v := ValueOf(m, len, STUN_ATTRIBUTE_ERROR_CODE);
      if v.None? || |v.value| < 4 then ErrorResult(true, None, None)
      else
        ErrorResult(true, Some(v.value[2] as nat * 100 + v.value[3] as nat),
                    if msgSize == 0 then None else Some(Cut(v.value[4..], msgSize - 1)))
  }

  /** The parse in terms of the memory. */
  lemma ErrorParsed(m: seq<byte>, len: nat, size: nat)
    requires ErrorInside(m, len)
    ensures len <= |m|
    ensures !IsOfClass(m[..len], ErrorResponse) ==> ParseError(m, len, size) == ErrorResult(false, None, None)
    ensures IsOfClass(m[..len], ErrorResponse) ==>
      && Walkable(m, len)
      && var attr := FindIn(m, len, 0x0009);
      if attr.None? || AttrLen(m, attr.value) < 4 then ParseError(m, len, size) == ErrorResult(true, None, None)
      else
        var val, n := attr.value + 4, AttrLen(m, attr.value);
        && val + n <= |m|
        && ParseError(m, len, size) == ErrorResult(true, Some(m[val + 2] as nat * 100 + m[val + 3] as nat),
             if size == 0 then None else Some(Cut(m[val + 4..val + n], size - 1)))
  {
    hide FindIn, IsOfClass, Cut, Get16;
    if IsOfClass(m[..len], ErrorResponse) {
      var attr := FindIn(m, len, STUN_ATTRIBUTE_ERROR_CODE);
      if attr.Some? && AttrLen(m, attr.value) >= 4 {
        var val, n := attr.value + 4, AttrLen(m, attr.value);
        assert m[val..val + n][4..] == m[val + 4..val + n];
      }
    }
  }

  method IsErrorResponse(b: StunBuffer, errMsg: array<byte>) returns (isError: bool, code: Option<nat>)
    requires b.Valid() && ErrorInside(b.buf[..], b.len)
    requires errMsg != b.buf
    modifies errMsg
    ensures var r := ParseError(b.buf[..], b.len, errMsg.Length);
      && r.isError == isError && r.code == code
      && (r.msg.None? ==> errMsg[..] == old(errMsg[..]))
      && (r.msg.Some? ==> r.msg.value + [0] <= errMsg[..])
  {
    hide FindIn, IsOfClass, Cut, Get16, ErrorInside, ParseError, Walkable;
    ghost var m := b.buf[..];
    assert m[..b.len] == b.Bytes();
    ErrorParsed(m, b.len, errMsg.Length);
    if !IsOfClass(b.Bytes(), ErrorResponse) {
      return false, None;
    }
    isError, code := true, None;
    var sar := b.GetFirstByType(STUN_ATTRIBUTE_ERROR_CODE);
    if sar.Some? {
      var n := AttrLen(b.buf[..], sar.value);
      if n >= 4 {
        var val := sar.value + 4;
        assert b.buf[val + 4..val + n] == m[val + 4..val + n];
        var number := ReadError(b.buf, val, n, errMsg);
        code := Some(number);
      }
    }
  }

  /** The code of an ERROR-CODE value of `n` octets; its phrase is copied when there is an
      output for it. */
  method ReadError(buf: array<byte>, val: nat, n: nat, errMsg: array<byte>) returns (code: nat)
    requires val + n <= buf.Length && n >= 4 && errMsg != buf
    modifies errMsg
    ensures code == buf[val + 2] as nat * 100 + buf[val + 3] as nat
    ensures errMsg.Length == 0 ==> errMsg[..] == old(errMsg[..])
    ensures errMsg.Length > 0 ==> Cut(buf[val + 4..val + n], errMsg.Length - 1) + [0] <= errMsg[..]
  {
    hide Cut;
    code := buf[val + 2] as nat * 100 + buf[val + 3] as nat;
    if errMsg.Length > 0 {
      CopyMessage(buf, val + 4, n - 4, errMsg);
    }
  }

  /** The reason phrase of `n` octets, cut at the size of the output and zero-terminated. */
  method CopyMessage(buf: array<byte>, at: nat, n: nat, errMsg: array<byte>)
    requires at + n <= buf.Length && errMsg.Length > 0 && errMsg != buf
    modifies errMsg
    ensures Cut(buf[at..at + n], errMsg.Length - 1) + [0] <= errMsg[..]
  {
    var msgLen := n;
    if msgLen > errMsg.Length - 1 {
      msgLen := errMsg.Length - 1;
    }
    forall i | 0 <= i < msgLen {
      errMsg[i] := buf[at + i];
    }
    errMsg[msgLen] := 0;
    assert Cut(buf[at..at + n], errMsg.Length - 1) == buf[at..at + msgLen];
  }

  datatype ChallengeResult = ChallengeResult(ok: bool, realm: Option<seq<byte>>, nonce: Option<seq<byte>>)

  predicate ChallengeCode(code: nat) { code == 401 || code == 438 || code == SHA_TOO_WEAK }

  /** The caller's code variable after parsing, which held `before`. */
  function CodeAfter(m: seq<byte>, len: nat, before: nat): nat
    requires ErrorInside(m, len)
  {
    var e := ParseError(m, len, 0);
    if e.code.Some? then e.code.value else before
  }

  /** The parser of a challenge goes on to REALM and NONCE. */
  predicate Challenged(m: seq<byte>, len: nat, before: nat)
    requires ErrorInside(m, len)
  {
    ParseError(m, len, 0).isError && ChallengeCode(CodeAfter(m, len, before))
  }

  /** What the parser of a challenge reads is there. */
  predicate ChallengeInside(m: seq<byte>, len: nat, before: nat) {
    && ErrorInside(m, len)
    && (Challenged(m, len, before) ==>
      && ValueInside(m, len, STUN_ATTRIBUTE_REALM)
      && (ValueOf(m, len, STUN_ATTRIBUTE_REALM).Some? ==> ValueInside(m, len, STUN_ATTRIBUTE_NONCE)))
  }

  /** stun_is_challenge_response_str on the first `len` octets of the memory `m`. */
  function ParseChallenge(m: seq<byte>, len: nat, before: nat): ChallengeResult
    requires ChallengeInside(m, len, before)
  {
    if !Challenged(m, len, before) then ChallengeResult(false, None, None)
    else
      var realm := ValueOf(m, len, STUN_ATTRIBUTE_REALM);
      if realm.None? then ChallengeResult(false, None, None)
      else
        var nonce := ValueOf(m, len, STUN_ATTRIBUTE_NONCE);
        ChallengeResult(nonce.Some?, realm, nonce)
  }

  /** A challenge is an error response with code 401, 438 or 426, new or left from before, that
      carries a REALM and a NONCE which are not empty; it is a challenge only then. REALM is
      stored as soon as the code is one of these. */
  lemma ChallengeExactly(m: seq<byte>, len: nat, before: nat)
    requires ChallengeInside(m, len, before)
    ensures var e, r := ParseError(m, len, 0), ParseChallenge(m, len, before);
      var code := if e.code.Some? then e.code.value else before;
      && CodeAfter(m, len, before) == code
      && (!(e.isError && (code == 401 || code == 438 || code == 426)) ==> r == ChallengeResult(false, None, None))
      && (e.isError && (code == 401 || code == 438 || code == 426) ==>
        && Walkable(m, len) && ValueInside(m, len, 0x0014)
        && r.realm == ValueOf(m, len, 0x0014)
        && (r.realm.Some? ==> ValueInside(m, len, 0x0015) && r.nonce == ValueOf(m, len, 0x0015))
        && (r.realm.None? ==> r.nonce.None?)
        && (r.ok <==> r.realm.Some? && r.nonce.Some?))
  {
    hide ParseError, ValueOf, ValueInside, Walkable;
    SizeNotMatters(m, len, 0);
  }

  /** The output has room for the value and its zero. */
  predicate Fits(v: Option<seq<byte>>, room: nat) { v.Some? ==> |v.value| < room }

  method IsChallengeResponse(b: StunBuffer, before: nat, errMsg: array<byte>, realm: array<byte>, nonce: array<byte>)
    returns (ok: bool, code: nat)
    requires b.Valid() && ChallengeInside(b.buf[..], b.len, before)
    requires errMsg != b.buf && realm != b.buf && nonce != b.buf && errMsg != realm && errMsg != nonce && realm != nonce
    requires var r := ParseChallenge(b.buf[..], b.len, before);
      Fits(r.realm, realm.Length) && Fits(r.nonce, nonce.Length)
    modifies errMsg, realm, nonce
    ensures var r := ParseChallenge(b.buf[..], b.len, before);
      && r.ok == ok && code == CodeAfter(b.buf[..], b.len, before)
      && (if r.realm.Some? then r.realm.value + [0] <= realm[..] else realm[..] == old(realm[..]))
      && (if r.nonce.Some? then r.nonce.value + [0] <= nonce[..] else nonce[..] == old(nonce[..]))
    ensures var e := ParseError(b.buf[..], b.len, errMsg.Length);
      if e.msg.Some? then e.msg.value + [0] <= errMsg[..] else errMsg[..] == old(errMsg[..])
  {
    hide FindIn, IsOfClass, ValueInside, ValueOf, ParseError, Walkable;
    ghost var m := b.buf[..];
    SizeNotMatters(m, b.len, errMsg.Length);
    ok, code := false, before;
    var ret, stored := IsErrorResponse(b, errMsg);
    if stored.Some? {
      code := stored.value;
    }
    assert code == CodeAfter(m, b.len, before);
    if ret && ChallengeCode(code) {
      var value := GetValue(b, STUN_ATTRIBUTE_REALM);
      if value.Some? {
        CopyString(realm, value.value);
        assert b.buf[..] == m;
        value := GetValue(b, STUN_ATTRIBUTE_NONCE);
        if value.Some? {
          CopyString(nonce, value.value);
          assert b.buf[..] == m;
          ok := true;
        }
      }
    }
  }

  /** Answer and code do not depend on the room for the reason. */
  lemma SizeNotMatters(m: seq<byte>, len: nat, size: nat)
    requires ErrorInside(m, len)
    ensures ParseError(m, len, size).isError == ParseError(m, len, 0).isError
    ensures ParseError(m, len, size).code == ParseError(m, len, 0).code
    ensures ParseError(m, len, size).isError ==> Walkable(m, len)
  {
    hide FindIn, IsOfClass;
  }

  /** The value of the first attribute of a type. */
  method GetValue(b: StunBuffer, t: nat) returns (v: Option<seq<byte>>)
    requires b.Valid() && Walkable(b.buf[..], b.len) && ValueInside(b.buf[..], b.len, t)
    ensures v == ValueOf(b.buf[..], b.len, t)
  {
    hide FindIn;
    var sar := b.GetFirstByType(t);
    if sar.None? {
      return None;
    }
    var n := AttrLen(b.buf[..], sar.value);
    if n < 1 {
      return None;
    }
    v := Some(b.buf[sar.value + 4..sar.value + 4 + n]);
    assert v.value == b.buf[..][sar.value + 4..sar.value + 4 + n];
  }

  method CopyString(dst: array<byte>, v: seq<byte>)
    requires |v| < dst.Length
    modifies dst
    ensures v + [0] <= dst[..]
  {
    forall i | 0 <= i < |v| {
      dst[i] := v[i];
    }
    dst[|v|] := 0;
  }

  /* ---------- Round trips ---------- */

  lemma ErrorIsMessage(m: bv16, tid: seq<byte>, code: nat, reason: seq<byte>, calls: seq<Call>)
    requires |tid| == 12 && forall i :: 0 <= i < |calls| ==> ValidCall(calls[i])
    ensures var v := ErrorValue(code, reason);
      var s := ErrorResponseOf(m, tid, code, reason);
      && IsMessage(AddAll(s, calls), [Attr(STUN_ATTRIBUTE_ERROR_CODE, v)] + Accepted(s, calls))
      && Recognised(AddAll(s, calls), ErrorResponse, m, tid)
  {
    hide Header, TypeFor, AddAll, Accepted, Lists, Appended, Recognised, ErrorValue, Extends, Put16, Get16;
    ErrorValuePadded(code, reason);
    var h := Header(TypeFor(ErrorResponse, m), STUN_MAGIC_COOKIE, tid);
    var v := ErrorValue(code, reason);
    FreshMessage(TypeFor(ErrorResponse, m), STUN_MAGIC_COOKIE, tid);
    FreshRecognised(ErrorResponse, m, tid);
    AppendedParts(h, STUN_ATTRIBUTE_ERROR_CODE, v, []);
    AppendedIsMessage(h, [], STUN_ATTRIBUTE_ERROR_CODE, v, []);
    assert [] + [Attr(STUN_ATTRIBUTE_ERROR_CODE, v)] == [Attr(STUN_ATTRIBUTE_ERROR_CODE, v)];
    var s := Appended(h, STUN_ATTRIBUTE_ERROR_CODE, v, []);
    AddAllIsMessage(s, [Attr(STUN_ATTRIBUTE_ERROR_CODE, v)], calls);
    ExtendsTransitive(h, s, AddAll(s, calls));
    ExtendsRecognised(h, AddAll(s, calls), ErrorResponse, m, tid);
  }

  /** In a message at the front of any memory, the value found for a type is that of its first
      attribute. */
  lemma ValueListed(s: seq<byte>, attrs: seq<Attr>, i: nat, t: nat, m: seq<byte>)
    requires IsMessage(s, attrs) && FirstOfType(attrs, i, t) && s <= m
    ensures Walkable(m, |s|) && ValueInside(m, |s|, t)
    ensures ValueOf(m, |s|, t) == if attrs[i].value == [] then None else Some(attrs[i].value)
  {
    hide Lists, Find, FindIn, Get16;
    FindListed(s, attrs, i, t);
    MessageReadable(s, attrs);
    FindPrefix(s, m, t);
    var off := Offset(attrs, i);
    assert m[..|s|] == s;
    SamePrefix16(m, |s|, off + 2);
    assert m[off + 4..off + 4 + |attrs[i].value|] == s[off + 4..off + 4 + |attrs[i].value|];
  }

  /** The reason as the parser's caller sees it, a C string in its buffer. */
  lemma ReasonBack(code: nat, reason: seq<byte>, size: nat)
    requires size > 0
    ensures CString(Cut(ErrorValue(code, reason)[4..], size - 1) + [0])
         == Cut(CString(reason), if size - 1 < 508 then size - 1 else 508)
  {
    hide CString, RoundUp4, Zeros;
    var text := Cut(CString(reason), 508);
    var pad := Zeros(RoundUp4(|text|) - |text|);
    assert ErrorValue(code, reason)[4..] == text + pad;
    CutString(text, pad, size - 1);
  }

  /** Cutting a zero-padded text, then reading it as a C string, is cutting the text. */
  lemma CutString(text: seq<byte>, pad: seq<byte>, n: nat)
    requires 0 !in text && forall i :: 0 <= i < |pad| ==> pad[i] == 0
    ensures CString(Cut(text + pad, n) + [0]) == Cut(text, n)
  {
    hide CString;
    var c, t := Cut(text + pad, n) + [0], Cut(text, n);
    assert c[..|t|] == t && c[|t|] == 0;
    CStringIs(c, |t|);
  }

  /** Any error response, with any attributes added behind it, in any memory: the parser sees
      an error, the same code exactly when it is below 25600, and the reason cut only at 508
      octets and at the caller's buffer. */
  lemma ErrorRoundTrip(m: bv16, tid: seq<byte>, code: nat, reason: seq<byte>, calls: seq<Call>, memory: seq<byte>, size: nat)
    requires |tid| == 12 && code < 0x1_0000 && forall i :: 0 <= i < |calls| ==> ValidCall(calls[i])
    requires AddAll(ErrorResponseOf(m, tid, code, reason), calls) <= memory
    ensures var len := |AddAll(ErrorResponseOf(m, tid, code, reason), calls)|;
      && ErrorInside(memory, len)
      && var e := ParseError(memory, len, size);
      && e.isError && e.code.Some?
      && (e.code.value == code <==> code < 25600)
      && e.msg.Some? == (size > 0)
      && (size > 0 ==>
        CString(e.msg.value + [0]) == Cut(CString(reason), if size - 1 < 508 then size - 1 else 508))
  {
    hide AddAll, Accepted, IsMessage, ErrorResponseOf, TypeField, MethodOfType, FindIn;
    ErrorIsMessage(m, tid, code, reason, calls);
    var s := ErrorResponseOf(m, tid, code, reason);
    var r := AddAll(s, calls);
    assert memory[..|r|] == r;
    var v := ErrorValue(code, reason);
    var attrs := [Attr(STUN_ATTRIBUTE_ERROR_CODE, v)] + Accepted(s, calls);
    assert FirstOfType(attrs, 0, STUN_ATTRIBUTE_ERROR_CODE);
    ValueListed(r, attrs, 0, STUN_ATTRIBUTE_ERROR_CODE, memory);
    CodeRoundTrip(code);
    if size > 0 {
      ReasonBack(code, reason, size);
    }
  }

  lemma CodeRoundTrip(code: nat)
    ensures (code / 100 % 256) * 100 + code % 100 == code <==> code < 25600
  {
  }

  /** A challenge with code 401, 438 or 426 that carries non-empty REALM and NONCE attributes,
      wherever they sit, gives exactly those octets back, in any memory. */
  lemma ChallengeRoundTrip(m: bv16, tid: seq<byte>, code: nat, reason: seq<byte>, calls: seq<Call>, i: nat, j: nat,
                           memory: seq<byte>, before: nat)
    requires |tid| == 12 && (code == 401 || code == 438 || code == 426)
    requires forall k :: 0 <= k < |calls| ==> ValidCall(calls[k])
    requires AddAll(ErrorResponseOf(m, tid, code, reason), calls) <= memory
    requires var more := Accepted(ErrorResponseOf(m, tid, code, reason), calls);
      && FirstOfType(more, i, STUN_ATTRIBUTE_REALM) && FirstOfType(more, j, STUN_ATTRIBUTE_NONCE)
      && more[i].value != [] && more[j].value != []
    ensures var s := ErrorResponseOf(m, tid, code, reason);
      var len := |AddAll(s, calls)|;
      && ChallengeInside(memory, len, before) && CodeAfter(memory, len, before) == code
      && ParseChallenge(memory, len, before)
         == ChallengeResult(true, Some(Accepted(s, calls)[i].value), Some(Accepted(s, calls)[j].value))
  {
    hide AddAll, Accepted, IsMessage, ErrorResponseOf, ParseError, ValueOf, ValueInside, Recognised, ErrorValue, FirstOfType, Readable;
    var s := ErrorResponseOf(m, tid, code, reason);
    var more := Accepted(s, calls);
    ErrorIsMessage(m, tid, code, reason, calls);
    ErrorRoundTrip(m, tid, code, reason, calls, memory, 0);
    var head := [Attr(STUN_ATTRIBUTE_ERROR_CODE, ErrorValue(code, reason))];
    FirstBehind(head, more, i, STUN_ATTRIBUTE_REALM);
    FirstBehind(head, more, j, STUN_ATTRIBUTE_NONCE);
    ValueListed(AddAll(s, calls), head + more, i + 1, STUN_ATTRIBUTE_REALM, memory);
    ValueListed(AddAll(s, calls), head + more, j + 1, STUN_ATTRIBUTE_NONCE, memory);
  }

  lemma FirstBehind(head: seq<Attr>, more: seq<Attr>, i: nat, t: nat)
    requires |head| == 1 && head[0].typ != t && FirstOfType(more, i, t)
    ensures FirstOfType(head + more, i + 1, t)
  {
    forall j | 0 <= j < i + 1
      ensures (head + more)[j].typ != t
    {
      if j > 0 {
        assert (head + more)[j] == more[j - 1];
      }
    }
  }
}
