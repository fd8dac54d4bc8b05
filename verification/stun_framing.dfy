/** Splitting a byte stream into STUN commands, HTTP requests and ChannelData messages. */
module StunFraming {
  import opened Options
  import opened Octets
  import opened StunDefs
  import opened StunWire
  import opened StunBuffers

  /* ---------- ChannelData messages ---------- */

  function ChannelHeader(chn: nat, length: nat): (s: seq<byte>)
    ensures |s| == 4
  {
    Put16(chn) + Put16(length)
  }

  /** The total that stun_init_channel_message_str sets. */
  function ChannelTotal(length: nat, doPadding: bool): nat {
    4 + if doPadding then RoundUp4(length) else length
  }

  /** stun_init_channel_message_str: writes the four header octets and sets the total, which
      need not lie inside the buffer. */
  method InitChannelMessage(b: StunBuffer, chnumber: nat, length: int, doPadding: bool) returns (r: int)
    requires 4 <= b.buf.Length && chnumber < 0x1_0000
    modifies b, b.buf
    ensures r == if length < 0 || MAX_STUN_MESSAGE_SIZE < 4 + length then -1 else 0
    ensures r != 0 ==> b.len == old(b.len) && b.buf[..] == old(b.buf[..])
    ensures r == 0 ==>
      && b.len == ChannelTotal(length, doPadding)
      && b.buf[..4] == ChannelHeader(chnumber, length)
      && b.buf[4..] == old(b.buf[4..])
    ensures r == 0 && b.buf.Length == MAX_STUN_MESSAGE_SIZE ==> (b.Valid() <==> !(doPadding && length >= 65501))
  {
    hide Put16;
    var rlen := length % 0x1_0000;
    if length < 0 || MAX_STUN_MESSAGE_SIZE < 4 + length {
      return -1;
    }
    ghost var m := b.buf[..];
    b.Store(0, Put16(chnumber));
    b.Store(2, Put16(length));
    PutAdjacent(m, 0, Put16(chnumber), Put16(length));
    if doPadding && rlen % 4 != 0 {
      rlen := (rlen / 4 + 1) * 4;
    }
    b.len := 4 + rlen;
    TotalFits(length, doPadding);
    return 0;
  }

  /** The size check looks at the length before padding: an accepted total stays within the
      largest message exactly when the padding does not pass it. */
  lemma TotalFits(length: nat, doPadding: bool)
    requires 4 + length <= MAX_STUN_MESSAGE_SIZE
    ensures ChannelTotal(length, doPadding) <= MAX_STUN_MESSAGE_SIZE <==> !(doPadding && length >= 65501)
  {
  }

  /** An accepted length whose padded total passes the largest message. */
  lemma PaddedTotalOverruns()
    ensures 4 + 65501 <= MAX_STUN_MESSAGE_SIZE < ChannelTotal(65501, true) == 65508
  {
  }

  /** The answer of stun_is_channel_message_str, the number it stores, and the length it
      leaves behind: clamped to 16 bits as soon as the number is valid. */
  datatype ChannelResult = ChannelResult(ok: bool, chn: Option<nat>, blen: nat)

  function IsChannelMessage(s: seq<byte>, mandatoryPadding: bool): ChannelResult {
    if |s| < 4 || !ValidChannel(Get16(s, 0)) then ChannelResult(false, None, |s|)
    else
      var blen := if |s| > 0xFFFF then 0xFFFF else |s|;
      var actual := blen - 4;
      var header := Get16(s, 2);
      if header > actual then ChannelResult(false, None, blen)
      else if header != actual && actual % 4 != 0
        && (mandatoryPadding || actual < header || header == 0 || actual - header > 3) then
        ChannelResult(false, None, blen)
      else ChannelResult(true, Some(Get16(s, 0)), header + 4)
  }

  /** The nested tests of stun_is_channel_message_str. */
  method IsChannelMessageStr(s: seq<byte>, mandatoryPadding: bool) returns (ok: bool, chn: Option<nat>, blen: nat)
    ensures ChannelResult(ok, chn, blen) == IsChannelMessage(s, mandatoryPadding)
  {
    ok, chn, blen := false, None, |s|;
    if blen < 4 {
      return;
    }
    var number := Get16(s, 0);
    if !ValidChannel(number) {
      return;
    }
    if blen > 0xFFFF {
      blen := 0xFFFF;
    }
    var datalenActual := blen - 4;
    var datalenHeader := Get16(s, 2);
    if datalenHeader > datalenActual {
      return;
    }
    if datalenHeader != datalenActual {
      if datalenActual % 4 != 0 {
        if mandatoryPadding {
          return;
        } else if datalenActual < datalenHeader || datalenHeader == 0 {
          return;
        } else {
          var diff := datalenActual - datalenHeader;
          if diff > 3 {
            return;
          }
        }
      }
    }
    return true, Some(number), datalenHeader + 4;
  }

  /** Accepted is exactly a number in the channel range with a length that either fits the rest,
      or leaves behind it what fills whole words, or, where padding is optional, at most three
      octets behind a length that is not zero. */
  lemma ChannelAccepts(s: seq<byte>, mandatoryPadding: bool)
    ensures var r := IsChannelMessage(s, mandatoryPadding);
      && (r.ok <==>
        && |s| >= 4 && 0x40 <= s[0] < 0x80
        && var n, rest := s[2] as nat * 256 + s[3] as nat, (if |s| > 65535 then 65535 else |s|) - 4;
        && n <= rest
        && (rest == n || rest % 4 == 0 || (!mandatoryPadding && n > 0 && rest <= n + 3)))
      && (r.ok ==> r.chn == Some(s[0] as nat * 256 + s[1] as nat) && r.blen == s[2] as nat * 256 + s[3] as nat + 4)
      && (!r.ok ==> r.chn == None)
      && (!r.ok ==> r.blen == if |s| > 65535 && 0x40 <= s[0] < 0x80 then 65535 else |s|)
  {
    if |s| >= 4 {
      assert ValidChannel(Get16(s, 0)) <==> 0x40 <= s[0] < 0x80;
    }
  }

  /** The header of a ChannelData message, octet by octet. */
  lemma ChannelHeaderOctets(chn: nat, n: nat)
    requires chn < 0x1_0000 && n < 0x1_0000
    ensures ChannelHeader(chn, n)
         == [(chn / 256) as byte, (chn % 256) as byte, (n / 256) as byte, (n % 256) as byte]
  {
  }

  /* ---------- HTTP requests ---------- */

  predicate HeadOf(needle: seq<byte>, s: seq<byte>, i: nat) {
    i + |needle| <= |s| && s[i..i + |needle|] == needle
  }

  lemma HeadOfFour(a: byte, b: byte, c: byte, d: byte, s: seq<byte>, i: nat)
    ensures HeadOf([a, b, c, d], s, i) <==>
      i + 4 <= |s| && s[i] == a && s[i + 1] == b && s[i + 2] == c && s[i + 3] == d
  {
    if i + 4 <= |s| {
      Slice4(s, i);
    }
  }

  /** sheadof: compares up to the end of the needle. */
  method SHeadOf(needle: seq<byte>, s: seq<byte>, i: nat) returns (r: bool)
    requires i + |needle| <= |s|
    ensures r == HeadOf(needle, s, i)
  {
    var k := 0;
    while k < |needle|
      invariant 0 <= k <= |needle|
      invariant s[i..i + k] == needle[..k]
    {
      if needle[k] != s[i + k] {
        assert s[i..i + |needle|][k] == s[i + k];
        return false;
      }
      k := k + 1;
    }
    return true;
  }

  /** The first place at or behind `i` where the needle occurs. */
  function FindStrFrom(s: seq<byte>, needle: seq<byte>, i: nat): (r: Option<nat>)
    ensures r.Some? ==> i <= r.value && HeadOf(needle, s, r.value)
    ensures forall k :: i <= k < (if r.Some? then r.value else |s| + 1) ==> !HeadOf(needle, s, k)
    decreases |s| + 1 - i
  {
    if i + |needle| > |s| then None
    else if HeadOf(needle, s, i) then Some(i)
    else FindStrFrom(s, needle, i + 1)
  }

  /** findstr. */
  method FindStr(s: seq<byte>, needle: seq<byte>) returns (r: Option<nat>)
    requires needle != []
    ensures r == FindStrFrom(s, needle, 0)
  {
    r := None;
    if s != [] && |needle| <= |s| {
      var smax := |s| - |needle| + 1;
      var i := 0;
      while i < smax
        invariant 0 <= i <= smax
        invariant FindStrFrom(s, needle, 0) == FindStrFrom(s, needle, i)
      {
        var here := SHeadOf(needle, s, i);
        if here {
          return Some(i);
        }
        i := i + 1;
      }
    }
  }

  const GET_SPACE: seq<byte> := [0x47, 0x45, 0x54, 0x20]
  const HTTP: seq<byte> := [0x48, 0x54, 0x54, 0x50]
  const BLANK_LINE: seq<byte> := [0x0D, 0x0A, 0x0D, 0x0A]

  /** is_http_get: the length of a complete GET request at the start of `s`, or 0. */
  function HttpGetLen(s: seq<byte>): (n: nat)
    ensures n <= |s|
  {
    if |s| >= 12 && s[..4] == GET_SPACE then
      var i := FindStrFrom(s[4..], HTTP, 0);
      if i.None? then 0
      else
        var diff := 4 + i.value + 4;
        if diff + 4 > |s| then 0
        else
          var j := FindStrFrom(s[diff..], BLANK_LINE, 0);
          if j.None? then 0 else diff + j.value + 4
    else 0
  }

  /** A GET request ends with the first blank line behind the first HTTP. */
  lemma HttpFound(s: seq<byte>, i: nat, j: nat)
    requires |s| >= 12 && s[0] == 0x47 && s[1] == 0x45 && s[2] == 0x54 && s[3] == 0x20
    requires 4 <= i && i + 4 <= j
    requires HeadOf([0x48, 0x54, 0x54, 0x50], s, i) && HeadOf([0x0D, 0x0A, 0x0D, 0x0A], s, j)
    requires forall k :: 4 <= k < i ==> !HeadOf([0x48, 0x54, 0x54, 0x50], s, k)
    requires forall k :: i + 4 <= k < j ==> !HeadOf([0x0D, 0x0A, 0x0D, 0x0A], s, k)
    ensures HttpGetLen(s) == j + 4
  {
    hide HeadOf;
    assert s[..4] == GET_SPACE;
    Inside(BLANK_LINE, s, j);
    FirstAt(s, HTTP, 4, i);
    FirstAt(s, BLANK_LINE, i + 4, j);
  }

  lemma Inside(needle: seq<byte>, s: seq<byte>, i: nat)
    requires HeadOf(needle, s, i)
    ensures i + |needle| <= |s|
  {
  }

  lemma HeadBehind(needle: seq<byte>, s: seq<byte>, start: nat, k: nat)
    requires start <= |s|
    ensures HeadOf(needle, s[start..], k) <==> HeadOf(needle, s, start + k)
  {
    if start + k + |needle| <= |s| {
      assert s[start..][k..k + |needle|] == s[start + k..start + k + |needle|];
    }
  }

  lemma FirstAt(s: seq<byte>, needle: seq<byte>, start: nat, i: nat)
    requires start <= i && HeadOf(needle, s, i)
    requires forall k :: start <= k < i ==> !HeadOf(needle, s, k)
    ensures start <= |s| && FindStrFrom(s[start..], needle, 0) == Some(i - start)
  {
    hide HeadOf;
    Inside(needle, s, i);
    forall k: nat
      ensures HeadOf(needle, s[start..], k) <==> HeadOf(needle, s, start + k)
    {
      HeadBehind(needle, s, start, k);
    }
    assert HeadOf(needle, s[start..], i - start);
    Inside(needle, s[start..], i - start);
    var r := FindStrFrom(s[start..], needle, 0);
    assert r.Some? && r.value <= i - start;
  }

  /** Without such a line, or without GET and a space in front of at least 12 octets, there is no
      request. */
  lemma HttpNone(s: seq<byte>)
    requires |s| >= 12 && s[..4] == [0x47, 0x45, 0x54, 0x20] ==>
      forall i, j :: 4 <= i && i + 4 <= j && HeadOf([0x48, 0x54, 0x54, 0x50], s, i) ==> !HeadOf([0x0D, 0x0A, 0x0D, 0x0A], s, j)
    ensures HttpGetLen(s) == 0
  {
    hide HeadOf;
    if |s| >= 12 && s[..4] == GET_SPACE {
      var i := FindStrFrom(s[4..], HTTP, 0);
      if i.Some? {
        HeadBehind(HTTP, s, 4, i.value);
        var diff := 4 + i.value + 4;
        if diff + 4 <= |s| {
          var j := FindStrFrom(s[diff..], BLANK_LINE, 0);
          if j.Some? {
            HeadBehind(BLANK_LINE, s, diff, j.value);
            assert false;
          }
        }
      }
    }
  }

  method IsHttpGet(s: seq<byte>) returns (n: nat)
    ensures n == HttpGetLen(s)
  {
    n := 0;
    if |s| >= 12 {
      if s[0] == 0x47 && s[1] == 0x45 && s[2] == 0x54 && s[3] == 0x20 {
        assert s[..4] == GET_SPACE;
        var sp := FindStr(s[4..], HTTP);
        if sp.Some? {
          var diffBlen := 4 + sp.value + 4;
          if diffBlen + 4 <= |s| {
            sp := FindStr(s[diffBlen..], BLANK_LINE);
            if sp.Some? {
              n := diffBlen + sp.value + 4;
            }
          }
        }
      } else {
        assert s[..4][0] == s[0] && s[..4][1] == s[1] && s[..4][2] == s[2] && s[..4][3] == s[3];
      }
    }
  }

  /* ---------- Message length ---------- */

  /** stun_get_message_len_str: the return value, and what is stored through app_len. */
  datatype LenResult = LenResult(ret: int, appLen: Option<nat>)

  /** The STUN branch; the 16-bit sum may wrap. */
  function CommandLen(s: seq<byte>): Option<nat> {
    if |s| >= STUN_HEADER_LENGTH && !ValidChannel(Get16(s, 0)) && TopBitsClear(s[0])
       && Get32(s, 4) == STUN_MAGIC_COOKIE && Get16(s, 2) % 4 == 0 then
      var len := (Get16(s, 2) + STUN_HEADER_LENGTH) % 0x1_0000;
      if len <= |s| then Some(len) else None
    else None
  }

  /** The STUN branch cuts exactly the command message that a stream starts with, as far as
      the declared total is below the wrap. */
  lemma CommandLenExact(s: seq<byte>, n: nat)
    requires |s| >= STUN_HEADER_LENGTH ==> Get16(s, 2) + STUN_HEADER_LENGTH < 0x1_0000
    ensures CommandLen(s) == Some(n) <==> n <= |s| && IsCommandMessage(s[..n])
  {
    hide Get16, Get32;
    if STUN_HEADER_LENGTH <= n <= |s| {
      SamePrefix16(s, n, 0);
      SamePrefix16(s, n, 2);
      assert s[..n][4..8] == s[4..8];
      Get32Injective(s[..n], 4, s, 4);
    }
  }

  /** The branch for ChannelData; both 16-bit sums may wrap. */
  function ChannelLen(s: seq<byte>, padding: bool): LenResult {
    if |s| >= 4 && ValidChannel(Get16(s, 0)) then
      var app := (4 + Get16(s, 2)) % 0x1_0000;
      var bret := if padding then RoundUp4(app) % 0x1_0000 else app;
      LenResult(if bret <= |s| then bret else -1, Some(app))
    else LenResult(-1, None)
  }

  function MessageLen(s: seq<byte>, padding: bool): LenResult {
    if s == [] then LenResult(-1, None)
    else if CommandLen(s).Some? then LenResult(CommandLen(s).value, CommandLen(s))
    else if HttpGetLen(s) > 0 then LenResult(HttpGetLen(s), Some(HttpGetLen(s)))
    else ChannelLen(s, padding)
  }

  /** A complete GET request in front is cut. */
  lemma HttpSplits(s: seq<byte>, padding: bool)
    requires HttpGetLen(s) > 0
    ensures MessageLen(s, padding) == LenResult(HttpGetLen(s), Some(HttpGetLen(s)))
  {
    hide Get32;
    assert s[..4][0] == s[0] == 0x47;
    TopBitsClearExactly(s[0]);
  }

  /** The 16-bit sums: a header length from 65516 on wraps the total of a command to 0 to 16
      octets, one from 65532 on that of a ChannelData message to 0 to 3, and padding wraps 65533
      to 65535 to 0. */
  lemma SumsWrap(s: seq<byte>, padding: bool)
    ensures CommandLen(s).Some? && Get16(s, 2) >= 65516 ==> CommandLen(s) == Some(Get16(s, 2) - 65516)
    ensures |s| >= 4 && 0x40 <= s[0] < 0x80 ==>
      var n := s[2] as nat * 256 + s[3] as nat;
      var app := if n >= 65532 then n - 65532 else n + 4;
      var r := ChannelLen(s, padding);
      && r.appLen == Some(app)
      && (!padding ==> r.ret == if app <= |s| then app else -1)
      && (padding && app > 65532 ==> r.ret == 0)
      && (padding && app <= 65532 ==>
        r.ret == if app + (3 - (app + 3) % 4) <= |s| then app + (3 - (app + 3) % 4) else -1)
    ensures !(|s| >= 4 && 0x40 <= s[0] < 0x80) ==> ChannelLen(s, padding) == LenResult(-1, None)
  {
    hide Get32, RoundUp4;
    if |s| >= 4 {
      assert ValidChannel(Get16(s, 0)) <==> 0x40 <= s[0] < 0x80;
      var app := (4 + Get16(s, 2)) % 0x1_0000;
      PaddedSum(app);
      hide Get16;
    }
  }

  lemma PaddedSum(app: nat)
    requires app < 0x1_0000
    ensures RoundUp4(app) % 0x1_0000 == if app > 65532 then 0 else app + (3 - (app + 3) % 4)
  {
  }

  /** stun_get_message_len_str. What it cuts is there, and a command message in front is cut
      whole. */
  method GetMessageLen(s: seq<byte>, padding: bool) returns (ret: int, appLen: Option<nat>)
    ensures LenResult(ret, appLen) == MessageLen(s, padding)
    ensures -1 <= ret <= |s|
    ensures forall n :: 0 <= n <= |s| && n < 0x1_0000 && IsCommandMessage(s[..n]) ==> ret == n && appLen == Some(n)
  {
    hide HttpGetLen, CommandLen, ChannelLen, IsCommandMessage;
    CommandCut(s);
    LengthsInside(s, padding);
    if s == [] {
      return -1, None;
    }
    appLen := ReadCommandLen(s);
    if appLen.Some? {
      return appLen.value, appLen;
    }
    var httpLen := IsHttpGet(s);
    if httpLen > 0 && httpLen <= |s| {
      return httpLen, Some(httpLen);
    }
    ret, appLen := ReadChannelLen(s, padding);
  }

  /** The nested tests of the STUN branch. */
  method ReadCommandLen(s: seq<byte>) returns (r: Option<nat>)
    ensures r == CommandLen(s)
  {
    hide Get16, Get32, TopBitsClear, ValidChannel;
    if |s| >= STUN_HEADER_LENGTH && !ValidChannel(Get16(s, 0)) {
      if TopBitsClear(s[0]) && Get32(s, 4) == STUN_MAGIC_COOKIE {
        var len := Get16(s, 2);
        if len % 4 == 0 {
          len := len + STUN_HEADER_LENGTH;
          if len >= 0x1_0000 {
            len := len - 0x1_0000;
          }
          if len <= |s| {
            return Some(len);
          }
        }
      }
    }
    return None;
  }

  /** The branch for ChannelData, whose unpadded size is stored even when too few octets are
      there. */
  method ReadChannelLen(s: seq<byte>, padding: bool) returns (ret: int, appLen: Option<nat>)
    ensures LenResult(ret, appLen) == ChannelLen(s, padding)
  {
    hide Get16, ValidChannel;
    if |s| >= 4 {
      var chn := Get16(s, 0);
      if ValidChannel(chn) {
        var bret := 4 + Get16(s, 2);
        if bret >= 0x1_0000 {
          bret := bret - 0x1_0000;
        }
        appLen := Some(bret);
        if padding && bret % 4 != 0 {
          bret := (bret / 4 + 1) * 4;
          if bret >= 0x1_0000 {
            bret := bret - 0x1_0000;
          }
        }
        return if bret <= |s| then bret else -1, appLen;
      }
    }
    return -1, None;
  }

  lemma LengthsInside(s: seq<byte>, padding: bool)
    ensures CommandLen(s).Some? ==> CommandLen(s).value <= |s| && s != []
    ensures HttpGetLen(s) <= |s| && -1 <= ChannelLen(s, padding).ret <= |s|
  {
  }

  lemma CommandCut(s: seq<byte>)
    ensures forall n :: 0 <= n <= |s| && n < 0x1_0000 && IsCommandMessage(s[..n]) ==> CommandLen(s) == Some(n)
  {
    hide IsCommandMessage, CommandLen;
    forall n: nat | n <= |s| && n < 0x1_0000 && IsCommandMessage(s[..n])
      ensures CommandLen(s) == Some(n)
    {
      CommandHeader(s, n);
      CommandLenExact(s, n);
    }
  }

  lemma CommandHeader(s: seq<byte>, n: nat)
    requires n <= |s| && IsCommandMessage(s[..n])
    ensures |s| >= STUN_HEADER_LENGTH && Get16(s, 2) + STUN_HEADER_LENGTH == n
  {
    hide Get16, Get32;
    SamePrefix16(s, n, 2);
  }

  /* ---------- Frames ---------- */

  /** What the codec puts on a stream: commands, and ChannelData padded to four octets. */
  datatype Frame = Command(octets: seq<byte>) | ChannelData(chn: nat, data: seq<byte>, pad: seq<byte>)

  predicate ValidFrame(f: Frame) {
    match f
    case Command(octets) => IsCommandMessage(octets) && |octets| < MAX_STUN_MESSAGE_SIZE
    case ChannelData(chn, data, pad) =>
      ValidChannel(chn) && 4 + |data| <= MAX_STUN_MESSAGE_SIZE && IsPadding(pad, data)
  }

  function FrameOctets(f: Frame): seq<byte> {
    match f
    case Command(octets) => octets
    case ChannelData(chn, data, pad) => ChannelHeader(chn, |data|) + data + pad
  }

  function AppLen(f: Frame): nat {
    match f
    case Command(octets) => |octets|
    case ChannelData(chn, data, pad) => 4 + |data|
  }

  /** The one header that spells GET and a space. */
  predicate SpellsGet(f: Frame) {
    f.ChannelData? && f.chn == 0x4745 && |f.data| == 0x5420
  }

  lemma CommandSplits(s: seq<byte>, rest: seq<byte>)
    requires IsCommandMessage(s) && |s| < MAX_STUN_MESSAGE_SIZE
    ensures MessageLen(s + rest, true) == LenResult(|s|, Some(|s|))
  {
    var t := s + rest;
    assert Get16(t, 0) == Get16(s, 0) && Get16(t, 2) == Get16(s, 2) && Get32(t, 4) == Get32(s, 4);
  }

  lemma ChannelParts(chn: nat, data: seq<byte>, tail: seq<byte>)
    requires ValidChannel(chn) && 4 + |data| <= MAX_STUN_MESSAGE_SIZE
    ensures var t := ChannelHeader(chn, |data|) + data + tail;
      && Get16(t, 0) == chn
      && Get16(t, 2) == |data|
      && (t[..4] == GET_SPACE <==> chn == 0x4745 && |data| == 0x5420)
  {
    var t := ChannelHeader(chn, |data|) + data + tail;
    assert t[0..2] == Put16(chn) && t[2..4] == Put16(|data|);
    Stored16(t, 0, chn);
    Stored16(t, 2, |data|);
    assert t[..4] == [t[0], t[1], t[2], t[3]];
  }

  /** A padded ChannelData message at the front of a stream is split off with its own lengths
      exactly when the HTTP branch does not answer first with another length. */
  lemma ChannelSplitsExactly(f: Frame, rest: seq<byte>)
    requires ValidFrame(f) && f.ChannelData?
    ensures var t := FrameOctets(f) + rest;
      && (MessageLen(t, true) == LenResult(|FrameOctets(f)|, Some(AppLen(f)))
          <==> HttpGetLen(t) == 0 || HttpGetLen(t) == |FrameOctets(f)|)
      && (!SpellsGet(f) ==> HttpGetLen(t) == 0)
  {
    var t := FrameOctets(f) + rest;
    assert t == ChannelHeader(f.chn, |f.data|) + f.data + (f.pad + rest);
    ChannelParts(f.chn, f.data, f.pad + rest);
    ChannelFirst(t, f.chn, |f.data|, |FrameOctets(f)|);
    assert HttpGetLen(t) > 0 ==> t[..4] == GET_SPACE;
    hide HttpGetLen, ChannelLen, CommandLen;
  }

  /** The channel branch reads the lengths off the header. */
  lemma ChannelFirst(t: seq<byte>, chn: nat, n: nat, total: nat)
    requires 4 <= |t| && ValidChannel(chn) && Get16(t, 0) == chn && Get16(t, 2) == n
    requires 4 + n <= MAX_STUN_MESSAGE_SIZE && total == 4 + RoundUp4(n) <= |t|
    ensures ChannelLen(t, true) == LenResult(total, Some(4 + n)) && CommandLen(t).None?
  {
    hide Get16, Get32;
  }

  /** The exception is real: the stream below is cut after 12 octets instead of 21540. */
  lemma GetChannelIsMisread()
    ensures exists f, rest :: (
      && ValidFrame(f) && f.ChannelData?
      && MessageLen(FrameOctets(f) + rest, true) == LenResult(12, Some(12))
      && |FrameOctets(f)| == 21540)
  {
    var data := HTTP + BLANK_LINE + seq(0x5420 - 8, i => 0 as byte);
    var f := ChannelData(0x4745, data, []);
    var t := FrameOctets(f) + [];
    assert t == ChannelHeader(0x4745, |data|) + data + [];
    ChannelParts(0x4745, data, []);
    assert t[4..][0..4] == HTTP;
    assert HeadOf(HTTP, t[4..], 0);
    assert t[8..][0..4] == BLANK_LINE;
    assert HeadOf(BLANK_LINE, t[8..], 0);
  }

  /** As long as a message is not complete, nothing is split off; the unpadded size of a
      ChannelData message is stored as soon as its header is there. */
  lemma IncompleteWaits(f: Frame, k: nat)
    requires ValidFrame(f) && !SpellsGet(f) && k < |FrameOctets(f)|
    ensures MessageLen(FrameOctets(f)[..k], true) ==
      LenResult(-1, if f.ChannelData? && k >= 4 then Some(AppLen(f)) else None)
  {
    var t := FrameOctets(f)[..k];
    match f
    case Command(octets) =>
      CommandExactly(octets);
      IncompleteCommand(octets, k);
    case ChannelData(chn, data, pad) =>
      ChannelParts(chn, data, pad);
      IncompleteChannel(FrameOctets(f), chn, |data|, k);
  }

  lemma IncompleteCommand(s: seq<byte>, k: nat)
    requires IsCommandMessage(s) && k < |s| < MAX_STUN_MESSAGE_SIZE
    ensures MessageLen(s[..k], true) == LenResult(-1, None)
  {
    hide Get32;
    var t := s[..k];
    CommandExactly(s);
    if k >= 4 {
      assert t[0] == s[0] && t[2] == s[2] && t[3] == s[3];
      NotGet(t);
    }
  }

  lemma NotGet(t: seq<byte>)
    requires |t| >= 4 && t[0] != 0x47
    ensures HttpGetLen(t) == 0
  {
    assert t[..4][0] == t[0];
  }

  lemma IncompleteChannel(s: seq<byte>, chn: nat, n: nat, k: nat)
    requires |s| == 4 + RoundUp4(n) && 4 + n <= MAX_STUN_MESSAGE_SIZE && k < |s|
    requires ValidChannel(chn) && Get16(s, 0) == chn && Get16(s, 2) == n && s[..4] != GET_SPACE
    ensures MessageLen(s[..k], true) == LenResult(-1, if k >= 4 then Some(4 + n) else None)
  {
    hide Get32, HttpGetLen, CommandLen, ChannelLen, RoundUp4;
    var t := s[..k];
    TooShort(t);
    if k >= 4 {
      SamePrefix16(s, k, 0);
      SamePrefix16(s, k, 2);
      assert t[..4] == s[..4];
      OtherFirst(t);
      ChannelCut(t, chn, n);
    }
  }

  lemma TooShort(t: seq<byte>)
    ensures |t| < 4 ==> CommandLen(t).None? && HttpGetLen(t) == 0 && ChannelLen(t, true) == LenResult(-1, None)
  {
  }

  lemma OtherFirst(t: seq<byte>)
    requires |t| >= 4 && t[..4] != GET_SPACE
    ensures HttpGetLen(t) == 0
  {
  }

  /** The channel branch waits for the octets that its header announces. */
  lemma ChannelCut(t: seq<byte>, chn: nat, n: nat)
    requires 4 <= |t| < 4 + RoundUp4(n) && 4 + n <= MAX_STUN_MESSAGE_SIZE
    requires ValidChannel(chn) && Get16(t, 0) == chn && Get16(t, 2) == n
    ensures CommandLen(t).None? && ChannelLen(t, true) == LenResult(-1, Some(4 + n))
  {
    hide Get16, Get32;
  }

  /** Without padding, as over UDP, a ChannelData message ends with its data. */
  lemma UnpaddedSplits(chn: nat, data: seq<byte>, rest: seq<byte>)
    requires ValidChannel(chn) && 4 + |data| <= MAX_STUN_MESSAGE_SIZE && !(chn == 0x4745 && |data| == 0x5420)
    ensures MessageLen(ChannelHeader(chn, |data|) + data + rest, false) == LenResult(4 + |data|, Some(4 + |data|))
  {
    ChannelParts(chn, data, rest);
  }

  /* ---------- Streams ---------- */

  function StreamOf(frames: seq<Frame>): seq<byte> {
    if frames == [] then [] else FrameOctets(frames[0]) + StreamOf(frames[1..])
  }

  /** One message cut off a stream, with its unpadded size. */
  datatype Piece = Piece(octets: seq<byte>, appLen: Option<nat>)

  function PieceOf(f: Frame): Piece { Piece(FrameOctets(f), Some(AppLen(f))) }

  /** Repeated splitting until no complete message is left in front. */
  function SplitAll(s: seq<byte>): seq<Piece>
    decreases |s|
  {
    var r := MessageLen(s, true);
    if r.ret <= 0 || r.ret > |s| then [] else [Piece(s[..r.ret], r.appLen)] + SplitAll(s[r.ret..])
  }

  lemma FrameSplits(f: Frame, rest: seq<byte>)
    requires ValidFrame(f) && !SpellsGet(f)
    ensures MessageLen(FrameOctets(f) + rest, true) == LenResult(|FrameOctets(f)|, Some(AppLen(f)))
    ensures |FrameOctets(f)| > 0
  {
    if f.Command? {
      CommandSplits(f.octets, rest);
    } else {
      ChannelSplitsExactly(f, rest);
    }
  }

  /** Any concatenation of codec-built messages, followed by any octets, is split back into
      exactly those messages, each with its unpadded size. */
  lemma {:induction false} StreamSplits(frames: seq<Frame>, suffix: seq<byte>)
    requires forall i :: 0 <= i < |frames| ==> ValidFrame(frames[i]) && !SpellsGet(frames[i])
    ensures SplitAll(StreamOf(frames) + suffix) == seq(|frames|, i requires 0 <= i < |frames| => PieceOf(frames[i])) + SplitAll(suffix)
    decreases |frames|
  {
    hide MessageLen, FrameOctets, ValidFrame, SpellsGet;
    if frames == [] {
      assert StreamOf(frames) + suffix == suffix;
    } else {
      var rest := StreamOf(frames[1..]) + suffix;
      var t := FrameOctets(frames[0]) + rest;
      assert StreamOf(frames) + suffix == t;
      FrameSplits(frames[0], rest);
      assert t[..|FrameOctets(frames[0])|] == FrameOctets(frames[0]) && t[|FrameOctets(frames[0])|..] == rest;
      StreamSplits(frames[1..], suffix);
    }
  }

  /** Each split ChannelData message is recognised with its own number and length, padding
      mandatory or not. */
  lemma ChannelFrameRecognised(f: Frame, mandatoryPadding: bool)
    requires ValidFrame(f) && f.ChannelData?
    ensures IsChannelMessage(FrameOctets(f), mandatoryPadding) == ChannelResult(true, Some(f.chn), 4 + |f.data|)
  {
    ChannelParts(f.chn, f.data, f.pad);
  }

  /** So is an unpadded one, as sent over UDP. */
  lemma UnpaddedChannelRecognised(chn: nat, data: seq<byte>, mandatoryPadding: bool)
    requires ValidChannel(chn) && 4 + |data| <= MAX_STUN_MESSAGE_SIZE
    ensures IsChannelMessage(ChannelHeader(chn, |data|) + data, mandatoryPadding)
         == ChannelResult(true, Some(chn), 4 + |data|)
  {
    assert ChannelHeader(chn, |data|) + data == ChannelHeader(chn, |data|) + data + [];
    ChannelParts(chn, data, []);
  }
}
