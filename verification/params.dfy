/**
 * Test parameters: the defaults every run starts from, and GetDeviceParam, which
 * enables exactly the listed devices whose device ID carries the configured
 * vendor and product IDs.
 */
module Params {
  import opened Wrappers
  import opened Session
  import opened Worker

  // ---------------------------------------------------------------------------
  // Defaults
  // ---------------------------------------------------------------------------

  /** The scalar test parameters. */
  datatype TestParams = TestParams(
    vid: int, pid: int, intf: int, altf: int, endpoint: int,
    timeout: int, refresh: int, retry: int,
    bufferLength: int, allocBufferSize: int, readLength: int, writeLength: int,
    bufferCount: int, repeat: int, timer: int,
    fileIO: bool, showTransfer: bool, verify: bool, verifyDetails: bool,
    testType: TestType, transferMode: TransferMode, useRawIO: int)

  /** The parameter block cleared to zero. */
  const Cleared := TestParams(0, 0, 0, 0, 0, 0, 0, 0, 0, 0, 0, 0, 0, 0, 0,
                              false, false, false, false, TestNone, Sync, 0)

  /** Which revision's defaults: the single-file tool, or src/param.c. */
  datatype DefaultsRevision = SingleFile | SplitParam

  /**
   * SetParamsDefaults: clears the block, then sets the benchmark device's IDs
   * (0x1004/0xA000 in the single-file tool, 0/0 in src/param.c), no interface or
   * alternate setting (-1), 1024-byte buffers, reads, synchronous mode, one
   * buffer, a 3000 ms timeout, a 1000 ms refresh, verification on and UseRawIO
   * 0xFF. Everything else keeps its cleared value.
   */
  function SetParamsDefaults(revision: DefaultsRevision): (p: TestParams)
    ensures p.vid == (if revision == SingleFile then 0x1004 else 0) && p.pid == (if revision == SingleFile then 0xA000 else 0)
    ensures p.readLength == p.bufferLength && p.writeLength == p.bufferLength
    ensures p.retry == Cleared.retry && p.allocBufferSize == Cleared.allocBufferSize
    ensures p.verifyDetails == Cleared.verifyDetails && p.repeat == Cleared.repeat
    ensures p.intf < 0 && p.altf < 0
    ensures p.transferMode == Sync && p.verify
  {
    Cleared.(vid := if revision == SingleFile then 0x1004 else 0,
             pid := if revision == SingleFile then 0xA000 else 0,
             intf := -1, altf := -1, endpoint := 0,
             transferMode := Sync, testType := TestRead, timer := 0, timeout := 3000, fileIO := false,
             bufferLength := 1024, refresh := 1000, readLength := 1024, writeLength := 1024,
             verify := true, bufferCount := 1, showTransfer := false, useRawIO := 0xFF)
  }

  /** The worker settings a parameter block gives for a pipe of the given direction. */
  function WorkerSettings(p: TestParams, isIn: bool): WorkerConfig
  {
    WorkerConfig(p.retry, isIn, p.verify, p.testType == TestLoop)
  }

  /**
   * With the default retry count of 0, the first failure that is not a user abort
   * stops the worker.
   */
  lemma DefaultsStopOnFirstError(revision: DefaultsRevision, isIn: bool, s: Stats, t: Tick)
    requires t.now > 0 && t.ret < 0 && !t.userAborted && s.runningErrors == 0
    ensures WorkerStep(WorkerSettings(SetParamsDefaults(revision), isIn), s, t).Stop?
  {
  }

  /** The defaults describe a session CreateTransferParam accepts: one buffer of 1024 bytes. */
  lemma DefaultsResolveLength(revision: DefaultsRevision)
    ensures var d := SetParamsDefaults(revision);
            d.bufferLength >= 0 && d.readLength >= 0 && d.writeLength >= 0 && d.bufferCount >= 1
    ensures var d := SetParamsDefaults(revision);
            EffectiveLength(Params(d.bufferLength, d.readLength, d.writeLength, d.bufferCount, d.transferMode, d.testType)) == 1024
  {
  }

  // ---------------------------------------------------------------------------
  // Device ID matching
  // ---------------------------------------------------------------------------

  /** ASCII lower-casing of one character, as the C runtime does in the default locale. */
  function LowerChar(c: char): (l: char)
    ensures 'A' <= c <= 'Z' ==> l as int == c as int + 32
    ensures !('A' <= c <= 'Z') ==> l == c
  {
    if 'A' <= c <= 'Z' then (c as int + 32) as char else c
  }

  function Lower(s: string): (l: string)
    ensures |l| == |s|
    ensures forall i :: 0 <= i < |s| ==> l[i] == LowerChar(s[i])
  {
    seq(|s|, i requires 0 <= i < |s| => LowerChar(s[i]))
  }

  /** ASCII upper-casing, used to state that matching ignores case. */
  function UpperChar(c: char): char
  {
    if 'a' <= c <= 'z' then (c as int - 32) as char else c
  }

  function Upper(s: string): (u: string)
    ensures |u| == |s|
  {
    seq(|s|, i requires 0 <= i < |s| => UpperChar(s[i]))
  }

  /** `pattern` occurs in `s` at `i`. */
  predicate OccursAt(s: string, pattern: string, i: nat)
  {
    i + |pattern| <= |s| && s[i..i + |pattern|] == pattern
  }

  /** strstr: the first position at or after `from` where `pattern` occurs. */
  function FindFrom(s: string, pattern: string, from: nat): (r: Option<nat>)
    requires from <= |s|
    ensures r.Some? ==> from <= r.value && OccursAt(s, pattern, r.value)
                        && forall j :: from <= j < r.value ==> !OccursAt(s, pattern, j)
    ensures r.None? ==> forall j :: from <= j <= |s| ==> !OccursAt(s, pattern, j)
    decreases |s| - from
  {
    if OccursAt(s, pattern, from) then Some(from)
    else if from == |s| then None
    else FindFrom(s, pattern, from + 1)
  }

  function Find(s: string, pattern: string): (r: Option<nat>)
    ensures r.Some? ==> OccursAt(s, pattern, r.value) && forall j :: 0 <= j < r.value ==> !OccursAt(s, pattern, j)
    ensures r.None? ==> forall j :: 0 <= j <= |s| ==> !OccursAt(s, pattern, j)
  {
    FindFrom(s, pattern, 0)
  }

  /** The value of a hexadecimal digit, if `c` is one (either case). */
  function HexDigit(c: char): (v: Option<nat>)
    ensures v.Some? ==> v.value < 16
  {
    if '0' <= c <= '9' then Some(c as int - '0' as int)
    else if 'a' <= c <= 'f' then Some(c as int - 'a' as int + 10)
    else if 'A' <= c <= 'F' then Some(c as int - 'A' as int + 10)
    else None
  }

  /**
   * A `%04x` conversion: the value of the longest run of at most four hex digits
   * at the start of `s`, or None when `s` does not start with one.
   */
  function ScanHex4(s: string): (r: Option<nat>)
    ensures r.Some? ==> r.value < 0x1_0000
    ensures r.None? <==> (|s| == 0 || HexDigit(s[0]).None?)
  {
    ScanHexFrom(s, 4, 0, 0)
  }

  function ScanHexFrom(s: string, width: nat, acc: nat, read: nat): (r: Option<nat>)
    requires acc < Pow16(read)
    ensures r.Some? ==> r.value < Pow16(read + width)
    ensures r.None? <==> read == 0 && (width == 0 || |s| == 0 || HexDigit(s[0]).None?)
    decreases width
  {
    if width == 0 || |s| == 0 || HexDigit(s[0]).None? then
      Pow16Mono(read, read + width);
      if read == 0 then None else Some(acc)
    else
      Pow16Step(read, acc, HexDigit(s[0]).value);
      ScanHexFrom(s[1..], width - 1, acc * 16 + HexDigit(s[0]).value, read + 1)
  }

  function Pow16(n: nat): (p: nat)
    ensures p >= 1
  {
    if n == 0 then 1 else 16 * Pow16(n - 1)
  }

  lemma {:induction false} Pow16Mono(a: nat, b: nat)
    requires a <= b
    ensures Pow16(a) <= Pow16(b)
    decreases b
  {
    if a < b {
      Pow16Mono(a, b - 1);
    }
  }

  lemma Pow16Step(n: nat, acc: nat, d: nat)
    requires acc < Pow16(n) && d < 16
    ensures acc * 16 + d < Pow16(n + 1)
  {
  }

  /** The value after a tag: `%04x` applied right after the first occurrence of `tag`, or -1. */
  function TagValue(lowered: string, tag: string): (v: int)
    ensures v == -1 <==> Find(lowered, tag).None? || ScanHex4(lowered[Find(lowered, tag).value + |tag|..]).None?
    ensures -1 <= v < 0x1_0000
  {
    match Find(lowered, tag)
    case None => -1
    case Some(i) =>
      match ScanHex4(lowered[i + |tag|..])
      case None => -1
      case Some(v) => v
  }

  /** The vendor and product IDs GetDeviceParam reads from a device ID. */
  function DeviceIds(deviceId: string): (int, int)
  {
    var lowered := Lower(deviceId);
    (TagValue(lowered, "vid_"), TagValue(lowered, "pid_"))
  }

  /**
   * GetDeviceParam: every listed device is first disabled and then enabled when
   * both the vendor and the product ID read from its device ID equal the
   * configured ones. It always returns ERROR_SUCCESS (0).
   */
  function GetDeviceParam(deviceIds: seq<string>, vid: int, pid: int): (r: (seq<bool>, int))
    ensures |r.0| == |deviceIds| && r.1 == 0
    ensures forall i :: 0 <= i < |deviceIds| ==>
              (r.0[i] <==> DeviceIds(deviceIds[i]).0 == vid && DeviceIds(deviceIds[i]).1 == pid)
  {
    (seq(|deviceIds|, i requires 0 <= i < |deviceIds| =>
        DeviceIds(deviceIds[i]).0 == vid && DeviceIds(deviceIds[i]).1 == pid), 0)
  }

  /** Lower-casing forgets case: an upper-cased ID lowers to the same string. */
  lemma LowerUpper(s: string)
    ensures Lower(Upper(s)) == Lower(s)
  {
    forall i | 0 <= i < |s|
      ensures Lower(Upper(s))[i] == Lower(s)[i]
    {
    }
  }

  /** Matching ignores case: a device ID and its upper-cased form give the same IDs. */
  lemma MatchIgnoresCase(deviceId: string)
    ensures DeviceIds(Upper(deviceId)) == DeviceIds(deviceId)
  {
    LowerUpper(deviceId);
  }

  /** A device ID without a `vid_` tag in any case never matches a configured vendor ID in range. */
  lemma MissingTagNeverMatches(deviceId: string, vid: int, pid: int)
    requires Find(Lower(deviceId), "vid_").None?
    requires 0 <= vid
    ensures !GetDeviceParam([deviceId], vid, pid).0[0]
  {
  }

  // ---------------------------------------------------------------------------
  // Round trip through a formatted device ID
  // ---------------------------------------------------------------------------

  /** An upper-case hexadecimal digit. */
  function HexChar(d: nat): (c: char)
    requires d < 16
    ensures HexDigit(c) == Some(d)
  {
    if d < 10 then ('0' as int + d) as char else ('A' as int + d - 10) as char
  }

  /** A value as exactly four upper-case hex digits, most significant first. */
  function Hex4(v: nat): (s: string)
    requires v < 0x1_0000
    ensures |s| == 4
  {
    [HexChar(v / 16 / 16 / 16), HexChar(v / 16 / 16 % 16), HexChar(v / 16 % 16), HexChar(v % 16)]
  }

  /** Lower-casing an upper-case hex digit keeps its value. */
  lemma HexCharLowered(d: nat)
    requires d < 16
    ensures HexDigit(LowerChar(HexChar(d))) == Some(d)
  {
  }

  /** The four digits of `Hex4(v)` recompose `v`. */
  lemma HexDigitsRecompose(v: nat)
    requires v < 0x1_0000
    ensures ((v / 16 / 16 / 16 * 16 + v / 16 / 16 % 16) * 16 + v / 16 % 16) * 16 + v % 16 == v
  {
    var q1 := v / 16;
    var q2 := q1 / 16;
    assert q2 / 16 * 16 + q2 % 16 == q2;
    assert q2 * 16 + q1 % 16 == q1;
    assert q1 * 16 + v % 16 == v;
  }

  /** Four hex digits at the front scan to the number they spell, whatever follows. */
  lemma ScanFourDigits(s: string, a: nat, b: nat, c: nat, d: nat)
    requires |s| >= 4
    requires HexDigit(s[0]) == Some(a) && HexDigit(s[1]) == Some(b)
    requires HexDigit(s[2]) == Some(c) && HexDigit(s[3]) == Some(d)
    ensures ScanHex4(s) == Some(((a * 16 + b) * 16 + c) * 16 + d)
  {
    assert HexDigit(s[1..][0]) == Some(b);
    assert HexDigit(s[2..][0]) == Some(c);
    assert HexDigit(s[3..][0]) == Some(d);
    assert s[1..][1..] == s[2..] && s[2..][1..] == s[3..] && s[3..][1..] == s[4..];
    assert ScanHexFrom(s, 4, 0, 0) == ScanHexFrom(s[1..], 3, a, 1);
    assert ScanHexFrom(s[1..], 3, a, 1) == ScanHexFrom(s[2..], 2, a * 16 + b, 2);
    assert ScanHexFrom(s[2..], 2, a * 16 + b, 2) == ScanHexFrom(s[3..], 1, (a * 16 + b) * 16 + c, 3);
    assert ScanHexFrom(s[3..], 1, (a * 16 + b) * 16 + c, 3) == ScanHexFrom(s[4..], 0, ((a * 16 + b) * 16 + c) * 16 + d, 4);
  }

  /** Four hex digits, whatever follows them, scan back to their value. */
  lemma ScanHex4Formatted(v: nat, rest: string)
    requires v < 0x1_0000
    ensures ScanHex4(Lower(Hex4(v)) + rest) == Some(v)
  {
    var s := Lower(Hex4(v)) + rest;
    var a, b, c, d := v / 16 / 16 / 16, v / 16 / 16 % 16, v / 16 % 16, v % 16;
    HexCharLowered(a);
    HexCharLowered(b);
    HexCharLowered(c);
    HexCharLowered(d);
    ScanFourDigits(s, a, b, c, d);
    HexDigitsRecompose(v);
  }

  lemma LowerConcat(a: string, b: string)
    ensures Lower(a + b) == Lower(a) + Lower(b)
  {
  }

  /** strstr skips positions where the pattern does not occur. */
  lemma {:induction false} FindSkips(s: string, pattern: string, from: nat, to: nat)
    requires from <= to <= |s|
    requires forall j :: from <= j < to ==> !OccursAt(s, pattern, j)
    ensures FindFrom(s, pattern, from) == FindFrom(s, pattern, to)
    decreases |s| - from
  {
    if from < to {
      FindSkips(s, pattern, from + 1, to);
    }
  }

  /** A lower-cased hex digit is never one of the letters the tags start with. */
  lemma LoweredHexIsNotTagStart(v: nat)
    requires v < 0x1_0000
    ensures forall i :: 0 <= i < 4 ==> Lower(Hex4(v))[i] != 'v' && Lower(Hex4(v))[i] != 'p'
  {
  }

  /** A device ID in the usual form, `USB\VID_xxxx&PID_yyyy` followed by anything. */
  function FormattedId(vid: nat, pid: nat, rest: string): (id: string)
    requires vid < 0x1_0000 && pid < 0x1_0000
  {
    "USB\\VID_" + Hex4(vid) + "&PID_" + Hex4(pid) + rest
  }

  /** A tag is found at `k` when it occurs there and no earlier character starts it. */
  lemma FirstTagAt(s: string, tag: string, k: nat)
    requires |tag| > 0 && OccursAt(s, tag, k)
    requires forall j :: 0 <= j < k ==> s[j] != tag[0]
    ensures Find(s, tag) == Some(k)
  {
    forall j | 0 <= j < k
      ensures !OccursAt(s, tag, j)
    {
      if j + |tag| <= |s| {
        assert s[j..j + |tag|][0] == s[j] != tag[0];
      }
    }
    FindSkips(s, tag, 0, k);
  }

  /** A tag followed by four formatted hex digits reads back as their value. */
  lemma TagValueAt(prefix: string, tag: string, v: nat, rest: string)
    requires |tag| > 0 && v < 0x1_0000
    requires forall j :: 0 <= j < |prefix| ==> prefix[j] != tag[0]
    ensures TagValue(prefix + tag + Lower(Hex4(v)) + rest, tag) == v
  {
    var s := prefix + tag + Lower(Hex4(v)) + rest;
    var k := |prefix|;
    assert s[k..k + |tag|] == tag;
    assert s[k + |tag|..] == Lower(Hex4(v)) + rest;
    FirstTagAt(s, tag, k);
    ScanHex4Formatted(v, rest);
    TagValueOf(s, tag, k, v);
  }

  /** The value after the first occurrence of a tag is what TagValue reads. */
  lemma TagValueOf(s: string, tag: string, k: nat, v: nat)
    requires Find(s, tag) == Some(k) && k + |tag| <= |s|
    requires ScanHex4(s[k + |tag|..]) == Some(v)
    ensures TagValue(s, tag) == v
  {
  }

  /** Lower-casing a formatted device ID lower-cases each of its parts. */
  lemma LoweredFormattedId(vid: nat, pid: nat, rest: string)
    requires vid < 0x1_0000 && pid < 0x1_0000
    ensures Lower(FormattedId(vid, pid, rest)) == "usb\\vid_" + Lower(Hex4(vid)) + "&pid_" + Lower(Hex4(pid)) + Lower(rest)
  {
    LowerConcat("USB\\VID_" + Hex4(vid) + "&PID_" + Hex4(pid), rest);
    LowerConcat("USB\\VID_" + Hex4(vid) + "&PID_", Hex4(pid));
    LowerConcat("USB\\VID_" + Hex4(vid), "&PID_");
    LowerConcat("USB\\VID_", Hex4(vid));
  }

  /** The vendor ID of a lower-cased formatted device ID follows its `vid_` tag. */
  lemma VendorIdAt(hv: string, vid: nat, hp: string, tail: string)
    requires vid < 0x1_0000 && hv == Lower(Hex4(vid))
    ensures TagValue("usb\\vid_" + hv + "&pid_" + hp + tail, "vid_") == vid
  {
    var after := "&pid_" + hp + tail;
    assert "usb\\vid_" + hv + "&pid_" + hp + tail == "usb\\" + "vid_" + Lower(Hex4(vid)) + after;
    TagValueAt("usb\\", "vid_", vid, after);
  }

  /** The product ID of a lower-cased formatted device ID follows its `pid_` tag. */
  lemma ProductIdAt(hv: string, vid: nat, hp: string, pid: nat, tail: string)
    requires vid < 0x1_0000 && hv == Lower(Hex4(vid))
    requires pid < 0x1_0000 && hp == Lower(Hex4(pid))
    ensures TagValue("usb\\vid_" + hv + "&pid_" + hp + tail, "pid_") == pid
  {
    LoweredHexIsNotTagStart(vid);
    var before := "usb\\vid_" + hv + "&";
    assert forall j :: 0 <= j < |before| ==> before[j] != 'p';
    assert "usb\\vid_" + hv + "&pid_" + hp + tail == before + "pid_" + Lower(Hex4(pid)) + tail;
    TagValueAt(before, "pid_", pid, tail);
  }

  /** The IDs read back from a formatted device ID are the ones written into it. */
  lemma FormattedIdRoundTrip(vid: nat, pid: nat, rest: string)
    requires vid < 0x1_0000 && pid < 0x1_0000
    ensures DeviceIds(FormattedId(vid, pid, rest)) == (vid, pid)
  {
    var hv, hp, tail := Lower(Hex4(vid)), Lower(Hex4(pid)), Lower(rest);
    LoweredFormattedId(vid, pid, rest);
    ProductIdAt(hv, vid, hp, pid, tail);
    VendorIdAt(hv, vid, hp, tail);
  }

  /** A device with a formatted ID is enabled exactly when both of its IDs are the configured ones. */
  lemma FormattedIdEnabledIff(vid: nat, pid: nat, rest: string, wantVid: int, wantPid: int)
    requires vid < 0x1_0000 && pid < 0x1_0000
    ensures GetDeviceParam([FormattedId(vid, pid, rest)], wantVid, wantPid).0[0] <==> vid == wantVid && pid == wantPid
    ensures GetDeviceParam([Upper(FormattedId(vid, pid, rest))], wantVid, wantPid).0[0] <==> vid == wantVid && pid == wantPid
  {
    FormattedIdRoundTrip(vid, pid, rest);
    MatchIgnoresCase(FormattedId(vid, pid, rest));
  }
}
