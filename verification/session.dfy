/**
 * CreateTransferParam: locating the pipe for an endpoint, resolving the buffer
 * length, validating isochronous geometry, laying out the slot buffers and, for
 * a loop test on an OUT pipe, pre-filling the backing store.
 *
 * Allocation, isochronous handle set-up and thread creation are input outcomes
 * (`Resources`); a failure after allocation frees everything and yields an error.
 */
module Session {
  import opened Wrappers
  import opened Usb
  import opened VerifyCodec
  import opened LoopPrefill

  /** One entry of the interface's pipe table. */
  datatype PipeInfo = PipeInfo(pipeType: byte, pipeId: byte, maximumPacketSize: u16, maximumBytesPerInterval: u32)

  /** The entries past the interface's endpoints are zero, as the table is cleared before it is filled. */
  const ZeroPipe := PipeInfo(0, 0, 0, 0)

  /** Capacity of the pipe table. */
  const PIPE_TABLE_SIZE: nat := 32

  /** How far the scan runs: below the endpoint count, or up to and including it (src/transfer.c). */
  datatype ScanBound = Exclusive | Inclusive

  function ScanLimit(numEndpoints: nat, bound: ScanBound): nat
  {
    if bound == Inclusive then numEndpoints + 1 else numEndpoints
  }

  /**
   * An endpoint ID with endpoint number 0 asks for any pipe of that direction
   * (0x80 for IN, 0x00 for OUT); any other asks for that exact address.
   */
  predicate PipeMatches(p: PipeInfo, endpointID: nat)
  {
    if endpointID % 16 == 0 then DirectionBits(p.pipeId) == endpointID else p.pipeId == endpointID
  }

  /** The pipe lookup: the first table entry below the scan limit that matches. */
  function FindPipe(pipes: seq<PipeInfo>, numEndpoints: nat, bound: ScanBound, endpointID: nat): (r: Option<nat>)
    requires ScanLimit(numEndpoints, bound) <= |pipes|
    ensures r.Some? ==> && r.value < ScanLimit(numEndpoints, bound)
                        && PipeMatches(pipes[r.value], endpointID)
                        && forall j :: 0 <= j < r.value ==> !PipeMatches(pipes[j], endpointID)
    ensures r.None? <==> forall j :: 0 <= j < ScanLimit(numEndpoints, bound) ==> !PipeMatches(pipes[j], endpointID)
  {
    FindFrom(pipes, ScanLimit(numEndpoints, bound), endpointID, 0)
  }

  function FindFrom(pipes: seq<PipeInfo>, limit: nat, endpointID: nat, i: nat): (r: Option<nat>)
    requires i <= limit <= |pipes|
    ensures r.Some? ==> && i <= r.value < limit
                        && PipeMatches(pipes[r.value], endpointID)
                        && forall j :: i <= j < r.value ==> !PipeMatches(pipes[j], endpointID)
    ensures r.None? <==> forall j :: i <= j < limit ==> !PipeMatches(pipes[j], endpointID)
    decreases limit - i
  {
    if i == limit then None
    else if PipeMatches(pipes[i], endpointID) then Some(i)
    else FindFrom(pipes, limit, endpointID, i + 1)
  }

  /**
   * With the inclusive scan, asking for any OUT pipe on an interface that has none
   * finds the cleared entry just past the table's real endpoints: a pipe with
   * address 0 and maximum packet size 0. The exclusive scan reports that no pipe
   * was found.
   */
  lemma InclusiveScanFindsPhantom(pipes: seq<PipeInfo>, numEndpoints: nat)
    requires numEndpoints < |pipes| && pipes[numEndpoints] == ZeroPipe
    requires forall j :: 0 <= j < numEndpoints ==> IsIn(pipes[j].pipeId)
    ensures FindPipe(pipes, numEndpoints, Inclusive, 0) == Some(numEndpoints)
    ensures FindPipe(pipes, numEndpoints, Exclusive, 0) == None
  {
    assert forall j :: 0 <= j < numEndpoints ==> !PipeMatches(pipes[j], 0);
  }

  /** The two scans agree whenever the exclusive one finds a pipe. */
  lemma ScansAgreeOnRealPipes(pipes: seq<PipeInfo>, numEndpoints: nat, endpointID: nat)
    requires numEndpoints < |pipes|
    requires FindPipe(pipes, numEndpoints, Exclusive, endpointID).Some?
    ensures FindPipe(pipes, numEndpoints, Inclusive, endpointID) == FindPipe(pipes, numEndpoints, Exclusive, endpointID)
  {
  }

  // ---------------------------------------------------------------------------
  // Parameters and outcomes
  // ---------------------------------------------------------------------------

  datatype TestType = TestNone | TestRead | TestWrite | TestLoop
  datatype TransferMode = Sync | Async

  /** The test parameters CreateTransferParam reads and updates. */
  datatype Params = Params(bufferLength: nat, readLength: nat, writeLength: nat, bufferCount: nat,
                           transferMode: TransferMode, testType: TestType)

  /** What the environment grants: the allocation, each isochronous handle's set-up, the thread. */
  datatype Resources = Resources(allocOk: bool, isoInitOk: seq<bool>, threadOk: bool)

  datatype CreateError =
    | PipeNotFound
    | AllocFailed
    | NoBytesPerInterval
    | BadIsoBufferSize
    | IsoInitFailed(index: nat)
    | ThreadFailed
    | PrefillDivideByZero   // a loop test on an OUT pipe whose maximum packet size is 0

  /** A created session: its pipe, isochronous layout and backing store. */
  datatype Transfer = Transfer(pipeIndex: nat, pipe: PipeInfo, numberOfIsoPackets: nat,
                               isoSlotOffsets: seq<nat>, buffer: seq<byte>, prefilled: bool)

  function Max(a: nat, b: nat): nat { if a >= b then a else b }

  /** The effective buffer length: the largest of the buffer, read and write lengths. */
  function EffectiveLength(p: Params): (len: nat)
    ensures len >= p.bufferLength && len >= p.readLength && len >= p.writeLength
    ensures len == p.bufferLength || len == p.readLength || len == p.writeLength
  {
    Max(Max(p.bufferLength, p.readLength), p.writeLength)
  }

  // ---------------------------------------------------------------------------
  // Isochronous geometry
  // ---------------------------------------------------------------------------

  /** The isochronous checks as written: a nonzero packet count that is a multiple of 8, and no remainder. */
  predicate IsoGeometryOk(len: nat, bytesPerInterval: nat)
    requires bytesPerInterval > 0
  {
    len / bytesPerInterval != 0 && (len / bytesPerInterval) % 8 == 0 && len % bytesPerInterval == 0
  }

  /**
   * The checks accept exactly the buffer lengths that are a positive multiple of
   * eight intervals.
   */
  lemma IsoGeometryIsMultipleOfEightIntervals(len: nat, bytesPerInterval: nat)
    requires bytesPerInterval > 0
    ensures IsoGeometryOk(len, bytesPerInterval) <==>
              exists k: nat :: k >= 1 && len == k * (8 * bytesPerInterval)
  {
    var q := len / bytesPerInterval;
    if IsoGeometryOk(len, bytesPerInterval) {
      var k := q / 8;
      assert q == 8 * k;
      assert len == q * bytesPerInterval;
      assert len == k * (8 * bytesPerInterval) by {
        assert q * bytesPerInterval == (8 * k) * bytesPerInterval;
      }
    }
    if exists k: nat :: k >= 1 && len == k * (8 * bytesPerInterval) {
      var k: nat :| k >= 1 && len == k * (8 * bytesPerInterval);
      assert len == (8 * k) * bytesPerInterval;
      DivMulExact(8 * k, bytesPerInterval);
    }
  }

  lemma DivMulExact(q: nat, d: nat)
    requires d > 0
    ensures (q * d) / d == q && (q * d) % d == 0
  {
    DivModUnique(q * d, q, 0, d);
  }

  lemma ExactDivision(len: nat, d: nat)
    requires d > 0 && len % d == 0
    ensures (len / d) * d == len
  {
  }

  lemma MulLe(a: nat, b: nat, c: nat)
    requires b <= c
    ensures a * b <= a * c
  {
  }

  /** Offsets of the isochronous slots' data: slot `i` starts `i` buffer lengths in. */
  function SlotOffsets(count: nat, len: nat): (offsets: seq<nat>)
    ensures |offsets| == count
    ensures forall i :: 0 <= i < count ==> offsets[i] == i * len
  {
    seq(count, i requires 0 <= i < count => i * len)
  }

  /** Each slot's region lies in the backing store, and distinct slots' regions do not overlap. */
  lemma SlotRegionsDisjoint(count: nat, len: nat, i: nat, j: nat)
    requires i < j < count
    ensures SlotOffsets(count, len)[i] + len <= SlotOffsets(count, len)[j]
    ensures SlotOffsets(count, len)[j] + len <= count * len
  {
    MulLe(len, i + 1, j);
    MulLe(len, j + 1, count);
  }

  /** The first isochronous handle whose set-up fails, if any. */
  function FirstFailure(oks: seq<bool>, count: nat): (r: Option<nat>)
    requires count <= |oks|
    ensures r.Some? ==> r.value < count && !oks[r.value] && forall j :: 0 <= j < r.value ==> oks[j]
    ensures r.None? <==> forall j :: 0 <= j < count ==> oks[j]
  {
    if count == 0 then None
    else
      var r := FirstFailure(oks, count - 1);
      if r.Some? then r else if !oks[count - 1] then Some(count - 1) else None
  }

  // ---------------------------------------------------------------------------
  // CreateTransferParam
  // ---------------------------------------------------------------------------

  /**
   * The loop-test pre-fill of a new session: the pipe's packet size is positive and
   * the whole packets that fit in the read lengths of all buffers hold the stream
   * of frames 0, 1, 2, ...
   */
  predicate PrefillWritten(t: Transfer, p: Params)
  {
    && t.pipe.maximumPacketSize >= 1
    && var count := PacketCount(p.bufferCount, p.readLength, t.pipe.maximumPacketSize);
       && count * t.pipe.maximumPacketSize <= |t.buffer|
       && t.buffer[..count * t.pipe.maximumPacketSize] == Stream(0, count, t.pipe.maximumPacketSize)
  }

  /**
   * When the pre-fill divides by a zero packet size: every earlier step succeeds
   * and a loop test writes to a pipe whose packet size is 0.
   */
  predicate PrefillDividesByZero(info: PipeInfo, p: Params, res: Resources)
    requires |res.isoInitOk| >= p.bufferCount
  {
    && res.allocOk && res.threadOk
    && p.testType == TestLoop
    && !IsIn(info.pipeId) && info.maximumPacketSize == 0
    && (EndpointType(info.pipeType) == Isochronous ==>
          && info.maximumBytesPerInterval > 0
          && IsoGeometryOk(EffectiveLength(p), info.maximumBytesPerInterval)
          && forall j :: 0 <= j < p.bufferCount ==> res.isoInitOk[j])
  }

  predicate IsIsoPipe(info: PipeInfo) { EndpointType(info.pipeType) == Isochronous }

  /** The isochronous set-up succeeds: a known interval size, an accepted geometry and every handle initialised. */
  predicate IsoSetUpOk(info: PipeInfo, len: nat, res: Resources, count: nat)
    requires count <= |res.isoInitOk|
  {
    info.maximumBytesPerInterval > 0 && IsoGeometryOk(len, info.maximumBytesPerInterval)
    && FirstFailure(res.isoInitOk, count).None?
  }

  /**
   * CreateTransferParam. Returns the parameters as it leaves them (the buffer
   * length is resolved once the pipe is found, and an isochronous pipe forces
   * asynchronous mode before its geometry is checked) and either the new session
   * or the reason creation failed. Each failure is tied to its cause, and the call
   * succeeds exactly when the pipe is found and every step after it succeeds.
   */
  method CreateTransferParam(p: Params, pipes: seq<PipeInfo>, numEndpoints: nat, bound: ScanBound,
                             endpointID: nat, res: Resources)
    returns (q: Params, r: Result<Transfer, CreateError>)
    requires |pipes| == PIPE_TABLE_SIZE && numEndpoints < PIPE_TABLE_SIZE
    requires |res.isoInitOk| >= p.bufferCount
    ensures FindPipe(pipes, numEndpoints, bound, endpointID).None? <==> r == Err(PipeNotFound)
    ensures var pipe := FindPipe(pipes, numEndpoints, bound, endpointID);
            q == p.(bufferLength := if pipe.Some? then EffectiveLength(p) else p.bufferLength,
                    transferMode := if pipe.Some? && res.allocOk && IsIsoPipe(pipes[pipe.value]) then Async
                                    else p.transferMode)
    ensures r == Err(AllocFailed) <==> FindPipe(pipes, numEndpoints, bound, endpointID).Some? && !res.allocOk
    ensures var pipe := FindPipe(pipes, numEndpoints, bound, endpointID);
            pipe.Some? && res.allocOk && IsIsoPipe(pipes[pipe.value]) ==>
              var info := pipes[pipe.value];
              && (info.maximumBytesPerInterval == 0 <==> r == Err(NoBytesPerInterval))
              && (info.maximumBytesPerInterval > 0 ==>
                    (!IsoGeometryOk(q.bufferLength, info.maximumBytesPerInterval) <==> r == Err(BadIsoBufferSize)))
    ensures r.Err? && r.error.IsoInitFailed? <==>
              var pipe := FindPipe(pipes, numEndpoints, bound, endpointID);
              && pipe.Some? && res.allocOk && IsIsoPipe(pipes[pipe.value])
              && pipes[pipe.value].maximumBytesPerInterval > 0
              && IsoGeometryOk(EffectiveLength(p), pipes[pipe.value].maximumBytesPerInterval)
              && FirstFailure(res.isoInitOk, p.bufferCount).Some?
    ensures r.Err? && r.error.IsoInitFailed? ==> Some(r.error.index) == FirstFailure(res.isoInitOk, p.bufferCount)
    ensures r == Err(ThreadFailed) <==>
              var pipe := FindPipe(pipes, numEndpoints, bound, endpointID);
              && pipe.Some? && res.allocOk && !res.threadOk
              && (IsIsoPipe(pipes[pipe.value]) ==> IsoSetUpOk(pipes[pipe.value], EffectiveLength(p), res, p.bufferCount))
    ensures r.Ok? <==>
              var pipe := FindPipe(pipes, numEndpoints, bound, endpointID);
              && pipe.Some? && res.allocOk && res.threadOk
              && (IsIsoPipe(pipes[pipe.value]) ==> IsoSetUpOk(pipes[pipe.value], EffectiveLength(p), res, p.bufferCount))
              && !PrefillDividesByZero(pipes[pipe.value], p, res)
    ensures r.Ok? ==>
              && r.value.pipeIndex == FindPipe(pipes, numEndpoints, bound, endpointID).value
              && r.value.pipe == pipes[r.value.pipeIndex]
              && |r.value.buffer| == q.bufferLength * p.bufferCount
              && (r.value.prefilled <==> p.testType == TestLoop && !IsIn(r.value.pipe.pipeId))
    ensures r.Ok? && IsIsoPipe(r.value.pipe) ==>
              && r.value.numberOfIsoPackets * r.value.pipe.maximumBytesPerInterval == q.bufferLength
              && r.value.isoSlotOffsets == SlotOffsets(p.bufferCount, q.bufferLength)
    ensures r.Ok? && !IsIsoPipe(r.value.pipe) ==> r.value.numberOfIsoPackets == 0 && r.value.isoSlotOffsets == []
    ensures r.Ok? && !r.value.prefilled ==> forall k :: 0 <= k < |r.value.buffer| ==> r.value.buffer[k] == 0
    ensures r.Ok? && r.value.prefilled ==> PrefillWritten(r.value, p)
    ensures r == Err(PrefillDivideByZero) <==>
              && FindPipe(pipes, numEndpoints, bound, endpointID).Some?
              && PrefillDividesByZero(pipes[FindPipe(pipes, numEndpoints, bound, endpointID).value], p, res)
  {
    q := p;
    var found := FindPipe(pipes, numEndpoints, bound, endpointID);
    if found.None? {
      r := Err(PipeNotFound);
      return;
    }
    var pipeIndex := found.value;
    var info := pipes[pipeIndex];
    var len := EffectiveLength(p);
    q := q.(bufferLength := len);
    if !res.allocOk {
      r := Err(AllocFailed);
      return;
    }
    var buffer: seq<byte> := seq(len * p.bufferCount, _ => 0);
    var numIsoPackets := 0;
    var offsets: seq<nat> := [];
    if IsIsoPipe(info) {
      q := q.(transferMode := Async);
      if info.maximumBytesPerInterval == 0 {
        r := Err(NoBytesPerInterval);
        return;
      }
      numIsoPackets := len / info.maximumBytesPerInterval;
      if numIsoPackets == 0 || numIsoPackets % 8 != 0 || len % info.maximumBytesPerInterval != 0 {
        r := Err(BadIsoBufferSize);
        return;
      }
      ExactDivision(len, info.maximumBytesPerInterval);
      var failed := FirstFailure(res.isoInitOk, p.bufferCount);
      if failed.Some? {
        r := Err(IsoInitFailed(failed.value));
        return;
      }
      offsets := SlotOffsets(p.bufferCount, len);
    }
    if !res.threadOk {
      r := Err(ThreadFailed);
      return;
    }
    var prefilled := p.testType == TestLoop && !IsIn(info.pipeId);
    if prefilled {
      if info.maximumPacketSize == 0 {
        r := Err(PrefillDivideByZero);
        return;
      }
      MulLe(p.bufferCount, p.readLength, len);
      buffer := PrefillLoopBuffer(buffer, p.bufferCount, p.readLength, info.maximumPacketSize);
    }
    r := Ok(Transfer(pipeIndex, info, numIsoPackets, offsets, buffer, prefilled));
  }

  // ---------------------------------------------------------------------------
  // The libusb port
  // ---------------------------------------------------------------------------

  /** One isochronous handle of the libusb port: whether its transfer was allocated, and its data size. */
  datatype LinuxHandle = LinuxHandle(isAllocated: bool, dataSize: nat)

  /** What createTransferParam leaves behind. */
  datatype LinuxCreate = LinuxCreate(bufferLength: nat, transferMode: TransferMode,
                                     handles: seq<LinuxHandle>, threadStarted: bool)

  /**
   * createTransferParam in the libusb port: nothing happens when the maximum packet
   * size is 0; otherwise the buffer length becomes the whole backing store, and
   * an isochronous endpoint forces asynchronous mode and appends one handle per
   * buffer, sized to that length, stopping (without a thread) at the first failed
   * allocation, whose handle stays appended without data.
   */
  function LinuxCreateTransferParam(bufferLength: nat, bufferCount: nat, mode: TransferMode,
                                    attributes: byte, maxPacketSize: u16, allocOk: seq<bool>): (r: LinuxCreate)
    requires |allocOk| >= bufferCount
    ensures maxPacketSize == 0 ==> r == LinuxCreate(bufferLength, mode, [], false)
    ensures maxPacketSize > 0 ==> r.bufferLength == bufferLength * bufferCount
    ensures maxPacketSize > 0 && EndpointType(attributes) != Isochronous ==>
              r.transferMode == mode && r.handles == [] && r.threadStarted
    ensures maxPacketSize > 0 && EndpointType(attributes) == Isochronous ==>
              && r.transferMode == Async
              && (r.threadStarted <==> forall j :: 0 <= j < bufferCount ==> allocOk[j])
              && (r.threadStarted ==> |r.handles| == bufferCount)
              && (!r.threadStarted ==> 1 <= |r.handles| <= bufferCount && !r.handles[|r.handles| - 1].isAllocated)
              && forall j :: 0 <= j < |r.handles| - 1 ==> r.handles[j] == LinuxHandle(true, r.bufferLength)
  {
    if maxPacketSize == 0 then LinuxCreate(bufferLength, mode, [], false)
    else
      var len := bufferLength * bufferCount;
      if EndpointType(attributes) == Isochronous then
        var handles := AppendHandles(len, allocOk, bufferCount);
        LinuxCreate(len, Async, handles, FirstFailure(allocOk, bufferCount).None?)
      else LinuxCreate(len, mode, [], true)
  }

  /** The handle loop: appends a handle per buffer, stopping after the first whose allocation fails. */
  function AppendHandles(len: nat, allocOk: seq<bool>, count: nat): (hs: seq<LinuxHandle>)
    requires count <= |allocOk|
    ensures FirstFailure(allocOk, count).None? ==> |hs| == count && forall j :: 0 <= j < count ==> hs[j] == LinuxHandle(true, len)
    ensures FirstFailure(allocOk, count).Some? ==>
              && |hs| == FirstFailure(allocOk, count).value + 1
              && hs[|hs| - 1] == LinuxHandle(false, 0)
              && forall j :: 0 <= j < |hs| - 1 ==> hs[j] == LinuxHandle(true, len)
  {
    if count == 0 then []
    else
      var prior := AppendHandles(len, allocOk, count - 1);
      if FirstFailure(allocOk, count - 1).Some? then prior
      else prior + [if allocOk[count - 1] then LinuxHandle(true, len) else LinuxHandle(false, 0)]
  }
}
