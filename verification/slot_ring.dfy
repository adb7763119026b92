/**
 * The asynchronous transfer slot ring (TransferAsync): a fixed array of transfer
 * handles with a submit index, a wait index and an outstanding count. Each call
 * submits transfers until the window is full, then waits on the oldest one.
 *
 * Every driver call is an input outcome (submit status and last error, wait
 * result, overlapped result with its byte count and isochronous packets), so a
 * call is a deterministic function of the ring state and those outcomes.
 */
module SlotRing {
  import opened Wrappers
  import opened Usb
  import Session

  // ---------------------------------------------------------------------------
  // Isochronous packet aggregation (IsoTransferCb)
  // ---------------------------------------------------------------------------

  /** Packet counters of one isochronous transfer or of a whole session. */
  datatype IsoResults = IsoResults(total: nat, good: nat, bad: nat, length: nat)

  const NoIsoResults := IsoResults(0, 0, 0, 0)

  /** One packet descriptor of a completed isochronous transfer. */
  datatype IsoPacket = IsoPacket(length: u32, status: u32)

  /** A packet is bad when its status is nonzero and good when its status is 0 and it carried bytes. */
  predicate IsBad(p: IsoPacket) { p.status != 0 }
  predicate IsGood(p: IsoPacket) { p.status == 0 && p.length != 0 }

  /**
   * IsoTransferCb: classifies one packet into the running counters. A packet with
   * status 0 and length 0 is neither good nor bad, but every packet is counted.
   */
  function IsoTransferCb(acc: IsoResults, packet: IsoPacket): (r: IsoResults)
    ensures r.total == acc.total + 1
    ensures r.good + r.bad <= acc.good + acc.bad + 1
    ensures r.length >= acc.length
  {
    if packet.status != 0 then acc.(bad := acc.bad + 1, total := acc.total + 1)
    else if packet.length != 0 then acc.(good := acc.good + 1, length := acc.length + packet.length, total := acc.total + 1)
    else acc.(total := acc.total + 1)
  }

  /** IsochK_EnumPackets with IsoTransferCb: the callback applied to every packet in order. */
  function EnumPackets(acc: IsoResults, packets: seq<IsoPacket>): (r: IsoResults)
    ensures acc.good + acc.bad <= acc.total ==> r.good + r.bad <= r.total
    decreases |packets|
  {
    if packets == [] then acc else EnumPackets(IsoTransferCb(acc, packets[0]), packets[1..])
  }

  /** Reference counts, defined independently of the callback. */
  function CountGood(ps: seq<IsoPacket>): nat
  {
    if ps == [] then 0 else (if IsGood(ps[0]) then 1 else 0) + CountGood(ps[1..])
  }

  function CountBad(ps: seq<IsoPacket>): nat
  {
    if ps == [] then 0 else (if IsBad(ps[0]) then 1 else 0) + CountBad(ps[1..])
  }

  function GoodLength(ps: seq<IsoPacket>): nat
  {
    if ps == [] then 0 else (if IsGood(ps[0]) then ps[0].length else 0) + GoodLength(ps[1..])
  }

  /**
   * Enumerating a transfer's packets from zeroed counters yields the total packet
   * count, the good and bad counts, and the summed length of the good packets;
   * hence good plus bad never exceeds the total.
   */
  lemma {:induction false} EnumPacketsCounts(acc: IsoResults, packets: seq<IsoPacket>)
    ensures EnumPackets(acc, packets) ==
              IsoResults(acc.total + |packets|, acc.good + CountGood(packets),
                         acc.bad + CountBad(packets), acc.length + GoodLength(packets))
    ensures CountGood(packets) + CountBad(packets) <= |packets|
    decreases |packets|
  {
    if packets != [] {
      EnumPacketsCounts(IsoTransferCb(acc, packets[0]), packets[1..]);
    }
  }

  /** Adds one transfer's counters to the session's. */
  function AddIso(a: IsoResults, b: IsoResults): IsoResults
  {
    IsoResults(a.total + b.total, a.good + b.good, a.bad + b.bad, a.length + b.length)
  }

  // ---------------------------------------------------------------------------
  // Ring state
  // ---------------------------------------------------------------------------

  /** INC_ROLL: advance an index, rolling over to 0 when it reaches `roll`. */
  function IncRoll(f: nat, roll: nat): (r: nat)
    requires f < roll
    ensures r < roll
    ensures r == (f + 1) % roll
  {
    ModWrap(f + 1, roll);
    if f + 1 >= roll then 0 else f + 1
  }

  /** One transfer handle: its event, in-use flag, last return code, data offset in the backing store, length and packet counters. */
  datatype Slot = Slot(hasEvent: bool, inUse: bool, returnCode: int, dataOffset: nat, dataMaxLength: i32, iso: IsoResults)

  const EmptySlot := Slot(false, false, 0, 0, 0, NoIsoResults)

  /** The transfer-parameter fields TransferAsync works on. */
  datatype Ring = Ring(slots: seq<Slot>, nextIndex: nat, waitIndex: nat, outstanding: nat, iso: IsoResults)

  /** The ring of a freshly created session: every field zero, as after the allocation's memset. */
  function InitialRing(): (r: Ring)
    ensures |r.slots| == MAX_OUTSTANDING_TRANSFERS
    ensures forall i :: 0 <= i < |r.slots| ==> !r.slots[i].inUse && !r.slots[i].hasEvent
  {
    Ring(seq(MAX_OUTSTANDING_TRANSFERS, _ => EmptySlot), 0, 0, 0, NoIsoResults)
  }

  /**
   * The ring of a freshly created isochronous session: the set-up gives each of
   * the first `count` handles its event and places its data `len` bytes after the
   * previous one's; the other handles stay zero.
   */
  function IsoInitialRing(count: nat, len: nat): (r: Ring)
    requires count <= MAX_OUTSTANDING_TRANSFERS
    ensures |r.slots| == MAX_OUTSTANDING_TRANSFERS
    ensures forall i :: 0 <= i < count ==>
              && r.slots[i].hasEvent && !r.slots[i].inUse
              && r.slots[i].dataOffset == Session.SlotOffsets(count, len)[i]
    ensures forall i :: count <= i < |r.slots| ==> r.slots[i] == EmptySlot
    ensures r.outstanding == 0 && r.iso == NoIsoResults
  {
    Ring(seq(MAX_OUTSTANDING_TRANSFERS, i requires 0 <= i < MAX_OUTSTANDING_TRANSFERS =>
               if i < count then EmptySlot.(hasEvent := true, dataOffset := i * len) else EmptySlot),
         0, 0, 0, NoIsoResults)
  }

  /** Which source revision's error returns to follow. */
  datatype Revision =
    | Canonical      // uvperf.c and src/transfer_p.c
    | SplitTransfer  // src/transfer.c

  /** The session settings TransferAsync reads. */
  datatype AsyncConfig = AsyncConfig(
    bufferCount: nat,
    isRead: bool,           // PipeId & 0x80
    isIso: bool,            // PipeType == isochronous
    readLength: i32,
    writeLength: i32,
    allocBufferSize: nat,   // stride between slot data buffers
    numberOfIsoPackets: nat,
    isUserAborted: bool,
    revision: Revision)

  /** The length a submission asks for: the read length on an IN pipe, the write length otherwise. */
  function RequestLength(cfg: AsyncConfig): i32
  {
    if cfg.isRead then cfg.readLength else cfg.writeLength
  }

  /** Position of slot `i` in the queue of outstanding transfers, counting from the wait index. */
  function QueuePos(i: nat, waitIndex: nat, bc: nat): nat
    requires i < bc && waitIndex < bc
  {
    if i >= waitIndex then i - waitIndex else i + bc - waitIndex
  }

  /** Slot `i` holds an outstanding transfer. */
  predicate InQueue(r: Ring, bc: nat, i: nat)
    requires r.waitIndex < bc
  {
    i < bc && QueuePos(i, r.waitIndex, bc) < r.outstanding
  }

  /**
   * The ring invariant: the window is between empty and full, the wait index is
   * the oldest outstanding slot, the next index is `outstanding` places after it,
   * and exactly the outstanding slots are in use.
   */
  ghost predicate Valid(r: Ring, bc: nat)
  {
    && 1 <= bc <= MAX_OUTSTANDING_TRANSFERS
    && |r.slots| == MAX_OUTSTANDING_TRANSFERS
    && r.waitIndex < bc && r.nextIndex < bc
    && r.outstanding <= bc
    && r.nextIndex == (r.waitIndex + r.outstanding) % bc
    && forall i :: 0 <= i < |r.slots| ==> (r.slots[i].inUse <==> InQueue(r, bc, i))
  }

  /** The outstanding slots, oldest first. */
  function Queue(r: Ring, bc: nat): (q: seq<nat>)
    requires bc >= 1
    ensures |q| == r.outstanding
  {
    seq(r.outstanding, j requires 0 <= j < r.outstanding => (r.waitIndex + j) % bc)
  }

  lemma InitialRingValid(bc: nat)
    requires 1 <= bc <= MAX_OUTSTANDING_TRANSFERS
    ensures Valid(InitialRing(), bc)
  {
  }

  // ---------------------------------------------------------------------------
  // Driver outcomes
  // ---------------------------------------------------------------------------

  /** What a read/write submission reported: its BOOL result and GetLastError() right after. */
  datatype SubmitOutcome = SubmitOutcome(success: bool, lastError: ErrorCode)

  /** What waiting on the oldest transfer's event reported. */
  datatype WaitOutcome = Signalled | WaitFailed(lastError: ErrorCode)

  /** What fetching the overlapped result reported: a byte count and, for isochronous reads, the packets. */
  datatype ResultOutcome = Completed(transferred: u32, packets: seq<IsoPacket>) | ResultFailed(lastError: ErrorCode)

  // ---------------------------------------------------------------------------
  // Submission
  // ---------------------------------------------------------------------------

  /** The status a submission is judged by: a pending transfer counts as accepted, anything else keeps its last error. */
  function SubmitCode(o: SubmitOutcome): (code: ErrorCode)
    ensures code == 0 <==> (o.lastError == ERROR_IO_PENDING && !o.success) || o.lastError == 0
  {
    if !o.success && o.lastError == ERROR_IO_PENDING then ERROR_SUCCESS else o.lastError
  }

  /** The result of one ring operation: the new state and the return code. */
  datatype Step = Step(ring: Ring, ret: int)

  /**
   * One pass of the submit loop on the slot at the next index: the slot gets an
   * event and its data offset on first use and the direction's length; an
   * accepted submission marks it in use, grows the window and advances the next
   * index; a rejected one leaves it not in use and returns the negated code.
   */
  function SubmitOne(cfg: AsyncConfig, r: Ring, o: SubmitOutcome): (s: Step)
    requires Valid(r, cfg.bufferCount) && r.outstanding < cfg.bufferCount
    ensures s.ret == -(SubmitCode(o) as int)
    ensures |s.ring.slots| == |r.slots| && s.ring.waitIndex == r.waitIndex && s.ring.iso == r.iso
    ensures s.ring.slots[r.nextIndex].returnCode == s.ret
    ensures s.ring.slots[r.nextIndex].hasEvent
    ensures s.ring.slots[r.nextIndex].dataMaxLength == RequestLength(cfg)
    ensures forall i :: 0 <= i < |r.slots| && i != r.nextIndex ==> s.ring.slots[i] == r.slots[i]
    ensures s.ret < 0 ==> && s.ring.outstanding == r.outstanding && s.ring.nextIndex == r.nextIndex
                          && !s.ring.slots[r.nextIndex].inUse
    ensures s.ret == 0 ==> && s.ring.outstanding == r.outstanding + 1
                           && s.ring.nextIndex == (r.nextIndex + 1) % cfg.bufferCount
                           && s.ring.slots[r.nextIndex].inUse
  {
    var i := r.nextIndex;
    var slot := r.slots[i];
    var withEvent := if slot.hasEvent then slot else slot.(hasEvent := true, dataOffset := i * cfg.allocBufferSize);
    var prepared := withEvent.(dataMaxLength := RequestLength(cfg));
    var ret: int := -(SubmitCode(o) as int);
    if ret < 0 then
      Step(r.(slots := r.slots[i := prepared.(returnCode := ret, inUse := false)]), ret)
    else
      Step(r.(slots := r.slots[i := prepared.(returnCode := ret, inUse := true)],
              outstanding := r.outstanding + 1,
              nextIndex := IncRoll(i, cfg.bufferCount)), ret)
  }

  lemma ModWrap(x: nat, bc: nat)
    requires 1 <= bc && x < 2 * bc
    ensures x % bc == if x >= bc then x - bc else x
  {
    if x >= bc {
      assert x == 1 * bc + (x - bc);
    }
  }

  /** An accepted submission keeps the ring valid and appends the slot it used to the queue. */
  lemma SubmitAppends(cfg: AsyncConfig, r: Ring, o: SubmitOutcome)
    requires Valid(r, cfg.bufferCount) && r.outstanding < cfg.bufferCount
    ensures Valid(SubmitOne(cfg, r, o).ring, cfg.bufferCount)
    ensures SubmitOne(cfg, r, o).ret == 0 ==>
              Queue(SubmitOne(cfg, r, o).ring, cfg.bufferCount) == Queue(r, cfg.bufferCount) + [r.nextIndex]
    ensures SubmitOne(cfg, r, o).ret < 0 ==>
              Queue(SubmitOne(cfg, r, o).ring, cfg.bufferCount) == Queue(r, cfg.bufferCount)
  {
    var bc := cfg.bufferCount;
    var s := SubmitOne(cfg, r, o);
    ModWrap(r.waitIndex + r.outstanding, bc);
    assert QueuePos(r.nextIndex, r.waitIndex, bc) == r.outstanding;
    if s.ret == 0 {
      ModWrap(r.waitIndex + r.outstanding + 1, bc);
      ModWrap(r.nextIndex + 1, bc);
      forall i | 0 <= i < |s.ring.slots|
        ensures s.ring.slots[i].inUse <==> InQueue(s.ring, bc, i)
      {
        if i != r.nextIndex {
          assert s.ring.slots[i] == r.slots[i];
        }
      }
      forall j | 0 <= j < r.outstanding + 1
        ensures Queue(s.ring, bc)[j] == (Queue(r, bc) + [r.nextIndex])[j]
      {
      }
    } else {
      forall i | 0 <= i < |s.ring.slots|
        ensures s.ring.slots[i].inUse <==> InQueue(s.ring, bc, i)
      {
        if i != r.nextIndex {
          assert s.ring.slots[i] == r.slots[i];
        }
      }
    }
  }

  /** How the submit loop ended: the state, the last return code, the last slot touched, and whether a submission was rejected. */
  datatype SubmitPhase = SubmitPhase(ring: Ring, ret: int, handle: Option<nat>, failed: bool)

  /**
   * The submit loop: submits while the window is not full, consuming one outcome
   * per attempt, and stops at the first rejected submission.
   */
  function SubmitLoop(cfg: AsyncConfig, r: Ring, submits: seq<SubmitOutcome>, ret: int, handle: Option<nat>): (p: SubmitPhase)
    requires Valid(r, cfg.bufferCount)
    requires |submits| >= cfg.bufferCount - r.outstanding
    ensures Valid(p.ring, cfg.bufferCount)
    ensures p.ring.waitIndex == r.waitIndex && p.ring.iso == r.iso
    ensures p.failed ==> p.ret < 0 && p.ring.outstanding < cfg.bufferCount && p.handle.Some?
    ensures !p.failed ==> p.ring.outstanding == cfg.bufferCount && (r.outstanding < cfg.bufferCount ==> p.ret == 0)
    ensures !p.failed && r.outstanding == cfg.bufferCount ==> p == SubmitPhase(r, ret, handle, false)
    ensures r.outstanding <= p.ring.outstanding
    ensures Queue(p.ring, cfg.bufferCount)[..r.outstanding] == Queue(r, cfg.bufferCount)
    decreases cfg.bufferCount - r.outstanding
  {
    if r.outstanding >= cfg.bufferCount then SubmitPhase(r, ret, handle, false)
    else
      SubmitAppends(cfg, r, submits[0]);
      var s := SubmitOne(cfg, r, submits[0]);
      if s.ret < 0 then SubmitPhase(s.ring, s.ret, Some(r.nextIndex), true)
      else SubmitLoop(cfg, s.ring, submits[1..], s.ret, Some(r.nextIndex))
  }

  // ---------------------------------------------------------------------------
  // Reaping the oldest transfer
  // ---------------------------------------------------------------------------

  /**
   * The code returned when the wait or the overlapped result fails. Without a user
   * abort, the canonical revision returns WinError(0), which is 0 when the last
   * error is 0 and the negated code otherwise, and src/transfer.c returns the last
   * error un-negated; under a user abort both return the negated last error.
   */
  function FailureCode(revision: Revision, isUserAborted: bool, lastError: ErrorCode): (ret: int)
    ensures isUserAborted ==> ret == -(lastError as int)
    ensures !isUserAborted && revision == Canonical ==> ret == -(lastError as int)
    ensures !isUserAborted && revision == SplitTransfer ==> ret == lastError
  {
    if isUserAborted then -(lastError as int)
    else match revision
      case Canonical => if lastError == 0 then 0 else -(lastError as int)
      case SplitTransfer => lastError
  }

  /**
   * Waits on the slot at the wait index, the oldest submission. A failed wait or
   * result only records the code in the slot. A completion computes the byte count
   * (the good packets' length for an isochronous read, the request length for an
   * isochronous write, the driver's count otherwise) as a signed `int`; a
   * non-negative count frees the slot, shrinks the window and advances the wait
   * index.
   */
  function Reap(cfg: AsyncConfig, r: Ring, wait: WaitOutcome, result: ResultOutcome): (s: Step)
    requires Valid(r, cfg.bufferCount) && r.outstanding == cfg.bufferCount
    ensures |s.ring.slots| == |r.slots| && s.ring.nextIndex == r.nextIndex
    ensures forall i :: 0 <= i < |r.slots| && i != r.waitIndex ==> s.ring.slots[i] == r.slots[i]
    ensures s.ring.slots[r.waitIndex].returnCode == s.ret
    ensures s.ret < 0 || wait.WaitFailed? || result.ResultFailed? ==>
              && s.ring.outstanding == r.outstanding && s.ring.waitIndex == r.waitIndex
              && s.ring.slots[r.waitIndex].inUse
    ensures !(s.ret < 0 || wait.WaitFailed? || result.ResultFailed?) ==>
              && s.ring.outstanding == r.outstanding - 1
              && s.ring.waitIndex == (r.waitIndex + 1) % cfg.bufferCount
              && !s.ring.slots[r.waitIndex].inUse
    ensures wait.WaitFailed? ==> s.ret == FailureCode(cfg.revision, cfg.isUserAborted, wait.lastError) && s.ring.iso == r.iso
    ensures wait.Signalled? && result.ResultFailed? ==>
              s.ret == FailureCode(cfg.revision, cfg.isUserAborted, result.lastError) && s.ring.iso == r.iso
    ensures wait.Signalled? && result.Completed? && !cfg.isIso ==>
              s.ret == Int32Of(result.transferred) && s.ring.iso == r.iso
    ensures wait.Signalled? && result.Completed? && cfg.isIso && cfg.isRead ==>
              var ps := result.packets;
              && s.ring.slots[r.waitIndex].iso == IsoResults(|ps|, CountGood(ps), CountBad(ps), GoodLength(ps))
              && s.ret == Int32Of(Wrap32(GoodLength(ps)))
              && s.ring.iso == IsoResults(r.iso.total + |ps|, r.iso.good + CountGood(ps),
                                          r.iso.bad + CountBad(ps), r.iso.length + GoodLength(ps))
    ensures wait.Signalled? && result.Completed? && cfg.isIso && !cfg.isRead ==>
              && s.ret == r.slots[r.waitIndex].dataMaxLength
              && s.ring.iso == r.iso.(total := r.iso.total + cfg.numberOfIsoPackets,
                                      good := r.iso.good + cfg.numberOfIsoPackets)
  {
    var w := r.waitIndex;
    var slot := r.slots[w];
    match wait
    case WaitFailed(e) =>
      var ret := FailureCode(cfg.revision, cfg.isUserAborted, e);
      Step(r.(slots := r.slots[w := slot.(returnCode := ret)]), ret)
    case Signalled =>
      match result
      case ResultFailed(e) =>
        var ret := FailureCode(cfg.revision, cfg.isUserAborted, e);
        Step(r.(slots := r.slots[w := slot.(returnCode := ret)]), ret)
      case Completed(transferred, packets) =>
        EnumPacketsCounts(NoIsoResults, packets);
        SignedRoundTrip(slot.dataMaxLength);
        var slotIso := if cfg.isIso && cfg.isRead then EnumPackets(NoIsoResults, packets) else slot.iso;
        var sessionIso :=
          if cfg.isIso && cfg.isRead then AddIso(r.iso, slotIso)
          else if cfg.isIso then r.iso.(total := r.iso.total + cfg.numberOfIsoPackets, good := r.iso.good + cfg.numberOfIsoPackets)
          else r.iso;
        var count: u32 :=
          if cfg.isIso && cfg.isRead then Wrap32(slotIso.length)
          else if cfg.isIso then U32Of(slot.dataMaxLength)
          else transferred;
        var ret := Int32Of(count);
        var done := slot.(iso := slotIso, returnCode := ret);
        if ret < 0 then
          Step(r.(slots := r.slots[w := done], iso := sessionIso), ret)
        else
          Step(r.(slots := r.slots[w := done.(inUse := false)], iso := sessionIso,
                  outstanding := r.outstanding - 1, waitIndex := IncRoll(w, cfg.bufferCount)), ret)
  }

  /** Freeing the oldest slot and advancing the wait index keeps the ring valid and drops the queue's head. */
  lemma PopOldest(r: Ring, s: Ring, bc: nat)
    requires Valid(r, bc) && r.outstanding >= 1
    requires |s.slots| == |r.slots| && s.nextIndex == r.nextIndex
    requires forall i :: 0 <= i < |r.slots| && i != r.waitIndex ==> s.slots[i] == r.slots[i]
    requires s.outstanding == r.outstanding - 1 && s.waitIndex == (r.waitIndex + 1) % bc
    requires !s.slots[r.waitIndex].inUse
    ensures Valid(s, bc)
    ensures Queue(s, bc) == Queue(r, bc)[1..]
  {
    ModWrap(r.waitIndex + 1, bc);
    ModWrap(r.waitIndex + r.outstanding, bc);
    ModWrap(s.waitIndex + s.outstanding, bc);
    forall i | 0 <= i < |s.slots|
      ensures s.slots[i].inUse <==> InQueue(s, bc, i)
    {
      if i != r.waitIndex {
        assert s.slots[i] == r.slots[i];
      }
    }
    QueueDropsHead(r, s, bc);
  }

  /** Starting one place later with one fewer entry, the queue is the old one without its head. */
  lemma QueueDropsHead(r: Ring, s: Ring, bc: nat)
    requires 1 <= bc && r.waitIndex < bc && 1 <= r.outstanding <= bc
    requires s.waitIndex == (r.waitIndex + 1) % bc && s.outstanding == r.outstanding - 1
    ensures Queue(s, bc) == Queue(r, bc)[1..]
  {
    ModWrap(r.waitIndex + 1, bc);
    forall j | 0 <= j < s.outstanding
      ensures Queue(s, bc)[j] == Queue(r, bc)[1..][j]
    {
      ModWrap(s.waitIndex + j, bc);
      ModWrap(r.waitIndex + j + 1, bc);
    }
  }

  /** Leaving the window as it is, with the oldest slot still in use, keeps the ring valid and the queue unchanged. */
  lemma KeepOldest(r: Ring, s: Ring, bc: nat)
    requires Valid(r, bc) && r.outstanding >= 1
    requires |s.slots| == |r.slots| && s.nextIndex == r.nextIndex
    requires forall i :: 0 <= i < |r.slots| && i != r.waitIndex ==> s.slots[i] == r.slots[i]
    requires s.outstanding == r.outstanding && s.waitIndex == r.waitIndex
    requires s.slots[r.waitIndex].inUse
    ensures Valid(s, bc)
    ensures Queue(s, bc) == Queue(r, bc)
  {
    ModWrap(r.waitIndex, bc);
    forall i | 0 <= i < |s.slots|
      ensures s.slots[i].inUse <==> InQueue(s, bc, i)
    {
      if i != r.waitIndex {
        assert s.slots[i] == r.slots[i];
      }
    }
  }

  /** Reaping keeps the ring valid; a completed reap removes exactly the oldest slot from the queue. */
  lemma ReapRemovesOldest(cfg: AsyncConfig, r: Ring, wait: WaitOutcome, result: ResultOutcome)
    requires Valid(r, cfg.bufferCount) && r.outstanding == cfg.bufferCount
    ensures Valid(Reap(cfg, r, wait, result).ring, cfg.bufferCount)
    ensures Queue(r, cfg.bufferCount)[0] == r.waitIndex
    ensures Reap(cfg, r, wait, result).ring.outstanding == r.outstanding - 1 ==>
              Queue(Reap(cfg, r, wait, result).ring, cfg.bufferCount) == Queue(r, cfg.bufferCount)[1..]
    ensures Reap(cfg, r, wait, result).ring.outstanding == r.outstanding ==>
              Queue(Reap(cfg, r, wait, result).ring, cfg.bufferCount) == Queue(r, cfg.bufferCount)
  {
    var bc := cfg.bufferCount;
    var s := Reap(cfg, r, wait, result);
    ModWrap(r.waitIndex, bc);
    if s.ring.outstanding == r.outstanding - 1 {
      PopOldest(r, s.ring, bc);
    } else {
      KeepOldest(r, s.ring, bc);
    }
  }

  /** Every slot in use was submitted asking for `len` bytes. */
  predicate Sized(r: Ring, len: int)
  {
    forall i :: 0 <= i < |r.slots| && r.slots[i].inUse ==> r.slots[i].dataMaxLength == len
  }

  lemma SubmitSized(cfg: AsyncConfig, r: Ring, o: SubmitOutcome)
    requires Valid(r, cfg.bufferCount) && r.outstanding < cfg.bufferCount
    requires Sized(r, RequestLength(cfg))
    ensures Sized(SubmitOne(cfg, r, o).ring, RequestLength(cfg))
  {
    var s := SubmitOne(cfg, r, o);
    forall i | 0 <= i < |s.ring.slots| && s.ring.slots[i].inUse
      ensures s.ring.slots[i].dataMaxLength == RequestLength(cfg)
    {
      if i != r.nextIndex {
        assert s.ring.slots[i] == r.slots[i];
      }
    }
  }

  lemma {:induction false} SubmitLoopSized(cfg: AsyncConfig, r: Ring, submits: seq<SubmitOutcome>, ret: int, handle: Option<nat>)
    requires Valid(r, cfg.bufferCount)
    requires |submits| >= cfg.bufferCount - r.outstanding
    requires Sized(r, RequestLength(cfg))
    ensures Sized(SubmitLoop(cfg, r, submits, ret, handle).ring, RequestLength(cfg))
    decreases cfg.bufferCount - r.outstanding
  {
    if r.outstanding < cfg.bufferCount {
      SubmitAppends(cfg, r, submits[0]);
      SubmitSized(cfg, r, submits[0]);
      var s := SubmitOne(cfg, r, submits[0]);
      if s.ret >= 0 {
        SubmitLoopSized(cfg, s.ring, submits[1..], s.ret, Some(r.nextIndex));
      }
    }
  }

  lemma ReapSized(cfg: AsyncConfig, r: Ring, wait: WaitOutcome, result: ResultOutcome)
    requires Valid(r, cfg.bufferCount) && r.outstanding == cfg.bufferCount
    requires Sized(r, RequestLength(cfg))
    ensures Sized(Reap(cfg, r, wait, result).ring, RequestLength(cfg))
  {
    var s := Reap(cfg, r, wait, result);
    forall i | 0 <= i < |s.ring.slots| && s.ring.slots[i].inUse
      ensures s.ring.slots[i].dataMaxLength == RequestLength(cfg)
    {
      if i != r.waitIndex {
        assert s.ring.slots[i] == r.slots[i];
      }
    }
  }

  // ---------------------------------------------------------------------------
  // Where each slot's data lives
  // ---------------------------------------------------------------------------

  /**
   * Slot placement: a slot in use has its event, and a slot with an event has the
   * data offset its index times `stride`, fixed when the event was created.
   */
  predicate Placed(r: Ring, stride: nat)
  {
    forall i :: 0 <= i < |r.slots| ==>
      && (r.slots[i].inUse ==> r.slots[i].hasEvent)
      && (r.slots[i].hasEvent ==> r.slots[i].dataOffset == i * stride)
  }

  /** Every slot the session uses already has its event, as the isochronous set-up leaves them. */
  predicate EventsReady(r: Ring, bc: nat)
  {
    bc <= |r.slots| && forall i :: 0 <= i < bc ==> r.slots[i].hasEvent
  }

  /**
   * The slots' data is placed at `stride`: either the stride is the one submission
   * places new events at, or every slot already has its event and is never re-placed.
   */
  predicate PlacedFor(cfg: AsyncConfig, r: Ring, stride: nat)
  {
    Placed(r, stride) && (stride == cfg.allocBufferSize || EventsReady(r, cfg.bufferCount))
  }

  lemma InitialRingPlaced(stride: nat)
    ensures Placed(InitialRing(), stride)
  {
  }

  /** The isochronous set-up leaves a valid ring whose slots all have events, at a stride of one buffer length. */
  lemma IsoInitialRingPlaced(count: nat, len: nat)
    requires 1 <= count <= MAX_OUTSTANDING_TRANSFERS
    ensures Valid(IsoInitialRing(count, len), count)
    ensures EventsReady(IsoInitialRing(count, len), count)
    ensures Placed(IsoInitialRing(count, len), len)
  {
  }

  /** Submitting keeps every slot at its place. */
  lemma SubmitPlaces(cfg: AsyncConfig, r: Ring, o: SubmitOutcome, stride: nat)
    requires Valid(r, cfg.bufferCount) && r.outstanding < cfg.bufferCount
    requires PlacedFor(cfg, r, stride)
    ensures PlacedFor(cfg, SubmitOne(cfg, r, o).ring, stride)
    ensures EventsReady(r, cfg.bufferCount) ==> EventsReady(SubmitOne(cfg, r, o).ring, cfg.bufferCount)
  {
    var s := SubmitOne(cfg, r, o);
    forall i | 0 <= i < |s.ring.slots|
      ensures s.ring.slots[i].inUse ==> s.ring.slots[i].hasEvent
      ensures s.ring.slots[i].hasEvent ==> s.ring.slots[i].dataOffset == i * stride
    {
      if i != r.nextIndex {
        assert s.ring.slots[i] == r.slots[i];
      }
    }
  }

  lemma {:induction false} SubmitLoopPlaces(cfg: AsyncConfig, r: Ring, submits: seq<SubmitOutcome>, ret: int, handle: Option<nat>, stride: nat)
    requires Valid(r, cfg.bufferCount)
    requires |submits| >= cfg.bufferCount - r.outstanding
    requires PlacedFor(cfg, r, stride)
    ensures PlacedFor(cfg, SubmitLoop(cfg, r, submits, ret, handle).ring, stride)
    ensures EventsReady(r, cfg.bufferCount) ==> EventsReady(SubmitLoop(cfg, r, submits, ret, handle).ring, cfg.bufferCount)
    decreases cfg.bufferCount - r.outstanding
  {
    if r.outstanding < cfg.bufferCount {
      SubmitAppends(cfg, r, submits[0]);
      SubmitPlaces(cfg, r, submits[0], stride);
      var s := SubmitOne(cfg, r, submits[0]);
      if s.ret >= 0 {
        SubmitLoopPlaces(cfg, s.ring, submits[1..], s.ret, Some(r.nextIndex), stride);
      }
    }
  }

  /** Reaping never moves a slot's data and never closes an event. */
  lemma ReapPlaces(cfg: AsyncConfig, r: Ring, wait: WaitOutcome, result: ResultOutcome, stride: nat)
    requires Valid(r, cfg.bufferCount) && r.outstanding == cfg.bufferCount
    requires PlacedFor(cfg, r, stride)
    ensures PlacedFor(cfg, Reap(cfg, r, wait, result).ring, stride)
    ensures EventsReady(r, cfg.bufferCount) ==> EventsReady(Reap(cfg, r, wait, result).ring, cfg.bufferCount)
  {
    var s := Reap(cfg, r, wait, result);
    forall i | 0 <= i < |s.ring.slots|
      ensures s.ring.slots[i].inUse ==> s.ring.slots[i].hasEvent
      ensures s.ring.slots[i].hasEvent ==> s.ring.slots[i].dataOffset == i * stride
      ensures s.ring.slots[i].hasEvent == r.slots[i].hasEvent
    {
      if i != r.waitIndex {
        assert s.ring.slots[i] == r.slots[i];
      }
    }
  }

  lemma MulStep(a: nat, b: nat, stride: nat)
    requires a < b
    ensures a * stride + stride <= b * stride
  {
    assert (a + 1) * stride == a * stride + stride;
    assert (a + 1) * stride <= b * stride;
  }

  /**
   * With the stride of one buffer length, two different slots' data regions do not
   * overlap: the earlier slot's region ends where the later one's can begin.
   */
  lemma StridedSlotsDisjoint(r: Ring, stride: nat, i: nat, j: nat)
    requires Placed(r, stride)
    requires i < j < |r.slots| && r.slots[i].inUse && r.slots[j].inUse
    ensures r.slots[i].dataOffset + stride <= r.slots[j].dataOffset
    ensures r.slots[i].dataMaxLength <= stride ==>
              r.slots[i].dataOffset + r.slots[i].dataMaxLength <= r.slots[j].dataOffset
  {
    MulStep(i, j, stride);
  }

  /**
   * With the stride a bulk or interrupt session actually configures, zero, every outstanding
   * transfer reads into or writes from the same bytes: once the window of two or
   * more slots is full, slots 0 and 1 are both in flight on offset 0.
   */
  lemma ZeroStrideAliases(r: Ring, bc: nat)
    requires Valid(r, bc) && Placed(r, 0)
    requires 2 <= bc && r.outstanding == bc
    ensures r.slots[0].inUse && r.slots[1].inUse
    ensures r.slots[0].dataOffset == r.slots[1].dataOffset == 0
  {
    assert InQueue(r, bc, 0) && InQueue(r, bc, 1);
  }


  // ---------------------------------------------------------------------------
  // One call
  // ---------------------------------------------------------------------------

  /** What one TransferAsync call produced: its return code, the new state and the handle it reports (None for NULL). */
  datatype AsyncOutcome = AsyncOutcome(ret: int, ring: Ring, handle: Option<nat>)

  /**
   * TransferAsync: the submit loop, then, when the window is full, a reap of the
   * oldest slot. A rejected submission returns at once without reaping.
   */
  function TransferAsync(cfg: AsyncConfig, r: Ring, submits: seq<SubmitOutcome>,
                         wait: WaitOutcome, result: ResultOutcome): (out: AsyncOutcome)
    requires Valid(r, cfg.bufferCount)
    requires |submits| >= cfg.bufferCount - r.outstanding
    ensures Valid(out.ring, cfg.bufferCount)
    ensures out.ret < 0 ==> out.handle.Some?
    ensures out.ring.outstanding < cfg.bufferCount ==> out.handle.Some?
    ensures var p := SubmitLoop(cfg, r, submits, 0, None);
            p.failed ==> out.ret == p.ret && out.ring == p.ring
    ensures !SubmitLoop(cfg, r, submits, 0, None).failed && wait.Signalled? && result.Completed? ==>
              var ps := result.packets;
              && (!cfg.isIso ==> out.ret == Int32Of(result.transferred) && out.ring.iso == r.iso)
              && (cfg.isIso && cfg.isRead ==>
                    && out.ret == Int32Of(Wrap32(GoodLength(ps)))
                    && out.ring.iso == IsoResults(r.iso.total + |ps|, r.iso.good + CountGood(ps),
                                                  r.iso.bad + CountBad(ps), r.iso.length + GoodLength(ps)))
              && (cfg.isIso && !cfg.isRead ==>
                    out.ring.iso == r.iso.(total := r.iso.total + cfg.numberOfIsoPackets,
                                           good := r.iso.good + cfg.numberOfIsoPackets))
  {
    var p := SubmitLoop(cfg, r, submits, 0, None);
    if p.failed then AsyncOutcome(p.ret, p.ring, p.handle)
    else
      ReapRemovesOldest(cfg, p.ring, wait, result);
      var s := Reap(cfg, p.ring, wait, result);
      AsyncOutcome(s.ret, s.ring, Some(p.ring.waitIndex))
  }

  /**
   * A TransferAsync call never moves any slot's data: at the submission stride, or,
   * once every slot has its event (an isochronous session), at the set-up's stride.
   */
  lemma TransferAsyncPlaces(cfg: AsyncConfig, r: Ring, submits: seq<SubmitOutcome>, wait: WaitOutcome, result: ResultOutcome, stride: nat)
    requires Valid(r, cfg.bufferCount)
    requires |submits| >= cfg.bufferCount - r.outstanding
    requires PlacedFor(cfg, r, stride)
    ensures PlacedFor(cfg, TransferAsync(cfg, r, submits, wait, result).ring, stride)
    ensures EventsReady(r, cfg.bufferCount) ==> EventsReady(TransferAsync(cfg, r, submits, wait, result).ring, cfg.bufferCount)
  {
    SubmitLoopPlaces(cfg, r, submits, 0, None, stride);
    var p := SubmitLoop(cfg, r, submits, 0, None);
    if !p.failed {
      ReapPlaces(cfg, p.ring, wait, result, stride);
    }
  }

  /**
   * Every in-use slot asks for the direction's request length, so a completed
   * isochronous write returns that length.
   */
  lemma TransferAsyncSized(cfg: AsyncConfig, r: Ring, submits: seq<SubmitOutcome>, wait: WaitOutcome, result: ResultOutcome)
    requires Valid(r, cfg.bufferCount)
    requires |submits| >= cfg.bufferCount - r.outstanding
    requires Sized(r, RequestLength(cfg))
    ensures Sized(TransferAsync(cfg, r, submits, wait, result).ring, RequestLength(cfg))
    ensures !SubmitLoop(cfg, r, submits, 0, None).failed && wait.Signalled? && result.Completed?
              && cfg.isIso && !cfg.isRead ==>
              TransferAsync(cfg, r, submits, wait, result).ret == cfg.writeLength
  {
    SubmitLoopSized(cfg, r, submits, 0, None);
    var p := SubmitLoop(cfg, r, submits, 0, None);
    if !p.failed {
      ReapSized(cfg, p.ring, wait, result);
      ModWrap(p.ring.waitIndex, cfg.bufferCount);
      assert InQueue(p.ring, cfg.bufferCount, p.ring.waitIndex);
    }
  }

  /**
   * Reaping is strictly first-in first-out: when a call completes a transfer, the
   * slot it frees is the oldest outstanding one, whatever order the hardware
   * finished them in, and the rest of the queue moves up by one.
   */
  lemma ReapIsFifo(cfg: AsyncConfig, r: Ring, submits: seq<SubmitOutcome>, wait: WaitOutcome, result: ResultOutcome)
    requires Valid(r, cfg.bufferCount)
    requires |submits| >= cfg.bufferCount - r.outstanding
    requires TransferAsync(cfg, r, submits, wait, result).ret >= 0
    requires wait.Signalled? && result.Completed?
    ensures TransferAsync(cfg, r, submits, wait, result).handle == Some(r.waitIndex)
    ensures r.outstanding > 0 ==> Queue(r, cfg.bufferCount)[0] == r.waitIndex
    ensures var q := Queue(SubmitLoop(cfg, r, submits, 0, None).ring, cfg.bufferCount);
            Queue(TransferAsync(cfg, r, submits, wait, result).ring, cfg.bufferCount) == q[1..]
  {
    var p := SubmitLoop(cfg, r, submits, 0, None);
    ReapRemovesOldest(cfg, p.ring, wait, result);
  }

  /**
   * A failed wait in the src/transfer.c revision, without a user abort, returns
   * the positive last error while nothing is reaped: to its caller it looks like a
   * completed transfer of that many bytes.
   */
  lemma SplitWaitFailureLooksLikeData(cfg: AsyncConfig, r: Ring, submits: seq<SubmitOutcome>, e: ErrorCode, result: ResultOutcome)
    requires Valid(r, cfg.bufferCount)
    requires |submits| >= cfg.bufferCount - r.outstanding
    requires cfg.revision == SplitTransfer && !cfg.isUserAborted && e > 0
    requires !SubmitLoop(cfg, r, submits, 0, None).failed
    ensures TransferAsync(cfg, r, submits, WaitFailed(e), result).ret == e
    ensures TransferAsync(cfg, r, submits, WaitFailed(e), result).ring.outstanding == cfg.bufferCount
    ensures TransferAsync(cfg, r, submits, WaitFailed(e), result).ring.waitIndex == r.waitIndex
  {
  }

  /**
   * In the canonical revision a failed wait returns the negated last error, so the
   * caller sees an error, except when the last error is 0: then it returns 0 and
   * the caller sees an empty successful transfer, although nothing was reaped.
   */
  lemma CanonicalWaitFailure(cfg: AsyncConfig, r: Ring, submits: seq<SubmitOutcome>, e: ErrorCode, result: ResultOutcome)
    requires Valid(r, cfg.bufferCount)
    requires |submits| >= cfg.bufferCount - r.outstanding
    requires cfg.revision == Canonical && !cfg.isUserAborted
    requires !SubmitLoop(cfg, r, submits, 0, None).failed
    ensures e > 0 ==> TransferAsync(cfg, r, submits, WaitFailed(e), result).ret < 0
    ensures e == 0 ==> TransferAsync(cfg, r, submits, WaitFailed(e), result).ret == 0
    ensures TransferAsync(cfg, r, submits, WaitFailed(e), result).ring.outstanding == cfg.bufferCount
  {
  }

  // ---------------------------------------------------------------------------
  // Drain passes at the end of the worker
  // ---------------------------------------------------------------------------

  /** A slot still holding a transfer after pass one: in use, with an event, and its abort failed without a user abort. */
  predicate Lingers(slot: Slot, abortOk: bool, isUserAborted: bool)
  {
    slot.hasEvent && slot.inUse && !abortOk && !isUserAborted
  }

  /**
   * The two drain passes after the worker loop. Pass one aborts the pipe for every
   * in-use slot with an event; `abortOk[i]` is the abort's result, and the slot is
   * released (event closed, not in use) unless the abort failed without a user
   * abort. Pass two waits on every remaining event, with the full timeout for a
   * slot still in use and without waiting otherwise, closes it, and clears every
   * in-use flag. Returns the slots, which slots pass two waited on with the full
   * timeout, and the worker's isRunning flag.
   */
  method DrainSlots(slots: seq<Slot>, bufferCount: nat, abortOk: seq<bool>, isUserAborted: bool)
    returns (drained: seq<Slot>, timedWait: seq<bool>, isRunning: bool)
    requires bufferCount <= |slots| && |abortOk| >= bufferCount
    ensures |drained| == |slots|
    ensures forall i :: 0 <= i < bufferCount ==> !drained[i].hasEvent && !drained[i].inUse
    ensures forall i :: bufferCount <= i < |slots| ==> drained[i] == slots[i]
    ensures |timedWait| == bufferCount
    ensures forall i :: 0 <= i < bufferCount ==> (timedWait[i] <==> Lingers(slots[i], abortOk[i], isUserAborted))
    ensures !isRunning
  {
    drained := slots;
    var i := 0;
    while i < bufferCount
      invariant 0 <= i <= bufferCount
      invariant |drained| == |slots|
      invariant forall j :: i <= j < |slots| ==> drained[j] == slots[j]
      invariant forall j :: 0 <= j < i ==>
                  (drained[j].hasEvent && drained[j].inUse <==> Lingers(slots[j], abortOk[j], isUserAborted))
    {
      if drained[i].hasEvent && drained[i].inUse {
        if !abortOk[i] && !isUserAborted {
          // the failure is only logged
        } else {
          drained := drained[i := drained[i].(hasEvent := false, inUse := false)];
        }
      }
      i := i + 1;
    }
    i := 0;
    timedWait := [];
    while i < bufferCount
      invariant 0 <= i <= bufferCount
      invariant |drained| == |slots|
      invariant forall j :: 0 <= j < i ==> !drained[j].hasEvent && !drained[j].inUse
      invariant forall j :: i <= j < bufferCount ==>
                  (drained[j].hasEvent && drained[j].inUse <==> Lingers(slots[j], abortOk[j], isUserAborted))
      invariant forall j :: bufferCount <= j < |slots| ==> drained[j] == slots[j]
      invariant |timedWait| == i
      invariant forall j :: 0 <= j < i ==> (timedWait[j] <==> Lingers(slots[j], abortOk[j], isUserAborted))
    {
      timedWait := timedWait + [drained[i].hasEvent && drained[i].inUse];
      if drained[i].hasEvent {
        drained := drained[i := drained[i].(hasEvent := false)];
      }
      drained := drained[i := drained[i].(inUse := false)];
      i := i + 1;
    }
    isRunning := false;
  }
}
