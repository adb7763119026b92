/**
 * The verification codec: the reference byte pattern (CreateVerifyBuffer, in its
 * Windows and libusb forms) and the resynchronising, chunked stream check
 * (VerifyData).
 *
 * The check walks the received bytes in chunks of the pattern's length. Byte 1 of
 * each chunk is a rolling key: the first chunk, and any chunk following a chunk
 * that did not match, takes its key from its own byte 1; otherwise the key is 0
 * when the incoming byte 1 is 0 and the previous key plus one (mod 256) else. A
 * chunk matches when it equals the pattern prefix of its length with byte 1
 * replaced by the key.
 */
module VerifyCodec {
  import opened Usb

  // ---------------------------------------------------------------------------
  // The reference pattern
  // ---------------------------------------------------------------------------

  /** Byte `i` of the Windows reference pattern: 0 at index 0, then 1, 2, ..., 255, 1, 2, ... */
  function PatternByte(i: nat): byte
  {
    if i == 0 then 0 else ((i - 1) % 255) + 1
  }

  /** The Windows reference pattern of `n` bytes. */
  function Pattern(n: nat): seq<byte>
  {
    seq(n, i requires 0 <= i < n => PatternByte(i))
  }

  /**
   * A verify buffer as the session holds it: the reference pattern at every index
   * except byte 1, which each verification overwrites with the current key.
   */
  ghost predicate IsVerifyPattern(buffer: seq<byte>)
  {
    && 2 <= |buffer|
    && forall i :: 0 <= i < |buffer| && i != 1 ==> buffer[i] == PatternByte(i)
  }

  /**
   * CreateVerifyBuffer (Windows revisions): fills a freshly allocated buffer of
   * `endpointMaxPacketSize` bytes from a byte counter that starts at 0 and skips 0
   * when it wraps. `allocOk` is the outcome of the allocation; on failure the
   * recorded size keeps its previous value `priorSize`.
   */
  method CreateVerifyBuffer(endpointMaxPacketSize: u16, allocOk: bool, priorSize: u16)
    returns (status: int, buffer: seq<byte>, verifyBufferSize: u16)
    ensures status == 0 || status == -1
    ensures status == -1 <==> !allocOk
    ensures !allocOk ==> buffer == [] && verifyBufferSize == priorSize
    ensures allocOk ==> verifyBufferSize == endpointMaxPacketSize && |buffer| == endpointMaxPacketSize
    ensures allocOk ==> forall i :: 0 <= i < |buffer| ==> buffer[i] == PatternByte(i)
    ensures allocOk ==> forall i :: 1 <= i < |buffer| ==> buffer[i] != 0
  {
    if !allocOk {
      return -1, [], priorSize;
    }
    verifyBufferSize := endpointMaxPacketSize;
    var indexC: byte := 0;
    buffer := [];
    var i := 0;
    while i < endpointMaxPacketSize
      invariant 0 <= i <= endpointMaxPacketSize
      invariant |buffer| == i
      invariant forall j :: 0 <= j < i ==> buffer[j] == PatternByte(j)
      invariant indexC == PatternByte(i)
    {
      buffer := buffer + [indexC];
      indexC := (indexC + 1) % 256;
      if indexC == 0 {
        indexC := 1;
      }
      i := i + 1;
    }
    status := 0;
  }

  /** Byte `i` of the libusb port's pattern: the plain index modulo 256. */
  function LinuxPatternByte(i: nat): byte
  {
    i % 256
  }

  /** createVerifyBuffer (libusb port): byte `i` is `i mod 256`; the recorded size is the request. */
  method LinuxCreateVerifyBuffer(endpointMaxPacketSize: u16)
    returns (status: int, buffer: seq<byte>, verifyBufferSize: u16)
    ensures status == 0
    ensures verifyBufferSize == endpointMaxPacketSize && |buffer| == endpointMaxPacketSize
    ensures forall i :: 0 <= i < |buffer| ==> buffer[i] == LinuxPatternByte(i)
  {
    buffer := [];
    var i := 0;
    while i < endpointMaxPacketSize
      invariant 0 <= i <= endpointMaxPacketSize
      invariant |buffer| == i
      invariant forall j :: 0 <= j < i ==> buffer[j] == LinuxPatternByte(j)
    {
      buffer := buffer + [i % 256];
      i := i + 1;
    }
    return 0, buffer, endpointMaxPacketSize;
  }

  /** The two pattern generators agree below index 256 and first differ at 256, where libusb repeats 0. */
  lemma PatternsDivergeAt256()
    ensures forall i: nat :: i < 256 ==> LinuxPatternByte(i) == PatternByte(i)
    ensures LinuxPatternByte(256) == 0 && PatternByte(256) == 1
    ensures forall i: nat :: i >= 1 ==> PatternByte(i) != 0
  {
  }

  /**
   * The Windows pattern gains one on `i mod 256` at every wrap, not only the first:
   * byte `i` is `i` advanced by the number of completed 255-byte rounds, so bytes
   * 256, 511 and 512 are 1, 1 and 2 where the libusb pattern has 0, 255 and 0.
   */
  lemma PatternGainsOnePerWrap(i: nat)
    requires i >= 1
    ensures PatternByte(i) == (i + (i - 1) / 255) % 256
    ensures PatternByte(256) == 1 && PatternByte(511) == 1 && PatternByte(512) == 2
    ensures LinuxPatternByte(256) == 0 && LinuxPatternByte(511) == 255 && LinuxPatternByte(512) == 0
  {
  }

  // ---------------------------------------------------------------------------
  // How the stream check cuts the received bytes into chunks
  // ---------------------------------------------------------------------------

  /** Every chunk holds at least the two bytes the check reads and at most a pattern's worth. */
  ghost predicate WellSized(chunks: seq<seq<byte>>, v: nat)
  {
    forall i :: 0 <= i < |chunks| ==> 2 <= |chunks[i]| <= v
  }

  /**
   * The chunks the walk visits: while more than one byte is left it takes `v`
   * bytes, or all that is left if that is less.
   */
  function Chunks(data: seq<byte>, v: nat): (chunks: seq<seq<byte>>)
    requires v >= 2
    ensures WellSized(chunks, v)
    decreases |data|
  {
    if |data| <= 1 then []
    else
      var size := if |data| > v then v else |data|;
      [data[..size]] + Chunks(data[size..], v)
  }

  /** The bytes left over when the walk stops: at most one. */
  function Unchecked(data: seq<byte>, v: nat): (rest: seq<byte>)
    requires v >= 2
    ensures |rest| <= 1
    decreases |data|
  {
    if |data| <= 1 then data
    else
      var size := if |data| > v then v else |data|;
      Unchecked(data[size..], v)
  }

  /** Concatenation of a sequence of chunks. */
  function Flatten(chunks: seq<seq<byte>>): seq<byte>
  {
    if chunks == [] then [] else chunks[0] + Flatten(chunks[1..])
  }

  lemma ConcatAssoc(a: seq<byte>, b: seq<byte>, c: seq<byte>)
    ensures (a + b) + c == a + (b + c)
  {
  }

  lemma FlattenCons(c: seq<byte>, cs: seq<seq<byte>>)
    ensures Flatten([c] + cs) == c + Flatten(cs)
  {
    assert ([c] + cs)[1..] == cs;
  }

  /** One step of the walk: the first chunk, then the chunks and leftover of what follows it. */
  lemma ChunksUnfold(data: seq<byte>, v: nat)
    requires v >= 2 && |data| > 1
    ensures var size := if |data| > v then v else |data|;
            && Chunks(data, v) == [data[..size]] + Chunks(data[size..], v)
            && Unchecked(data, v) == Unchecked(data[size..], v)
  {
  }

  /** The chunks followed by the unchecked rest are the data. */
  lemma {:induction false} ChunksCover(data: seq<byte>, v: nat)
    requires v >= 2
    ensures Flatten(Chunks(data, v)) + Unchecked(data, v) == data
    decreases |data|
  {
    if |data| > 1 {
      var size := if |data| > v then v else |data|;
      var head, rest := data[..size], data[size..];
      ChunksUnfold(data, v);
      ChunksCover(rest, v);
      FlattenCons(head, Chunks(rest, v));
      ConcatAssoc(head, Flatten(Chunks(rest, v)), Unchecked(rest, v));
      assert data == head + rest;
    }
  }

  /** Euclidean division is unique: `q` and `r` with `a == q*v + r` and `0 <= r < v` are the quotient and remainder. */
  lemma DivModUnique(a: int, q: int, r: int, v: int)
    requires v >= 1 && 0 <= r < v && a == q * v + r
    ensures a / v == q && a % v == r
  {
    var q', r' := a / v, a % v;
    assert q' * v + r' == q * v + r;
    if q' > q {
      MulMonoInt(1, q' - q, v);
    } else if q' < q {
      MulMonoInt(1, q - q', v);
    }
  }

  lemma MulMonoInt(a: int, b: int, v: int)
    requires a <= b && v >= 0
    ensures a * v <= b * v
  {
  }

  /**
   * The walk examines every byte except, possibly, one trailing byte: it leaves
   * one byte unexamined exactly when the length minus one is a multiple of the
   * chunk length.
   */
  lemma {:induction false} TrailingByteUnchecked(data: seq<byte>, v: nat)
    requires v >= 2
    ensures |Unchecked(data, v)| == 1 <==> |data| >= 1 && (|data| - 1) % v == 0
    ensures |Unchecked(data, v)| == 0 <==> !(|data| >= 1 && (|data| - 1) % v == 0)
    decreases |data|
  {
    var n := |data|;
    if n > v {
      TrailingByteUnchecked(data[v..], v);
      DivModUnique(n - 1, (n - v - 1) / v + 1, (n - v - 1) % v, v);
    } else if n == 1 {
      DivModUnique(0, 0, 0, v);
    } else if n > 1 {
      DivModUnique(n - 1, 0, n - 1, v);
      assert Unchecked(data[n..], v) == [];
    }
  }

  // ---------------------------------------------------------------------------
  // The reference definition of the stream check, chunk by chunk
  // ---------------------------------------------------------------------------

  /** The chunk the data is compared against: the pattern prefix of length `len` with byte 1 set to `key`. */
  function Expected(pattern: seq<byte>, len: nat, key: byte): seq<byte>
    requires 2 <= len <= |pattern|
  {
    pattern[..len][1 := key]
  }

  /**
   * The key for the next chunk: its own byte 1 when re-seeding; otherwise 0 on an
   * incoming 0 and the previous key plus one (mod 256) else.
   */
  function NextKey(seed: bool, previous: byte, incoming: byte): byte
  {
    if seed then incoming else if incoming == 0 then 0 else (previous + 1) % 256
  }

  /** The verdict on one chunk: the key it was checked with and whether it failed to match. */
  datatype ChunkCheck = ChunkCheck(key: byte, mismatched: bool)

  /** The verdict on chunk `k` checked against `pattern`; chunk 0 always seeds its key. */
  function Check(pattern: seq<byte>, chunks: seq<seq<byte>>, k: nat): ChunkCheck
    requires WellSized(chunks, |pattern|)
    requires k < |chunks|
    decreases k
  {
    var key :=
      if k == 0 then NextKey(true, 0, chunks[k][1])
      else NextKey(Check(pattern, chunks, k - 1).mismatched, Check(pattern, chunks, k - 1).key, chunks[k][1]);
    ChunkCheck(key, chunks[k] != Expected(pattern, |chunks[k]|, key))
  }

  /** The chunks among the first `m` that fail to match, in walk order. */
  function BadChunks(pattern: seq<byte>, chunks: seq<seq<byte>>, m: nat): seq<nat>
    requires WellSized(chunks, |pattern|) && m <= |chunks|
  {
    if m == 0 then []
    else BadChunks(pattern, chunks, m - 1) + (if Check(pattern, chunks, m - 1).mismatched then [m - 1] else [])
  }

  /** BadChunks lists exactly the failing chunks, each once, in increasing order. */
  lemma {:induction false} BadChunksMembers(pattern: seq<byte>, chunks: seq<seq<byte>>, m: nat)
    requires WellSized(chunks, |pattern|) && m <= |chunks|
    ensures forall k: nat :: k in BadChunks(pattern, chunks, m) <==> k < m && Check(pattern, chunks, k).mismatched
    ensures forall a, b :: 0 <= a < b < |BadChunks(pattern, chunks, m)| ==>
              BadChunks(pattern, chunks, m)[a] < BadChunks(pattern, chunks, m)[b]
  {
    if m > 0 {
      BadChunksMembers(pattern, chunks, m - 1);
      var earlier := BadChunks(pattern, chunks, m - 1);
      assert forall a :: 0 <= a < |earlier| ==> earlier[a] in earlier;
    }
  }

  /** One differing byte reported in detail mode: chunk index, offset in the chunk, expected and received values. */
  datatype Difference = Difference(chunk: nat, offset: nat, expected: byte, got: byte)

  /** `d` describes a byte that differs inside a chunk that failed to match. */
  ghost predicate IsDifference(pattern: seq<byte>, chunks: seq<seq<byte>>, d: Difference)
    requires WellSized(chunks, |pattern|)
  {
    && d.chunk < |chunks|
    && Check(pattern, chunks, d.chunk).mismatched
    && d.offset < |chunks[d.chunk]|
    && d.expected == Expected(pattern, |chunks[d.chunk]|, Check(pattern, chunks, d.chunk).key)[d.offset]
    && d.got == chunks[d.chunk][d.offset]
    && d.expected != d.got
  }

  // ---------------------------------------------------------------------------
  // The walk
  // ---------------------------------------------------------------------------

  /**
   * VerifyData: walks `data` (the bytes a read returned) against the session's
   * verify buffer. It always returns 0; the chunks that failed to match, and in
   * detail mode every differing byte, are the extra outputs the source only logs.
   * The verify buffer comes back with byte 1 holding the last key used.
   * The buffer must hold at least two bytes: with 0 the source never advances,
   * with 1 it writes the key past the end of the buffer.
   */
  method VerifyData(verifyBuffer: seq<byte>, data: seq<byte>, verifyDetails: bool)
    returns (ret: int, bufferAfter: seq<byte>, badChunks: seq<nat>, details: seq<Difference>)
    requires 2 <= |verifyBuffer| < 0x1_0000
    ensures ret == 0
    ensures |bufferAfter| == |verifyBuffer|
    ensures forall i :: 0 <= i < |verifyBuffer| && i != 1 ==> bufferAfter[i] == verifyBuffer[i]
    ensures forall k: nat :: k in badChunks <==>
              k < |Chunks(data, |verifyBuffer|)| && Check(verifyBuffer, Chunks(data, |verifyBuffer|), k).mismatched
    ensures forall a, b :: 0 <= a < b < |badChunks| ==> badChunks[a] < badChunks[b]
    ensures forall d :: d in details <==> verifyDetails && IsDifference(verifyBuffer, Chunks(data, |verifyBuffer|), d)
  {
    var v := |verifyBuffer|;
    var n := |data|;
    ghost var chunks := Chunks(data, v);
    var buf: seq<byte> := verifyBuffer;
    var keyC: byte := 0;
    var seedKey := true;
    var dataLeft := n;
    var dataIndex := 0;
    var packetIndex := 0;
    badChunks := [];
    details := [];
    while dataLeft > 1
      invariant 0 <= dataIndex <= n && dataLeft == n - dataIndex
      invariant WalkAt(data, v, chunks, dataIndex, packetIndex)
      invariant |buf| == v
      invariant forall i :: 0 <= i < v && i != 1 ==> buf[i] == verifyBuffer[i]
      invariant packetIndex == 0 ==> seedKey
      invariant packetIndex > 0 ==> keyC == Check(verifyBuffer, chunks, packetIndex - 1).key
      invariant packetIndex > 0 ==> seedKey == Check(verifyBuffer, chunks, packetIndex - 1).mismatched
      invariant badChunks == BadChunks(verifyBuffer, chunks, packetIndex)
      invariant forall d :: d in details <==>
                  verifyDetails && IsDifference(verifyBuffer, chunks, d) && d.chunk < packetIndex
      decreases dataLeft
    {
      var size := if dataLeft > v then v else dataLeft;
      ChunkAdvance(data, v, dataIndex, size, chunks, packetIndex);
      keyC, seedKey, buf, badChunks, details :=
        WalkStep(verifyBuffer, buf, data[dataIndex .. dataIndex + size], chunks, packetIndex, seedKey, keyC, verifyDetails, badChunks, details);
      packetIndex := packetIndex + 1;
      dataLeft := dataLeft - size;
      dataIndex := dataIndex + size;
    }
    assert packetIndex == |chunks|;
    ret := 0;
    bufferAfter := buf;
    BadChunksMembers(verifyBuffer, chunks, packetIndex);
  }

  /** The walk has reached byte `i` of `data` and chunk `k`: the chunks of the rest are the chunks still to come. */
  ghost predicate WalkAt(data: seq<byte>, v: nat, chunks: seq<seq<byte>>, i: nat, k: nat)
  {
    v >= 2 && i <= |data| && k <= |chunks| && Chunks(data[i..], v) == chunks[k..]
  }

  /** One step of the walk takes the next chunk and leaves the chunks of the remaining bytes. */
  lemma ChunkAdvance(data: seq<byte>, v: nat, i: nat, size: nat, chunks: seq<seq<byte>>, k: nat)
    requires WalkAt(data, v, chunks, i, k) && i + 1 < |data|
    requires size == if |data| - i > v then v else |data| - i
    ensures k < |chunks| && i + size <= |data|
    ensures chunks[k] == data[i..i + size]
    ensures WalkAt(data, v, chunks, i + size, k + 1)
  {
    assert data[i..][size..] == data[i + size..];
    assert data[i..][..size] == data[i..i + size];
    assert chunks[k..][0] == chunks[k];
    assert chunks[k..][1..] == chunks[k + 1..];
  }

  /** One pass of the walk, with the failed chunks and the differences gathered so far extended by this chunk's. */
  method WalkStep(pattern: seq<byte>, buffer: seq<byte>, chunk: seq<byte>, ghost chunks: seq<seq<byte>>, k: nat,
                  seedKey: bool, keyC: byte, verifyDetails: bool, badIn: seq<nat>, detailsIn: seq<Difference>)
    returns (key: byte, mismatched: bool, bufferAfter: seq<byte>, badOut: seq<nat>, detailsOut: seq<Difference>)
    requires WellSized(chunks, |pattern|) && k < |chunks| && chunk == chunks[k]
    requires |buffer| == |pattern|
    requires forall i :: 0 <= i < |pattern| && i != 1 ==> buffer[i] == pattern[i]
    requires k == 0 ==> seedKey
    requires k > 0 ==> seedKey == Check(pattern, chunks, k - 1).mismatched && keyC == Check(pattern, chunks, k - 1).key
    requires badIn == BadChunks(pattern, chunks, k)
    requires forall d :: d in detailsIn <==> verifyDetails && IsDifference(pattern, chunks, d) && d.chunk < k
    ensures key == Check(pattern, chunks, k).key && mismatched == Check(pattern, chunks, k).mismatched
    ensures |bufferAfter| == |pattern|
    ensures forall i :: 0 <= i < |pattern| && i != 1 ==> bufferAfter[i] == pattern[i]
    ensures badOut == BadChunks(pattern, chunks, k + 1)
    ensures forall d :: d in detailsOut <==> verifyDetails && IsDifference(pattern, chunks, d) && d.chunk < k + 1
  {
    var found;
    key, mismatched, bufferAfter, found := VerifyChunk(pattern, buffer, chunk, chunks, k, seedKey, keyC, verifyDetails);
    badOut := if mismatched then badIn + [k] else badIn;
    detailsOut := detailsIn + found;
  }

  /**
   * One pass of the walk: computes the key for chunk `k`, stores it in byte 1 of
   * the verify buffer, compares, and in detail mode lists the differing bytes.
   */
  method VerifyChunk(pattern: seq<byte>, buffer: seq<byte>, chunk: seq<byte>, ghost chunks: seq<seq<byte>>, k: nat,
                     seedKey: bool, keyC: byte, verifyDetails: bool)
    returns (key: byte, mismatched: bool, bufferAfter: seq<byte>, found: seq<Difference>)
    requires WellSized(chunks, |pattern|) && k < |chunks| && chunk == chunks[k]
    requires |buffer| == |pattern|
    requires forall i :: 0 <= i < |pattern| && i != 1 ==> buffer[i] == pattern[i]
    requires k == 0 ==> seedKey
    requires k > 0 ==> seedKey == Check(pattern, chunks, k - 1).mismatched && keyC == Check(pattern, chunks, k - 1).key
    ensures key == Check(pattern, chunks, k).key && mismatched == Check(pattern, chunks, k).mismatched
    ensures |bufferAfter| == |pattern| && bufferAfter[1] == key
    ensures forall i :: 0 <= i < |pattern| && i != 1 ==> bufferAfter[i] == pattern[i]
    ensures forall d :: d in found <==> verifyDetails && IsDifference(pattern, chunks, d) && d.chunk == k
  {
    var size := |chunk|;
    key := NextKey(seedKey, keyC, chunk[1]);
    bufferAfter := buffer[1 := key];
    assert bufferAfter[..size] == Expected(pattern, size, key);
    mismatched := chunk != bufferAfter[..size];
    found := [];
    if mismatched && verifyDetails {
      found := ChunkDifferences(chunk, bufferAfter[..size], k);
    }
  }

  /** The detail pass over one failed chunk: every offset where the received byte differs from the expected one. */
  method ChunkDifferences(chunk: seq<byte>, expected: seq<byte>, index: nat)
    returns (found: seq<Difference>)
    requires |expected| == |chunk|
    ensures forall d :: d in found <==>
              && d.chunk == index && d.offset < |expected|
              && d.expected == expected[d.offset] && d.got == chunk[d.offset]
              && d.expected != d.got
  {
    found := [];
    var j := 0;
    while j < |expected|
      invariant 0 <= j <= |expected|
      invariant forall d :: d in found <==>
                  && d.chunk == index && d.offset < j
                  && d.expected == expected[d.offset] && d.got == chunk[d.offset]
                  && d.expected != d.got
    {
      if expected[j] != chunk[j] {
        found := found + [Difference(index, j, expected[j], chunk[j])];
      }
      j := j + 1;
    }
  }

  // ---------------------------------------------------------------------------
  // Properties of the stream check
  // ---------------------------------------------------------------------------

  /**
   * Byte `d` of the self-describing frame for packet index `p`: 0 at the start,
   * the packet index modulo 256 as key, then the reference pattern.
   */
  function FrameByte(p: int, d: nat): byte
  {
    if d == 1 then p % 256 else PatternByte(d)
  }

  /** The frame of `mps` bytes for packet index `p`. */
  function Frame(p: int, mps: nat): seq<byte>
  {
    seq(mps, d requires 0 <= d < mps => FrameByte(p, d))
  }

  /** `m` consecutive frames for packet indices `p, p+1, ..., p+m-1`. */
  function Stream(p: int, m: nat, mps: nat): seq<byte>
    decreases m
  {
    if m == 0 then [] else Frame(p, mps) + Stream(p + 1, m - 1, mps)
  }

  /** A frame is the reference pattern with byte 1 replaced by the packet index modulo 256. */
  lemma FrameIsKeyedPattern(p: int, mps: nat)
    requires mps >= 2
    ensures Frame(p, mps) == Pattern(mps)[1 := p % 256]
  {
  }

  /** A full-length frame at the front of the data is exactly the walk's next chunk. */
  lemma ChunksAfterFrame(frame: seq<byte>, rest: seq<byte>, v: nat)
    requires v >= 2 && |frame| == v
    ensures Chunks(frame + rest, v) == [frame] + Chunks(rest, v)
  {
    assert (frame + rest)[..v] == frame;
    assert (frame + rest)[v..] == rest;
  }

  /** The frames for packet indices `p, p+1, ..., p+m-1`, one per element. */
  function Frames(p: int, m: nat, v: nat): (fs: seq<seq<byte>>)
    ensures |fs| == m
    ensures forall k :: 0 <= k < m ==> fs[k] == Frame(p + k, v)
    decreases m
  {
    if m == 0 then [] else [Frame(p, v)] + Frames(p + 1, m - 1, v)
  }

  /** A stream is its frames laid end to end. */
  lemma {:induction false} StreamFlattens(p: int, m: nat, v: nat)
    ensures Stream(p, m, v) == Flatten(Frames(p, m, v))
    decreases m
  {
    if m > 0 {
      StreamFlattens(p + 1, m - 1, v);
      FlattenCons(Frame(p, v), Frames(p + 1, m - 1, v));
    }
  }

  /** The walk cuts full-length pieces laid end to end back into those pieces. */
  lemma {:induction false} ChunksOfFlatten(fs: seq<seq<byte>>, v: nat)
    requires v >= 2
    requires forall i :: 0 <= i < |fs| ==> |fs[i]| == v
    ensures Chunks(Flatten(fs), v) == fs
    decreases |fs|
  {
    if fs != [] {
      ChunksOfFlatten(fs[1..], v);
      ChunksAfterFrame(fs[0], Flatten(fs[1..]), v);
      assert fs == [fs[0]] + fs[1..];
    }
  }

  /** The walk cuts a stream of frames back into those frames. */
  lemma ChunksOfStream(p: int, m: nat, v: nat)
    requires v >= 2
    ensures |Chunks(Stream(p, m, v), v)| == m
    ensures forall k :: 0 <= k < m ==> Chunks(Stream(p, m, v), v)[k] == Frame(p + k, v)
  {
    StreamFlattens(p, m, v);
    ChunksOfFlatten(Frames(p, m, v), v);
  }

  /** Checking a full-length chunk with key `q mod 256` compares it against the frame for `q`. */
  lemma ExpectedIsFrame(pattern: seq<byte>, q: int)
    requires IsVerifyPattern(pattern)
    ensures Expected(pattern, |pattern|, q % 256) == Frame(q, |pattern|)
  {
  }

  lemma ModSucc(a: int)
    ensures (a % 256 + 1) % 256 == (a + 1) % 256
  {
  }

  /**
   * Resynchronisation: if the chunk before `start` failed to match (or `start` is
   * the first chunk) and chunks `start..i` are the frames for consecutive packet
   * indices, then every one of them matches, and chunk `i` is checked with its own
   * packet index as key.
   */
  lemma {:induction false} FramesFrom(pattern: seq<byte>, chunks: seq<seq<byte>>, start: nat, shift: int, i: nat)
    requires IsVerifyPattern(pattern) && WellSized(chunks, |pattern|)
    requires start <= i < |chunks|
    requires forall k :: start <= k <= i ==> chunks[k] == Frame(k + shift, |pattern|)
    requires start > 0 ==> Check(pattern, chunks, start - 1).mismatched
    ensures Check(pattern, chunks, i) == ChunkCheck((i + shift) % 256, false)
    decreases i
  {
    assert chunks[i] == Frame(i + shift, |pattern|);
    if i > start {
      FramesFrom(pattern, chunks, start, shift, i - 1);
      ModSucc(i - 1 + shift);
    }
    assert Check(pattern, chunks, i).key == (i + shift) % 256;
    ExpectedIsFrame(pattern, i + shift);
  }

  /** Consecutive frames checked with a pattern of the frame length never fail to match. */
  lemma ConsecutiveFramesMatch(pattern: seq<byte>, p: int, m: nat)
    requires IsVerifyPattern(pattern)
    ensures forall k :: 0 <= k < |Chunks(Stream(p, m, |pattern|), |pattern|)| ==>
              !Check(pattern, Chunks(Stream(p, m, |pattern|), |pattern|), k).mismatched
  {
    var chunks := Chunks(Stream(p, m, |pattern|), |pattern|);
    ChunksOfStream(p, m, |pattern|);
    forall k | 0 <= k < |chunks|
      ensures !Check(pattern, chunks, k).mismatched
    {
      FramesFrom(pattern, chunks, 0, p, k);
    }
  }

  /**
   * Corruption does not cascade: in a run of consecutive frames where only chunk
   * `j` was altered, and altered so that it fails to match, chunk `j` is the one
   * and only chunk reported.
   */
  lemma SingleCorruptionReported(pattern: seq<byte>, chunks: seq<seq<byte>>, shift: int, j: nat)
    requires IsVerifyPattern(pattern) && WellSized(chunks, |pattern|)
    requires j < |chunks|
    requires forall k :: 0 <= k < |chunks| && k != j ==> chunks[k] == Frame(k + shift, |pattern|)
    requires Check(pattern, chunks, j).mismatched
    ensures forall k :: 0 <= k < |chunks| ==> (Check(pattern, chunks, k).mismatched <==> k == j)
  {
    forall k | 0 <= k < |chunks|
      ensures Check(pattern, chunks, k).mismatched <==> k == j
    {
      if k < j {
        FramesFrom(pattern, chunks, 0, shift, k);
      } else if k > j {
        FramesFrom(pattern, chunks, j + 1, shift, k);
      }
    }
  }
}
