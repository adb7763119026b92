/**
 * The loop-test pre-fill inside CreateTransferParam: for a loop test on an OUT
 * pipe the backing store is filled with consecutive self-describing frames, the
 * same data a benchmark device sends during a read-only test, so that a device
 * echoing them back passes VerifyData.
 */
module LoopPrefill {
  import opened Usb
  import opened VerifyCodec

  lemma StreamLength(p: int, m: nat, mps: nat)
    ensures |Stream(p, m, mps)| == m * mps
    decreases m
  {
    if m > 0 {
      StreamLength(p + 1, m - 1, mps);
    }
  }

  /** Appending the frame for the next packet index extends a stream by one frame. */
  lemma {:induction false} StreamSnoc(p: int, m: nat, mps: nat)
    ensures Stream(p, m + 1, mps) == Stream(p, m, mps) + Frame(p + m, mps)
    decreases m
  {
    if m > 0 {
      StreamSnoc(p + 1, m - 1, mps);
    }
  }

  /** Number of whole packets the pre-fill writes: the read length of every buffer, cut into packets. */
  function PacketCount(bufferCount: nat, readLength: nat, maxPacketSize: nat): nat
    requires maxPacketSize >= 1
  {
    (bufferCount * readLength) / maxPacketSize
  }

  /** The packets written fit in the bytes the read lengths of all buffers occupy. */
  lemma PacketsFit(bufferCount: nat, readLength: nat, maxPacketSize: nat)
    requires maxPacketSize >= 1
    ensures PacketCount(bufferCount, readLength, maxPacketSize) * maxPacketSize <= bufferCount * readLength
  {
  }

  /**
   * The pre-fill loop: packet `p` of `maxPacketSize` bytes is written at offset
   * `p * maxPacketSize`, byte 0 being 0, byte 1 the key `p & 0xFF`, and the rest a
   * byte counter restarted at 2 for each packet that skips 0 when it wraps.
   * Bytes past the last whole packet keep their previous contents.
   */
  method PrefillLoopBuffer(buffer: seq<byte>, bufferCount: nat, readLength: nat, maxPacketSize: nat)
    returns (filled: seq<byte>)
    requires maxPacketSize >= 1
    requires bufferCount * readLength <= |buffer|
    ensures |filled| == |buffer|
    ensures PacketCount(bufferCount, readLength, maxPacketSize) * maxPacketSize <= |filled|
    ensures filled[..PacketCount(bufferCount, readLength, maxPacketSize) * maxPacketSize]
            == Stream(0, PacketCount(bufferCount, readLength, maxPacketSize), maxPacketSize)
    ensures filled[PacketCount(bufferCount, readLength, maxPacketSize) * maxPacketSize..]
            == buffer[PacketCount(bufferCount, readLength, maxPacketSize) * maxPacketSize..]
  {
    var packetCount := (bufferCount * readLength) / maxPacketSize;
    PacketsFit(bufferCount, readLength, maxPacketSize);
    StreamLength(0, packetCount, maxPacketSize);
    filled := buffer;
    var bufferIndex := 0;
    var packetIndex := 0;
    while packetIndex < packetCount
      invariant 0 <= packetIndex <= packetCount
      invariant |filled| == |buffer|
      invariant bufferIndex == |Stream(0, packetIndex, maxPacketSize)| <= |buffer|
      invariant filled[..bufferIndex] == Stream(0, packetIndex, maxPacketSize)
      invariant filled[bufferIndex..] == buffer[bufferIndex..]
    {
      StreamSnoc(0, packetIndex, maxPacketSize);
      StreamPrefix(0, packetIndex + 1, packetCount, maxPacketSize);
      StreamLength(0, packetIndex + 1, maxPacketSize);
      assert bufferIndex + maxPacketSize <= |buffer|;
      var before := filled;
      filled := WritePacket(filled, bufferIndex, packetIndex, maxPacketSize);
      PrefillStep(buffer, before, filled, bufferIndex, packetIndex, maxPacketSize);
      bufferIndex := bufferIndex + maxPacketSize;
      packetIndex := packetIndex + 1;
    }
  }

  /** Writing the next frame behind a pre-filled stream extends the stream by that frame. */
  lemma PrefillStep(buffer: seq<byte>, before: seq<byte>, after: seq<byte>, bufferIndex: nat, packetIndex: nat, mps: nat)
    requires |before| == |buffer| == |after|
    requires bufferIndex == |Stream(0, packetIndex, mps)| && bufferIndex + mps <= |buffer|
    requires before[..bufferIndex] == Stream(0, packetIndex, mps)
    requires before[bufferIndex..] == buffer[bufferIndex..]
    requires after[..bufferIndex] == before[..bufferIndex]
    requires after[bufferIndex .. bufferIndex + mps] == Frame(packetIndex, mps)
    requires after[bufferIndex + mps..] == before[bufferIndex + mps..]
    ensures after[..bufferIndex + mps] == Stream(0, packetIndex + 1, mps)
    ensures after[bufferIndex + mps..] == buffer[bufferIndex + mps..]
  {
    StreamSnoc(0, packetIndex, mps);
    assert |Frame(packetIndex, mps)| == mps;
    assert after[..bufferIndex + mps] == after[..bufferIndex] + after[bufferIndex .. bufferIndex + mps];
    assert before[bufferIndex + mps..] == before[bufferIndex..][mps..];
    assert buffer[bufferIndex + mps..] == buffer[bufferIndex..][mps..];
  }

  /** Writes the frame for `packetIndex` at `bufferIndex`, one byte at a time, leaving every other byte alone. */
  method WritePacket(buffer: seq<byte>, bufferIndex: nat, packetIndex: nat, maxPacketSize: nat)
    returns (filled: seq<byte>)
    requires bufferIndex + maxPacketSize <= |buffer|
    ensures |filled| == |buffer|
    ensures filled[..bufferIndex] == buffer[..bufferIndex]
    ensures filled[bufferIndex .. bufferIndex + maxPacketSize] == Frame(packetIndex, maxPacketSize)
    ensures filled[bufferIndex + maxPacketSize..] == buffer[bufferIndex + maxPacketSize..]
  {
    filled := buffer;
    var indexC: byte := 2;
    var dataIndex := 0;
    while dataIndex < maxPacketSize
      invariant 0 <= dataIndex <= maxPacketSize
      invariant |filled| == |buffer|
      invariant forall j :: 0 <= j < |buffer| ==>
                  filled[j] == if bufferIndex <= j < bufferIndex + dataIndex then FrameByte(packetIndex, j - bufferIndex) else buffer[j]
      invariant indexC == PatternByte(if dataIndex < 2 then 2 else dataIndex)
    {
      var value: byte;
      if dataIndex == 0 {
        value := 0;
      } else if dataIndex == 1 {
        value := packetIndex % 256;
      } else {
        value := indexC;
        indexC := (indexC + 1) % 256;
      }
      if indexC == 0 {
        indexC := 1;
      }
      assert value == FrameByte(packetIndex, dataIndex);
      filled := filled[bufferIndex + dataIndex := value];
      dataIndex := dataIndex + 1;
    }
    assert filled[..bufferIndex] == buffer[..bufferIndex];
    assert filled[bufferIndex .. bufferIndex + maxPacketSize] == Frame(packetIndex, maxPacketSize);
    assert filled[bufferIndex + maxPacketSize..] == buffer[bufferIndex + maxPacketSize..];
  }

  /**
   * What the pre-fill promises: a loop device that echoes the pre-filled packets
   * back produces data that VerifyData, checking with a verify buffer of the
   * packet size, finds no mismatching chunk in.
   */
  lemma PrefilledPacketsVerify(verifyBuffer: seq<byte>, filled: seq<byte>, packetCount: nat)
    requires IsVerifyPattern(verifyBuffer)
    requires packetCount * |verifyBuffer| <= |filled|
    requires filled[..packetCount * |verifyBuffer|] == Stream(0, packetCount, |verifyBuffer|)
    ensures forall k :: 0 <= k < |Chunks(filled[..packetCount * |verifyBuffer|], |verifyBuffer|)| ==>
              !Check(verifyBuffer, Chunks(filled[..packetCount * |verifyBuffer|], |verifyBuffer|), k).mismatched
  {
    ConsecutiveFramesMatch(verifyBuffer, 0, packetCount);
  }

  /** Packet `p` of the pre-fill, cut out of the stream, is the verify pattern of the packet size keyed with `p & 0xFF`. */
  lemma {:induction false} PrefillPacket(m: nat, mps: nat, p: nat)
    requires mps >= 2 && p < m
    ensures (p + 1) * mps <= |Stream(0, m, mps)|
    ensures Stream(0, m, mps)[p * mps .. (p + 1) * mps] == Pattern(mps)[1 := p % 256]
  {
    StreamLength(0, m, mps);
    assert p + 1 <= m;
    assert (p + 1) * mps <= m * mps;
    StreamSnoc(0, p, mps);
    StreamLength(0, p, mps);
    StreamPrefix(0, p + 1, m, mps);
    var s := Stream(0, m, mps);
    assert s[..(p + 1) * mps] == Stream(0, p, mps) + Frame(p, mps);
    assert s[p * mps .. (p + 1) * mps] == (s[..(p + 1) * mps])[p * mps ..];
    FrameIsKeyedPattern(p, mps);
  }

  /** A shorter stream is a prefix of a longer one from the same packet index. */
  lemma {:induction false} StreamPrefix(p: int, a: nat, b: nat, mps: nat)
    requires a <= b
    ensures a * mps <= |Stream(p, b, mps)|
    ensures Stream(p, b, mps)[..a * mps] == Stream(p, a, mps)
    decreases b
  {
    StreamLength(p, a, mps);
    StreamLength(p, b, mps);
    assert a * mps <= b * mps;
    if a < b {
      StreamPrefix(p, a, b - 1, mps);
      StreamSnoc(p, b - 1, mps);
      StreamLength(p, b - 1, mps);
      assert a * mps <= (b - 1) * mps;
    }
  }
}
