/** The render-side receiver (PointPainterUnity/Assets/KinectStreamer.cs): it reads
    the calibration table once per connection, then per frame a depth block and a
    colour block of fixed sizes, each by accumulating partial reads, acknowledges
    every frame with one zero byte, and unpacks the two blocks into
    `{DepthVal, R, G, B}` records. */
module Streamer {
  import opened Bytes

  // ---------------------------------------------------------------------------
  // Sizes

  const DepthTextureWidth: nat := 512
  const DepthTextureHeight: nat := 424
  const DepthPointsCount: nat := DepthTextureWidth * DepthTextureHeight

  /** `sizeof(float) * 2`, `sizeof(short)` and `sizeof(byte) * 3`. */
  const DepthTableStride: nat := 4 * 2
  const DepthDataStride: nat := 2
  const ColorDataStride: nat := 1 * 3

  const DepthTableSize: nat := DepthPointsCount * DepthTableStride
  const DepthDataSize: nat := DepthPointsCount * DepthDataStride
  const ColorDataSize: nat := DepthPointsCount * ColorDataStride

  /** The bytes of one frame on the wire, depth block then colour block. */
  const FrameSize: nat := DepthDataSize + ColorDataSize

  lemma SizesAre()
    ensures DepthPointsCount == 217088
    ensures DepthTableSize == 8 * DepthPointsCount && DepthTableSize == 1736704
    ensures DepthDataSize == 2 * DepthPointsCount && ColorDataSize == 3 * DepthPointsCount
    ensures FrameSize == 5 * DepthPointsCount && FrameSize == 1085440
  {
  }

  // ---------------------------------------------------------------------------
  // Accumulating partial reads

  function Sum(s: seq<nat>): nat
  {
    if s == [] then 0 else s[0] + Sum(s[1..])
  }

  lemma {:induction false} SumAppend(s: seq<nat>, x: nat)
    ensures Sum(s + [x]) == Sum(s) + x
  {
    if s == [] {
      assert s + [x] == [x];
      assert [x][1..] == [];
    } else {
      assert (s + [x])[1..] == s[1..] + [x];
      SumAppend(s[1..], x);
    }
  }

  /** The sizes of successive reads: none is empty and together they deliver `total` bytes. */
  ghost predicate IsPartition(chunks: seq<nat>, total: nat)
  {
    (forall k :: 0 <= k < |chunks| ==> chunks[k] >= 1) && Sum(chunks) == total
  }

  /** `buf` with `bytes` written at `offset`. */
  function Overwrite(buf: seq<byte>, offset: nat, bytes: seq<byte>): (r: seq<byte>)
    requires offset + |bytes| <= |buf|
    ensures |r| == |buf|
  {
    buf[..offset] + bytes + buf[offset + |bytes|..]
  }

  /** Two adjacent writes are one write of the concatenation. */
  lemma OverwriteTwice(buf: seq<byte>, offset: nat, x: seq<byte>, y: seq<byte>)
    requires offset + |x| + |y| <= |buf|
    ensures Overwrite(Overwrite(buf, offset, x), offset + |x|, y) == Overwrite(buf, offset, x + y)
  {
    var b1 := Overwrite(buf, offset, x);
    assert b1[..offset + |x|] == buf[..offset] + x;
    assert b1[offset + |x| + |y|..] == buf[offset + |x| + |y|..];
  }

  /** The buffer after a sequence of reads of the given sizes, each copying the next
      bytes of `data` to the current offset and advancing it. */
  function ReadInto(buf: seq<byte>, offset: nat, data: seq<byte>, chunks: seq<nat>): seq<byte>
    requires offset + Sum(chunks) <= |buf| && Sum(chunks) <= |data|
    decreases |chunks|
  {
    if chunks == [] then buf
    else
      var c := chunks[0];
      ReadInto(Overwrite(buf, offset, data[..c]), offset + c, data[c..], chunks[1..])
  }

  /** However the bytes are split into reads, the reads leave the buffer holding the
      next `Sum(chunks)` bytes of the input at `offset`, and nothing else changed. */
  lemma {:induction false} ChunkEquivalence(buf: seq<byte>, offset: nat, data: seq<byte>, chunks: seq<nat>)
    requires offset + Sum(chunks) <= |buf| && Sum(chunks) <= |data|
    ensures ReadInto(buf, offset, data, chunks) == Overwrite(buf, offset, data[..Sum(chunks)])
    decreases |chunks|
  {
    if chunks == [] {
      assert buf == buf[..offset] + data[..0] + buf[offset..];
    } else {
      var c := chunks[0];
      var rest := Sum(chunks[1..]);
      ChunkEquivalence(Overwrite(buf, offset, data[..c]), offset + c, data[c..], chunks[1..]);
      OverwriteTwice(buf, offset, data[..c], data[c..][..rest]);
      assert data[..c] + data[c..][..rest] == data[..c + rest];
    }
  }

  /** Two partitions of the same byte count fill the buffer identically, with exactly
      the first `|buf|` bytes of the input. */
  lemma PartitionIrrelevant(buf: seq<byte>, data: seq<byte>, p1: seq<nat>, p2: seq<nat>)
    requires IsPartition(p1, |buf|) && IsPartition(p2, |buf|) && |buf| <= |data|
    ensures ReadInto(buf, 0, data, p1) == data[..|buf|]
    ensures ReadInto(buf, 0, data, p1) == ReadInto(buf, 0, data, p2)
  {
    ChunkEquivalence(buf, 0, data, p1);
    ChunkEquivalence(buf, 0, data, p2);
  }

  // ---------------------------------------------------------------------------
  // The connection

  /** The client's end of the TCP stream. `incoming` holds the bytes the server
      sends on this connection before closing it that the client has not read yet,
      so an empty `incoming` is a closed stream; `segments` says how the transport
      hands them over (one `Read` returns at most the next segment); `sent` records
      what the client wrote. */
  class NetworkStream {
    var incoming: seq<byte>
    var segments: seq<nat>
    var sent: seq<byte>

    ghost predicate Valid()
      reads this
    {
      IsPartition(segments, |incoming|)
    }

    constructor (incoming: seq<byte>, segments: seq<nat>)
      requires IsPartition(segments, |incoming|)
      ensures Valid()
      ensures this.incoming == incoming && this.segments == segments && sent == []
    {
      this.incoming, this.segments, sent := incoming, segments, [];
    }

    /** `Stream.Read(buffer, offset, count)`: copies at most `count` available bytes
        to `buffer[offset..]` and returns how many. It returns 0 exactly when the
        stream is closed, and otherwise at least one byte. */
    method Read(buffer: array<byte>, offset: nat, count: nat) returns (n: nat)
      requires Valid()
      requires count > 0 && offset + count <= buffer.Length
      modifies this, buffer
      ensures Valid()
      ensures n <= count && n <= |old(incoming)|
      ensures n == 0 <==> old(incoming) == []
      ensures old(incoming) != [] ==> n == if count < old(segments[0]) then count else old(segments[0])
      ensures buffer[..] == old(buffer[..offset]) + old(incoming[..n]) + old(buffer[offset + n..])
      ensures incoming == old(incoming[n..])
      ensures sent == old(sent)
    {
      if incoming == [] {
        n := 0;
        assert buffer[..] == old(buffer[..offset]) + old(incoming[..n]) + old(buffer[offset + n..]);
        return;
      }
      assert segments != [];
      n := if count < segments[0] then count else segments[0];
      forall k | 0 <= k < n {
        buffer[offset + k] := incoming[k];
      }
      assert buffer[..] == old(buffer[..offset]) + old(incoming[..n]) + old(buffer[offset + n..]);
      incoming := incoming[n..];
      if n == segments[0] {
        segments := segments[1..];
      } else {
        var s := [segments[0] - n] + segments[1..];
        assert s[1..] == segments[1..];
        segments := s;
      }
    }

    /** `Stream.WriteByte(b)`. */
    method WriteByte(b: byte)
      modifies this
      ensures incoming == old(incoming) && segments == old(segments)
      ensures sent == old(sent) + [b]
    {
      sent := sent + [b];
    }
  }

  /** The read loop `offset = 0; while (offset < size) offset += stream.Read(buffer,
      offset, buffer.Length - offset)`: it asks for at most the bytes still missing,
      so it stops with exactly `buffer.Length` bytes read. `chunks` are the sizes the
      reads returned. */
  method FillFromStream(stream: NetworkStream, buffer: array<byte>) returns (ghost chunks: seq<nat>)
    requires stream.Valid() && buffer.Length <= |stream.incoming|
    modifies stream, buffer
    ensures stream.Valid()
    ensures buffer[..] == old(stream.incoming[..buffer.Length])
    ensures stream.incoming == old(stream.incoming[buffer.Length..])
    ensures stream.sent == old(stream.sent)
    ensures IsPartition(chunks, buffer.Length)
    ensures buffer[..] == ReadInto(old(buffer[..]), 0, old(stream.incoming), chunks)
  {
    ghost var data := stream.incoming;
    ghost var before := buffer[..];
    var offset := 0;
    chunks := [];
    while offset < buffer.Length
      invariant offset <= buffer.Length
      invariant stream.Valid() && stream.sent == old(stream.sent)
      invariant stream.incoming == data[offset..]
      invariant buffer[..offset] == data[..offset]
      invariant buffer[offset..] == before[offset..]
      invariant IsPartition(chunks, offset)
      decreases buffer.Length - offset
    {
      var n := stream.Read(buffer, offset, buffer.Length - offset);
      assert buffer[..offset + n] == data[..offset + n] by {
        assert data[offset..][..n] == data[offset..offset + n];
        assert data[..offset] + data[offset..offset + n] == data[..offset + n];
      }
      SumAppend(chunks, n);
      offset, chunks := offset + n, chunks + [n];
    }
    assert buffer[..] == buffer[..offset];
    ChunkEquivalence(before, 0, data, chunks);
    assert Overwrite(before, 0, data[..buffer.Length]) == data[..buffer.Length];
  }

  /** The read loop as written, on a closed stream: every `Read` returns 0, so after
      any number of passes `offset` has not moved and the loop condition still holds;
      the loop never ends. */
  method ReadLoopOnClosedStream(stream: NetworkStream, buffer: array<byte>, offset: nat, passes: nat)
    returns (offsetAfter: nat)
    requires stream.Valid() && stream.incoming == [] && offset < buffer.Length
    modifies stream, buffer
    ensures offsetAfter == offset && offsetAfter < buffer.Length
    ensures buffer[..] == old(buffer[..])
  {
    offsetAfter := offset;
    for pass := 0 to passes
      invariant offsetAfter == offset
      invariant stream.Valid() && stream.incoming == []
      invariant buffer[..] == old(buffer[..])
    {
      var n := stream.Read(buffer, offsetAfter, buffer.Length - offsetAfter);
      offsetAfter := offsetAfter + n;
    }
  }

  /** The read loop with the check it lacks: a `Read` returning 0 means the peer has
      closed the connection, and the loop stops there. It completes exactly when the
      stream holds at least `buffer.Length` bytes, and then it fills the buffer as
      the loop as written does; otherwise it has read everything the stream held
      into the front of the buffer. */
  method FillFromStreamUntilClosed(stream: NetworkStream, buffer: array<byte>) returns (complete: bool)
    requires stream.Valid()
    modifies stream, buffer
    ensures stream.Valid() && stream.sent == old(stream.sent)
    ensures complete <==> buffer.Length <= |old(stream.incoming)|
    ensures complete ==> buffer[..] == old(stream.incoming[..buffer.Length])
    ensures complete ==> stream.incoming == old(stream.incoming[buffer.Length..])
    ensures !complete ==> buffer[..|old(stream.incoming)|] == old(stream.incoming) && stream.incoming == []
  {
    ghost var data := stream.incoming;
    var offset := 0;
    while offset < buffer.Length
      invariant offset <= buffer.Length && offset <= |data|
      invariant stream.Valid() && stream.sent == old(stream.sent)
      invariant stream.incoming == data[offset..]
      invariant buffer[..offset] == data[..offset]
      decreases buffer.Length - offset
    {
      var n := stream.Read(buffer, offset, buffer.Length - offset);
      if n == 0 {
        assert data == data[..offset];
        return false;
      }
      assert buffer[..offset + n] == data[..offset + n] by {
        assert data[offset..][..n] == data[offset..offset + n];
        assert data[..offset] + data[offset..offset + n] == data[..offset + n];
      }
      offset := offset + n;
    }
    assert buffer[..] == buffer[..offset];
    return true;
  }

  // ---------------------------------------------------------------------------
  // Unpacking

  /** One point as the shader receives it: four 32-bit ints. */
  datatype BufferPoint = BufferPoint(DepthVal: int, R: int, G: int, B: int)

  /** Point `i` of the unpacking loop: `BitConverter.ToInt16` of depth bytes `2i`,
      `2i+1`, and colour bytes `3i .. 3i+2`. Writing the depth back as a 16-bit
      little-endian value, and the colours as bytes, gives the wire bytes again. */
  function UnpackPoint(depthData: seq<byte>, colorData: seq<byte>, i: nat): (p: BufferPoint)
    requires 2 * i + 2 <= |depthData| && 3 * i + 3 <= |colorData|
    ensures -0x8000 <= p.DepthVal < 0x8000
    ensures 0 <= p.R < 0x100 && 0 <= p.G < 0x100 && 0 <= p.B < 0x100
    ensures UShortBytes(p.DepthVal % 0x1_0000) == depthData[2 * i..2 * i + 2]
    ensures [p.R, p.G, p.B] == colorData[3 * i..3 * i + 3]
  {
    var lo, hi := depthData[2 * i], depthData[2 * i + 1];
    var depthVal := Int16LE(lo, hi);
    assert depthVal % 0x1_0000 == UInt16LE(lo, hi);
    BufferPoint(depthVal, colorData[3 * i], colorData[3 * i + 1], colorData[3 * i + 2])
  }

  // ---------------------------------------------------------------------------
  // The component

  /** The receiving component's state. The receive buffers never change identity;
      the `*Swapper` fields are the references the render side reads, set by the
      receive thread. `uploadedTable` is what the table upload has handed to the
      GPU and `tableUploads` counts those uploads. */
  class KinectStreamer {
    const depthData: array<byte>
    const colorData: array<byte>
    const depthTableData: array<byte>
    const pointsArray: array<BufferPoint>
    var depthDataSwapper: array<byte>
    var colorDataSwapper: array<byte>
    var depthTableDataSwapper: array<byte>
    var depthTableLoaded: bool
    var depthTableSet: bool
    var uploadedTable: seq<byte>
    ghost var tableUploads: nat

    /** Buffer sizes, distinct receive buffers, the table flags in order, and the
        table uploaded exactly once if and only if `depthTableSet`. */
    ghost predicate Valid()
      reads this
    {
      depthData.Length == DepthDataSize && depthDataSwapper.Length == DepthDataSize &&
      colorData.Length == ColorDataSize && colorDataSwapper.Length == ColorDataSize &&
      depthTableData.Length == DepthTableSize && depthTableDataSwapper.Length == DepthTableSize &&
      pointsArray.Length == DepthPointsCount &&
      depthData != colorData && depthData != depthTableData && colorData != depthTableData &&
      (depthTableSet ==> depthTableLoaded) &&
      (depthTableLoaded ==> depthTableDataSwapper == depthTableData) &&
      tableUploads == (if depthTableSet then 1 else 0)
    }

    /** `Start`: every buffer allocated at its size (zero-filled), each swapper a
        separate array, nothing received or uploaded yet. */
    constructor Start()
      ensures Valid()
      ensures !depthTableLoaded && !depthTableSet && tableUploads == 0
      ensures fresh(depthData) && fresh(colorData) && fresh(depthTableData) && fresh(pointsArray)
      ensures fresh(depthDataSwapper) && fresh(colorDataSwapper) && fresh(depthTableDataSwapper)
      ensures depthDataSwapper != depthData && colorDataSwapper != colorData
      ensures depthTableDataSwapper != depthTableData
    {
      pointsArray := new BufferPoint[DepthPointsCount](_ => BufferPoint(0, 0, 0, 0));
      depthTableData := new byte[DepthTableSize](_ => 0);
      depthTableDataSwapper := new byte[DepthTableSize](_ => 0);
      depthData := new byte[DepthDataSize](_ => 0);
      depthDataSwapper := new byte[DepthDataSize](_ => 0);
      colorData := new byte[ColorDataSize](_ => 0);
      colorDataSwapper := new byte[ColorDataSize](_ => 0);
      depthTableLoaded, depthTableSet := false, false;
      uploadedTable := [];
      tableUploads := 0;
    }

    /** The per-frame hook: upload the table if it has arrived and was not uploaded
        yet, then unpack the current buffers. */
    method Update()
      requires Valid()
      modifies this, pointsArray
      ensures Valid()
      ensures depthTableSet == (old(depthTableSet) || old(depthTableLoaded))
      ensures depthTableLoaded == old(depthTableLoaded)
      ensures if old(depthTableLoaded) && !old(depthTableSet)
              then uploadedTable == old(depthTableDataSwapper[..])
              else uploadedTable == old(uploadedTable)
      ensures tableUploads <= 1 && tableUploads >= old(tableUploads)
      ensures depthDataSwapper == old(depthDataSwapper) && colorDataSwapper == old(colorDataSwapper)
      ensures depthTableDataSwapper == old(depthTableDataSwapper)
      ensures forall i :: 0 <= i < DepthPointsCount ==>
                pointsArray[i] == UnpackPoint(depthData[..], colorData[..], i)
    {
      if depthTableLoaded && !depthTableSet {
        TryLoadDepthTable();
      }
      GetSourceData();
    }

    /** Uploads the table the swapper refers to and records that it is set. */
    method TryLoadDepthTable()
      modifies this
      ensures depthTableSet
      ensures uploadedTable == old(depthTableDataSwapper[..])
      ensures tableUploads == old(tableUploads) + 1
      ensures depthTableLoaded == old(depthTableLoaded)
      ensures depthDataSwapper == old(depthDataSwapper) && colorDataSwapper == old(colorDataSwapper)
      ensures depthTableDataSwapper == old(depthTableDataSwapper)
    {
      uploadedTable := depthTableDataSwapper[..];
      tableUploads := tableUploads + 1;
      depthTableSet := true;
    }

    /** Unpacks every point from the receive buffers (not the swappers): point `i`
        takes depth bytes `2i, 2i+1` and colour bytes `3i .. 3i+2`. */
    method GetSourceData()
      requires Valid()
      modifies pointsArray
      ensures forall i :: 0 <= i < DepthPointsCount ==>
                pointsArray[i] == UnpackPoint(depthData[..], colorData[..], i)
    {
      for i := 0 to DepthPointsCount
        invariant forall j :: 0 <= j < i ==> pointsArray[j] == UnpackPoint(depthData[..], colorData[..], j)
      {
        var depthVal := Int16LE(depthData[i * 2], depthData[i * 2 + 1]);
        var r := colorData[i * 3];
        var g := colorData[i * 3 + 1];
        var b := colorData[i * 3 + 2];
        pointsArray[i] := BufferPoint(depthVal, r, g, b);
      }
    }

    /** The start of a connection: the whole table is read, the swapper is pointed
        at it and only then is it marked loaded. */
    method ReceiveDepthTable(stream: NetworkStream)
      requires Valid() && stream.Valid() && DepthTableSize <= |stream.incoming|
      modifies this, stream, depthTableData
      ensures Valid() && stream.Valid()
      ensures depthTableData[..] == old(stream.incoming[..DepthTableSize])
      ensures stream.incoming == old(stream.incoming[DepthTableSize..])
      ensures stream.sent == old(stream.sent)
      ensures depthTableDataSwapper == depthTableData && depthTableLoaded
      ensures depthTableSet == old(depthTableSet) && tableUploads == old(tableUploads)
      ensures uploadedTable == old(uploadedTable)
      ensures depthDataSwapper == old(depthDataSwapper) && colorDataSwapper == old(colorDataSwapper)
    {
      ghost var chunks := FillFromStream(stream, depthTableData);
      depthTableDataSwapper := depthTableData;
      depthTableLoaded := true;
    }

    /** One frame: the depth block, then the colour block, each read in full; both
        swappers are pointed at the receive buffers and one zero byte acknowledges
        the frame. */
    method ReceiveFrame(stream: NetworkStream)
      requires Valid() && stream.Valid() && FrameSize <= |stream.incoming|
      modifies this, stream, depthData, colorData
      ensures Valid() && stream.Valid()
      ensures depthData[..] == old(stream.incoming[..DepthDataSize])
      ensures colorData[..] == old(stream.incoming[DepthDataSize..FrameSize])
      ensures stream.incoming == old(stream.incoming[FrameSize..])
      ensures old(stream.incoming) == depthData[..] + colorData[..] + stream.incoming
      ensures stream.sent == old(stream.sent) + [0]
      ensures depthDataSwapper == depthData && colorDataSwapper == colorData
      ensures depthTableLoaded == old(depthTableLoaded) && depthTableSet == old(depthTableSet)
      ensures tableUploads == old(tableUploads) && uploadedTable == old(uploadedTable)
      ensures depthTableDataSwapper == old(depthTableDataSwapper)
    {
      ghost var data := stream.incoming;
      ghost var depthChunks := FillFromStream(stream, depthData);
      ghost var colorChunks := FillFromStream(stream, colorData);
      assert data[DepthDataSize..][..ColorDataSize] == data[DepthDataSize..FrameSize];
      assert data[DepthDataSize..][ColorDataSize..] == data[FrameSize..];
      assert data == data[..DepthDataSize] + data[DepthDataSize..FrameSize] + data[FrameSize..];
      depthDataSwapper := depthData;
      colorDataSwapper := colorData;
      stream.WriteByte(0);
    }

    /** One connection: the table, then `frames` frames until the connection drops.
        The bytes consumed are the table followed by the frames, in order; exactly
        one zero byte is written per frame, and the buffers hold the table and the
        last frame received. */
    method ReadSession(stream: NetworkStream, frames: nat) returns (ghost received: seq<seq<byte>>)
      requires Valid() && stream.Valid()
      requires DepthTableSize + frames * FrameSize <= |stream.incoming|
      modifies this, stream, depthTableData, depthData, colorData
      ensures Valid() && stream.Valid()
      ensures depthTableLoaded && depthTableDataSwapper == depthTableData
      ensures |received| == frames && forall j :: 0 <= j < frames ==> |received[j]| == FrameSize
      ensures old(stream.incoming) == depthTableData[..] + Flatten(received) + stream.incoming
      ensures stream.sent == old(stream.sent) + Acks(frames)
      ensures frames > 0 ==> received[frames - 1] == depthData[..] + colorData[..]
      ensures frames > 0 ==> depthDataSwapper == depthData && colorDataSwapper == colorData
      ensures frames == 0 ==> depthDataSwapper == old(depthDataSwapper) && colorDataSwapper == old(colorDataSwapper)
      ensures depthTableSet == old(depthTableSet) && tableUploads == old(tableUploads)
      ensures uploadedTable == old(uploadedTable)
    {
      ghost var data := stream.incoming;
      ReceiveDepthTable(stream);
      assert data == data[..DepthTableSize] + data[DepthTableSize..];
      received := ReceiveFrames(stream, frames);
    }

    /** The `while (client.Connected)` loop, run for `frames` frames. */
    method ReceiveFrames(stream: NetworkStream, frames: nat) returns (ghost received: seq<seq<byte>>)
      requires Valid() && stream.Valid()
      requires frames * FrameSize <= |stream.incoming|
      modifies this, stream, depthData, colorData
      ensures Valid() && stream.Valid()
      ensures |received| == frames && forall j :: 0 <= j < frames ==> |received[j]| == FrameSize
      ensures old(stream.incoming) == Flatten(received) + stream.incoming
      ensures stream.sent == old(stream.sent) + Acks(frames)
      ensures frames > 0 ==> received[frames - 1] == depthData[..] + colorData[..]
      ensures frames > 0 ==> depthDataSwapper == depthData && colorDataSwapper == colorData
      ensures frames == 0 ==> depthDataSwapper == old(depthDataSwapper) && colorDataSwapper == old(colorDataSwapper)
      ensures depthTableLoaded == old(depthTableLoaded) && depthTableSet == old(depthTableSet)
      ensures tableUploads == old(tableUploads) && depthTableDataSwapper == old(depthTableDataSwapper)
      ensures uploadedTable == old(uploadedTable)
    {
      ghost var data := stream.incoming;
      ghost var sent0 := stream.sent;
      received := [];
      var k := 0;
      ghost var left: nat := frames;
      while k < frames
        invariant k <= frames
        invariant Valid() && stream.Valid()
        invariant |received| == k && forall j :: 0 <= j < k ==> |received[j]| == FrameSize
        invariant data == Flatten(received) + stream.incoming
        invariant left == frames - k && left * FrameSize <= |stream.incoming|
        invariant stream.sent == sent0 + Acks(k)
        invariant k > 0 ==> received[k - 1] == depthData[..] + colorData[..]
        invariant k > 0 ==> depthDataSwapper == depthData && colorDataSwapper == colorData
        invariant k == 0 ==> depthDataSwapper == old(depthDataSwapper) && colorDataSwapper == old(colorDataSwapper)
        invariant uploadedTable == old(uploadedTable)
        invariant depthTableLoaded == old(depthTableLoaded) && depthTableSet == old(depthTableSet)
        invariant tableUploads == old(tableUploads) && depthTableDataSwapper == old(depthTableDataSwapper)
      {
        MulSplit(left, FrameSize);
        ReceiveFrame(stream);
        FlattenAppend(received, depthData[..] + colorData[..]);
        received := received + [depthData[..] + colorData[..]];
        k, left := k + 1, left - 1;
      }
    }
  }

  /** One zero byte per frame. */
  function Acks(frames: nat): (r: seq<byte>)
    ensures |r| == frames && forall j :: 0 <= j < frames ==> r[j] == 0
  {
    if frames == 0 then [] else Acks(frames - 1) + [0]
  }

  lemma MulSplit(m: nat, c: nat)
    requires m >= 1
    ensures m * c == (m - 1) * c + c && (m - 1) * c >= 0
  {
  }

  /** The frames of a session one after another. */
  function Flatten(s: seq<seq<byte>>): seq<byte>
  {
    if s == [] then [] else s[0] + Flatten(s[1..])
  }

  lemma {:induction false} FlattenAppend(s: seq<seq<byte>>, x: seq<byte>)
    ensures Flatten(s + [x]) == Flatten(s) + x
  {
    if s == [] {
      assert s + [x] == [x];
      assert [x][1..] == [];
    } else {
      assert (s + [x])[1..] == s[1..] + [x];
      FlattenAppend(s[1..], x);
    }
  }
}
