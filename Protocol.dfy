/** The two ends side by side: what the packer sends for a 512 x 424 depth frame
    and what the receiver makes of it. The byte counts agree, but the packer
    interleaves five bytes per pixel while the receiver reads a depth block
    followed by a colour block. */
module Protocol {
  import opened Bytes
  import P = Packer
  import S = Streamer

  /** The packed frame is exactly as long as the depth block plus the colour block
      the receiver waits for, and a serialised table is exactly as long as the table
      it waits for. */
  lemma SizesAgree(depths: seq<ushort>, colors: seq<P.Color>, table: seq<P.PointF>)
    requires |depths| == |colors| == S.DepthPointsCount
    requires |table| == S.DepthPointsCount
    ensures |P.PackedFrame(depths, colors)| == S.DepthDataSize + S.ColorDataSize
    ensures |P.EncodeTable(table)| == S.DepthTableSize
  {
    S.SizesAre();
  }

  /** The receiver's point `i` when the packer's buffer arrives: `GetSourceData`
      over the first `2N` bytes as depths and the remaining `3N` as colours. */
  function ClientPoint(frame: seq<byte>, i: nat): (p: S.BufferPoint)
    requires |frame| == S.FrameSize && i < S.DepthPointsCount
  {
    S.UnpackPoint(frame[..S.DepthDataSize], frame[S.DepthDataSize..], i)
  }

  /** As written, only point 0's depth comes out right. Point 1's depth is read from
      pixel 0's red and green bytes, and point 0's colour from the high depth byte
      and the red and green of pixel 86835 (byte `2N` of the buffer). */
  lemma ClientMisreadsPackedFrame(depths: seq<ushort>, colors: seq<P.Color>)
    requires |depths| == |colors| == S.DepthPointsCount
    ensures var frame := P.PackedFrame(depths, colors);
            ClientPoint(frame, 0).DepthVal == Signed(depths[0]) &&
            ClientPoint(frame, 1).DepthVal == Int16LE(colors[0].r, colors[0].g) &&
            ClientPoint(frame, 0).R == HighByte(depths[86835]) &&
            ClientPoint(frame, 0).G == colors[86835].r &&
            ClientPoint(frame, 0).B == colors[86835].g
  {
    var frame := P.PackedFrame(depths, colors);
    P.PackedFrameAt(depths, colors, 0);
    P.PackedFrameAt(depths, colors, 86835);
    SignedReadOfUShort(depths[0]);
    assert S.DepthDataSize == 5 * 86835 + 1;
  }

  /** The decoder the packer's layout calls for: point `i` from bytes `5i .. 5i+4`. */
  function UnpackInterleaved(frame: seq<byte>, i: nat): (p: S.BufferPoint)
    requires 5 * i + 5 <= |frame|
    ensures -0x8000 <= p.DepthVal < 0x8000
    ensures 0 <= p.R < 0x100 && 0 <= p.G < 0x100 && 0 <= p.B < 0x100
    ensures UShortBytes(p.DepthVal % 0x1_0000) == frame[5 * i..5 * i + 2]
    ensures [p.R, p.G, p.B] == frame[5 * i + 2..5 * i + 5]
  {
    var lo, hi := frame[5 * i], frame[5 * i + 1];
    var depthVal := Int16LE(lo, hi);
    assert depthVal % 0x1_0000 == UInt16LE(lo, hi);
    S.BufferPoint(depthVal, frame[5 * i + 2], frame[5 * i + 3], frame[5 * i + 4])
  }

  /** Decoding a packed frame with the interleaved layout gives back every pixel:
      its depth (as the signed value, so itself below 32768) and its colour. */
  lemma InterleavedRoundTrip(depths: seq<ushort>, colors: seq<P.Color>, i: nat)
    requires |depths| == |colors| && i < |depths|
    ensures UnpackInterleaved(P.PackedFrame(depths, colors), i)
            == S.BufferPoint(Signed(depths[i]), colors[i].r, colors[i].g, colors[i].b)
  {
    P.PackedFrameAt(depths, colors, i);
    SignedReadOfUShort(depths[i]);
  }

  /** The interleaved decoder applied to a whole frame. */
  function UnpackFrame(frame: seq<byte>): seq<S.BufferPoint>
    requires |frame| % 5 == 0
  {
    seq(|frame| / 5, i requires 0 <= i < |frame| / 5 => UnpackInterleaved(frame, i))
  }

  /** The whole frame round trip, with the Kinect's depths (below 32768) coming back
      unchanged. */
  lemma UnpackPackedFrame(depths: seq<ushort>, colors: seq<P.Color>)
    requires |depths| == |colors|
    requires forall i :: 0 <= i < |depths| ==> depths[i] < 0x8000
    ensures var points := UnpackFrame(P.PackedFrame(depths, colors));
            |points| == |depths| &&
            forall i :: 0 <= i < |depths| ==>
              points[i] == S.BufferPoint(depths[i], colors[i].r, colors[i].g, colors[i].b)
  {
    var frame := P.PackedFrame(depths, colors);
    var points := UnpackFrame(frame);
    assert |points| == |depths|;
    forall i | 0 <= i < |depths|
      ensures points[i] == S.BufferPoint(depths[i], colors[i].r, colors[i].g, colors[i].b)
    {
      assert points[i] == UnpackInterleaved(frame, i);
      InterleavedRoundTrip(depths, colors, i);
    }
  }

  /** The bytes of four pixels of depth 300 and colour (10, 20, 30) as packed. */
  const FourPixelBytes: seq<byte> :=
    [0x2C, 0x01, 0x0A, 0x14, 0x1E, 0x2C, 0x01, 0x0A, 0x14, 0x1E,
     0x2C, 0x01, 0x0A, 0x14, 0x1E, 0x2C, 0x01, 0x0A, 0x14, 0x1E]

  /** Four pixels of depth 300 and colour (10, 20, 30) are packed as `2C 01 0A 14 1E`
      four times. */
  lemma FourPixelFrame(depths: seq<ushort>, colors: seq<P.Color>)
    requires |depths| == |colors| == 4
    requires forall i :: 0 <= i < 4 ==> depths[i] == 300 && colors[i] == P.Color(10, 20, 30)
    ensures P.PackedFrame(depths, colors) == FourPixelBytes
  {
    forall i | 0 <= i < 4
      ensures P.HoldsPixel(FourPixelBytes, i, depths[i], colors[i])
    {
      FourPixelBytesAt(i);
    }
    P.PixelsDeterminePackedFrame(FourPixelBytes, depths, colors);
  }

  /** Every five-byte slot of the example holds `2C 01 0A 14 1E`, the little-endian
      300 followed by 10, 20, 30. */
  lemma FourPixelBytesAt(i: nat)
    requires i < 4
    ensures FourPixelBytes[5 * i] == LowByte(300) == 0x2C
    ensures FourPixelBytes[5 * i + 1] == HighByte(300) == 0x01
    ensures FourPixelBytes[5 * i + 2] == 10 && FourPixelBytes[5 * i + 3] == 20
    ensures FourPixelBytes[5 * i + 4] == 30
  {
    if i == 0 {
    } else if i == 1 {
    } else if i == 2 {
    } else {
    }
  }

  /** The interleaved decoder returns the four pixels from those bytes. */
  lemma FourPixelDecoded(frame: seq<byte>)
    requires frame == FourPixelBytes
    ensures |UnpackFrame(frame)| == 4
    ensures forall i :: 0 <= i < 4 ==> UnpackFrame(frame)[i] == S.BufferPoint(300, 10, 20, 30)
  {
    forall i | 0 <= i < 4
      ensures UnpackInterleaved(frame, i) == S.BufferPoint(300, 10, 20, 30)
    {
      FourPixelBytesAt(i);
      assert Int16LE(0x2C, 0x01) == 300;
    }
  }

  /** The split reading of the same 20 bytes (8 depth bytes, then 12 colour bytes)
      returns depths 300, 5130, 11294, 2561 and colour (20, 30, 44) for the first point. */
  lemma FourPixelMisread(frame: seq<byte>)
    requires frame == FourPixelBytes
    ensures S.UnpackPoint(frame[..8], frame[8..], 0) == S.BufferPoint(300, 20, 30, 44)
    ensures S.UnpackPoint(frame[..8], frame[8..], 1).DepthVal == 5130
    ensures S.UnpackPoint(frame[..8], frame[8..], 2).DepthVal == 11294
    ensures S.UnpackPoint(frame[..8], frame[8..], 3).DepthVal == 2561
  {
    var depthBlock, colorBlock := frame[..8], frame[8..];
    assert depthBlock[0] == 0x2C && depthBlock[1] == 0x01 && depthBlock[2] == 0x0A && depthBlock[3] == 0x14;
    assert depthBlock[4] == 0x1E && depthBlock[5] == 0x2C && depthBlock[6] == 0x01 && depthBlock[7] == 0x0A;
    assert colorBlock[0] == 0x14 && colorBlock[1] == 0x1E && colorBlock[2] == 0x2C;
  }
}
