# PointPainter point-cloud stream, modelled in Dafny

PointPainter streams Kinect point clouds from a capture host to a Unity renderer.
The model covers the byte level of that stream, at both ends:

- **The frame packer** (`PointPainterWPF/MainWindow.xaml.cs`). For each depth frame it
  writes a grey level per pixel for display. It writes the two little-endian depth bytes of
  each pixel into a `5 * W * H`-byte point buffer. It builds a map from depth pixel to
  colour pixel with `GetDepthArrayIndex`. For each colour frame it copies the R, G, B bytes
  of the mapped RGBA colour pixel into the other three bytes of each five-byte group. It also
  serialises the calibration table as eight bytes per entry.
- **The receiver** (`PointPainterUnity/Assets/KinectStreamer.cs`). Per connection it reads
  the table (`N * 8` bytes, `N = 512 * 424`). Then, per frame, it reads a depth block of
  `N * 2` bytes and a colour block of `N * 3` bytes. Each block is read by accumulating
  partial reads until the exact count is reached. It points the swapper fields at the
  receive buffers and acknowledges each frame with one zero byte. On the render side,
  `Update` uploads the table once, guarded by two flags. `GetSourceData` unpacks the
  buffers into `{DepthVal, R, G, B}` records.

Modules:

- `Bytes` holds the C# integer widths and the `BitConverter` encodings (little-endian host).
- `Packer` models the capture window as a class `MainWindow` over its arrays, with the pure
  index and grey-level functions beside it.
- `Streamer` models the receiving component as a class `KinectStreamer` and the TCP stream
  as a class `NetworkStream`. A `NetworkStream` holds the pending bytes and the sizes in
  which the transport delivers them.
- `Protocol` puts the two ends side by side.

The two ends agree on the byte counts (`5N` per frame) but not on the layout:

- the packer interleaves depth and colour per pixel;
- the receiver reads the first `2N` bytes as depths and the remaining `3N` as colours.

The model keeps both ends as written. It shows what the receiver makes of a packed frame,
and proves a round trip for the decoder the packer's layout calls for (see Findings).

Three further facts about the code shape the model:

- The render side keeps no multi-frame store: `GetSourceData` overwrites the single
  `pointsArray` on every `Update`.
- There is no double buffering. `GetSourceData` reads `depthData` and `colorData`, the
  arrays the network thread fills. The swappers only ever alias those arrays, so the model
  states aliasing (`depthDataSwapper == depthData`), not copying.
- `GetDepthArrayIndex` tests only `float.IsInfinity`; a NaN coordinate passes through.

## Model

| member | source | states |
|---|---|---|
| Bytes.LowByte | PointPainterWPF/MainWindow.xaml.cs:227 | the first byte `GetBytes(ushort)` emits is the value mod 256 |
| Bytes.HighByte | PointPainterWPF/MainWindow.xaml.cs:227 | the second byte is the value's 256-block: `256 b <= u < 256 b + 256` |
| Bytes.UShortBytes | PointPainterWPF/MainWindow.xaml.cs:227 | `GetBytes(ushort)` yields two bytes that read back as the same value |
| Bytes.UInt16LE | PointPainterUnity/Assets/KinectStreamer.cs:116 | a little-endian read whose low and high bytes are exactly the two input bytes |
| Bytes.Int16LE | PointPainterUnity/Assets/KinectStreamer.cs:116 | `ToInt16` lies in `[-32768, 32768)`, agrees with the unsigned read mod 65536, and is negative exactly when the high byte is at least 0x80 |
| Bytes.SignedReadOfUShort | PointPainterUnity/Assets/KinectStreamer.cs:116 | reading a `ushort`'s bytes as `short` keeps values below 32768 and subtracts 65536 from the rest |
| Bytes.FloatBytes | PointPainterWPF/MainWindow.xaml.cs:283-284 | `GetBytes(float)` yields four bytes whose little-endian reading is the float's bit pattern |
| Bytes.FloatBytesOfFromBytes | PointPainterWPF/MainWindow.xaml.cs:283-284 | every four bytes are the encoding of the pattern they spell, so the encoding is a bijection |
| Packer.CopyBytes | PointPainterWPF/MainWindow.xaml.cs:283-284 | `Array.Copy` writes the source at the offset and leaves every other byte of the destination as it was |
| Packer.MapDepthToByteIs31 | PointPainterWPF/MainWindow.xaml.cs:50 | `8000 / 256` is 31 in integer division |
| Packer.DepthToGrey | PointPainterWPF/MainWindow.xaml.cs:225-226 | 0 outside `[minDepth, maxDepth]`; inside, the byte congruent to `depth / 31` mod 256, which below 7936 is the grey band holding the depth |
| Packer.GreyMonotoneBelowWrap | PointPainterWPF/MainWindow.xaml.cs:225-226 | within the range and below 7936, a deeper pixel is never darker |
| Packer.GreyWrapsAt7936 | PointPainterWPF/MainWindow.xaml.cs:225-226 | with `maxDepth = ushort.MaxValue`, depth 7935 is grey 255 and 7936 wraps to 0 |
| Packer.Trunc | PointPainterWPF/MainWindow.xaml.cs:246-247 | the `(int)` cast truncates toward zero: the result is within 1 of the value, on the side of zero |
| Packer.FMod | PointPainterWPF/MainWindow.xaml.cs:245 | the float `%` keeps the dividend's sign, has magnitude below the divisor, and differs from the dividend by a truncated multiple of it |
| Packer.GetDepthArrayIndex | PointPainterWPF/MainWindow.xaml.cs:240-255 | as written: a returned index is the raw `trunc(y) * W + trunc(x)` and lies in `[0, W*H]`; the exception is raised exactly when the raw index is outside that range |
| Packer.GetDepthArrayIndexBounded | PointPainterWPF/MainWindow.xaml.cs:250 | corrected guard: every returned index is below `W*H`; it returns exactly when the original returns something other than `W*H`, and then the same value |
| Packer.FModBelowTwice | PointPainterWPF/MainWindow.xaml.cs:244-245 | for integral `0 <= v < 2H`, `v % H` is `v` or `v - H` |
| Packer.RowOfIntegralY | PointPainterWPF/MainWindow.xaml.cs:244-246 | an integral `y` in `[-H, H)` lands in row `y`, or `y + H` when negative |
| Packer.IndexOfIntegralPoint | PointPainterWPF/MainWindow.xaml.cs:244-249 | for integral `0 <= x < W` and `0 <= y < H` both index functions return `y * W + x`; negative `y` down to `-H` wraps to row `y + H` |
| Packer.IndexWrapsInY | PointPainterWPF/MainWindow.xaml.cs:244-245 | for `y >= 0`, adding `H` to `y` does not change the index |
| Packer.InfiniteCoordinatesReadAsZero | PointPainterWPF/MainWindow.xaml.cs:242-243 | an infinite `x` or `y` gives the same outcome as 0 |
| Packer.OnePastEndAccepted | PointPainterWPF/MainWindow.xaml.cs:250 | the point `(W, H-1)` passes the guard as written with index `W*H`; the corrected guard rejects it |
| Packer.FirstUnmapped | PointPainterWPF/MainWindow.xaml.cs:232-237 | the index loop's point of failure under the guard as written: every earlier point has an index in `[0, W*H]`, the point at it makes `GetDepthArrayIndex` throw |
| Packer.OnePastEndFailsColorPass | PointPainterWPF/MainWindow.xaml.cs:232-250 | an index map the loop fills without a throw, from points one of which maps to `W*H`, has an entry outside the colour image, so the colour read at :170 throws |
| Packer.FirstOutOfRangeIs | PointPainterWPF/MainWindow.xaml.cs:167-173 | a scan that passes `n` in-range entries and stops at an out-of-range one (or the end) stopped at the first out-of-range entry |
| Packer.FirstOutOfRange | PointPainterWPF/MainWindow.xaml.cs:167-173 | the colour loop's point of failure: every earlier entry addresses a colour pixel, the entry at it does not |
| Packer.PackedFrame | PointPainterWPF/MainWindow.xaml.cs:93 | the point buffer is five bytes per depth pixel |
| Packer.PackedFrameAt | PointPainterWPF/MainWindow.xaml.cs:170-172 | byte `5i` and `5i+1` are pixel `i`'s low and high depth bytes, bytes `5i+2 .. 5i+4` its R, G, B |
| Packer.PixelsDeterminePackedFrame | PointPainterWPF/MainWindow.xaml.cs:170-172 | a buffer whose every five-byte group holds its pixel is the packed frame |
| Packer.PackedFrameCharacterized | PointPainterWPF/MainWindow.xaml.cs:170-172 | a buffer is the packed frame if and only if every five-byte group holds the matching pixel |
| Packer.MainWindow.constructor | PointPainterWPF/MainWindow.xaml.cs:89-104 | every buffer is allocated at its size (`W*H`, `W*H*5`, colour `W*H*4`), zero-filled, so the index map starts in range |
| Packer.MainWindow.ProcessDepthFrameData | PointPainterWPF/MainWindow.xaml.cs:212-238 | grey level and depth bytes of every pixel, colour bytes untouched, the mapper's points stored, and the index map set by the guard as written up to the first point that makes it throw, which fails the pass; entries from there on keep their old values, and a map within `[0, W*H]` stays within it, `W*H` included |
| Packer.MainWindow.WriteDepthPixels | PointPainterWPF/MainWindow.xaml.cs:218-228 | after the depth loop each pixel's grey byte is set, `pointData[5i]`, `pointData[5i+1]` hold its depth bytes, and `5i+2 .. 5i+4` are unchanged |
| Packer.MainWindow.MapDepthToColorIndices | PointPainterWPF/MainWindow.xaml.cs:232-237 | the index loop succeeds exactly when no point makes the guard as written throw; entries before the failure hold the computed index, `W*H` included, later ones are unchanged |
| Packer.MainWindow.ProcessColorFrame | PointPainterWPF/MainWindow.xaml.cs:163-174 | the colour image is stored; the pass succeeds exactly when the map is in range; before the first bad entry, each pixel's bytes `5i+2+k` are `image[4 * map[i] + k]` for `k < 3` (alpha never copied); later colour bytes and all depth bytes unchanged |
| Packer.MainWindow.SampleColors | PointPainterWPF/MainWindow.xaml.cs:167-173 | the colour loop over the stored image, with the same per-pixel and unchanged-byte guarantees |
| Packer.DepthWriteStep | PointPainterWPF/MainWindow.xaml.cs:218-228 | one iteration of the depth loop, writing pixel `i`'s two depth bytes, extends the written prefix by one pixel and leaves every colour byte alone |
| Packer.CopyColorStep | PointPainterWPF/MainWindow.xaml.cs:169-172 | one more iteration extends that prefix by one pixel |
| Packer.MainWindow.CopyColorsWhileInRange | PointPainterWPF/MainWindow.xaml.cs:167-173 | the colour loop stops at the first entry whose read would throw; every earlier pixel holds its mapped R, G, B, every later byte and every depth byte is unchanged |
| Packer.MainWindow.CopyColor | PointPainterWPF/MainWindow.xaml.cs:169-172 | one iteration writes R, G, B of the mapped colour pixel into bytes `5i+2 .. 5i+4` and touches nothing else |
| Packer.PassesPackFrame | PointPainterWPF/MainWindow.xaml.cs:170-172 | a buffer whose depth slots hold the depths' bytes and whose colour slots hold the first three bytes of the mapped RGBA pixels is the packed frame of the depths and the sampled colours |
| Packer.PassesAfterEachOther | PointPainterWPF/MainWindow.xaml.cs:167-173 | the depth bytes the depth pass wrote, kept by a colour pass that ran to the end of the index map, together with the colours it copied, are exactly the packed frame |
| Packer.MainWindow.ProcessFramePair | PointPainterWPF/MainWindow.xaml.cs:163-238 | a depth frame then a colour frame: every grey level is set, the mapper's points and the colour image are stored, and when the depth pass completes every index-map entry is `GetDepthArrayIndex` of its point; when both passes complete, `pointData` is exactly the packed frame of the depths and of the colours sampled through that map; a point the guard maps to `W*H` lets the depth pass complete and makes the colour pass fail |
| Packer.MainWindow.GetPointDataForNetwork | PointPainterWPF/MainWindow.xaml.cs:289-295 | the getter returns the live buffer itself, not a copy |
| Packer.EncodeTable | PointPainterWPF/MainWindow.xaml.cs:276-277 | eight bytes per table entry |
| Packer.DecodeTable | PointPainterWPF/MainWindow.xaml.cs:283-284 | one entry per eight bytes |
| Packer.EncodeTableAt | PointPainterWPF/MainWindow.xaml.cs:281-284 | entry `i`'s X encoding occupies `[8i, 8i+4)` and its Y encoding `[8i+4, 8i+8)` |
| Packer.DecodeEncodeTable | PointPainterWPF/MainWindow.xaml.cs:276-286 | decoding the serialised table gives back every entry bit for bit |
| Packer.EncodeDecodeTable | PointPainterWPF/MainWindow.xaml.cs:276-286 | every multiple of eight bytes is the serialisation of the table it decodes to |
| Packer.EncodeTableAppend | PointPainterWPF/MainWindow.xaml.cs:278-285 | serialising a concatenation concatenates the serialisations, so the loop can extend its prefix entry by entry |
| Packer.EncodeTableExtend | PointPainterWPF/MainWindow.xaml.cs:278-285 | one iteration of the loop extends the serialised prefix by entry `i`'s X bytes then Y bytes |
| Packer.GetDepthTableForNetwork | PointPainterWPF/MainWindow.xaml.cs:273-287 | a fresh array of exactly `8 * |table|` bytes holding the serialised table |
| Streamer.SizesAre | PointPainterUnity/Assets/KinectStreamer.cs:28-39 | `N = 217088`, table `8N = 1736704`, depth `2N`, colour `3N`, frame `5N = 1085440` |
| Streamer.ChunkEquivalence | PointPainterUnity/Assets/KinectStreamer.cs:148-151 | any sequence of reads leaves the buffer holding the next `Sum(chunks)` input bytes at the offset and nothing else changed |
| Streamer.PartitionIrrelevant | PointPainterUnity/Assets/KinectStreamer.cs:148-151 | any two partitions of `S` bytes into non-empty reads fill the buffer identically, with the first `S` input bytes |
| Streamer.NetworkStream.Read | PointPainterUnity/Assets/KinectStreamer.cs:150 | a read returns 0 exactly on a closed stream; otherwise it copies between 1 and `count` pending bytes (at most one transport segment) to the offset, consumes exactly them, and leaves the rest of the buffer alone |
| Streamer.NetworkStream.WriteByte | PointPainterUnity/Assets/KinectStreamer.cs:190 | appends one byte to what the client has sent |
| Streamer.ReadLoopOnClosedStream | PointPainterUnity/Assets/KinectStreamer.cs:148-151 | as written, on a closed stream every `Read` returns 0: after any number of passes `offset` has not moved and the loop condition still holds |
| Streamer.FillFromStreamUntilClosed | PointPainterUnity/Assets/KinectStreamer.cs:148-151 | the read loop with a stop on `Read` returning 0: it completes exactly when the stream holds the whole message, then with the same buffer as the loop as written; otherwise it has read everything the stream held |
| Streamer.FillFromStream | PointPainterUnity/Assets/KinectStreamer.cs:147-151 | the read loop stops with exactly `Length` bytes read; the buffer is the next `Length` input bytes, which are consumed; the read sizes form a partition of `Length` |
| Streamer.UnpackPoint | PointPainterUnity/Assets/KinectStreamer.cs:116-120 | `DepthVal` lies in `[-32768, 32768)` and writes back to depth bytes `2i, 2i+1`; R, G, B lie in `[0, 256)` and are colour bytes `3i .. 3i+2` |
| Streamer.KinectStreamer.Start | PointPainterUnity/Assets/KinectStreamer.cs:60-80 | every buffer is allocated at its size, each swapper a separate array, and the table neither loaded nor set |
| Streamer.KinectStreamer.Update | PointPainterUnity/Assets/KinectStreamer.cs:82-92 | the table is uploaded exactly when it is loaded and not yet set, and the upload count never exceeds one; then every point is unpacked |
| Streamer.KinectStreamer.TryLoadDepthTable | PointPainterUnity/Assets/KinectStreamer.cs:94-101 | the table the swapper refers to is uploaded and `depthTableSet` becomes true |
| Streamer.KinectStreamer.GetSourceData | PointPainterUnity/Assets/KinectStreamer.cs:112-123 | every entry of `pointsArray` is overwritten with the point unpacked from the receive buffers |
| Streamer.KinectStreamer.ReceiveDepthTable | PointPainterUnity/Assets/KinectStreamer.cs:147-158 | the table buffer holds the next `8N` bytes; only then is the swapper pointed at it and `depthTableLoaded` set; the upload flag stays as it was |
| Streamer.KinectStreamer.ReceiveFrame | PointPainterUnity/Assets/KinectStreamer.cs:164-190 | the depth block is consumed whole before the colour block; the swappers alias the receive buffers; exactly one 0 byte is sent |
| Streamer.KinectStreamer.ReceiveFrames | PointPainterUnity/Assets/KinectStreamer.cs:160-193 | `k` frames consume `k * 5N` bytes in order and send `k` zero bytes; the buffers hold the last frame; after one frame or more the swappers alias the receive buffers, after none they are unchanged; the table flags, swapper and upload stay as they were |
| Streamer.KinectStreamer.ReadSession | PointPainterUnity/Assets/KinectStreamer.cs:139-193 | a connection consumes the table and then the frames in order, sends one 0 byte per frame, leaves the swappers as `ReceiveFrames` does, and leaves the upload flag, count and uploaded table unchanged, so a reconnect never uploads twice |
| Streamer.Acks | PointPainterUnity/Assets/KinectStreamer.cs:190 | one byte per frame, every one 0 |
| Protocol.SizesAgree | PointPainterUnity/Assets/KinectStreamer.cs:37-39 | a packed frame is exactly depth block plus colour block long, and a serialised table exactly the table size |
| Bytes.Signed | PointPainterUnity/Assets/KinectStreamer.cs:116 | the signed 16-bit reading of a depth lies in `[-32768, 32768)`, agrees with the depth mod 65536, and is the depth itself below 32768 |
| Protocol.ClientMisreadsPackedFrame | PointPainterUnity/Assets/KinectStreamer.cs:116-119 | as written, the receiver reads point 1's depth from pixel 0's R and G, and point 0's colour from a depth byte and the R, G of pixel 86835 |
| Protocol.UnpackInterleaved | PointPainterWPF/MainWindow.xaml.cs:170-172 | the decoder for the packer's layout: point `i`'s depth writes back to bytes `5i, 5i+1` and its colour is bytes `5i+2 .. 5i+4` |
| Protocol.InterleavedRoundTrip | PointPainterWPF/MainWindow.xaml.cs:170-172 | decoding pixel `i` of a packed frame returns its signed depth and its colour |
| Protocol.UnpackPackedFrame | PointPainterWPF/MainWindow.xaml.cs:167-173 | decoding a whole packed frame returns every pixel's depth (below 32768) and colour |
| Protocol.FourPixelFrame | PointPainterWPF/MainWindow.xaml.cs:170-172 | four pixels of depth 300 and colour (10, 20, 30) pack as `2C 01 0A 14 1E` four times |
| Protocol.FourPixelDecoded | PointPainterWPF/MainWindow.xaml.cs:170-172 | the interleaved decoder returns those four pixels from those 20 bytes |
| Protocol.FourPixelMisread | PointPainterUnity/Assets/KinectStreamer.cs:116-119 | the receiver's split reading of the same bytes gives depths 300, 5130, 11294, 2561 and colour (20, 30, 44) for point 0 |

## Left out

- `PointPainterWPF/ServerCommunication.cs` is not part of this model. It is socket accept plumbing, per-connection tasks and polling.
- Kinect SDK calls: `MapDepthFrameToColorSpaceUsingIntPtr`, `CopyConvertedFrameDataToArray` and `GetDepthFrameToCameraSpaceTable`. Their results are parameters (`mapped`, `colorImage`, `table`).
- The frame handler's size check (MainWindow.xaml.cs:189-190). It is replaced by a precondition that the frame has one sample per depth pixel. The loop bound `depthFrameDataSize / BytesPerPixel` is the sample count.
- WPF display: bitmaps, `WritePixels`, status text and the DNS lookup.
- Unity rendering: `SetBuffer`, `SetMatrix`, `DrawProcedural`, `OnRenderObject` and `OnDestroy`. `ComputeBuffer.SetData` of the table is modelled as the recorded `uploadedTable`. The points upload is left out.
- Threads, `lock` blocks, the static `Run` flag, `Thread.Sleep` and the `Stopwatch`/`ThreadFPS` rate.
  - Each method runs without interference.
  - Tearing between the network thread filling `depthData`/`colorData` and `GetSourceData` reading them is not modelled.
- Streamer.KinectStreamer.ReadSession: the outer `while (Run)` reconnect loop is one `ReadSession` call per connection, with connect and dispose left out. `client.Connected` is modelled as a frame count. The session stops after whole frames, not mid-read.
- Streamer.FillFromStream: requires the stream to hold the whole message, so the read loop as written is modelled only where it terminates; on a closed stream it spins (see Findings).
- I/O exceptions are not modelled. `client.Connect` (KinectStreamer.cs:141), `stream.Read` (:150, :167, :173) and `stream.WriteByte` (:190) can throw; `ReadNetworkData` has no `try`/`catch`, so in the code such an exception ends the network thread instead of reconnecting. The model has no failing I/O, so a session ends only after whole frames.
- Packer.Single: IEEE NaN is not modelled. The code tests only `IsInfinity`.
- Packer.FMod, Packer.Trunc: float arithmetic is exact real arithmetic, without rounding. The overflow of the `(int)` cast for huge coordinates is not modelled.
- Bytes.FloatBytes: a float is its 32-bit pattern; its numeric value is never interpreted.
- `BitConverter` is taken as little-endian, as on the capture and render hosts.
- Packer.MainWindow.GetPointDataForNetwork: the `lock` around the return is left out.

## Findings

| source | as written | input that shows it | evidently intended | confidence | as-written member | corrected member |
|---|---|---|---|---|---|---|
| PointPainterWPF/MainWindow.xaml.cs:250 | the guard throws only for `ret < 0 \|\| ret > W*H`, so `W*H` is returned | the colour-space point `(W, H-1)`, e.g. `(1920, 1079)` for a 1920 x 1080 colour frame, yields `W*H`; the colour pass then reads `allColorPixels[4*W*H]`, one pixel past the end | reject `ret >= W*H`, so every returned index addresses a colour pixel | not executed | Packer.OnePastEndAccepted | Packer.GetDepthArrayIndexBounded |
| PointPainterUnity/Assets/KinectStreamer.cs:148-151 | `offset += stream.Read(...)` never checks for 0, and `Read` returns 0 once the server has closed the connection | the server closes the socket in the middle of a message, e.g. after 10 of the `8N` table bytes: every later `Read` returns 0, `offset` stays 10 and the loop spins forever instead of reconnecting | leave the loop (and reconnect) when `Read` returns 0 | not executed | Streamer.ReadLoopOnClosedStream | Streamer.FillFromStreamUntilClosed |
| PointPainterUnity/Assets/KinectStreamer.cs:116-119 | the receiver reads the `5N` frame bytes as `2N` depth bytes followed by `3N` colour bytes, while the packer (MainWindow.xaml.cs:170-172, 227) interleaves five bytes per pixel | four pixels of depth 300 and colour (10, 20, 30), packed as `2C 01 0A 14 1E` four times, are read as depths 300, 5130, 11294, 2561 and colour (20, 30, 44) for point 0 | decode point `i` from bytes `5i .. 5i+4` | not executed | Protocol.ClientMisreadsPackedFrame | Protocol.InterleavedRoundTrip |
