# Lidar point pipeline — Dafny model

This project models the ingestion path of a multi-sensor LS-S3 lidar viewer:

- **LidarParser** (`lidar_parser.dfy`) decodes one UDP datagram. A datagram shorter
  than 1206 bytes is rejected. Otherwise its 1192-byte data segment is split into 149
  eight-byte records. A record is either a frame-boundary header (`FF AA BB CC DD`) or
  a measurement. Each measurement yields a horizontal angle, a vertical angle
  (sign-flagged 14-bit), a channel id, a mirror offset, a 24-bit distance and an
  intensity. Degenerate points (all coordinates within 0.1 of the origin) are dropped.
  The trailer carries a UTC calendar time plus a nanosecond fraction; an invalid
  calendar value gives timestamp 0.0. The result is
  `(points or None, is_new_frame, timestamp)`.
- **UdpWorker** (`udp_worker.dfy`) is the per-sensor ingestion loop. It appends each
  datagram's points to the frame in progress. On a boundary with a positive count it
  packs the frame as `LE32(frame id) ++ LE32(point count) ++ 16 bytes per point`. It
  offers the frame to the bounded capacity-5 queue, where a full queue drops the new
  frame, then resets and advances the frame id. The pure functions `Append`,
  `Assemble`, `PackFrame`, `Offer`, `Step` and `RunAll` specify the loop. The classes
  `FrameQueue` and `ParsingWorker` hold the source's mutable state and are proved
  against those functions.
- **LidarManager** (`manager.dfy`) covers three things:
  - the sensor table, ids "109" .. "126", each on `192.168.50.<id>` and consecutive
    ports from 2309;
  - the process registry `ProcessManager`, which starts a worker on demand, stops one,
    or stops all;
  - processes, events and queues as handle objects with the state the registry relies
    on.
- **PointCloudWorker** (`pcworker.dfy`) is the browser-side decoding worker. It keeps
  every point, or every `n`-th one in `'nth'` mode, and emits three position numbers
  and three colour numbers (`min(1, intensity/255)` twice, then 0) per kept point.
- `sequences.dfy` and `wrappers.dfy` hold generic helpers (`Filter`, `Map`, `Flatten`,
  subsequences, `Option`).

Three behaviours of the code are easy to misread; the model follows the code:

- **Frame id overflow.** The frame id is never wrapped. It is passed to
  `struct.pack('<II', ...)`, which raises once the id (or the count) reaches 2^32;
  the exception is not caught, so the worker ends. The model has this as the
  `PackError` outcome: `Run` stops and reports it.
- **Stopping a worker.** `stop_lidar` clears the event, joins with a one-second
  timeout, sends SIGTERM if the process is still alive, and only then deletes the
  registry entry. `terminate()` does not wait, so the process may still be alive
  when `stop_lidar` returns.
- **Full queue.** The comment at `udp_worker.py:61` says the old frame is dropped
  when the queue is full; the code drops the new frame, and so does the model.

## Model

| member | source | states |
|---|---|---|
| LidarParser.Chunks | pointServer/lidar_parser.py:44 | `reshape(-1, 8)` gives one record per eight bytes |
| LidarParser.ChunksAt | pointServer/lidar_parser.py:44 | record `i` is exactly bytes `8i .. 8i+8` of the segment |
| LidarParser.ChunksFlatten | pointServer/lidar_parser.py:44 | splitting loses and reorders nothing: the records concatenate back to the segment |
| LidarParser.Records | pointServer/lidar_parser.py:27-28 | the data segment `payload[:1192]` is 149 records that concatenate back to it |
| LidarParser.HeaderIsMarker | pointServer/lidar_parser.py:46-48 | a record is a header iff its first five bytes are `FF AA BB CC DD` |
| LidarParser.IsHeader | pointServer/lidar_parser.py:46-48 | `header_mask`: the five-way byte conjunction; `HeaderIsMarker` states it as the marker test |
| LidarParser.IsMeasurement | pointServer/lidar_parser.py:50 | `~header_mask`: every record that is not a header |
| LidarParser.Word | pointServer/lidar_parser.py:55 | a big-endian 16-bit word is below 2^16 |
| LidarParser.WordIsShiftOr | pointServer/lidar_parser.py:55 | the source's `(hi << 8) \| lo` in uint16 equals `256*hi + lo` |
| LidarParser.Signed16 | pointServer/lidar_parser.py:56-57 | `v[v > 32767] -= 65536` gives the value in [-32768, 32767] congruent to the word mod 2^16, negative iff the word exceeds 32767 |
| LidarParser.HorizontalRaw | pointServer/lidar_parser.py:55-57 | the raw horizontal angle lies in [-32768, 32767], is congruent to the big-endian word of bytes 0-1, and is negative iff the top bit of byte 0 is set |
| LidarParser.ChannelId | pointServer/lidar_parser.py:61 | the channel id is below 4 |
| LidarParser.ChannelIdIsShift | pointServer/lidar_parser.py:61 | `b2 >> 6` is the top two bits of byte 2 |
| LidarParser.SignFlag | pointServer/lidar_parser.py:62 | `t_symbol`: bit 5 of byte 2; `SignFlagIsBit5` states it as the source's shift-and-mask |
| LidarParser.SignFlagIsBit5 | pointServer/lidar_parser.py:62 | `(b2 >> 5) & 1 == 1` iff bit 5 of byte 2 is set |
| LidarParser.LowFourteenBits | pointServer/lidar_parser.py:74-75 | the positive-branch vertical value is below 2^14 |
| LidarParser.LowFourteenBitsIsMaskShiftOr | pointServer/lidar_parser.py:74-75 | `((b2 & 0x3F) << 8) \| b3` equals the low fourteen bits of the word |
| LidarParser.ForcedWord | pointServer/lidar_parser.py:64-68 | `angle_v_val \| 0xC000` lies in [0xC000, 0xFFFF] |
| LidarParser.ForcedWordIsOr | pointServer/lidar_parser.py:64-68 | the source's `\| 0xC000` equals 0xC000 plus the low fourteen bits |
| LidarParser.SignIsBit13 | pointServer/lidar_parser.py:62-66 | the sign flag (bit 5 of byte 2) is bit 13 of the fourteen-bit value |
| LidarParser.VerticalRaw | pointServer/lidar_parser.py:64-75 | the raw vertical angle lies in [-8192, 8191], is negative iff the sign flag is set, and is congruent to the low fourteen bits mod 2^14 (a 14-bit two's-complement reading) |
| LidarParser.DistanceRaw | pointServer/lidar_parser.py:78-80 | the distance word is below 2^24 |
| LidarParser.DistanceIsShiftOr | pointServer/lidar_parser.py:78-80 | the uint32 shift-or of bytes 4-6 is below 2^24 and its parts equal the arithmetic reading |
| LidarParser.MirrorIndex | pointServer/lidar_parser.py:84 | `channel_id % 4` never changes the channel id and always indexes the table |
| LidarParser.MirrorOffset | pointServer/lidar_parser.py:84-85 | the mirror offset is `[1.5, -0.5, 0.5, -1.5]` at the channel id |
| LidarParser.Decode | pointServer/lidar_parser.py:55-85 | scaled angles, distance and intensity lie in the bounds the field widths allow; the offset is one of the four table values |
| LidarParser.HorizontalMostNegative | pointServer/lidar_parser.py:55-58 | the word 0x8000 decodes to -327.68 degrees |
| LidarParser.Candidates | pointServer/lidar_parser.py:87-116 | one reconstructed point per measurement record, in order |
| LidarParser.ToPoint | pointServer/lidar_parser.py:116 | one row of `np.stack((x, y, z, intensity))`: the reconstructed coordinates, then the record's own intensity |
| LidarParser.NonDegenerate | pointServer/lidar_parser.py:117 | `mask_valid`: some coordinate is more than 0.1 from 0 in absolute value |
| LidarParser.ValidPoints | pointServer/lidar_parser.py:117-119 | `points[mask_valid]` is an order-preserving subsequence of the candidates that holds each non-degenerate candidate exactly as many times as the candidates do, and no degenerate one |
| LidarParser.BigEndian32 | pointServer/lidar_parser.py:36-37 | the nanosecond field is an unsigned 32-bit value |
| LidarParser.TrailerCalendar | pointServer/lidar_parser.py:33-35 | the calendar fields read from trailer bytes 2..7: the year lies in 2000 .. 2255, every other field in 0 .. 255 (validity is left to `Clock`) |
| LidarParser.PacketTimestamp | pointServer/lidar_parser.py:30-41 | 0.0 when the calendar conversion raises, otherwise the calendar instant plus a fraction below 4.3 s |
| LidarParser.ParsePacketBatch | pointServer/lidar_parser.py:23-119 | short datagram gives `(None, False, 0.0)`; boundary iff some record is a header; no points iff every record is a header; otherwise the points are an order-preserving subsequence of the measurement records' candidates with every non-degenerate candidate at its full multiplicity and no degenerate one; timestamp from the trailer |
| LidarParser.NoMeasurementsMeansAllHeaders | pointServer/lidar_parser.py:50-52 | `len(valid_data) == 0` iff every record is a header |
| LidarParser.RecordsPartition | pointServer/lidar_parser.py:46-50 | header and measurement records together account for all 149 records |
| LidarParser.AllHeadersPacket | pointServer/lidar_parser.py:49-53 | an all-header packet yields no points but marks a boundary |
| LidarParser.BoundaryIffHeaderCounted | pointServer/lidar_parser.py:46-49 | `np.any(header_mask)` iff at least one header record |
| UdpWorker.PackUInt32 | pointServer/src/udp_worker.py:58 | `struct.pack('<I')` gives four bytes |
| UdpWorker.UnpackPack | pointServer/src/udp_worker.py:58 | unpacking a packed uint32 gives it back |
| UdpWorker.PackUnpack | pointServer/src/udp_worker.py:58 | packing an unpacked word gives the same four bytes |
| UdpWorker.PointBytes | pointServer/src/udp_worker.py:59 | each point serialises to 16 bytes |
| UdpWorker.Body | pointServer/src/udp_worker.py:59 | the body has 16 bytes per point |
| UdpWorker.BodyAt | pointServer/src/udp_worker.py:59 | bytes `16k .. 16k+16` of the body are the encoding of point `k` |
| UdpWorker.PackFrame | pointServer/src/udp_worker.py:57-59 | `header + body` fails exactly when the id or count does not fit in uint32; otherwise it is `8 + 16n` bytes, its header unpacks to the id and the count, and the rest is the body |
| UdpWorker.Append | pointServer/src/udp_worker.py:48-50 | a non-None chunk is appended and counted, None changes nothing; the id is unchanged and the count stays equal to the points held |
| UdpWorker.Assemble | pointServer/src/udp_worker.py:48-55 | append, then close the frame on a positive-count boundary and reset (lines 65-68); characterised by `AssembleEmitsIff`, `AssembleClosedFrame` and `AssembleOpenFrame` |
| UdpWorker.AssembleEmitsIff | pointServer/src/udp_worker.py:53 | a frame closes iff the datagram is a boundary and the count after the append is positive |
| UdpWorker.AssembleClosedFrame | pointServer/src/udp_worker.py:53-55 | a closed frame has the current id and every point since the previous frame, the boundary's own last; its size is the count; the state resets with the id advanced by one (lines 65-68) |
| UdpWorker.AssembleOpenFrame | pointServer/src/udp_worker.py:48-53 | without a closed frame the points only accumulate and the id is unchanged |
| UdpWorker.AssembleAll | pointServer/src/udp_worker.py:46-68 | assembly over a sequence of decoder results; characterised by `FramesNumberedConsecutively`, `PointsConserved` and `OneBoundaryOneFrame` |
| UdpWorker.FramesNumberedConsecutively | pointServer/src/udp_worker.py:65-68 | over any run, frames take consecutive ids and the counter ends one past the last |
| UdpWorker.PointsConserved | pointServer/src/udp_worker.py:46-68 | over any run, no point is lost, duplicated or reordered; the count stays consistent; every frame is non-empty |
| UdpWorker.OneBoundaryOneFrame | pointServer/src/udp_worker.py:46-68 | non-boundary datagrams followed by a boundary close exactly one frame holding all their points, and the id advances by one |
| UdpWorker.Offer | pointServer/src/udp_worker.py:61-63 | a full queue is unchanged (the new frame is dropped); otherwise the frame is appended; the capacity is never exceeded |
| UdpWorker.Step | pointServer/src/udp_worker.py:46-68 | one loop iteration: assemble, pack, offer; characterised by `StepFacts` |
| UdpWorker.StepFacts | pointServer/src/udp_worker.py:46-68 | one datagram: the queue stays within capacity; a queued or dropped frame resets the state; dropped iff a frame packed and the queue was full; a queued frame is the packed frame at the tail |
| UdpWorker.RunAllBounded | pointServer/src/udp_worker.py:36-68 | the queue stays within its capacity and the count stays consistent over any run |
| UdpWorker.RunAll | pointServer/src/udp_worker.py:36-68 | the loop over decoder results, ending at a packing error; characterised by `RunAllBounded` and `RunAllIsAssembleAll` |
| UdpWorker.Fits | pointServer/src/udp_worker.py:58 | `struct.pack('<II')` accepts a frame iff its id and count are below 2^32 |
| UdpWorker.OfferAll | pointServer/src/udp_worker.py:58-63 | offering the packed frames in turn never removes a queued frame, keeps the queue within its capacity and leaves a full queue unchanged |
| UdpWorker.RunAllFirst | pointServer/src/udp_worker.py:46-68 | one datagram of the loop: no frame continues with the same queue; a frame that does not fit ends the loop; a frame that fits is offered and the loop continues |
| UdpWorker.RunAllIsAssembleAll | pointServer/src/udp_worker.py:36-68 | the loop ends early iff some frame `AssembleAll` closes does not fit in uint32; otherwise its final state is `AssembleAll`'s and its queue is every closed frame offered in order, so consecutive ids and point conservation hold for the loop |
| UdpWorker.FrameQueue.constructor | pointServer/main.py:37 | a new queue is empty with capacity 5 |
| UdpWorker.FrameQueue.Put | pointServer/src/udp_worker.py:63 | a put appends the frame at the tail |
| UdpWorker.FrameQueue.Full | pointServer/src/udp_worker.py:62 | `queue.full()`: the queue holds `maxsize` frames or more |
| UdpWorker.ParsingWorker.constructor | pointServer/src/udp_worker.py:31-33 | the loop starts with no chunks, count 0 and frame id 0 |
| UdpWorker.ParsingWorker.AppendChunk | pointServer/src/udp_worker.py:48-50 | the fields change as `Append` says |
| UdpWorker.ParsingWorker.Feed | pointServer/src/udp_worker.py:46-68 | the new fields, queue contents and outcome are those of `Step`; the invariant is kept |
| UdpWorker.ParsingWorker.Run | pointServer/src/udp_worker.py:36-68 | the loop over the received datagrams leaves the state and queue given by `RunAll` over their decodings; it stops early iff some frame `AssembleAll` closes does not fit in uint32, and otherwise ends in `AssembleAll`'s state with the queue `OfferAll` gives for its frames |
| LidarManager.DecimalString | pointServer/main.py:14 | `str(i)` is a non-empty string of digits ending in the last digit of `i`, with a leading `0` exactly when `i` is 0 (no leading zeros); with `ParseDecimalString` this fixes it as the canonical decimal |
| LidarManager.ParseDecimalString | pointServer/main.py:14 | reading `str(n)` back gives `n` |
| LidarManager.DecimalStringInjective | pointServer/main.py:13-15 | distinct sensor numbers give distinct keys |
| LidarManager.TableKeysAreIds | pointServer/main.py:13-14 | every key is the decimal string of a sensor number in range |
| LidarManager.TableEmpty | pointServer/main.py:12 | the empty table holds no sensor |
| LidarManager.TableGrows | pointServer/main.py:13-19 | each iteration adds a fresh key and extends the table by that sensor's entry |
| LidarManager.BuildConfig | pointServer/main.py:12-19 | the loop builds exactly the entries for 109 .. 126 |
| LidarManager.TableEntries | pointServer/main.py:15-18 | every entry carries its own id, the address `192.168.50.<id>` and a port in 2309 .. 2326 |
| LidarManager.TablePortsDistinct | pointServer/main.py:18 | different sensors listen on different ports |
| LidarManager.Entry | pointServer/main.py:15-18 | the record built for sensor `i`; `TableEntries` states its fields |
| LidarManager.Event.constructor | pointServer/main.py:38 | `multiprocessing.Event()` starts with the flag cleared |
| LidarManager.Event.Set | pointServer/main.py:39 | `event.set()` sets the flag |
| LidarManager.Event.Clear | pointServer/main.py:53 | `event.clear()` clears the flag |
| LidarManager.Process.constructor | pointServer/main.py:41-44 | `multiprocessing.Process(target=..., args=(queue, port, lidar_id, event))` holds exactly those arguments, not yet started and not sent SIGTERM |
| LidarManager.Process.Start | pointServer/main.py:45 | `p.start()` makes the process alive |
| LidarManager.Process.Join | pointServer/main.py:54 | after `join(timeout=1)` the process is alive iff it was alive and did not exit in time; whether SIGTERM was sent is unchanged |
| LidarManager.Process.IsAlive | pointServer/main.py:55 | `is_alive()` reports whether the process is alive |
| LidarManager.Process.Terminate | pointServer/main.py:56 | `terminate()` records that SIGTERM was sent and does not change whether the process is alive |
| LidarManager.ProcessManager.constructor | pointServer/main.py:25-26 | the registry starts empty |
| LidarManager.ProcessManager.StartLidar | pointServer/main.py:28-48 | a registered id returns its queue and nothing changes; an unconfigured id returns None and nothing changes; otherwise a fresh empty capacity-5 queue, a set event and a started process not yet sent SIGTERM, on the configured port, are registered under that id only |
| LidarManager.ProcessManager.StopLidar | pointServer/main.py:50-57 | an unregistered id changes nothing; a registered worker has its event cleared, its process is alive afterwards iff it did not exit within the join timeout, SIGTERM is sent exactly then, and its entry alone is removed |
| LidarManager.ProcessManager.StopAll | pointServer/main.py:59-61 | every worker registered at the call has its event cleared and its process exited or sent SIGTERM, and the registry ends empty |
| PointCloudWorker.At | vue-point/public/pcWorker.js:8-11 | a read is defined iff it is inside the buffer, and then it is that element |
| PointCloudWorker.Selected | vue-point/public/pcWorker.js:14 | a point survives unless the mode is `'nth'` and `i % n !== 0` (NaN for `n == 0`) |
| PointCloudWorker.KeptIndices | vue-point/public/pcWorker.js:6 | at most one kept index per point |
| PointCloudWorker.KeptIndicesSpec | vue-point/public/pcWorker.js:14 | the kept indices are strictly increasing, below the count, and are exactly those that pass the `'nth'` test |
| PointCloudWorker.PositionTriple | vue-point/public/pcWorker.js:19 | the three pushed coordinates are elements `4i`, `4i+1`, `4i+2` |
| PointCloudWorker.Norm | vue-point/public/pcWorker.js:22 | `min(1, intensity/255)`: exactly `intensity/255` up to 255 and exactly 1 from 255 on, at most 1, non-negative for a non-negative intensity; NaN stays NaN |
| PointCloudWorker.ColorTriple | vue-point/public/pcWorker.js:23 | red and green are the normalised intensity, blue is 0 |
| PointCloudWorker.EmitStep | vue-point/public/pcWorker.js:14-23 | one iteration emits a point's triples iff it passes the test |
| PointCloudWorker.Downsample | vue-point/public/pcWorker.js:1-34 | the frame id passes through; triple `k` of positions and colours belongs to the `k`-th kept point |
| PointCloudWorker.EveryPointUnlessNth | vue-point/public/pcWorker.js:14 | outside `'nth'` mode every point is kept, in order |
| PointCloudWorker.NthKeepsOnePerBlock | vue-point/public/pcWorker.js:14 | in `'nth'` mode with `n >= 1`, `ceil(count / n)` points are kept |
| PointCloudWorker.NthZeroKeepsNothing | vue-point/public/pcWorker.js:14 | `n == 0` keeps nothing, since `i % 0` is NaN |

## Left out

- The x, y, z reconstruction (pointServer/lidar_parser.py:87-114) is float32 trigonometry. It is the `Geometry` parameter; the mask on its result is modelled.
- Floating point in general: angles, distances, intensities, the timestamp and the viewer's numbers are reals. float32 rounding is not modelled.
- The serialised bit pattern of a float32 value is the `Float32Bits` parameter.
- `datetime(...).timestamp()` depends on the local timezone. It is the `Clock` parameter, which returns None where Python raises.
- Sockets: bind, `SO_RCVBUF`, `recvfrom(1500)`, the 0.5 s timeout and socket errors. `Run` takes the datagrams received while the running flag is set; timeouts and errors change no state.
- Concurrency: the separate processes and the running flag seen from another process are not modelled. Whether a process exits within the join timeout is an input (`exitsInTime`).
- The queue's consumer (`get`, `empty`) and the FastAPI/WebSocket relay in pointServer/main.py are not part of this model.
- Log output (`print`, `console`) is not modelled.
- `postMessage` and the `Float32Array` transfer in pcWorker.js are not modelled.
- A `config.n` that is not an integer.
- pointServer/main.py:21, the log line, is not modelled.
- LidarManager.ProcessManager.StopAll: stops the ids in an unspecified order, not in insertion order.
- LidarManager.Process.Terminate: SIGTERM is recorded as sent; the later exit of the process, which nothing in the source waits for, is not modelled.
- LidarManager.ProcessManager.Valid: does not state that distinct workers have distinct handle objects (true in the source, since each start creates fresh ones). So `StopAll` reports every stopped worker as stopped, but not that no other object changed.
- PointCloudWorker.Norm: states NaN (an out-of-range read) as None. Python/JS NaN arithmetic beyond `min` and `/` is not modelled.
