/**
 The per-sensor ingestion loop (`udp_parsing_worker`).

 The loop keeps three pieces of state: the point chunks of the frame in
 progress, their total count and the id of the next frame. Each decoded
 datagram's points are appended first; when the datagram carries a frame
 boundary and the count is positive, the frame is packed as
 `LE32(frame id) ++ LE32(point count) ++ 16 bytes per point`, offered to the
 bounded output queue (dropped when the queue is full) and the state is reset
 with the id advanced.

 The pure functions below (`Append`, `Assemble`, `PackFrame`, `Offer`,
 `Step`, `RunAll`) specify the loop; the classes `FrameQueue` and
 `ParsingWorker` are the mutable objects of the source and are proved
 against them.
 */
module UdpWorker {
  import opened Wrappers
  import opened Sequences
  import opened LidarParser

  /** One byte of the packed output, as the unsigned value `struct.pack` writes. */
  type Octet = x: int | 0 <= x < 256

  type Bytes = seq<Octet>

  const UInt32Limit: nat := 0x1_0000_0000
  type UInt32 = x: int | 0 <= x < 0x1_0000_0000

  /** `multiprocessing.Queue(maxsize=5)`. */
  const QueueCapacity: nat := 5

  /** Bytes per serialised point: x, y, z, intensity as float32. */
  const PointSize: nat := 16

  // ---------------------------------------------------------------------------
  // Wire framing

  /** `struct.pack('<I', v)`: four bytes, least significant first. */
  function PackUInt32(v: UInt32): (b: Bytes)
    ensures |b| == 4
  {
    var q1 := v / 256;
    var q2 := q1 / 256;
    [v % 256, q1 % 256, q2 % 256, q2 / 256]
  }

  /** `struct.unpack('<I', b)`. */
  function UnpackUInt32(b: Bytes): (v: UInt32)
    requires |b| == 4
  {
    b[0] as int + 256 * (b[1] as int + 256 * (b[2] as int + 256 * b[3] as int))
  }

  lemma DivMod256(x: int, q: int, r: int)
    requires 0 <= r < 256 && x == r + 256 * q
    ensures x % 256 == r && x / 256 == q
  {}

  /** Unpacking a packed value gives it back. */
  lemma UnpackPack(v: UInt32)
    ensures UnpackUInt32(PackUInt32(v)) == v
  {}

  /** Packing an unpacked word gives the same four bytes. */
  lemma PackUnpack(b: Bytes)
    requires |b| == 4
    ensures PackUInt32(UnpackUInt32(b)) == b
  {
    var v := UnpackUInt32(b);
    var q2: int := b[2] as int + 256 * b[3] as int;
    var q1: int := b[1] as int + 256 * q2;
    DivMod256(v, q1, b[0]);
    DivMod256(q1, q2, b[1]);
    DivMod256(q2, b[3], b[2]);
  }

  /** The float32 bit pattern of a value (`astype(np.float32)`); supplied by the caller. */
  type Float32Bits = real -> UInt32

  /** One row of `full_frame_np.astype(np.float32).tobytes()`. */
  function PointBytes(p: Point, f32: Float32Bits): (b: Bytes)
    ensures |b| == PointSize
  {
    PackUInt32(f32(p.x)) + PackUInt32(f32(p.y)) + PackUInt32(f32(p.z)) + PackUInt32(f32(p.intensity))
  }

  /** `body`: the points' rows, in order. */
  function Body(points: seq<Point>, f32: Float32Bits): (b: Bytes)
    ensures |b| == PointSize * |points|
    decreases |points|
  {
    if points == [] then [] else PointBytes(points[0], f32) + Body(points[1..], f32)
  }

  lemma SliceAfterPrefix(x: Bytes, y: Bytes, i: nat, j: nat)
    requires i <= j <= |y|
    ensures (x + y)[|x| + i .. |x| + j] == y[i..j]
  {}

  /** Row `k` of the body is the encoding of point `k`. */
  lemma {:induction false} BodyAt(points: seq<Point>, f32: Float32Bits, k: nat)
    requires k < |points|
    ensures Body(points, f32)[PointSize * k .. PointSize * k + PointSize] == PointBytes(points[k], f32)
    decreases k
  {
    var head := PointBytes(points[0], f32);
    var rest := Body(points[1..], f32);
    assert Body(points, f32) == head + rest;
    if k == 0 {
      assert (head + rest)[..PointSize] == head;
    } else {
      BodyAt(points[1..], f32, k - 1);
      var i := PointSize * (k - 1);
      SliceAfterPrefix(head, rest, i, i + PointSize);
      assert |head| + i == PointSize * k;
    }
  }

  /**
   `header + body` with `header = struct.pack('<II', frame_id, point_count)`;
   None where `struct.pack` raises because a value does not fit in uint32.
   */
  function PackFrame(frameId: nat, points: seq<Point>, f32: Float32Bits): (r: Option<Bytes>)
    ensures r.None? <==> frameId >= UInt32Limit || |points| >= UInt32Limit
    ensures r.Some? ==>
      && |r.value| == 8 + PointSize * |points|
      && UnpackUInt32(r.value[..4]) == frameId
      && UnpackUInt32(r.value[4..8]) == |points|
      && r.value[8..] == Body(points, f32)
  {
    if frameId < UInt32Limit && |points| < UInt32Limit then
      UnpackPack(frameId);
      UnpackPack(|points|);
      var bytes := PackUInt32(frameId) + PackUInt32(|points|) + Body(points, f32);
      assert bytes[..4] == PackUInt32(frameId);
      assert bytes[4..8] == PackUInt32(|points|);
      Some(bytes)
    else
      None
  }

  // ---------------------------------------------------------------------------
  // Frame assembly

  /** `frame_chunks`, `total_points`, `frame_id_counter`. */
  datatype Accumulator = Accumulator(frameChunks: seq<seq<Point>>, totalPoints: nat, frameIdCounter: nat)

  /** The state before the first datagram (lines 31-33). */
  const Initial: Accumulator := Accumulator([], 0, 0)

  /** `total_points` is the number of points in the chunks. */
  predicate Consistent(a: Accumulator) {
    a.totalPoints == TotalLength(a.frameChunks)
  }

  lemma {:induction false} TotalLengthAppend<T>(ss: seq<seq<T>>, c: seq<T>)
    ensures TotalLength(ss + [c]) == TotalLength(ss) + |c|
    decreases |ss|
  {
    if ss == [] {
      assert [c][1..] == [];
    } else {
      assert (ss + [c])[1..] == ss[1..] + [c];
      TotalLengthAppend(ss[1..], c);
    }
  }

  /** The points a decoder result contributes: none for Python's `None`. */
  function ChunkPoints(points: Option<seq<Point>>): seq<Point> {
    if points.Some? then points.value else []
  }

  /** Lines 48-50: a chunk that is not None is appended and counted. */
  function Append(a: Accumulator, points: Option<seq<Point>>): (r: Accumulator)
    ensures r.frameIdCounter == a.frameIdCounter
    ensures r.totalPoints == a.totalPoints + |ChunkPoints(points)|
    ensures Flatten(r.frameChunks) == Flatten(a.frameChunks) + ChunkPoints(points)
    ensures Consistent(a) ==> Consistent(r)
  {
    match points
    case None => a
    case Some(chunk) =>
      FlattenAppend(a.frameChunks, [chunk]);
      TotalLengthAppend(a.frameChunks, chunk);
      Accumulator(a.frameChunks + [chunk], a.totalPoints + |chunk|, a.frameIdCounter)
  }

  /** A frame before packing: its id and its points in arrival order. */
  datatype Frame = Frame(frameId: nat, points: seq<Point>)

  /**
   Lines 48-55 and 65-68: append the datagram's points, then close the frame
   when the datagram marks a boundary and the count is positive.
   */
  function Assemble(a: Accumulator, result: PacketResult): (r: (Accumulator, Option<Frame>))
  {
    var grown := Append(a, result.points);
    if result.isNewFrame && grown.totalPoints > 0 then
      (Accumulator([], 0, grown.frameIdCounter + 1), Some(Frame(grown.frameIdCounter, Flatten(grown.frameChunks))))
    else
      (grown, None)
  }

  /** A frame is closed exactly on a boundary with a positive count after the append. */
  lemma AssembleEmitsIff(a: Accumulator, result: PacketResult)
    ensures Assemble(a, result).1.Some?
        <==> result.isNewFrame && a.totalPoints + |ChunkPoints(result.points)| > 0
  {}

  /**
   The closed frame carries the current id and every point appended since the
   previous frame, the boundary datagram's own points last; its size is the
   count. Afterwards the chunks are empty, the count is zero and the id has
   advanced by one.
   */
  lemma AssembleClosedFrame(a: Accumulator, result: PacketResult)
    requires Consistent(a)
    requires Assemble(a, result).1.Some?
    ensures Assemble(a, result).1.value.frameId == a.frameIdCounter
    ensures Assemble(a, result).1.value.points == Flatten(a.frameChunks) + ChunkPoints(result.points)
    ensures |Assemble(a, result).1.value.points| == a.totalPoints + |ChunkPoints(result.points)|
    ensures Assemble(a, result).0 == Accumulator([], 0, a.frameIdCounter + 1)
  {
    FlattenLength(a.frameChunks);
  }

  /** Without a closed frame the accumulator only grows and the id is unchanged. */
  lemma AssembleOpenFrame(a: Accumulator, result: PacketResult)
    requires Assemble(a, result).1.None?
    ensures Assemble(a, result).0 == Append(a, result.points)
    ensures Assemble(a, result).0.frameIdCounter == a.frameIdCounter
    ensures Flatten(Assemble(a, result).0.frameChunks) == Flatten(a.frameChunks) + ChunkPoints(result.points)
  {}

  /** Frame assembly over a sequence of decoder results: the final state and the frames closed, in order. */
  function AssembleAll(a: Accumulator, results: seq<PacketResult>): (r: (Accumulator, seq<Frame>))
    decreases |results|
  {
    if results == [] then (a, [])
    else
      var (next, frame) := Assemble(a, results[0]);
      var (last, frames) := AssembleAll(next, results[1..]);
      (last, (if frame.Some? then [frame.value] else []) + frames)
  }

  function FramePoints(frames: seq<Frame>): seq<Point>
    decreases |frames|
  {
    if frames == [] then [] else frames[0].points + FramePoints(frames[1..])
  }

  function ResultPoints(results: seq<PacketResult>): seq<Point>
    decreases |results|
  {
    if results == [] then [] else ChunkPoints(results[0].points) + ResultPoints(results[1..])
  }

  /** Frames are numbered consecutively from the current id, and the id ends past the last one. */
  lemma {:induction false} FramesNumberedConsecutively(a: Accumulator, results: seq<PacketResult>)
    ensures forall k :: 0 <= k < |AssembleAll(a, results).1| ==>
      AssembleAll(a, results).1[k].frameId == a.frameIdCounter + k
    ensures AssembleAll(a, results).0.frameIdCounter == a.frameIdCounter + |AssembleAll(a, results).1|
    decreases |results|
  {
    if results != [] {
      var (next, frame) := Assemble(a, results[0]);
      FramesNumberedConsecutively(next, results[1..]);
    }
  }

  /**
   No point is lost, duplicated or reordered: the frames' points followed by
   the frame in progress are the points pending before, followed by every
   datagram's points. Every closed frame has at least one point.
   */
  lemma {:induction false} PointsConserved(a: Accumulator, results: seq<PacketResult>)
    requires Consistent(a)
    ensures FramePoints(AssembleAll(a, results).1) + Flatten(AssembleAll(a, results).0.frameChunks)
         == Flatten(a.frameChunks) + ResultPoints(results)
    ensures Consistent(AssembleAll(a, results).0)
    ensures forall k :: 0 <= k < |AssembleAll(a, results).1| ==> |AssembleAll(a, results).1[k].points| > 0
    decreases |results|
  {
    if results != [] {
      var (next, frame) := Assemble(a, results[0]);
      var pts := ChunkPoints(results[0].points);
      PointsConserved(next, results[1..]);
      var (last, frames) := AssembleAll(next, results[1..]);
      assert ResultPoints(results) == pts + ResultPoints(results[1..]);
      if frame.Some? {
        AssembleClosedFrame(a, results[0]);
        assert AssembleAll(a, results) == (last, [frame.value] + frames);
        assert FramePoints([frame.value] + frames) == frame.value.points + FramePoints(frames) by {
          assert ([frame.value] + frames)[1..] == frames;
        }
        assert Flatten(next.frameChunks) == [];
        assert frame.value.points == Flatten(a.frameChunks) + pts;
        assert FramePoints(frames) + Flatten(last.frameChunks) == ResultPoints(results[1..]);
      } else {
        AssembleOpenFrame(a, results[0]);
        assert AssembleAll(a, results) == (last, frames) by {
          assert ([] + frames) == frames;
        }
        assert Flatten(next.frameChunks) == Flatten(a.frameChunks) + pts;
      }
    }
  }

  /**
   Datagrams without a boundary followed by one with a boundary, with at least
   one point among them, close exactly one frame: it holds every one of their
   points and takes the current id, which then advances by one.
   */
  lemma {:induction false} OneBoundaryOneFrame(a: Accumulator, quiet: seq<PacketResult>, boundary: PacketResult)
    requires Consistent(a)
    requires forall i :: 0 <= i < |quiet| ==> !quiet[i].isNewFrame
    requires boundary.isNewFrame
    requires a.totalPoints + |ResultPoints(quiet + [boundary])| > 0
    ensures AssembleAll(a, quiet + [boundary]).1
         == [Frame(a.frameIdCounter, Flatten(a.frameChunks) + ResultPoints(quiet + [boundary]))]
    ensures AssembleAll(a, quiet + [boundary]).0 == Accumulator([], 0, a.frameIdCounter + 1)
    decreases |quiet|
  {
    if quiet == [] {
      assert quiet + [boundary] == [boundary];
      assert [boundary][1..] == [];
      assert ResultPoints([boundary]) == ChunkPoints(boundary.points) + ResultPoints([]);
      FlattenLength(a.frameChunks);
      AssembleClosedFrame(a, boundary);
      var (next, frame) := Assemble(a, boundary);
      assert AssembleAll(next, []) == (next, []);
      assert AssembleAll(a, [boundary]) == (next, [frame.value] + []);
      assert ChunkPoints(boundary.points) + ResultPoints([]) == ChunkPoints(boundary.points);
      assert frame.value == Frame(a.frameIdCounter, Flatten(a.frameChunks) + ChunkPoints(boundary.points));
    } else {
      var rest := quiet[1..];
      assert (quiet + [boundary])[1..] == rest + [boundary];
      assert (quiet + [boundary])[0] == quiet[0];
      var pts := ChunkPoints(quiet[0].points);
      var next := Append(a, quiet[0].points);
      AssembleOpenFrame(a, quiet[0]);
      assert Assemble(a, quiet[0]) == (next, None);
      assert ResultPoints(quiet + [boundary]) == pts + ResultPoints(rest + [boundary]);
      OneBoundaryOneFrame(next, rest, boundary);
      var (last, frames) := AssembleAll(next, rest + [boundary]);
      assert AssembleAll(a, quiet + [boundary]) == (last, frames) by {
        assert ([] + frames) == frames;
      }
      assert Flatten(next.frameChunks) + ResultPoints(rest + [boundary])
          == Flatten(a.frameChunks) + ResultPoints(quiet + [boundary]);
    }
  }

  // ---------------------------------------------------------------------------
  // The bounded queue and one loop iteration

  /** Lines 62-63: the frame is queued unless the queue is full, in which case the NEW frame is dropped. */
  function Offer(items: seq<Bytes>, capacity: nat, frame: Bytes): (r: seq<Bytes>)
    ensures |items| >= capacity ==> r == items
    ensures |items| < capacity ==> r == items + [frame]
    ensures |items| <= capacity ==> |r| <= capacity
  {
    if |items| >= capacity then items else items + [frame]
  }

  datatype StepOutcome = InProgress | Queued | Dropped | PackError

  /**
   One datagram (lines 46-68): assemble, and on a closed frame pack it and
   offer it to the queue. A frame whose id or count does not fit in uint32
   makes `struct.pack` raise, which ends the worker; the state is then the
   one after the append.
   */
  function Step(a: Accumulator, items: seq<Bytes>, capacity: nat, result: PacketResult, f32: Float32Bits)
    : (r: (Accumulator, seq<Bytes>, StepOutcome))
  {
    var (next, frame) := Assemble(a, result);
    match frame
    case None => (next, items, InProgress)
    case Some(f) =>
      match PackFrame(f.frameId, f.points, f32)
      case None => (Append(a, result.points), items, PackError)
      case Some(bytes) =>
        if |items| >= capacity then (next, items, Dropped) else (next, Offer(items, capacity, bytes), Queued)
  }

  /**
   A closed frame resets the state and advances the id whether it was queued
   or dropped; a queued frame is the packed frame appended at the tail; the
   queue never grows past its capacity.
   */
  lemma StepFacts(a: Accumulator, items: seq<Bytes>, capacity: nat, result: PacketResult, f32: Float32Bits)
    requires Consistent(a) && |items| <= capacity
    ensures var (next, q, outcome) := Step(a, items, capacity, result, f32);
      && |q| <= capacity
      && Consistent(next)
      && (outcome == Queued || outcome == Dropped ==> next == Accumulator([], 0, a.frameIdCounter + 1))
      && (outcome == Dropped <==> Assemble(a, result).1.Some? && PackFrame(a.frameIdCounter,
            Flatten(a.frameChunks) + ChunkPoints(result.points), f32).Some? && |items| >= capacity)
      && (outcome == Dropped ==> q == items)
      && (outcome == Queued ==> q == items + [PackFrame(a.frameIdCounter,
            Flatten(a.frameChunks) + ChunkPoints(result.points), f32).value])
      && (outcome == InProgress ==> q == items && next == Append(a, result.points))
  {
    if Assemble(a, result).1.Some? {
      AssembleClosedFrame(a, result);
    }
  }

  /** The loop over the datagrams received while the running flag is set; it ends early on a packing error. */
  function RunAll(a: Accumulator, items: seq<Bytes>, capacity: nat, results: seq<PacketResult>, f32: Float32Bits)
    : (r: (Accumulator, seq<Bytes>, bool))
    decreases |results|
  {
    if results == [] then (a, items, false)
    else
      var (next, q, outcome) := Step(a, items, capacity, results[0], f32);
      if outcome == PackError then (next, q, true) else RunAll(next, q, capacity, results[1..], f32)
  }

  /** The queue stays within its capacity over any run. */
  lemma {:induction false} RunAllBounded(a: Accumulator, items: seq<Bytes>, capacity: nat, results: seq<PacketResult>, f32: Float32Bits)
    requires Consistent(a) && |items| <= capacity
    ensures |RunAll(a, items, capacity, results, f32).1| <= capacity
    ensures Consistent(RunAll(a, items, capacity, results, f32).0)
    decreases |results|
  {
    if results != [] {
      StepFacts(a, items, capacity, results[0], f32);
      var (next, q, outcome) := Step(a, items, capacity, results[0], f32);
      if outcome != PackError {
        RunAllBounded(next, q, capacity, results[1..], f32);
      }
    }
  }

  /** `struct.pack('<II', frame_id, point_count)` accepts the frame: both values fit in uint32. */
  predicate Fits(f: Frame) {
    f.frameId < UInt32Limit && |f.points| < UInt32Limit
  }

  /** The queue after offering the packing of each frame in turn; a frame that does not fit is passed over. */
  function OfferAll(items: seq<Bytes>, capacity: nat, frames: seq<Frame>, f32: Float32Bits): (r: seq<Bytes>)
    ensures items <= r
    ensures |items| <= capacity ==> |r| <= capacity
    ensures |items| >= capacity ==> r == items
    decreases |frames|
  {
    if frames == [] then items
    else if Fits(frames[0]) then
      OfferAll(Offer(items, capacity, PackFrame(frames[0].frameId, frames[0].points, f32).value), capacity, frames[1..], f32)
    else
      OfferAll(items, capacity, frames[1..], f32)
  }

  /** One datagram of the loop, in terms of the frame `Assemble` closes. */
  lemma RunAllFirst(a: Accumulator, items: seq<Bytes>, capacity: nat, results: seq<PacketResult>, f32: Float32Bits)
    requires results != []
    ensures var (next, frame) := Assemble(a, results[0]);
      && (frame.None? ==> RunAll(a, items, capacity, results, f32) == RunAll(next, items, capacity, results[1..], f32))
      && (frame.Some? && !Fits(frame.value) ==> RunAll(a, items, capacity, results, f32).2)
      && (frame.Some? && Fits(frame.value) ==>
            RunAll(a, items, capacity, results, f32)
            == RunAll(next, Offer(items, capacity, PackFrame(frame.value.frameId, frame.value.points, f32).value),
                      capacity, results[1..], f32))
  {}

  /** Every frame of `[f] + rest` fits exactly when `f` and every frame of `rest` fit. */
  lemma AllFitCons(f: Frame, rest: seq<Frame>)
    ensures (forall k :: 0 <= k < |[f] + rest| ==> Fits(([f] + rest)[k]))
        <==> Fits(f) && forall k :: 0 <= k < |rest| ==> Fits(rest[k])
  {
    var frames := [f] + rest;
    if Fits(f) && forall k :: 0 <= k < |rest| ==> Fits(rest[k]) {
      forall k | 0 <= k < |frames| ensures Fits(frames[k]) {
        if k > 0 {
          assert frames[k] == rest[k - 1];
        }
      }
    }
    if forall k :: 0 <= k < |frames| ==> Fits(frames[k]) {
      assert Fits(frames[0]);
      forall k | 0 <= k < |rest| ensures Fits(rest[k]) {
        assert frames[k + 1] == rest[k];
      }
    }
  }

  /**
   The loop is frame assembly followed by packing and queueing. It ends early
   exactly when one of the frames `AssembleAll` closes does not fit in the
   uint32 header. Otherwise its final state is `AssembleAll`'s, and its queue
   is the result of offering every closed frame in order. So the run-level
   facts about `AssembleAll` (consecutive ids, conservation of points) hold
   for the loop.
   */
  lemma {:induction false} RunAllIsAssembleAll(a: Accumulator, items: seq<Bytes>, capacity: nat, results: seq<PacketResult>, f32: Float32Bits)
    ensures !RunAll(a, items, capacity, results, f32).2
        <==> forall k :: 0 <= k < |AssembleAll(a, results).1| ==> Fits(AssembleAll(a, results).1[k])
    ensures !RunAll(a, items, capacity, results, f32).2 ==>
      && RunAll(a, items, capacity, results, f32).0 == AssembleAll(a, results).0
      && RunAll(a, items, capacity, results, f32).1 == OfferAll(items, capacity, AssembleAll(a, results).1, f32)
    decreases |results|
  {
    if results != [] {
      var (next, frame) := Assemble(a, results[0]);
      var rest := AssembleAll(next, results[1..]).1;
      RunAllFirst(a, items, capacity, results, f32);
      if frame.None? {
        assert AssembleAll(a, results) == (AssembleAll(next, results[1..]).0, [] + rest);
        assert [] + rest == rest;
        RunAllIsAssembleAll(next, items, capacity, results[1..], f32);
      } else {
        var f := frame.value;
        assert AssembleAll(a, results) == (AssembleAll(next, results[1..]).0, [f] + rest);
        AllFitCons(f, rest);
        if Fits(f) {
          var q := Offer(items, capacity, PackFrame(f.frameId, f.points, f32).value);
          RunAllIsAssembleAll(next, q, capacity, results[1..], f32);
          assert ([f] + rest)[0] == f && ([f] + rest)[1..] == rest;
        }
      }
    }
  }

  // ---------------------------------------------------------------------------
  // The mutable objects

  /** The bounded output channel; its consumer lives in another process. */
  class FrameQueue {
    var items: seq<Bytes>
    const maxsize: nat

    /** `multiprocessing.Queue(maxsize=5)` (pointServer/main.py). */
    constructor ()
      ensures items == [] && maxsize == QueueCapacity
    {
      items := [];
      maxsize := QueueCapacity;
    }

    predicate Full()
      reads this
    {
      |items| >= maxsize
    }

    method Put(frame: Bytes)
      requires !Full()
      modifies this
      ensures items == old(items) + [frame]
    {
      items := items + [frame];
    }
  }

  /** The locals of `udp_parsing_worker` from line 30 on. */
  class ParsingWorker {
    var frameChunks: seq<seq<Point>>
    var totalPoints: nat
    var frameIdCounter: nat
    const queue: FrameQueue
    const float32Bits: Float32Bits

    function State(): Accumulator
      reads this
    {
      Accumulator(frameChunks, totalPoints, frameIdCounter)
    }

    ghost predicate Valid()
      reads this, queue
    {
      Consistent(State()) && |queue.items| <= queue.maxsize
    }

    constructor (queue: FrameQueue, float32Bits: Float32Bits)
      requires |queue.items| <= queue.maxsize
      ensures Valid()
      ensures State() == Initial
      ensures this.queue == queue && this.float32Bits == float32Bits
    {
      frameChunks := [];
      totalPoints := 0;
      frameIdCounter := 0;
      this.queue := queue;
      this.float32Bits := float32Bits;
    }

    /** Lines 48-50: append a chunk that is not None and count its points. */
    method AppendChunk(points: Option<seq<Point>>)
      requires Consistent(State())
      modifies this
      ensures State() == Append(old(State()), points)
      ensures Consistent(State())
    {
      if points.Some? {
        frameChunks := frameChunks + [points.value];
        totalPoints := totalPoints + |points.value|;
      }
    }

    /** Lines 52-68 for one decoder result. */
    method Feed(result: PacketResult) returns (outcome: StepOutcome)
      requires Valid()
      modifies this, queue
      ensures Valid()
      ensures (State(), queue.items, outcome) == Step(old(State()), old(queue.items), queue.maxsize, result, float32Bits)
    {
      ghost var before := State();
      ghost var spec := Step(before, queue.items, queue.maxsize, result, float32Bits);
      StepFacts(before, queue.items, queue.maxsize, result, float32Bits);
      AppendChunk(result.points);
      if result.isNewFrame && totalPoints > 0 {
        var fullFrame := Flatten(frameChunks);
        assert Assemble(before, result).1 == Some(Frame(frameIdCounter, fullFrame));
        var packed := PackFrame(frameIdCounter, fullFrame, float32Bits);
        if packed.None? {
          return PackError;
        }
        if !queue.Full() {
          queue.Put(packed.value);
          outcome := Queued;
        } else {
          outcome := Dropped;
        }
        frameChunks, totalPoints, frameIdCounter := [], 0, frameIdCounter + 1;
      } else {
        outcome := InProgress;
      }
    }

    /**
     The `while running_event.is_set()` loop over the datagrams received
     before the flag is cleared; timeouts and socket errors change nothing
     and are not part of the input. Returns true when packing raised.
     */
    method Run(datagrams: seq<seq<Byte>>, geometry: Geometry, clock: Clock) returns (crashed: bool)
      requires Valid()
      modifies this, queue
      ensures Valid()
      ensures (State(), queue.items, crashed)
           == RunAll(old(State()), old(queue.items), queue.maxsize,
                     Map((d: seq<Byte>) => ParsePacketBatch(d, geometry, clock), datagrams), float32Bits)
      ensures var frames := AssembleAll(old(State()), Map((d: seq<Byte>) => ParsePacketBatch(d, geometry, clock), datagrams));
        && (!crashed <==> forall k :: 0 <= k < |frames.1| ==> Fits(frames.1[k]))
        && (!crashed ==> State() == frames.0 && queue.items == OfferAll(old(queue.items), queue.maxsize, frames.1, float32Bits))
    {
      ghost var results := Map((d: seq<Byte>) => ParsePacketBatch(d, geometry, clock), datagrams);
      ghost var goal := RunAll(old(State()), old(queue.items), queue.maxsize, results, float32Bits);
      RunAllIsAssembleAll(old(State()), old(queue.items), queue.maxsize, results, float32Bits);
      var i := 0;
      crashed := false;
      while i < |datagrams|
        invariant 0 <= i <= |datagrams|
        invariant Valid()
        invariant RunAll(State(), queue.items, queue.maxsize, results[i..], float32Bits) == goal
      {
        var result := ParsePacketBatch(datagrams[i], geometry, clock);
        assert results[i..][0] == result;
        assert results[i..][1..] == results[i + 1..];
        var outcome := Feed(result);
        if outcome == PackError {
          crashed := true;
          return;
        }
        i := i + 1;
      }
    }
  }
}
