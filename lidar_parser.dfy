/**
 The LS-S3 packet decoder (`LSS3_Parser_UTC.parse_packet_batch`).

 A datagram of at least 1206 bytes is a 1192-byte data segment of 149
 eight-byte records followed by a trailer holding a UTC timestamp. A record
 is either a frame-boundary header (first five bytes FF AA BB CC DD) or a
 measurement whose integer fields are read bit by bit. The optical
 reconstruction of x, y, z from those fields is trigonometry on floats and is
 a parameter here (`Geometry`); so is the calendar-to-seconds conversion
 (`Clock`), which depends on the local timezone.
 */
module LidarParser {
  import opened Wrappers
  import opened Sequences

  type Byte = bv8

  /** One row of `raw_data.reshape(-1, 8)`. */
  type Record = r: seq<Byte> | |r| == 8 witness [0, 0, 0, 0, 0, 0, 0, 0]

  const MinPacketLength: nat := 1206
  const DataLength: nat := 1192
  const RecordSize: nat := 8
  const RecordCount: nat := 149
  const HeaderMarker: seq<Byte> := [0xFF, 0xAA, 0xBB, 0xCC, 0xDD]

  /** Mirror offset angles in degrees, indexed by channel id modulo 4. */
  const MirrorOffAngles: seq<real> := [1.5, -0.5, 0.5, -1.5]

  const DistAcc: real := 0.001
  const HAngleAcc: real := 0.01
  const VAngleAcc: real := 0.0025

  // ---------------------------------------------------------------------------
  // Splitting the data segment into records

  /** `np.frombuffer(data).reshape(-1, 8)`: consecutive eight-byte records. */
  function Chunks(data: seq<Byte>): (rs: seq<Record>)
    requires |data| % RecordSize == 0
    ensures |rs| == |data| / RecordSize
    decreases |data|
  {
    if |data| == 0 then [] else [data[..RecordSize]] + Chunks(data[RecordSize..])
  }

  /** Record `i` is bytes `8i .. 8i+8` of the segment. */
  lemma {:induction false} ChunksAt(data: seq<Byte>, i: nat)
    requires |data| % RecordSize == 0 && i < |data| / RecordSize
    ensures Chunks(data)[i] == data[RecordSize * i .. RecordSize * i + RecordSize]
    decreases i
  {
    if i > 0 {
      ChunksAt(data[RecordSize..], i - 1);
      assert data[RecordSize..][RecordSize * (i - 1) .. RecordSize * (i - 1) + RecordSize]
          == data[RecordSize * i .. RecordSize * i + RecordSize];
    }
  }

  /** Splitting loses and reorders nothing: the records concatenate back to the segment. */
  lemma {:induction false} ChunksFlatten(data: seq<Byte>)
    requires |data| % RecordSize == 0
    ensures Flatten(Chunks(data)) == data
    decreases |data|
  {
    if |data| != 0 {
      ChunksFlatten(data[RecordSize..]);
      assert Chunks(data)[1..] == Chunks(data[RecordSize..]);
      assert data == data[..RecordSize] + data[RecordSize..];
    }
  }

  /** The 149 records of a packet's data segment, `payload[:1192]`. */
  function Records(payload: seq<Byte>): (rs: seq<Record>)
    requires |payload| >= DataLength
    ensures |rs| == RecordCount
    ensures Flatten(rs) == payload[..DataLength]
  {
    ChunksFlatten(payload[..DataLength]);
    Chunks(payload[..DataLength])
  }

  // ---------------------------------------------------------------------------
  // Record classification

  /** `header_mask`: bytes 0..4 of the record are the frame-boundary marker. */
  predicate IsHeader(r: Record) {
    r[0] == 0xFF && r[1] == 0xAA && r[2] == 0xBB && r[3] == 0xCC && r[4] == 0xDD
  }

  predicate IsMeasurement(r: Record) {
    !IsHeader(r)
  }

  lemma HeaderIsMarker(r: Record)
    ensures IsHeader(r) <==> r[..5] == HeaderMarker
  {
    if r[..5] == HeaderMarker {
      assert r[0] == r[..5][0] && r[1] == r[..5][1] && r[2] == r[..5][2];
      assert r[3] == r[..5][3] && r[4] == r[..5][4];
    }
  }

  // ---------------------------------------------------------------------------
  // Integer fields of a measurement record
  //
  // Each field is computed on the integer values of the bytes. The shifts,
  // masks and ors of the source act on disjoint bit ranges, so each is an
  // exact sum, quotient or remainder; the lemmas marked "source form" prove
  // that the arithmetic agrees with the bit-vector expression of the source.

  /** The 16-bit big-endian word `(hi.astype(uint16) << 8) | lo`. */
  function Word(hi: Byte, lo: Byte): (w: nat)
    ensures w < 0x1_0000
  {
    hi as int * 256 + lo as int
  }

  lemma DivMod16(x: bv16)
    ensures x as int == (x / 256) as int * 256 + (x % 256) as int
  {}

  lemma ShiftOrParts(hi: Byte, lo: Byte)
    ensures ((hi as bv16 << 8) | lo as bv16) / 256 == hi as bv16
    ensures ((hi as bv16 << 8) | lo as bv16) % 256 == lo as bv16
  {}

  lemma Widen(b: Byte)
    ensures (b as bv16) as int == b as int
  {}

  /** Source form of `Word`. */
  lemma WordIsShiftOr(hi: Byte, lo: Byte)
    ensures ((hi as bv16 << 8) | lo as bv16) as int == Word(hi, lo)
  {
    DivMod16((hi as bv16 << 8) | lo as bv16);
    ShiftOrParts(hi, lo);
    Widen(hi);
    Widen(lo);
  }

  /**
   The float32 step `v[v > 32767] -= 65536` applied to a 16-bit word: the
   two's-complement reading, the one value in [-32768, 32767] congruent to
   the word modulo 2^16.
   */
  function Signed16(n: int): (v: int)
    requires 0 <= n < 0x1_0000
    ensures -32768 <= v <= 32767
    ensures v % 0x1_0000 == n
    ensures v < 0 <==> n > 32767
  {
    if n > 32767 then n - 0x1_0000 else n
  }

  /** `angle_h_raw` from bytes 0 and 1: signed horizontal angle in hundredths of a degree. */
  function HorizontalRaw(b0: Byte, b1: Byte): (h: int)
    ensures -32768 <= h <= 32767
    ensures h % 0x1_0000 == b0 as int * 256 + b1 as int
    ensures h < 0 <==> b0 as int >= 0x80
  {
    Signed16(Word(b0, b1))
  }

  /** `channel_id = b2 >> 6`: the top two bits of byte 2. */
  function ChannelId(b2: Byte): (c: nat)
    ensures c < 4
  {
    b2 as int / 64
  }

  /** Source form of `ChannelId`. */
  lemma ChannelIdIsShift(b2: Byte)
    ensures (b2 >> 6) as int == ChannelId(b2)
  {}

  /** `t_symbol = (b2 >> 5) & 1`: bit 5 of byte 2, the sign of the vertical angle. */
  predicate SignFlag(b2: Byte) {
    b2 as int / 32 % 2 == 1
  }

  /** Source form of `SignFlag`. */
  lemma SignFlagIsBit5(b2: Byte)
    ensures (b2 >> 5) & 0x01 == 1 <==> SignFlag(b2)
  {}

  /** `pos_high << 8 | b3` with `pos_high = b2 & 0x3F`: the low fourteen bits of the word. */
  function LowFourteenBits(b2: Byte, b3: Byte): (w: nat)
    ensures w < 0x4000
  {
    b2 as int % 64 * 256 + b3 as int
  }

  /** `angle_v_val | 0xC000`: the word with its top two bits forced to one. */
  function ForcedWord(b2: Byte, b3: Byte): (w: nat)
    ensures 0xC000 <= w < 0x1_0000
  {
    0xC000 + LowFourteenBits(b2, b3)
  }

  lemma LowSixBits(b: Byte)
    ensures (b | 0xC0) as int == 192 + (b & 0x3F) as int
    ensures (b & 0x3F) as int == b as int % 64
  {}

  lemma ForceTopBits(b2: Byte, b3: Byte)
    ensures ((b2 as bv16 << 8) | b3 as bv16) | 0xC000 == ((b2 | 0xC0) as bv16 << 8) | b3 as bv16
  {}

  /** Source form of `ForcedWord`. */
  lemma ForcedWordIsOr(b2: Byte, b3: Byte)
    ensures (((b2 as bv16 << 8) | b3 as bv16) | 0xC000) as int == ForcedWord(b2, b3)
  {
    ForceTopBits(b2, b3);
    WordIsShiftOr(b2 | 0xC0, b3);
    LowSixBits(b2);
  }

  /** Source form of `LowFourteenBits`. */
  lemma LowFourteenBitsIsMaskShiftOr(b2: Byte, b3: Byte)
    ensures (((b2 & 0x3F) as bv16 << 8) | b3 as bv16) as int == LowFourteenBits(b2, b3)
  {
    WordIsShiftOr(b2 & 0x3F, b3);
    LowSixBits(b2);
  }

  /**
   `angle_v_final` from bytes 2 and 3, in units of 0.0025 degrees: with the
   sign flag set the forced word read as signed 16-bit, otherwise the low
   fourteen bits. Either way the result is the 14-bit two's-complement
   reading of the low fourteen bits, and its sign is the flag.
   */
  function VerticalRaw(b2: Byte, b3: Byte): (v: int)
    ensures -8192 <= v <= 8191
    ensures v < 0 <==> SignFlag(b2)
    ensures v % 0x4000 == LowFourteenBits(b2, b3)
  {
    SignIsBit13(b2, b3);
    if SignFlag(b2) then Signed16(ForcedWord(b2, b3)) else LowFourteenBits(b2, b3)
  }

  /** Bit 5 of byte 2 is bit 13 of the fourteen-bit value. */
  lemma SignIsBit13(b2: Byte, b3: Byte)
    ensures SignFlag(b2) <==> LowFourteenBits(b2, b3) >= 0x2000
  {
    Bit5IsHalfOfLowSix(b2 as int);
  }

  /** Bit 5 of a byte is set exactly when its low six bits are at least 32. */
  lemma Bit5IsHalfOfLowSix(b: int)
    requires 0 <= b < 256
    ensures b / 32 % 2 == 1 <==> b % 64 >= 32
  {
    var x := b / 32;
    assert b == 32 * x + b % 32;
    assert b == 64 * (x / 2) + 32 * (x % 2) + b % 32;
  }

  /** `(b4 << 16) | (b5 << 8) | b6` in uint32: the 24-bit big-endian distance. */
  function DistanceRaw(b4: Byte, b5: Byte, b6: Byte): (d: nat)
    ensures d < 0x100_0000
  {
    b4 as int * 0x1_0000 + b5 as int * 0x100 + b6 as int
  }

  lemma DistanceWordParts(b4: Byte, b5: Byte, b6: Byte)
    ensures (b4 as bv32 << 16) | (b5 as bv32 << 8) | b6 as bv32 < 0x100_0000
    ensures (((b4 as bv32 << 16) | (b5 as bv32 << 8) | b6 as bv32) >> 8) as bv16
         == (b4 as bv16 << 8) | b5 as bv16
    ensures (((b4 as bv32 << 16) | (b5 as bv32 << 8) | b6 as bv32) & 0xFF) as bv8 == b6
  {}

  /**
   Source form of `DistanceRaw`: the uint32 word is below 2^24, its upper
   sixteen bits are the word of bytes 4 and 5 and its low byte is byte 6.
   */
  lemma DistanceIsShiftOr(b4: Byte, b5: Byte, b6: Byte)
    ensures (b4 as bv32 << 16) | (b5 as bv32 << 8) | b6 as bv32 < 0x100_0000
    ensures var word := (b4 as bv32 << 16) | (b5 as bv32 << 8) | b6 as bv32;
      ((word >> 8) as bv16) as int * 256 + ((word & 0xFF) as bv8) as int == DistanceRaw(b4, b5, b6)
  {
    DistanceWordParts(b4, b5, b6);
    WordIsShiftOr(b4, b5);
  }

  /** `idx = channel_id % 4`: the reduction never changes the channel id. */
  function MirrorIndex(b2: Byte): (i: nat)
    ensures i == ChannelId(b2)
    ensures i < |MirrorOffAngles|
  {
    ChannelId(b2) % 4
  }

  /** `MIRROR_OFF_ANGLES[idx]`, in degrees. */
  function MirrorOffset(b2: Byte): (a: real)
    ensures a == [1.5, -0.5, 0.5, -1.5][b2 as int / 64]
  {
    MirrorOffAngles[MirrorIndex(b2)]
  }

  // ---------------------------------------------------------------------------
  // Scaled measurement

  /** The five scalars a measurement record carries into the reconstruction. */
  datatype Measurement = Measurement(
    angleH: real,        // degrees, f_angle_h
    angleV: real,        // degrees, f_angle_v
    mirrorOffset: real,  // degrees, f_put_mirror_off_angle
    distance: real,      // metres, t_distance
    intensity: real)     // 0..255

  function Decode(r: Record): (m: Measurement)
    ensures -327.68 <= m.angleH <= 327.67
    ensures -20.48 <= m.angleV <= 20.4775
    ensures m.mirrorOffset in MirrorOffAngles
    ensures 0.0 <= m.distance <= 16777.215
    ensures 0.0 <= m.intensity <= 255.0
  {
    Measurement(
      HorizontalRaw(r[0], r[1]) as real * HAngleAcc,
      VerticalRaw(r[2], r[3]) as real * VAngleAcc,
      MirrorOffset(r[2]),
      DistanceRaw(r[4], r[5], r[6]) as real * DistAcc,
      r[7] as int as real)
  }

  /** The horizontal word 0x8000 is the most negative angle, -327.68 degrees. */
  lemma HorizontalMostNegative(r: Record)
    requires r[0] == 0x80 && r[1] == 0x00
    ensures HorizontalRaw(r[0], r[1]) == -32768
    ensures Decode(r).angleH == -327.68
  {}

  // ---------------------------------------------------------------------------
  // Points

  /** A decoded point: sensor-local coordinates and intensity. */
  datatype Point = Point(x: real, y: real, z: real, intensity: real)

  /**
   The dual-mirror reconstruction of x, y, z from a measurement (float32
   trigonometry); supplied by the caller.
   */
  type Geometry = Measurement -> (real, real, real)

  /** One row of `np.stack((x, y, z, intensity))`: the reconstructed coordinates and the record's own intensity. */
  function ToPoint(geometry: Geometry, m: Measurement): (p: Point)
    ensures (p.x, p.y, p.z) == geometry(m)
    ensures p.intensity == m.intensity
  {
    var (x, y, z) := geometry(m);
    Point(x, y, z, m.intensity)
  }

  function Abs(a: real): real {
    if a < 0.0 then -a else a
  }

  /** `mask_valid`: some coordinate lies farther than 0.1 from the origin. */
  predicate NonDegenerate(p: Point) {
    Abs(p.x) > 0.1 || Abs(p.y) > 0.1 || Abs(p.z) > 0.1
  }

  /** The points reconstructed from the measurement records, before the mask. */
  function Candidates(measurements: seq<Record>, geometry: Geometry): (ps: seq<Point>)
    ensures |ps| == |measurements|
    ensures forall i :: 0 <= i < |ps| ==> ps[i] == ToPoint(geometry, Decode(measurements[i]))
  {
    Map((r: Record) => ToPoint(geometry, Decode(r)), measurements)
  }

  /** `points[mask_valid]`. */
  function ValidPoints(measurements: seq<Record>, geometry: Geometry): (ps: seq<Point>)
    ensures |ps| <= |measurements|
    ensures forall i :: 0 <= i < |ps| ==> NonDegenerate(ps[i])
    ensures IsSubsequence(ps, Candidates(measurements, geometry))
    ensures forall p :: p in Candidates(measurements, geometry) && NonDegenerate(p) ==> p in ps
    ensures forall p ::
      multiset(ps)[p] == (if NonDegenerate(p) then multiset(Candidates(measurements, geometry))[p] else 0)
  {
    var candidates := Candidates(measurements, geometry);
    FilterIsSubsequence(NonDegenerate, candidates);
    FilterMultiset(NonDegenerate, candidates);
    Filter(NonDegenerate, candidates)
  }

  // ---------------------------------------------------------------------------
  // Trailer timestamp

  datatype CalendarTime = CalendarTime(year: int, month: int, day: int, hour: int, minute: int, second: int)

  /**
   `datetime(...).timestamp()`: seconds since the epoch, or None where Python
   raises (an invalid calendar value, a timestamp out of range).
   */
  type Clock = CalendarTime -> Option<real>

  /** `struct.unpack('>I', b)`. */
  function BigEndian32(b: seq<Byte>): (n: nat)
    requires |b| == 4
    ensures n < 0x1_0000_0000
  {
    ((b[0] as int * 256 + b[1] as int) * 256 + b[2] as int) * 256 + b[3] as int
  }

  /** The fields read from trailer bytes 2..7: years since 2000, month, day, hour, minute, second. */
  function TrailerCalendar(tail: seq<Byte>): (c: CalendarTime)
    requires |tail| >= 8
    ensures 2000 <= c.year <= 2255
    ensures 0 <= c.month <= 255 && 0 <= c.day <= 255 && 0 <= c.hour <= 255
    ensures 0 <= c.minute <= 255 && 0 <= c.second <= 255
  {
    var t := tail[2..8];
    CalendarTime(2000 + t[0] as int, t[1] as int, t[2] as int, t[3] as int, t[4] as int, t[5] as int)
  }

  /** `pkt_timestamp`: calendar instant plus the nanosecond fraction, 0.0 when the conversion raises. */
  function PacketTimestamp(tail: seq<Byte>, clock: Clock): (ts: real)
    requires |tail| >= 12
    ensures clock(TrailerCalendar(tail)).None? ==> ts == 0.0
    ensures clock(TrailerCalendar(tail)).Some? ==>
      clock(TrailerCalendar(tail)).value <= ts < clock(TrailerCalendar(tail)).value + 4.3
  {
    var nanoseconds := BigEndian32(tail[8..12]);
    match clock(TrailerCalendar(tail))
    case None => 0.0
    case Some(seconds) => seconds + nanoseconds as real / 1000000000.0
  }

  // ---------------------------------------------------------------------------
  // The whole packet

  /** `(points, is_new_frame, pkt_timestamp)`; `points` is None for Python's `None`. */
  datatype PacketResult = PacketResult(points: Option<seq<Point>>, isNewFrame: bool, timestamp: real)

  function ParsePacketBatch(payload: seq<Byte>, geometry: Geometry, clock: Clock): (res: PacketResult)
    ensures |payload| < MinPacketLength ==> res == PacketResult(None, false, 0.0)
    ensures |payload| >= MinPacketLength ==>
      (res.isNewFrame <==> exists i :: 0 <= i < RecordCount && IsHeader(Records(payload)[i]))
    ensures |payload| >= MinPacketLength ==>
      (res.points.None? <==> forall i :: 0 <= i < RecordCount ==> IsHeader(Records(payload)[i]))
    ensures res.points.Some? ==>
      var measurements := Filter(IsMeasurement, Records(payload));
      && |res.points.value| <= |measurements|
      && IsSubsequence(res.points.value, Candidates(measurements, geometry))
      && (forall i :: 0 <= i < |res.points.value| ==> NonDegenerate(res.points.value[i]))
      && (forall p :: p in Candidates(measurements, geometry) && NonDegenerate(p) ==> p in res.points.value)
      && (forall p ::
            multiset(res.points.value)[p] == (if NonDegenerate(p) then multiset(Candidates(measurements, geometry))[p] else 0))
    ensures |payload| >= MinPacketLength ==>
      res.timestamp == PacketTimestamp(payload[DataLength..], clock)
  {
    if |payload| < MinPacketLength then
      PacketResult(None, false, 0.0)
    else
      var rawData := Records(payload);
      var timestamp := PacketTimestamp(payload[DataLength..], clock);
      var isNewFrame := exists i :: 0 <= i < |rawData| && IsHeader(rawData[i]);
      var validData := Filter(IsMeasurement, rawData);
      FilterKeepsAll(IsHeader, rawData);
      NoMeasurementsMeansAllHeaders(rawData);
      if |validData| == 0 then
        PacketResult(None, isNewFrame, timestamp)
      else
        PacketResult(Some(ValidPoints(validData, geometry)), isNewFrame, timestamp)
  }

  lemma NoMeasurementsMeansAllHeaders(rs: seq<Record>)
    ensures |Filter(IsMeasurement, rs)| == 0 <==> forall i :: 0 <= i < |rs| ==> IsHeader(rs[i])
  {
    if |Filter(IsMeasurement, rs)| != 0 {
      var m := Filter(IsMeasurement, rs)[0];
      assert m in rs && IsMeasurement(m);
    }
    if exists i :: 0 <= i < |rs| && !IsHeader(rs[i]) {
      var i :| 0 <= i < |rs| && !IsHeader(rs[i]);
      assert rs[i] in Filter(IsMeasurement, rs);
    }
  }

  /** Header and measurement records together are always all 149 records. */
  lemma RecordsPartition(payload: seq<Byte>)
    requires |payload| >= MinPacketLength
    ensures |Filter(IsHeader, Records(payload))| + |Filter(IsMeasurement, Records(payload))| == RecordCount
  {
    FilterPartition(IsHeader, IsMeasurement, Records(payload));
  }

  /** A packet of only header records yields no points but still marks a boundary. */
  lemma AllHeadersPacket(payload: seq<Byte>, geometry: Geometry, clock: Clock)
    requires |payload| >= MinPacketLength
    requires forall i :: 0 <= i < RecordCount ==> IsHeader(Records(payload)[i])
    ensures ParsePacketBatch(payload, geometry, clock).points == None
    ensures ParsePacketBatch(payload, geometry, clock).isNewFrame
  {
    assert IsHeader(Records(payload)[0]);
  }

  /** The boundary flag is set exactly when fewer than 149 records are measurements. */
  lemma BoundaryIffHeaderCounted(payload: seq<Byte>, geometry: Geometry, clock: Clock)
    requires |payload| >= MinPacketLength
    ensures ParsePacketBatch(payload, geometry, clock).isNewFrame
        <==> |Filter(IsHeader, Records(payload))| > 0
  {
    var rs := Records(payload);
    if |Filter(IsHeader, rs)| > 0 {
      var h := Filter(IsHeader, rs)[0];
      assert h in rs && IsHeader(h);
      var i :| 0 <= i < |rs| && rs[i] == h;
    }
    if exists i :: 0 <= i < |rs| && IsHeader(rs[i]) {
      var i :| 0 <= i < |rs| && IsHeader(rs[i]);
      assert rs[i] in Filter(IsHeader, rs);
    }
  }
}
