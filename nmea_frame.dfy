/**
 * The fast-packet frame codec: one 8-byte CAN frame.
 *
 * Byte 0 holds the sequence counter in bits 7-5 and the frame counter in bits 4-0.
 * A first frame (frame counter 0) carries the total payload length in byte 1 and six
 * payload bytes; any other frame carries seven payload bytes.
 */
module NmeaFrame {
  import opened Wrappers

  /** An unsigned 8-bit value (Rust `u8`). */
  type Byte = b: int | 0 <= b < 256

  /** The 8 bytes of one CAN frame. */
  type FrameBytes = s: seq<Byte> | |s| == 8 witness [0, 0, 0, 0, 0, 0, 0, 0]

  /** The value written into unused payload bytes. */
  const Padding: Byte := 0xFF

  datatype Error = InvalidParameter

  datatype Frame = Frame(bytes: FrameBytes)

  // ---------------------------------------------------------------------------
  // Byte 0 of a frame. The source reads and writes it with u8 masks and shifts; the model
  // uses the integer arithmetic those expressions compute, and the lemmas below prove that
  // each integer form equals the source's bit-vector expression, for every byte.

  /** `s << 5` on a u8: the bits moved past bit 7 are lost. */
  function ShiftLeft5(s: Byte): (r: Byte)
  {
    (s * 32) % 256
  }

  /** `(s << 5) | fc` for counters in range: the two fields do not overlap. */
  function PackCounters(s: Byte, fc: Byte): (r: Byte)
    requires s <= 7 && fc <= 31
  {
    s * 32 + fc
  }

  lemma DisjointOr(x: bv8, y: bv8)
    requires y as int < 32
    ensures (x << 5) | y == (x << 5) + y
    ensures ((x << 5) + y) as int == ((x << 5) as int) + (y as int)
  {
    assert (x << 5) as int <= 224;
  }

  /**
   * On a source byte `x`, `(x & 0xE0) >> 5` is the quotient by 32 and `x & 0x1F` the
   * remainder (src/nmea_frame.rs:63-69).
   */
  lemma CounterMasks(x: bv8)
    ensures ((x & 0xE0) >> 5) as int == (x as int) / 32
    ensures (x & 0x1F) as int == (x as int) % 32
  {
    assert (x & 0xE0) >> 5 == x >> 5;
  }

  /** `ShiftLeft5` is the source's `sequence_counter << 5` (src/nmea_frame.rs:34). */
  lemma ShiftMatches(x: bv8)
    ensures (x << 5) as int == ShiftLeft5(x as int)
  {
  }

  /** `PackCounters` is the source's `(sequence_counter << 5) | frame_counter` (src/nmea_frame.rs:49). */
  lemma PackMatches(x: bv8, y: bv8)
    requires x as int <= 7 && y as int <= 31
    ensures ((x << 5) | y) as int == PackCounters(x as int, y as int)
  {
    DisjointOr(x, y);
    ShiftMatches(x);
    ShiftedCounter(x as int);
  }

  /** A shifted sequence counter keeps the low three bits of the original, in bits 7-5. */
  lemma ShiftedCounter(s: Byte)
    ensures ShiftLeft5(s) == (s % 8) * 32
  {
    var q, r := s / 8, s % 8;
    assert s * 32 == 256 * q + 32 * r;
  }

  // ---------------------------------------------------------------------------
  // Accessors (src/nmea_frame.rs:63-89)

  /** Bits 7-5 of byte 0, `(bytes[0] & 0xE0) >> 5` (see CounterMasks). */
  function SequenceCounter(f: Frame): (r: Byte)
    ensures r <= 7
  {
    f.bytes[0] / 32
  }

  /** Bits 4-0 of byte 0, `bytes[0] & 0x1F`; with the sequence counter it makes up all of byte 0. */
  function FrameCounter(f: Frame): (r: Byte)
    ensures r <= 31
    ensures f.bytes[0] == SequenceCounter(f) * 32 + r
  {
    f.bytes[0] % 32
  }

  /** `is_first_frame`: the frame counter is 0, so byte 0 holds nothing but the sequence counter. */
  predicate IsFirstFrame(f: Frame)
    ensures IsFirstFrame(f) <==> f.bytes[0] == SequenceCounter(f) * 32
  {
    FrameCounter(f) == 0
  }

  /** The declared payload length, present exactly on a first frame. */
  function DataLen(f: Frame): (r: Option<Byte>)
    ensures r.Some? <==> IsFirstFrame(f)
    ensures r.Some? ==> r.value == f.bytes[1]
  {
    if !IsFirstFrame(f) then None else Some(f.bytes[1])
  }

  /** The payload view: the last six bytes of a first frame, the last seven of any other. */
  function Payload(f: Frame): (r: seq<Byte>)
    ensures |r| == if IsFirstFrame(f) then 6 else 7
    ensures r == f.bytes[8 - |r|..]
  {
    if !IsFirstFrame(f) then f.bytes[1..] else f.bytes[2..]
  }

  // ---------------------------------------------------------------------------
  // Encoders, as values (src/nmea_frame.rs:32-52)

  /** The first frame of a sequence: counter byte, length byte, six payload bytes. */
  function EncodeFirst(b: seq<Byte>, len: Byte, s: Byte): (f: Frame)
    requires |b| == 6
    ensures SequenceCounter(f) == s % 8 && FrameCounter(f) == 0
    ensures IsFirstFrame(f) && DataLen(f) == Some(len) && Payload(f) == b
  {
    ShiftedCounter(s);
    Frame([ShiftLeft5(s), len] + b)
  }

  /**
   * A frame with seven payload bytes. Only the counters' upper bounds are checked, so a
   * frame counter of 0 is accepted and yields a frame that reads back as a first frame.
   */
  function EncodeConsecutive(b: seq<Byte>, s: Byte, fc: Byte): (r: Result<Frame, Error>)
    requires |b| == 7
    ensures r.Err? <==> s > 7 || fc > 31
    ensures r.Ok? ==> SequenceCounter(r.value) == s && FrameCounter(r.value) == fc
    ensures r.Ok? && fc != 0 ==>
      !IsFirstFrame(r.value) && DataLen(r.value) == None && Payload(r.value) == b
    ensures r.Ok? && fc == 0 ==>
      IsFirstFrame(r.value) && DataLen(r.value) == Some(b[0]) && Payload(r.value) == b[1..]
  {
    if s > 7 || fc > 31 then
      Err(InvalidParameter)
    else
      Ok(Frame([PackCounters(s, fc)] + b))
  }

  /**
   * The reverse round trip: every 8-byte frame is what the encoder its frame counter
   * selects builds from the frame's own counters, length byte and payload.
   */
  lemma {:induction false} DecodeEncode(f: Frame)
    ensures IsFirstFrame(f) ==>
      EncodeFirst(Payload(f), DataLen(f).value, SequenceCounter(f)) == f
    ensures !IsFirstFrame(f) ==>
      EncodeConsecutive(Payload(f), SequenceCounter(f), FrameCounter(f)) == Ok(f)
  {
    var b := f.bytes;
    if IsFirstFrame(f) {
      ShiftedCounter(SequenceCounter(f));
      assert [b[0], b[1]] + b[2..] == b;
    } else {
      assert [b[0]] + b[1..] == b;
    }
  }

  // ---------------------------------------------------------------------------
  // Encoders and decoder as the source runs them: step by step into a local buffer.

  /** `Frame::first_frame`: no failure mode. */
  method FirstFrame(b: seq<Byte>, len: Byte, s: Byte) returns (f: Frame)
    requires |b| == 6
    ensures f == EncodeFirst(b, len, s)
  {
    var buf := new Byte[8](_ => Padding);
    buf[0] := ShiftLeft5(s);
    buf[1] := len;
    forall i | 0 <= i < 6 {
      buf[2 + i] := b[i];
    }
    assert buf[..] == [ShiftLeft5(s), len] + b;
    f := Frame(buf[..]);
  }

  /** `Frame::consecutive_frame`: fails with InvalidParameter on an out-of-range counter. */
  method ConsecutiveFrame(b: seq<Byte>, s: Byte, fc: Byte) returns (r: Result<Frame, Error>)
    requires |b| == 7
    ensures r == EncodeConsecutive(b, s, fc)
  {
    var buf := new Byte[8](_ => Padding);
    if s > 7 || fc > 31 {
      return Err(InvalidParameter);
    }
    buf[0] := PackCounters(s, fc);
    forall i | 0 <= i < 7 {
      buf[1 + i] := b[i];
    }
    assert buf[..] == [PackCounters(s, fc)] + b;
    r := Ok(Frame(buf[..]));
  }

  /**
   * `Frame::from_bytes`: copies as many bytes as both sides have. Missing bytes stay 0 and
   * extra input bytes are ignored, so exactly 8 bytes come back unchanged.
   */
  method FromBytes(b: seq<Byte>) returns (f: Frame)
    ensures forall i :: 0 <= i < 8 ==> f.bytes[i] == if i < |b| then b[i] else 0
    ensures |b| == 8 ==> f.bytes == b
  {
    var buf := new Byte[8](_ => 0);
    var i := 0;
    while i < |b| && i < 8
      invariant 0 <= i <= 8 && i <= |b|
      invariant forall k :: 0 <= k < i ==> buf[k] == b[k]
      invariant forall k :: i <= k < 8 ==> buf[k] == 0
    {
      buf[i] := b[i];
      i := i + 1;
    }
    f := Frame(buf[..]);
  }
}
