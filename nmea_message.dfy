/**
 * A fast-packet message: a bounded FIFO of frames plus the bookkeeping of the receive
 * state machine (src/nmea_message.rs).
 *
 * The frame store is modelled as a sequence of capacity 31. Every push site of the source
 * discards the push's result, so a push onto a full store leaves it unchanged.
 */
module NmeaMessage {
  import opened Wrappers
  import opened NmeaFrame

  /** The largest payload a message is built for. */
  const MaxPacketSize: nat := 223

  /** Capacity of the frame store. */
  const QueueCapacity: nat := 31

  datatype Error =
    | EmptyQueue
    | FullQueue
    | TransmissionTypeMismatch
    | SequenceCountError
    | SequenceMismatch

  /** Recorded by `from_payload` and `clear`, never read. */
  datatype MessageType = Single | Consecutive | Unknown

  datatype TransmissionType = Rx | Tx

  /** The value of every field of a message. */
  datatype MessageState = MessageState(
    queue: seq<Frame>,
    messageType: MessageType,
    transmission: TransmissionType,
    numFrames: Byte,
    dataLen: Byte,
    sequenceCounter: Byte,
    curFrameCounter: Byte)

  /** The state `new()` builds and `clear()` restores. */
  const Empty: MessageState := MessageState([], Unknown, Rx, 0, 0, 0, 0)

  /** Appending to the store; a full store ignores the push. */
  function PushBack(q: seq<Frame>, f: Frame): (r: seq<Frame>)
  {
    if |q| < QueueCapacity then q + [f] else q
  }

  /** What a store of capacity 31 keeps of a sequence of pushes. */
  function Bounded(q: seq<Frame>): (r: seq<Frame>)
  {
    if |q| <= QueueCapacity then q else q[..QueueCapacity]
  }

  lemma PushBackBounded(q: seq<Frame>, f: Frame)
    ensures PushBack(Bounded(q), f) == Bounded(q + [f])
  {
    if |q| > QueueCapacity {
      assert (q + [f])[..QueueCapacity] == q[..QueueCapacity];
    }
  }

  // ---------------------------------------------------------------------------
  // Receive path (src/nmea_message.rs:60-95)

  /** The receive-side frame count derived from a first frame's length byte. */
  function ExpectedFrames(len: Byte): (r: Byte)
  {
    if len <= 6 then 1 else len / 7 + 1
  }

  /** A complete message: the store is non-empty and holds `num_frames` frames. */
  predicate QueueComplete(st: MessageState)
  {
    0 < |st.queue| && |st.queue| == st.numFrames
  }

  /**
   * The case where the source computes `num_frames - 1` with `num_frames == 0`: an
   * in-order non-first frame reaching a receive message that has seen no first frame.
   * A debug build panics there; a release build wraps around.
   */
  predicate ReachesUnderflow(st: MessageState, raw: FrameBytes)
  {
    var f := Frame(raw);
    st.transmission == Rx && st.numFrames == 0 && !IsFirstFrame(f)
    && st.sequenceCounter == SequenceCounter(f) && st.curFrameCounter + 1 == FrameCounter(f)
  }

  /** `add_frame` on the value of a message: the new state and the call's result. */
  function Receive(st: MessageState, raw: FrameBytes): (r: (MessageState, Result<bool, Error>))
    requires !ReachesUnderflow(st, raw)
  {
    var f := Frame(raw);
    if st.transmission == Tx then
      (st, Err(TransmissionTypeMismatch))
    else if QueueComplete(st) then
      (st, Err(FullQueue))
    else if IsFirstFrame(f) then
      var len := f.bytes[1];
      (st.(numFrames := ExpectedFrames(len), sequenceCounter := SequenceCounter(f),
           dataLen := len, queue := PushBack(st.queue, f), curFrameCounter := 0),
       Ok(false))
    else if st.sequenceCounter != SequenceCounter(f) then
      (st, Err(SequenceCountError))
    else if st.curFrameCounter + 1 != FrameCounter(f) then
      (st, Err(SequenceMismatch))
    else if FrameCounter(f) >= st.numFrames - 1 then
      (st.(queue := PushBack(st.queue, f)), Ok(true))
    else
      (st.(queue := PushBack(st.queue, f), curFrameCounter := FrameCounter(f)), Ok(false))
  }

  /**
   * Each guard of `add_frame` rejects exactly in its own case, and every rejection leaves
   * the message as it was.
   */
  lemma ReceiveRejects(st: MessageState, raw: FrameBytes)
    requires !ReachesUnderflow(st, raw)
    ensures Receive(st, raw).1.Err? ==> Receive(st, raw).0 == st
    ensures Receive(st, raw).1 == Err(TransmissionTypeMismatch) <==> st.transmission == Tx
    ensures Receive(st, raw).1 == Err(FullQueue) <==>
      st.transmission == Rx && QueueComplete(st)
    ensures Receive(st, raw).1 == Err(SequenceCountError) <==>
      st.transmission == Rx && !QueueComplete(st) && !IsFirstFrame(Frame(raw))
      && st.sequenceCounter != SequenceCounter(Frame(raw))
    ensures Receive(st, raw).1 == Err(SequenceMismatch) <==>
      st.transmission == Rx && !QueueComplete(st) && !IsFirstFrame(Frame(raw))
      && st.sequenceCounter == SequenceCounter(Frame(raw))
      && st.curFrameCounter + 1 != FrameCounter(Frame(raw))
    ensures Receive(st, raw).1 != Err(EmptyQueue)
  {
  }

  /**
   * A first frame (re)starts the bookkeeping from its own length and sequence counter and
   * is appended to whatever the store already holds; the call never reports completion.
   */
  lemma ReceiveFirstFrame(st: MessageState, raw: FrameBytes)
    requires st.transmission == Rx && !QueueComplete(st) && IsFirstFrame(Frame(raw))
    ensures !ReachesUnderflow(st, raw)
    ensures Receive(st, raw).1 == Ok(false)
    ensures var st' := Receive(st, raw).0;
      && st'.numFrames == (if raw[1] <= 6 then 1 else raw[1] / 7 + 1)
      && st'.sequenceCounter == raw[0] / 32
      && st'.dataLen == raw[1]
      && st'.curFrameCounter == 0
      && st'.queue == PushBack(st.queue, Frame(raw))
      && st'.transmission == Rx && st'.messageType == st.messageType
  {
  }

  /**
   * An in-order frame of the current sequence is appended; it completes the message
   * exactly when its index reaches `num_frames - 1`, and only an incomplete step moves
   * `cur_frame_counter` on.
   */
  lemma ReceiveNextFrame(st: MessageState, raw: FrameBytes)
    requires st.transmission == Rx && !QueueComplete(st) && st.numFrames >= 1
    requires !IsFirstFrame(Frame(raw))
    requires SequenceCounter(Frame(raw)) == st.sequenceCounter
    requires FrameCounter(Frame(raw)) == st.curFrameCounter + 1
    ensures !ReachesUnderflow(st, raw)
    ensures Receive(st, raw).1 == Ok(raw[0] % 32 >= st.numFrames - 1)
    ensures Receive(st, raw).0.queue == PushBack(st.queue, Frame(raw))
    ensures Receive(st, raw).0.curFrameCounter ==
      if raw[0] % 32 >= st.numFrames - 1 then st.curFrameCounter else raw[0] % 32
    ensures Receive(st, raw).0 == st.(queue := Receive(st, raw).0.queue,
                                      curFrameCounter := Receive(st, raw).0.curFrameCounter)
  {
  }

  // ---------------------------------------------------------------------------
  // Transmit path (src/nmea_message.rs:97-165)

  /** `b` cut or padded to exactly `n` bytes. */
  function Fit(b: seq<Byte>, n: nat, fill: Byte): (r: seq<Byte>)
    ensures |r| == n
    ensures forall i :: 0 <= i < n ==> r[i] == if i < |b| then b[i] else fill
  {
    if |b| >= n then b[..n] else b + seq(n - |b|, _ => fill)
  }

  /** Consecutive frames after the first: the full 7-byte chunks plus one for a remainder. */
  function NumChunks(len: nat): (r: nat)
  {
    if len <= 6 then 0 else (len - 6) / 7 + (if (len - 6) % 7 == 0 then 0 else 1)
  }

  /** Frames `from_payload` emits for a payload of `len` bytes. */
  function FrameCount(len: nat): (r: nat)
  {
    1 + NumChunks(len)
  }

  /** Bytes the emitted frames carry: the payload and its 0xFF padding. */
  function PaddedLength(len: nat): (r: nat)
  {
    6 + 7 * NumChunks(len)
  }

  lemma ChunkBounds(len: nat, i: nat)
    requires 6 < len && i < NumChunks(len)
    ensures 6 + i * 7 < len
    ensures len <= PaddedLength(len) < len + 7
  {
  }

  /** Consecutive frame `i + 1` of a multi-frame payload. */
  function Chunk(p: seq<Byte>, s: Byte, i: nat): (r: Frame)
    requires 6 < |p| <= MaxPacketSize && s <= 7 && i < NumChunks(|p|)
  {
    ChunkBounds(|p|, i);
    EncodeConsecutive(Fit(p[6 + i * 7..], 7, Padding), s, i + 1).value
  }

  /** Inputs on which `from_payload` neither panics nor wraps its length around a u8. */
  predicate Segmentable(p: seq<Byte>, s: Byte)
  {
    |p| <= MaxPacketSize && (|p| > 6 ==> s <= 7)
  }

  /** Every frame `from_payload` builds for `p`, before the store's capacity applies. */
  function Segments(p: seq<Byte>, s: Byte): (r: seq<Frame>)
    requires Segmentable(p, s)
  {
    if |p| <= 6 then
      [EncodeFirst(Fit(p, 6, Padding), |p|, s)]
    else
      [EncodeFirst(p[..6], |p|, s)]
      + seq(NumChunks(|p|), i requires 0 <= i < NumChunks(|p|) => Chunk(p, s, i))
  }

  /** The message `from_payload` builds. */
  function Transmit(p: seq<Byte>, s: Byte): (r: MessageState)
    requires Segmentable(p, s)
  {
    if |p| <= 6 then
      MessageState(Segments(p, s), Single, Tx, 1, |p|, 0, 0)
    else
      MessageState(Bounded(Segments(p, s)), Consecutive, Tx, 0, |p|, s, 0)
  }

  // ---------------------------------------------------------------------------
  // Flattening (src/nmea_message.rs:171-185)

  /** `data` written over `buf` from offset `at`. */
  function Overwrite(buf: seq<Byte>, at: nat, data: seq<Byte>): (r: seq<Byte>)
    requires at + |data| <= |buf|
    ensures |r| == |buf|
    ensures forall k :: 0 <= k < |buf| ==>
      r[k] == if at <= k < at + |data| then data[k - at] else buf[k]
  {
    buf[..at] + data + buf[at + |data|..]
  }

  /** Whether every write `get_payload` makes for `q`, from offset `off`, stays inside `n` bytes. */
  predicate FitsIn(q: seq<Frame>, off: nat, n: nat)
    decreases |q|
  {
    q == [] ||
    if IsFirstFrame(q[0]) then 6 <= n && FitsIn(q[1..], off + 6, n)
    else off + 7 <= n && FitsIn(q[1..], off + 7, n)
  }

  /**
   * The writes `get_payload` makes for `q` with its offset at `off`: a first frame's
   * payload goes to offset 0, any other frame's to the offset, which then moves on by 6
   * or 7 bytes.
   */
  function Write(q: seq<Frame>, off: nat, buf: seq<Byte>): (r: seq<Byte>)
    requires FitsIn(q, off, |buf|)
    ensures |r| == |buf|
    decreases |q|
  {
    if q == [] then buf
    else if IsFirstFrame(q[0]) then Write(q[1..], off + 6, Overwrite(buf, 0, Payload(q[0])))
    else Write(q[1..], off + 7, Overwrite(buf, off, Payload(q[0])))
  }

  /** The buffer `get_payload` leaves behind for store `q` and a buffer of `n` bytes. */
  function Assemble(q: seq<Frame>, n: nat): (r: seq<Byte>)
    requires FitsIn(q, 0, n)
    ensures |r| == n
  {
    Write(q, 0, seq(n, _ => Padding))
  }

  /** The payloads of `q`, back to back. */
  function Flatten(q: seq<Frame>): (r: seq<Byte>)
  {
    if q == [] then [] else Payload(q[0]) + Flatten(q[1..])
  }

  /** `copy_from_slice`: `data` copied into `buf` from offset `at`. */
  method CopyFromSlice(buf: array<Byte>, at: nat, data: seq<Byte>)
    requires at + |data| <= buf.Length
    modifies buf
    ensures buf[..] == Overwrite(old(buf[..]), at, data)
  {
    forall k | 0 <= k < |data| {
      buf[at + k] := data[k];
    }
  }

  lemma SegmentsLength(p: seq<Byte>, s: Byte)
    requires Segmentable(p, s)
    ensures |Segments(p, s)| == FrameCount(|p|)
  {
  }

  lemma SegmentAt(p: seq<Byte>, s: Byte, i: nat)
    requires 6 < |p| <= MaxPacketSize && s <= 7 && i < NumChunks(|p|)
    ensures |Segments(p, s)| == 1 + NumChunks(|p|)
    ensures Segments(p, s)[i + 1] == Chunk(p, s, i)
  {
  }

  /** A payload within bounds needs at most 31 consecutive frames. */
  lemma ChunkLimit(len: nat)
    requires len <= MaxPacketSize
    ensures NumChunks(len) <= QueueCapacity
  {
  }

  /** Chunk `i` encodes without an error: its frame counter `i + 1` is at most 31. */
  lemma ChunkEncodes(p: seq<Byte>, s: Byte, i: nat)
    requires 6 < |p| <= MaxPacketSize && s <= 7 && i < NumChunks(|p|)
    ensures 6 + i * 7 < |p|
    ensures EncodeConsecutive(Fit(p[6 + i * 7..], 7, Padding), s, i + 1) == Ok(Chunk(p, s, i))
  {
    ChunkBounds(|p|, i);
    ChunkLimit(|p|);
  }

  lemma FullChunkInRange(len: nat, i: nat)
    requires 6 < len && i < (len - 6) / 7
    ensures 6 + i * 7 + 7 <= len && i < NumChunks(len)
  {
  }

  lemma FullChunk(p: seq<Byte>, start: nat)
    requires start + 7 <= |p|
    ensures p[start..start + 7] == Fit(p[start..], 7, Padding)
  {
  }

  /** Full chunk `i` of the payload is what frame `i + 1` of the segmentation carries. */
  lemma NextChunk(p: seq<Byte>, s: Byte, i: nat)
    requires 6 < |p| <= MaxPacketSize && s <= 7 && i < (|p| - 6) / 7
    ensures 6 + i * 7 + 7 <= |p| && i + 2 <= |Segments(p, s)|
    ensures EncodeConsecutive(p[6 + i * 7..6 + i * 7 + 7], s, i + 1) == Ok(Segments(p, s)[i + 1])
  {
    FullChunkInRange(|p|, i);
    SegmentAt(p, s, i);
    ChunkEncodes(p, s, i);
    FullChunk(p, 6 + i * 7);
  }

  /** The padded remainder is what the last frame of the segmentation carries. */
  lemma LastChunk(p: seq<Byte>, s: Byte, n: nat)
    requires 6 < |p| <= MaxPacketSize && s <= 7 && n == (|p| - 6) / 7 && (|p| - 6) % 7 != 0
    ensures |Segments(p, s)| == n + 2
    ensures EncodeConsecutive(Fit(p[6 + n * 7..], 7, Padding), s, n + 1) == Ok(Segments(p, s)[n + 1])
  {
    assert NumChunks(|p|) == n + 1;
    SegmentAt(p, s, n);
    ChunkEncodes(p, s, n);
  }

  lemma WholePrefix(all: seq<Frame>, k: nat)
    requires k == |all|
    ensures Bounded(all[..k]) == Bounded(all)
  {
    assert all[..k] == all;
  }

  /** Appending the frame at position `i` of `all` to what the store kept of those before it. */
  lemma PushNext(all: seq<Frame>, i: nat)
    requires i < |all|
    ensures PushBack(Bounded(all[..i]), all[i]) == Bounded(all[..i + 1])
  {
    PushBackBounded(all[..i], all[i]);
    assert all[..i] + [all[i]] == all[..i + 1];
  }

  /** Appending the last frame of `all` to what the store kept of those before it. */
  lemma PushLast(all: seq<Frame>, q: seq<Frame>, k: nat)
    requires k + 1 == |all| && q == Bounded(all[..k])
    ensures PushBack(q, all[k]) == Bounded(all)
  {
    PushNext(all, k);
    WholePrefix(all, k + 1);
  }

  /** The padding loop of `from_payload` (src/nmea_message.rs:145-148): the bytes of `p` from `start`, padded to 7. */
  method PaddedChunk(p: seq<Byte>, start: nat) returns (padded: seq<Byte>)
    requires start <= |p| < start + 7
    ensures padded == Fit(p[start..], 7, Padding)
  {
    var buf := new Byte[7](_ => Padding);
    for i := 0 to |p| - start
      invariant forall k :: 0 <= k < i ==> buf[k] == p[start + k]
      invariant forall k :: i <= k < 7 ==> buf[k] == Padding
    {
      buf[i] := p[start + i];
    }
    padded := buf[..];
  }

  /**
   * The frame loop of `from_payload` (src/nmea_message.rs:97-155), which builds its store
   * in a local queue before any field is set.
   */
  method BuildQueue(p: seq<Byte>, s: Byte) returns (q: seq<Frame>)
    requires Segmentable(p, s)
    ensures q == Bounded(Segments(p, s))
  {
    if |p| <= 6 {
      q := SingleQueue(p, s);
    } else {
      q := ChunkedQueue(p, s);
    }
  }

  /** A payload of at most 6 bytes: one first frame, padded with 0xFF (src/nmea_message.rs:99-114). */
  method SingleQueue(p: seq<Byte>, s: Byte) returns (q: seq<Frame>)
    requires |p| <= 6
    ensures q == Bounded(Segments(p, s))
  {
    var padded := new Byte[6](_ => Padding);
    forall i | 0 <= i < |p| {
      padded[i] := p[i];
    }
    assert padded[..] == Fit(p, 6, Padding);
    var first := FirstFrame(padded[..], |p|, s);
    q := PushBack([], first);
  }

  /** The source's split of a longer payload into full chunks and a remainder. */
  lemma ChunkSplit(len: nat, numChunks: nat, remainingBytes: int)
    requires 6 < len <= MaxPacketSize
    requires numChunks == (len - 6) / 7 && remainingBytes == (len - 6) - 7 * numChunks
    ensures remainingBytes == (len - 6) % 7
    ensures NumChunks(len) == numChunks + (if remainingBytes > 0 then 1 else 0) <= 31
  {
  }

  /**
   * The first frame and the full 7-byte chunks of a longer payload (src/nmea_message.rs:116-141):
   * the store then holds what it keeps of the first `numChunks + 1` frames.
   */
  method FullChunkFrames(p: seq<Byte>, s: Byte) returns (q: seq<Frame>, numChunks: nat)
    requires 6 < |p| <= MaxPacketSize && s <= 7
    ensures numChunks == (|p| - 6) / 7 && numChunks + 1 <= |Segments(p, s)|
    ensures q == Bounded(Segments(p, s)[..numChunks + 1])
  {
    ghost var segments := Segments(p, s);
    var first := FirstFrame(p[..6], |p|, s);
    q := PushBack([], first);
    assert q == Bounded(segments[..1]);
    numChunks := (|p| - 6) / 7;
    var remainingBytes := (|p| - 6) - 7 * numChunks;
    var frameCounter: Byte := 1;
    ChunkSplit(|p|, numChunks, remainingBytes);
    SegmentsLength(p, s);
    for i := 0 to numChunks
      invariant frameCounter == i + 1
      invariant q == Bounded(segments[..i + 1])
    {
      NextChunk(p, s, i);
      var chunk := p[6 + i * 7..6 + i * 7 + 7];
      var frame := ConsecutiveFrame(chunk, s, frameCounter);
      match frame {
        case Ok(f) =>
          PushNext(segments, i + 1);
          q := PushBack(q, f);
        case Err(_) =>
          assert false;
      }
      frameCounter := frameCounter + 1;
    }
  }

  /** A longer payload: a first frame, the full 7-byte chunks, then a padded last chunk (src/nmea_message.rs:116-155). */
  method ChunkedQueue(p: seq<Byte>, s: Byte) returns (q: seq<Frame>)
    requires 6 < |p| <= MaxPacketSize && s <= 7
    ensures q == Bounded(Segments(p, s))
  {
    ghost var segments := Segments(p, s);
    var numChunks;
    q, numChunks := FullChunkFrames(p, s);
    var remainingBytes := (|p| - 6) - 7 * numChunks;
    var frameCounter: Byte := numChunks + 1;
    ChunkSplit(|p|, numChunks, remainingBytes);
    SegmentsLength(p, s);
    if remainingBytes > 0 {
      var padded := PaddedChunk(p, 6 + numChunks * 7);
      LastChunk(p, s, numChunks);
      var last := ConsecutiveFrame(padded, s, frameCounter);
      match last {
        case Ok(f) =>
          assert f == segments[numChunks + 1];
          PushLast(segments, q, numChunks + 1);
          q := PushBack(q, f);
        case Err(_) =>
          assert false;
      }
    } else {
      WholePrefix(segments, numChunks + 1);
    }
  }

  // ---------------------------------------------------------------------------
  // The message object

  class Message {
    var queue: seq<Frame>
    var messageType: MessageType
    var transmission: TransmissionType
    var numFrames: Byte
    var dataLen: Byte
    var sequenceCounter: Byte
    var curFrameCounter: Byte

    /**
     * The store is within capacity, and `cur_frame_counter` only ever holds 0 or a frame
     * counter, so `cur_frame_counter + 1` cannot overflow a u8.
     */
    ghost predicate Valid()
      reads this
    {
      |queue| <= QueueCapacity && curFrameCounter <= 31
    }

    function State(): (r: MessageState)
      reads this
    {
      MessageState(queue, messageType, transmission, numFrames, dataLen,
                   sequenceCounter, curFrameCounter)
    }

    /** `Message::new`: an empty receive message. */
    constructor ()
      ensures Valid() && State() == Empty
    {
      queue := [];
      messageType := Unknown;
      numFrames := 0;
      transmission := Rx;
      dataLen := 0;
      sequenceCounter := 0;
      curFrameCounter := 0;
    }

    /** `add_frame`: one step of the receive state machine. */
    method AddFrame(raw: FrameBytes) returns (r: Result<bool, Error>)
      requires Valid() && !ReachesUnderflow(State(), raw)
      modifies this
      ensures Valid()
      ensures (State(), r) == Receive(old(State()), raw)
      ensures r.Err? ==> State() == old(State())
    {
      if transmission == Tx {
        return Err(TransmissionTypeMismatch);
      }
      if |queue| != 0 && |queue| == numFrames {
        return Err(FullQueue);
      }
      var frame := FromBytes(raw);
      assert frame == Frame(raw);
      if IsFirstFrame(frame) {
        var len := DataLen(frame).value;
        if len <= 6 {
          numFrames := 1;
        } else {
          numFrames := len / 7 + 1;
        }
        sequenceCounter := SequenceCounter(frame);
        dataLen := len;
        queue := PushBack(queue, frame);
        curFrameCounter := 0;
      } else {
        if sequenceCounter != SequenceCounter(frame) {
          return Err(SequenceCountError);
        }
        if curFrameCounter + 1 != FrameCounter(frame) {
          return Err(SequenceMismatch);
        }
        var frameCounter := FrameCounter(frame);
        if frameCounter >= numFrames - 1 {
          queue := PushBack(queue, frame);
          return Ok(true);
        } else {
          queue := PushBack(queue, frame);
        }
        curFrameCounter := frameCounter;
      }
      return Ok(false);
    }

    /**
     * `from_payload`: the whole frame sequence for `p`, built up front. Payloads of 224 to
     * 255 bytes panic at frame counter 32; longer ones have their length taken mod 256 by
     * the `as u8` casts, which the length bound excludes. Between 217 and 223 bytes the
     * 32nd frame is pushed onto a full store.
     */
    constructor FromPayload(p: seq<Byte>, s: Byte)
      requires Segmentable(p, s)
      ensures Valid() && State() == Transmit(p, s)
    {
      var q := BuildQueue(p, s);
      queue := q;
      transmission := Tx;
      dataLen := |p|;
      curFrameCounter := 0;
      if |p| <= 6 {
        messageType := Single;
        numFrames := 1;
        sequenceCounter := 0;
      } else {
        messageType := Consecutive;
        numFrames := 0;
        sequenceCounter := s;
      }
    }

    /** `pop_frame`: the oldest stored frame, or None once the store is empty. */
    method PopFrame() returns (f: Option<Frame>)
      requires Valid()
      modifies this
      ensures Valid()
      ensures old(queue) == [] ==> f == None && queue == []
      ensures old(queue) != [] ==> f == Some(old(queue)[0]) && queue == old(queue)[1..]
      ensures State() == old(State()).(queue := queue)
    {
      if queue == [] {
        f := None;
      } else {
        f := Some(queue[0]);
        queue := queue[1..];
      }
    }

    /**
     * `get_payload`: fills `buf` with 0xFF, drains the store writing each payload into it,
     * and returns the declared length. The source panics when a write falls outside `buf`.
     */
    method GetPayload(buf: array<Byte>) returns (len: nat)
      requires Valid() && FitsIn(queue, 0, buf.Length)
      modifies this, buf
      ensures Valid()
      ensures buf[..] == Assemble(old(queue), buf.Length)
      ensures len == old(dataLen)
      ensures State() == old(State()).(queue := [])
    {
      forall k | 0 <= k < buf.Length {
        buf[k] := Padding;
      }
      assert buf[..] == seq(buf.Length, _ => Padding);
      var i := 0;
      while queue != []
        invariant Valid()
        invariant FitsIn(queue, i, buf.Length)
        invariant Write(queue, i, buf[..]) == Assemble(old(queue), buf.Length)
        invariant State() == old(State()).(queue := queue)
        decreases |queue|
      {
        var popped := PopFrame();
        var frame := popped.value;
        if IsFirstFrame(frame) {
          CopyFromSlice(buf, 0, Payload(frame));
          i := i + 6;
        } else {
          CopyFromSlice(buf, i, Payload(frame));
          i := i + 7;
        }
      }
      len := dataLen;
    }

    /** `clear`: back to the state `new()` builds. */
    method Clear()
      modifies this
      ensures Valid() && State() == Empty
    {
      queue := [];
      messageType := Unknown;
      transmission := Rx;
      numFrames := 0;
      dataLen := 0;
      sequenceCounter := 0;
      curFrameCounter := 0;
    }
  }
}
