/**
 * Properties that relate the transmit and receive halves of a fast-packet message:
 * segmentation, reassembly, and replaying one message's frames into another.
 */
module FastPacket {
  import opened Wrappers
  import opened NmeaFrame
  import opened NmeaMessage

  /** The longest payload whose frames all fit the 31-frame store: 6 + 7 * 30 bytes. */
  const MaxRelayedSize: nat := 6 + 7 * (QueueCapacity - 1)

  /** Inputs whose frames survive the store's capacity, so a round trip is possible. */
  predicate Relayable(p: seq<Byte>, s: Byte)
  {
    |p| <= MaxRelayedSize && (|p| > 6 ==> s <= 7)
  }

  // ---------------------------------------------------------------------------
  // Frame counts

  /**
   * The receive side's count `L / 7 + 1` (src/nmea_message.rs:69-73) equals the transmit
   * side's frame count: one first frame, the full chunks and a padded last one
   * (src/nmea_message.rs:125-155). `from_payload` only gets that far for L up to 223.
   */
  lemma ExpectedFramesAgree(len: Byte)
    ensures ExpectedFrames(len) == FrameCount(len)
  {
    if len > 6 {
      var q, r := (len - 6) / 7, (len - 6) % 7;
      assert len == 7 * q + r + 6;
      if r == 0 {
        assert len / 7 == q;
      } else {
        assert len / 7 == q + 1;
      }
    }
  }

  /** Payloads of 6, 7 and 223 bytes need 1, 2 and 32 frames. */
  lemma BoundaryFrameCounts()
    ensures FrameCount(6) == 1 && FrameCount(7) == 2 && FrameCount(MaxPacketSize) == 32
    ensures FrameCount(MaxRelayedSize) == QueueCapacity
  {
  }

  // ---------------------------------------------------------------------------
  // Shape of the segmentation

  /**
   * `from_payload` numbers its frames 0, 1, ..., k with k = ceil((|p| - 6) / 7), stamps the
   * sequence counter on each, and declares the payload length in the first; a payload of
   * at most 6 bytes goes into one first frame padded with 0xFF.
   */
  lemma SegmentsShape(p: seq<Byte>, s: Byte)
    requires Segmentable(p, s)
    ensures |Segments(p, s)| == FrameCount(|p|)
    ensures forall i :: 0 <= i < |Segments(p, s)| ==>
      FrameCounter(Segments(p, s)[i]) == i && SequenceCounter(Segments(p, s)[i]) == s % 8
    ensures IsFirstFrame(Segments(p, s)[0]) && DataLen(Segments(p, s)[0]) == Some(|p|)
    ensures forall i :: 0 < i < |Segments(p, s)| ==> !IsFirstFrame(Segments(p, s)[i])
    ensures |p| <= 6 ==> Payload(Segments(p, s)[0]) == Fit(p, 6, Padding)
  {
    SegmentsLength(p, s);
    forall i | 0 <= i < |Segments(p, s)|
      ensures FrameCounter(Segments(p, s)[i]) == i
      ensures SequenceCounter(Segments(p, s)[i]) == s % 8
    {
      SegmentCounters(p, s, i);
    }
  }

  lemma SegmentCounters(p: seq<Byte>, s: Byte, i: nat)
    requires Segmentable(p, s) && i < FrameCount(|p|)
    ensures |Segments(p, s)| == FrameCount(|p|)
    ensures FrameCounter(Segments(p, s)[i]) == i
    ensures SequenceCounter(Segments(p, s)[i]) == s % 8
  {
    SegmentsLength(p, s);
    if i > 0 {
      SegmentAt(p, s, i - 1);
      ChunkCounters(p, s, i - 1);
    }
  }

  /** Consecutive frame `i + 1` has frame counter `i + 1` and sequence counter `s`. */
  lemma ChunkCounters(p: seq<Byte>, s: Byte, i: nat)
    requires 6 < |p| <= MaxPacketSize && s <= 7 && i < NumChunks(|p|)
    ensures FrameCounter(Chunk(p, s, i)) == i + 1
    ensures SequenceCounter(Chunk(p, s, i)) == s % 8
  {
    ChunkEncodes(p, s, i);
    assert s % 8 == s;
  }

  /** Payloads of 217 to 223 bytes need 32 frames; the store keeps 31 and drops the last. */
  lemma LongPayloadDropsLastFrame(p: seq<Byte>, s: Byte)
    requires MaxRelayedSize < |p| <= MaxPacketSize && s <= 7
    ensures |Segments(p, s)| == QueueCapacity + 1
    ensures Transmit(p, s).queue == Segments(p, s)[..QueueCapacity]
  {
    SegmentsLength(p, s);
  }

  /**
   * Payloads of 217 to 223 bytes: each of the 31 frames the store keeps is accepted by the
   * receive message that has taken the frames before it, and none of them reports
   * completion, so a receiver fed the whole store never completes.
   */
  lemma LongPayloadNeverCompletes(p: seq<Byte>, s: Byte)
    requires MaxRelayedSize < |p| <= MaxPacketSize && s <= 7
    ensures Drives(Transmit(p, s).queue, RxStates(p, s)[..QueueCapacity + 1],
                   seq(QueueCapacity, _ => Ok(false)))
  {
    var kept := Transmit(p, s).queue;
    var states := RxStates(p, s)[..QueueCapacity + 1];
    LongPayloadDropsLastFrame(p, s);
    forall j | 0 <= j < QueueCapacity
      ensures !ReachesUnderflow(states[j], kept[j].bytes)
      ensures Receive(states[j], kept[j].bytes) == (states[j + 1], Ok(false))
    {
      FeedSegment(p, s, j);
    }
  }

  /** Below the capacity boundary the store keeps every frame. */
  lemma RelayableKeepsAllFrames(p: seq<Byte>, s: Byte)
    requires Relayable(p, s)
    ensures |Segments(p, s)| <= QueueCapacity
    ensures Transmit(p, s).queue == Segments(p, s)
  {
    SegmentsLength(p, s);
  }

  // ---------------------------------------------------------------------------
  // Payload bytes

  /** Where the payload of frame `m` starts once the frames are laid end to end. */
  function Offset(m: nat): (r: nat)
  {
    if m == 0 then 0 else 6 + 7 * (m - 1)
  }

  /** Frame `i + 1` carries bytes `6 + 7i` to `6 + 7i + 7` of the padded payload. */
  lemma ChunkPayload(p: seq<Byte>, s: Byte, i: nat)
    requires 6 < |p| <= MaxPacketSize && s <= 7 && i < NumChunks(|p|)
    ensures Offset(i + 2) <= PaddedLength(|p|)
    ensures Payload(Segments(p, s)[i + 1])
      == Fit(p, PaddedLength(|p|), Padding)[Offset(i + 1)..Offset(i + 2)]
  {
    ChunkBounds(|p|, i);
    ChunkCarries(p, s, i);
    PaddedSlice(Payload(Segments(p, s)[i + 1]), p, PaddedLength(|p|), i);
  }

  /** Chunk `i` of `p`, padded to 7 bytes, is the slice of padded `p` at frame `i + 1`'s offset. */
  lemma PaddedSlice(x: seq<Byte>, p: seq<Byte>, n: nat, i: nat)
    requires 6 + i * 7 < |p| && Offset(i + 2) <= n
    requires x == Fit(p[6 + i * 7..], 7, Padding)
    ensures x == Fit(p, n, Padding)[Offset(i + 1)..Offset(i + 2)]
  {
    var lo := 6 + i * 7;
    assert Offset(i + 1) == lo && Offset(i + 2) == lo + 7;
    ChunkOfPadded(p, n, lo);
  }

  /** Consecutive frame `i + 1` carries chunk `i` of `p`, padded to 7 bytes. */
  lemma ChunkCarries(p: seq<Byte>, s: Byte, i: nat)
    requires 6 < |p| <= MaxPacketSize && s <= 7 && i < NumChunks(|p|)
    ensures 6 + i * 7 < |p| && i + 1 < |Segments(p, s)|
    ensures Payload(Segments(p, s)[i + 1]) == Fit(p[6 + i * 7..], 7, Padding)
  {
    SegmentAt(p, s, i);
    ChunkEncodes(p, s, i);
  }

  /** Padding the tail of `p` from `lo` to 7 bytes reads the same bytes as padding all of `p`. */
  lemma ChunkOfPadded(p: seq<Byte>, n: nat, lo: nat)
    requires lo < |p| && lo + 7 <= n
    ensures Fit(p[lo..], 7, Padding) == Fit(p, n, Padding)[lo..lo + 7]
  {
    var padded := Fit(p, n, Padding);
    var b := Fit(p[lo..], 7, Padding);
    forall k | 0 <= k < 7
      ensures b[k] == padded[lo..lo + 7][k]
    {
      assert padded[lo..lo + 7][k] == padded[lo + k];
    }
  }

  /** Frame `m` carries the padded payload's bytes from `Offset(m)` to `Offset(m + 1)`. */
  lemma FramePayload(p: seq<Byte>, s: Byte, m: nat)
    requires Segmentable(p, s) && m < |Segments(p, s)|
    ensures Offset(m + 1) <= PaddedLength(|p|)
    ensures Payload(Segments(p, s)[m])
      == Fit(p, PaddedLength(|p|), Padding)[Offset(m)..Offset(m + 1)]
  {
    SegmentsLength(p, s);
    var padded := Fit(p, PaddedLength(|p|), Padding);
    if m > 0 {
      ChunkPayload(p, s, m - 1);
    } else if |p| <= 6 {
      assert Payload(Segments(p, s)[0]) == padded;
    } else {
      assert Payload(Segments(p, s)[0]) == p[..6];
      assert padded[..6] == p[..6];
    }
  }

  /** Frame `f`, at position `m`, carries the bytes of `bytes` from `Offset(m)` to `Offset(m + 1)`. */
  ghost predicate CarriesAt(f: Frame, bytes: seq<Byte>, m: nat)
  {
    Offset(m + 1) <= |bytes| && Payload(f) == bytes[Offset(m)..Offset(m + 1)]
  }

  /** Every frame of `q` carries its slice of `bytes`, and `bytes` has no more. */
  ghost predicate Carries(q: seq<Frame>, bytes: seq<Byte>)
  {
    |bytes| == Offset(|q|) && forall m :: 0 <= m < |q| ==> CarriesAt(q[m], bytes, m)
  }

  /** When `q` carries `bytes`, its payloads from frame `m` on are `bytes` from `Offset(m)` on. */
  lemma {:induction false} FlattenCarried(q: seq<Frame>, bytes: seq<Byte>, m: nat)
    requires Carries(q, bytes) && m <= |q|
    ensures Offset(m) <= |bytes|
    ensures Flatten(q[m..]) == bytes[Offset(m)..]
    decreases |q| - m
  {
    if m == |q| {
      assert q[m..] == [];
    } else {
      FlattenCarried(q, bytes, m + 1);
      assert CarriesAt(q[m], bytes, m);
      FlattenStep(q, m);
      SliceJoin(bytes, Offset(m), Offset(m + 1));
    }
  }

  lemma FlattenStep(q: seq<Frame>, m: nat)
    requires m < |q|
    ensures Flatten(q[m..]) == Payload(q[m]) + Flatten(q[m + 1..])
  {
    assert q[m..][0] == q[m] && q[m..][1..] == q[m + 1..];
  }

  lemma SliceJoin(bytes: seq<Byte>, lo: nat, mid: nat)
    requires lo <= mid <= |bytes|
    ensures bytes[lo..mid] + bytes[mid..] == bytes[lo..]
  {
  }

  /** The payloads of all frames, back to back, are `p` followed by 0xFF. */
  lemma SegmentsPayload(p: seq<Byte>, s: Byte)
    requires Segmentable(p, s)
    ensures Flatten(Segments(p, s)) == Fit(p, PaddedLength(|p|), Padding)
  {
    var segments := Segments(p, s);
    var padded := Fit(p, PaddedLength(|p|), Padding);
    SegmentsLength(p, s);
    forall m | 0 <= m < |segments|
      ensures CarriesAt(segments[m], padded, m)
    {
      FramePayload(p, s, m);
    }
    FlattenCarried(segments, padded, 0);
    assert segments[0..] == segments;
  }

  // ---------------------------------------------------------------------------
  // Reassembly

  lemma OverwriteJoin(buf: seq<Byte>, at: nat, x: seq<Byte>, y: seq<Byte>)
    requires at + |x| + |y| <= |buf|
    ensures Overwrite(Overwrite(buf, at, x), at + |x|, y) == Overwrite(buf, at, x + y)
  {
  }

  /** Writing frames that are not first frames lays their payloads out from the offset. */
  lemma {:induction false} WriteConsecutive(q: seq<Frame>, off: nat, buf: seq<Byte>)
    requires forall i :: 0 <= i < |q| ==> !IsFirstFrame(q[i])
    requires off + 7 * |q| <= |buf|
    ensures |Flatten(q)| == 7 * |q|
    ensures FitsIn(q, off, |buf|)
    ensures Write(q, off, buf) == Overwrite(buf, off, Flatten(q))
    decreases |q|
  {
    if q == [] {
      assert Overwrite(buf, off, []) == buf;
    } else {
      var head := Payload(q[0]);
      var next := Overwrite(buf, off, head);
      WriteConsecutive(q[1..], off + 7, next);
      OverwriteJoin(buf, off, head, Flatten(q[1..]));
    }
  }

  /**
   * Draining the frames `from_payload` builds with `get_payload`, into any buffer that
   * holds the padded payload, leaves `p` followed by 0xFF in the buffer.
   */
  lemma AssembleSegments(p: seq<Byte>, s: Byte, n: nat)
    requires Segmentable(p, s) && n >= PaddedLength(|p|)
    ensures FitsIn(Segments(p, s), 0, n)
    ensures Assemble(Segments(p, s), n) == Fit(p, n, Padding)
  {
    SegmentsShape(p, s);
    SegmentsPayload(p, s);
    AssembleFlat(Segments(p, s), n);
    PaddingOverPadding(p, PaddedLength(|p|), n);
  }

  /** `p` padded to `m` bytes, written over `n` bytes of 0xFF, is `p` padded to `n`. */
  lemma PaddingOverPadding(p: seq<Byte>, m: nat, n: nat)
    requires |p| <= m <= n
    ensures Overwrite(seq(n, _ => Padding), 0, Fit(p, m, Padding)) == Fit(p, n, Padding)
  {
  }

  /**
   * Draining a store that starts with its only first frame writes the frames' payloads
   * back to back from offset 0.
   */
  lemma AssembleFlat(q: seq<Frame>, n: nat)
    requires q != [] && IsFirstFrame(q[0])
    requires forall i :: 0 < i < |q| ==> !IsFirstFrame(q[i])
    requires 6 + 7 * (|q| - 1) <= n
    ensures |Flatten(q)| == 6 + 7 * (|q| - 1)
    ensures FitsIn(q, 0, n)
    ensures Assemble(q, n) == Overwrite(seq(n, _ => Padding), 0, Flatten(q))
  {
    var blank := seq(n, _ => Padding);
    var rest := q[1..];
    assert forall i :: 0 <= i < |rest| ==> !IsFirstFrame(rest[i]) by {
      forall i | 0 <= i < |rest| ensures !IsFirstFrame(rest[i]) {
        assert rest[i] == q[i + 1];
      }
    }
    var first := Payload(q[0]);
    WriteConsecutive(rest, 6, Overwrite(blank, 0, first));
    OverwriteJoin(blank, 0, first, Flatten(rest));
  }

  // ---------------------------------------------------------------------------
  // Replaying a transmit message's frames into a fresh receive message

  /** The receive message after the first `j` frames of `Segments(p, s)` (the test at src/nmea_message.rs:203-226). */
  function RxAfter(p: seq<Byte>, s: Byte, j: nat): (r: MessageState)
    requires Segmentable(p, s) && j <= FrameCount(|p|)
  {
    var total := FrameCount(|p|);
    SegmentsLength(p, s);
    if j == 0 then Empty
    else
      MessageState(Segments(p, s)[..j], Unknown, Rx, ExpectedFrames(|p|), |p|, s % 8,
                   if j < total || total == 1 then j - 1 else j - 2)
  }

  /**
   * Feeding frame `j` to the message that has taken the frames before it is accepted; the
   * call reports completion only on the last frame of a multi-frame message. The receive
   * store also holds 31 frames, so this covers frames 0 to 30.
   */
  lemma FeedSegment(p: seq<Byte>, s: Byte, j: nat)
    requires Segmentable(p, s) && j < FrameCount(|p|) && j < QueueCapacity
    ensures !ReachesUnderflow(RxAfter(p, s, j), Segments(p, s)[j].bytes)
    ensures Receive(RxAfter(p, s, j), Segments(p, s)[j].bytes)
      == (RxAfter(p, s, j + 1), Ok(FrameCount(|p|) > 1 && j == FrameCount(|p|) - 1))
  {
    if j == 0 {
      FeedFirstSegment(p, s);
    } else {
      FeedLaterSegment(p, s, j);
    }
  }

  /** The first frame starts a fresh message's bookkeeping and answers `Ok(false)`. */
  lemma FeedFirstSegment(p: seq<Byte>, s: Byte)
    requires Segmentable(p, s)
    ensures !ReachesUnderflow(Empty, Segments(p, s)[0].bytes)
    ensures Receive(Empty, Segments(p, s)[0].bytes) == (RxAfter(p, s, 1), Ok(false))
  {
    var segments := Segments(p, s);
    var f := segments[0];
    SegmentsLength(p, s);
    SegmentCounters(p, s, 0);
    ExpectedFramesAgree(|p|);
    assert Frame(f.bytes) == f;
    assert [] + [f] == segments[..1];
  }

  /** A later frame `j` continues the sequence and reports completion iff it is the last. */
  lemma FeedLaterSegment(p: seq<Byte>, s: Byte, j: nat)
    requires Segmentable(p, s) && 0 < j < FrameCount(|p|) && j < QueueCapacity
    ensures !ReachesUnderflow(RxAfter(p, s, j), Segments(p, s)[j].bytes)
    ensures Receive(RxAfter(p, s, j), Segments(p, s)[j].bytes)
      == (RxAfter(p, s, j + 1), Ok(j == FrameCount(|p|) - 1))
  {
    var segments := Segments(p, s);
    var st := RxAfter(p, s, j);
    var f := segments[j];
    SegmentsLength(p, s);
    SegmentCounters(p, s, j);
    ExpectedFramesAgree(|p|);
    assert Frame(f.bytes) == f;
    assert segments[..j] + [f] == segments[..j + 1];
    assert QueueComplete(st) == false;
    assert st.curFrameCounter + 1 == FrameCounter(f);
  }

  /**
   * Once every frame is in: the message is complete, so one more frame is refused with
   * FullQueue; it declares the payload's length; and `get_payload` rebuilds `p` followed
   * by 0xFF.
   */
  lemma RelayComplete(p: seq<Byte>, s: Byte, n: nat, extra: FrameBytes)
    requires Relayable(p, s) && n >= PaddedLength(|p|)
    ensures var st := RxAfter(p, s, FrameCount(|p|));
      && st.dataLen == |p| && st.numFrames == FrameCount(|p|)
      && !ReachesUnderflow(st, extra)
      && Receive(st, extra) == (st, Err(FullQueue))
      && FitsIn(st.queue, 0, n)
      && Assemble(st.queue, n) == Fit(p, n, Padding)
  {
    var segments := Segments(p, s);
    SegmentsLength(p, s);
    ExpectedFramesAgree(|p|);
    assert segments[..|segments|] == segments;
    AssembleSegments(p, s, n);
  }

  /**
   * Feeding `frames` one after another to a receive message in state `states[0]` is
   * accepted at every step, passes through `states` and answers `answers`.
   */
  ghost predicate Drives(frames: seq<Frame>, states: seq<MessageState>,
                         answers: seq<Result<bool, NmeaMessage.Error>>)
  {
    && |states| == |frames| + 1 && |answers| == |frames|
    && forall j :: 0 <= j < |frames| ==>
         && !ReachesUnderflow(states[j], frames[j].bytes)
         && Receive(states[j], frames[j].bytes) == (states[j + 1], answers[j])
  }

  /** Step `j` of a drive: frame `j` takes `states[j]` to `states[j + 1]`, answering `answers[j]`. */
  lemma DrivesStep(frames: seq<Frame>, states: seq<MessageState>,
                   answers: seq<Result<bool, NmeaMessage.Error>>, j: nat)
    requires Drives(frames, states, answers) && j < |frames|
    ensures !ReachesUnderflow(states[j], frames[j].bytes)
    ensures Receive(states[j], frames[j].bytes) == (states[j + 1], answers[j])
  {
  }

  /** The receive states `RxAfter(p, s, j)` for `j` from 0 to the frame count. */
  ghost function RxStates(p: seq<Byte>, s: Byte): (r: seq<MessageState>)
    requires Segmentable(p, s)
  {
    seq(FrameCount(|p|) + 1, j requires 0 <= j <= FrameCount(|p|) => RxAfter(p, s, j))
  }

  /** The answers `add_frame` gives to `total` frames: true only on the last of several. */
  ghost function RxAnswers(total: nat): (r: seq<Result<bool, NmeaMessage.Error>>)
  {
    seq(total, j => Ok(total > 1 && j == total - 1))
  }

  /** The frames of `p` drive a fresh receive message through `RxAfter`. */
  lemma SegmentsDrive(p: seq<Byte>, s: Byte)
    requires Relayable(p, s)
    ensures Drives(Segments(p, s), RxStates(p, s), RxAnswers(FrameCount(|p|)))
  {
    var total := FrameCount(|p|);
    var states := RxStates(p, s);
    var answers := RxAnswers(total);
    SegmentsLength(p, s);
    RelayableKeepsAllFrames(p, s);
    forall j | 0 <= j < total
      ensures !ReachesUnderflow(states[j], Segments(p, s)[j].bytes)
      ensures Receive(states[j], Segments(p, s)[j].bytes) == (states[j + 1], answers[j])
    {
      FeedSegment(p, s, j);
    }
  }

  /**
   * Pops every frame of `tx` and passes it to `add_frame` on `rx`, collecting the answers.
   * `tx` ends with an empty store and its other fields as they were. When the frames
   * drive `rx` from its current state, the answers are the planned ones and `rx` ends in
   * the planned state.
   */
  method Replay(tx: Message, rx: Message, ghost frames: seq<Frame>,
                ghost states: seq<MessageState>,
                ghost answers: seq<Result<bool, NmeaMessage.Error>>)
    returns (results: seq<Result<bool, NmeaMessage.Error>>)
    requires tx != rx && tx.Valid() && rx.Valid()
    requires Drives(frames, states, answers)
    requires tx.queue == frames && rx.State() == states[0]
    modifies tx, rx
    ensures tx.Valid() && tx.State() == old(tx.State()).(queue := [])
    ensures rx.Valid() && rx.State() == states[|frames|]
    ensures results == answers
  {
    results := [];
    while true
      invariant tx.Valid() && rx.Valid()
      invariant tx.State() == old(tx.State()).(queue := tx.queue)
      invariant |results| <= |frames|
      invariant tx.queue == frames[|results|..]
      invariant rx.State() == states[|results|]
      invariant results == answers[..|results|]
      decreases |tx.queue|
    {
      var popped := tx.PopFrame();
      if popped.None? {
        break;
      }
      DrivesStep(frames, states, answers, |results|);
      var r := rx.AddFrame(popped.value.bytes);
      results := results + [r];
    }
    assert results == answers;
  }

  /**
   * Builds a transmit message from `p` and replays its frames into a fresh receive
   * message, which then holds every frame of `p`.
   */
  method ReceiveAll(p: seq<Byte>, s: Byte)
    returns (rx: Message, results: seq<Result<bool, NmeaMessage.Error>>)
    requires Relayable(p, s)
    ensures fresh(rx) && rx.Valid() && rx.State() == RxAfter(p, s, FrameCount(|p|))
    ensures |results| == FrameCount(|p|)
    ensures forall j :: 0 <= j < |results| ==>
      results[j] == Ok(FrameCount(|p|) > 1 && j == FrameCount(|p|) - 1)
  {
    RelayableKeepsAllFrames(p, s);
    var tx := new Message.FromPayload(p, s);
    rx := new Message();
    ghost var total := FrameCount(|p|);
    ghost var frames := Segments(p, s);
    ghost var states := RxStates(p, s);
    ghost var answers := RxAnswers(total);
    SegmentsDrive(p, s);
    assert Drives(frames, states, answers);
    assert tx.queue == frames && rx.State() == states[0];
    results := Replay(tx, rx, frames, states, answers);
    assert rx.State() == states[total];
  }

  /**
   * The round trip run on the message objects: build a transmit message from `p`, replay
   * its frames into a fresh receive message, then read the payload back. The buffer ends
   * up holding `p` followed by 0xFF, and the declared length is `|p|`.
   */
  method Relay(p: seq<Byte>, s: Byte, buf: array<Byte>)
    returns (results: seq<Result<bool, NmeaMessage.Error>>, len: nat)
    requires Relayable(p, s) && buf.Length >= PaddedLength(|p|)
    modifies buf
    ensures |results| == FrameCount(|p|)
    ensures forall j :: 0 <= j < |results| ==>
      results[j] == Ok(FrameCount(|p|) > 1 && j == FrameCount(|p|) - 1)
    ensures len == |p|
    ensures buf[..] == Fit(p, buf.Length, Padding)
  {
    var rx;
    rx, results := ReceiveAll(p, s);
    RelayComplete(p, s, buf.Length, [0, 0, 0, 0, 0, 0, 0, 0]);
    len := rx.GetPayload(buf);
  }

  // ---------------------------------------------------------------------------
  // The byte vectors of the source's tests

  /** The 25-byte payload of the message tests (src/nmea_message.rs:221-224, 231-234). */
  const TestPayload: seq<Byte> := [
    0x12, 0x7C, 0xEA, 0xD5, 0x12, 0x3D, 0x31, 0xF3, 0xD0, 0xAC, 0xF2, 0x23, 0x1A, 0x03,
    0xFF, 0xFF, 0x00, 0x00, 0x00, 0x00, 0x20, 0xFF, 0xFF, 0x00, 0x70]

  /** Its four frames on the wire (src/nmea_message.rs:205-208, 236-239). */
  const TestFrames: seq<FrameBytes> := [
    [0x00, 0x19, 0x12, 0x7C, 0xEA, 0xD5, 0x12, 0x3D],
    [0x01, 0x31, 0xF3, 0xD0, 0xAC, 0xF2, 0x23, 0x1A],
    [0x02, 0x03, 0xFF, 0xFF, 0x00, 0x00, 0x00, 0x00],
    [0x03, 0x20, 0xFF, 0xFF, 0x00, 0x70, 0xFF, 0xFF]]

  /** The test frames as frame values. */
  const TestFrameValues: seq<Frame> := seq(4, i requires 0 <= i < 4 => Frame(TestFrames[i]))

  /** Segmenting the test payload with sequence counter 0 yields exactly the test frames (src/nmea_message.rs:228-244). */
  lemma TestVectorSegments()
    ensures Segments(TestPayload, 0) == TestFrameValues
  {
    SegmentsLength(TestPayload, 0);
    assert Segments(TestPayload, 0)[0] == EncodeFirst(TestPayload[..6], 25, 0);
    TestFirstFrame();
    SegmentAt(TestPayload, 0, 0);
    SegmentAt(TestPayload, 0, 1);
    SegmentAt(TestPayload, 0, 2);
    TestChunk0();
    TestChunk1();
    TestChunk2();
  }

  lemma TestFirstFrame()
    ensures EncodeFirst(TestPayload[..6], 25, 0).bytes == TestFrames[0]
  {
    assert TestPayload[..6] == TestFrames[0][2..];
  }

  lemma TestChunk0()
    ensures NumChunks(25) == 3 && Chunk(TestPayload, 0, 0).bytes == TestFrames[1]
  {
    assert TestPayload[6..][..7] == TestFrames[1][1..];
  }

  lemma TestChunk1()
    ensures NumChunks(25) == 3 && Chunk(TestPayload, 0, 1).bytes == TestFrames[2]
  {
    assert TestPayload[13..][..7] == TestFrames[2][1..];
  }

  lemma TestChunk2()
    ensures NumChunks(25) == 3 && Chunk(TestPayload, 0, 2).bytes == TestFrames[3]
  {
    assert Fit(TestPayload[20..], 7, Padding) == TestFrames[3][1..];
  }

  /**
   * Receiving the test frames in a fresh message answers false, false, false, true; the
   * message then has `num_frames == 4` and sequence counter 0, refuses a fifth frame with
   * FullQueue, and reassembles the 25 payload bytes (src/nmea_message.rs:202-226).
   */
  lemma TestVectorReceive(n: nat)
    requires n >= MaxPacketSize
    ensures Drives(TestFrameValues, RxStates(TestPayload, 0), [Ok(false), Ok(false), Ok(false), Ok(true)])
    ensures RxAfter(TestPayload, 0, 0) == Empty
    ensures var st := RxAfter(TestPayload, 0, 4);
      && st.numFrames == 4 && st.sequenceCounter == 0 && st.dataLen == 25
      && Receive(st, TestFrames[0]) == (st, Err(FullQueue))
      && Assemble(st.queue, n)[..25] == TestPayload
  {
    TestVectorSegments();
    SegmentsDrive(TestPayload, 0);
    assert RxAnswers(4) == [Ok(false), Ok(false), Ok(false), Ok(true)];
    RelayComplete(TestPayload, 0, n, TestFrames[0]);
    assert Fit(TestPayload, n, Padding)[..25] == TestPayload;
  }

  /** The frame-codec tests (src/nmea_frame.rs:102-136). */
  lemma TestVectorFrames()
    ensures var f := Frame([0x00, 0x1B, 0x12, 0x7C, 0xEA, 0xD5, 0x12, 0x3D]);
      && SequenceCounter(f) == 0 && FrameCounter(f) == 0 && DataLen(f) == Some(27)
      && Payload(f) == [0x12, 0x7C, 0xEA, 0xD5, 0x12, 0x3D]
      && EncodeFirst([0x12, 0x7C, 0xEA, 0xD5, 0x12, 0x3D], 27, 0) == f
    ensures var r := EncodeConsecutive([0x20, 0xFF, 0xFF, 0x00, 0x70, 0xFE, 0xFF], 1, 3);
      && r.Ok? && SequenceCounter(r.value) == 1 && FrameCounter(r.value) == 3
      && DataLen(r.value) == None && Payload(r.value) == [0x20, 0xFF, 0xFF, 0x00, 0x70, 0xFE, 0xFF]
  {
  }
}
