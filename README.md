# NMEA 2000 fast packet, modelled in Dafny

This project models the fast-packet transport of the `nmea` crate. The transport carries a
payload of up to 223 bytes in a sequence of 8-byte CAN frames.

- Byte 0 of every frame packs a 3-bit sequence counter (bits 7-5) and a 5-bit frame
  counter (bits 4-0).
- Frame counter 0 marks the first frame. It carries the total payload length in byte 1
  and six payload bytes.
- Every later frame carries seven payload bytes. The last one is padded with 0xFF.

There are three modules, plus the `Wrappers` module for `Option` and `Result`:

- `NmeaFrame` (`nmea_frame.dfy`) is the frame codec. It covers the encoders
  `first_frame` and `consecutive_frame`, the decoder `from_bytes`, and the accessors.
  - The accessors are pure functions on integers.
  - The encoders are functions, with methods beside them that fill a local 8-byte buffer
    as the source does, proved equal to those functions.
  - Lemmas over `bv8` show that the integer forms compute the source's mask-and-shift
    expressions for every byte.
- `NmeaMessage` (`nmea_message.dfy`) is the message object. It is a class with the
  source's fields; the store of frames is a sequence of capacity 31.
  - Its methods `AddFrame`, `FromPayload`, `PopFrame`, `GetPayload` and `Clear`
    change those fields. Each is proved against a function on the `MessageState` value:
    - `Receive` for `add_frame`;
    - `Transmit` and `Segments` for `from_payload`;
    - `Assemble` for `get_payload`.
  - The frame loop of `from_payload` is a method (`BuildQueue`) that builds the sequence
    with the source's chunk arithmetic.
- `FastPacket` (`fast_packet.dfy`) relates the two halves of the transport.
  - The frames `from_payload` builds are numbered 0..k. They carry the sequence counter,
    and their payloads, laid end to end, are the payload followed by 0xFF.
  - For payloads of up to 216 bytes, those frames fed to a fresh receive message are all
    accepted. Only the last frame of a multi-frame message reports completion, and
    `get_payload` then rebuilds the payload. From 217 bytes on, the transmit store drops
    the 32nd frame. Each of the 31 frames it keeps is accepted and answers `Ok(false)`,
    so the receiver never completes (`LongPayloadNeverCompletes`).
  - `Relay` runs this round trip on the message objects.
  - The unit tests' byte vectors are stated as lemmas.

The model keeps these behaviours of the source:

- A first frame always answers `Ok(false)`, even when it is the only frame.
- A first frame arriving mid-sequence restarts the bookkeeping, but it is appended to
  whatever the store already holds.
- `cur_frame_counter` is not advanced by the frame that completes a message.
- The single-frame branch of `from_payload` records sequence counter 0; the multi-frame branch
  records `num_frames == 0`.
- The receive side computes the frame count as `len / 7 + 1`. For every length byte this
  equals `FrameCount`, the transmit side's formula (`ExpectedFramesAgree`). `from_payload`
  emits the whole payload only for lengths up to 223. Payloads of 224 to 255 bytes panic
  at frame counter 32. From 256 bytes on, the `as u8` casts take the length mod 256, which
  the model does not follow.

## Model

| member | source | states |
|---|---|---|
| NmeaFrame.CounterMasks | src/nmea_frame.rs:63-69 | for every byte, `(b & 0xE0) >> 5` is `b / 32` and `b & 0x1F` is `b % 32`, the integer forms the accessors use |
| NmeaFrame.ShiftMatches | src/nmea_frame.rs:34 | for every byte, the u8 shift `s << 5` equals `ShiftLeft5(s)`, which drops the bits shifted past bit 7 |
| NmeaFrame.PackMatches | src/nmea_frame.rs:49 | for counters in range, the bitwise or of `s << 5` and `fc` equals `s * 32 + fc`: the two fields do not overlap |
| NmeaFrame.ShiftedCounter | src/nmea_frame.rs:34 | a shifted sequence counter keeps only its low three bits |
| NmeaFrame.SequenceCounter | src/nmea_frame.rs:63-65 | the sequence counter is at most 7 |
| NmeaFrame.FrameCounter | src/nmea_frame.rs:67-69 | the frame counter is at most 31, and with the sequence counter it makes up all of byte 0 |
| NmeaFrame.IsFirstFrame | src/nmea_frame.rs:87-89 | a frame is a first frame exactly when its frame counter is 0, that is, when byte 0 holds only the sequence counter |
| NmeaFrame.DataLen | src/nmea_frame.rs:71-77 | a length is present exactly on a first frame, and it is byte 1 |
| NmeaFrame.Payload | src/nmea_frame.rs:79-85 | the payload is the last 6 bytes of a first frame and the last 7 of any other frame |
| NmeaFrame.EncodeFirst | src/nmea_frame.rs:32-38 | a first frame reads back with sequence counter `s % 8`, frame counter 0, the given length and the given 6 bytes |
| NmeaFrame.EncodeConsecutive | src/nmea_frame.rs:40-52 | fails exactly when `s > 7` or `fc > 31`; otherwise there are two cases on read-back: (1) when `fc != 0`, the frame reads back with `s`, `fc`, no length and the given 7 bytes; (2) when `fc == 0`, it reads back as a first frame |
| NmeaFrame.DecodeEncode | src/nmea_frame.rs:32-89 | every frame is rebuilt by the encoder its frame counter selects, from its own counters, length and payload |
| NmeaFrame.FirstFrame | src/nmea_frame.rs:32-38 | the buffer-filling encoder builds `EncodeFirst(b, len, s)` |
| NmeaFrame.ConsecutiveFrame | src/nmea_frame.rs:40-52 | the buffer-filling encoder returns `EncodeConsecutive(b, s, fc)`, error included |
| NmeaFrame.FromBytes | src/nmea_frame.rs:54-61 | copies the input bytes up to the eighth, leaves the rest 0, and returns an 8-byte input unchanged |
| NmeaMessage.PushBackBounded | src/nmea_message.rs:37 | pushing onto the capacity-31 store one frame at a time keeps the first 31 frames pushed |
| NmeaMessage.ReceiveRejects | src/nmea_message.rs:60-95 | each of the four errors of `add_frame` occurs exactly under its own guard, in guard order; an error leaves the message unchanged; `EmptyQueue` is never returned |
| NmeaMessage.ReceiveFirstFrame | src/nmea_message.rs:68-77 | a first frame sets the frame count from its length, and sets the sequence counter and length; it resets `cur_frame_counter`, appends the frame to the existing store and answers `Ok(false)` |
| NmeaMessage.ReceiveNextFrame | src/nmea_message.rs:79-94 | an in-order frame of the current sequence is appended; it answers true exactly when its counter reaches `num_frames - 1`; `cur_frame_counter` advances only when the answer is false |
| NmeaMessage.Message.constructor | src/nmea_message.rs:47-58 | a new message is the empty receive state |
| NmeaMessage.Message.AddFrame | src/nmea_message.rs:60-95 | the new fields and the answer are `Receive` of the old fields and the frame; an error changes nothing; the store stays within capacity |
| NmeaMessage.SegmentsLength | src/nmea_message.rs:116-155 | a payload yields one first frame plus one frame per full or partial 7-byte chunk after the first six bytes |
| NmeaMessage.SegmentAt | src/nmea_message.rs:128-154 | frame `i + 1` is consecutive frame `i + 1` over chunk `i`, padded with 0xFF |
| NmeaMessage.ChunkSplit | src/nmea_message.rs:125-126 | the source's `num_chunks` and `remaining_bytes` are the quotient and remainder of `len - 6` by 7, and together give at most 31 consecutive frames |
| NmeaMessage.ChunkEncodes | src/nmea_message.rs:128-139 | the consecutive frame over chunk `i` never fails, because its frame counter `i + 1` is at most 31 |
| NmeaMessage.NextChunk | src/nmea_message.rs:128-141 | frame `i + 1` is `consecutive_frame` of the source's slice `6 + 7i .. 6 + 7i + 7` with counter `i + 1` |
| NmeaMessage.LastChunk | src/nmea_message.rs:143-155 | when the division leaves a remainder, the padded last frame is the final one of `Segments` |
| NmeaMessage.PaddedChunk | src/nmea_message.rs:144-148 | the padding loop yields the remaining bytes followed by 0xFF, 7 bytes in all |
| NmeaMessage.BuildQueue | src/nmea_message.rs:97-155 | the store built for `p` is `Segments(p, s)` cut to the store's capacity |
| NmeaMessage.SingleQueue | src/nmea_message.rs:99-104 | a payload of at most 6 bytes becomes one padded first frame |
| NmeaMessage.FullChunkFrames | src/nmea_message.rs:116-141 | the first frame and the for loop over the full 7-byte chunks leave the store holding `Bounded` of the first `(len - 6) / 7 + 1` frames of `Segments(p, s)` |
| NmeaMessage.ChunkedQueue | src/nmea_message.rs:116-155 | the first frame, the loop over full chunks and the padded remainder push exactly `Segments(p, s)`, cut to capacity |
| NmeaMessage.Message.FromPayload | src/nmea_message.rs:97-165 | the new message is `Transmit(p, s)`. A short payload gives a single message with `num_frames` 1 and sequence counter 0. A longer one gives a consecutive message with `num_frames` 0 and sequence counter `s`. |
| NmeaMessage.Message.PopFrame | src/nmea_message.rs:167-169 | returns and removes the oldest frame, or None on an empty store; nothing else changes |
| NmeaMessage.CopyFromSlice | src/nmea_message.rs:177-180 | `copy_from_slice` writes `data` over the buffer from offset `at` and leaves every other byte as it was |
| NmeaMessage.Message.GetPayload | src/nmea_message.rs:171-185 | the buffer becomes `Assemble` of the old store; the store is emptied and the declared length returned; nothing else changes |
| NmeaMessage.Message.Clear | src/nmea_message.rs:187-195 | every field is back to the empty receive state |
| FastPacket.ExpectedFramesAgree | src/nmea_message.rs:69-73 | for every length byte, the receive side's `len / 7 + 1` (1 up to 6 bytes) equals `FrameCount`, the number of frames `from_payload` emits for the lengths it accepts (up to 223) |
| FastPacket.BoundaryFrameCounts | src/nmea_message.rs:7 | 6, 7 and 223 bytes take 1, 2 and 32 frames; 216 bytes fill the 31-frame store exactly |
| FastPacket.SegmentsShape | src/nmea_message.rs:97-155 | the frames of `p` are numbered 0, 1, ... in order; all carry the sequence counter; only frame 0 is a first frame, and it declares the payload's length; a short payload is padded with 0xFF |
| FastPacket.SegmentCounters | src/nmea_message.rs:127-140 | frame `i` has frame counter `i` and sequence counter `s % 8` |
| FastPacket.LongPayloadDropsLastFrame | src/nmea_message.rs:122-155 | a payload of 217 to 223 bytes needs 32 frames, and the transmit store keeps only the first 31 |
| FastPacket.LongPayloadNeverCompletes | src/nmea_message.rs:60-95 | for 217 to 223 bytes, the 31 frames the transmit store keeps, fed one after another to a fresh receive message, are each accepted and each answer `Ok(false)`: no frame reports completion |
| FastPacket.RelayableKeepsAllFrames | src/nmea_message.rs:97-165 | for up to 216 bytes the transmit store holds every frame |
| FastPacket.ChunkCarries | src/nmea_message.rs:128-154 | consecutive frame `i + 1` carries chunk `i` of the payload, padded with 0xFF to 7 bytes |
| FastPacket.ChunkPayload | src/nmea_message.rs:128-154 | frame `i + 1` carries bytes `6 + 7i` to `6 + 7i + 7` of the padded payload |
| FastPacket.FramePayload | src/nmea_message.rs:97-155 | frame `m` carries the padded payload's bytes from its own offset (0 for the first frame, `6 + 7(m - 1)` after) to the next frame's offset |
| FastPacket.FlattenCarried | src/nmea_message.rs:171-185 | frames that each carry their slice of a byte sequence, read from frame `m` on, spell that sequence from frame `m`'s offset on |
| FastPacket.SegmentsPayload | src/nmea_message.rs:97-155 | the payloads of all frames, end to end, are `p` followed by 0xFF up to the padded length |
| FastPacket.WriteConsecutive | src/nmea_message.rs:179-182 | writing non-first frames, from an offset, lays their payloads out contiguously from that offset |
| FastPacket.AssembleSegments | src/nmea_message.rs:171-185 | `get_payload` on the frames of `p`, into a buffer large enough, yields `p` followed by 0xFF |
| FastPacket.FeedSegment | src/nmea_message.rs:60-95 | feeding frame `j` of `p` to a message holding the frames before it is accepted, for each of the first 31 frames (the receive store's capacity, which covers every frame up to 216 bytes). It reaches the state after `j + 1` frames. The answer is true exactly on the last frame of a multi-frame message. |
| FastPacket.FeedFirstSegment | src/nmea_message.rs:67-77 | the first frame of `p`, fed to a fresh message, sets the frame count, sequence counter and length from `p`, stores the frame and answers `Ok(false)` |
| FastPacket.FeedLaterSegment | src/nmea_message.rs:78-94 | a later frame `j` below 31 passes both counter checks, is stored, and answers true exactly when it is the last frame; `cur_frame_counter` moves to `j` otherwise |
| FastPacket.SegmentsDrive | src/nmea_message.rs:60-95 | the frames of `p`, fed in order to a fresh message, pass through the states `RxAfter(p, s, j)` with the answers above |
| FastPacket.RelayComplete | src/nmea_message.rs:60-185 | once every frame of `p` is in, the message declares the payload's length and holds the full frame count; a further frame is refused with FullQueue; `get_payload` yields `p` followed by 0xFF |
| FastPacket.Replay | src/nmea_message.rs:167-169 | popping every frame of the transmit message and passing it to `add_frame` yields the planned answers and leaves the receive message in the planned final state; the transmit message ends with an empty store and its other fields unchanged |
| FastPacket.ReceiveAll | src/nmea_message.rs:60-169 | for payloads of up to 216 bytes, a transmit message built by `from_payload` and replayed into a fresh receive message leaves it holding every frame of `p`, the state after the last frame; each `add_frame` answers Ok, true only on the last frame of a multi-frame message |
| FastPacket.Relay | src/nmea_message.rs:203-244 | for payloads of up to 216 bytes, the round trip `from_payload`, then `pop_frame`/`add_frame`, then `get_payload` has these outcomes: every call answers Ok, with true only on the last frame of a multi-frame message; it returns the payload's length; the buffer holds `p` followed by 0xFF |
| FastPacket.TestVectorSegments | src/nmea_message.rs:228-244 | the 25-byte test payload with sequence counter 0 yields exactly the four test frames |
| FastPacket.TestVectorReceive | src/nmea_message.rs:202-226 | the four test frames, fed to a fresh message, have these outcomes: (1) the answers are false, false, false, true; (2) the message then has `num_frames` 4, sequence counter 0 and length 25; (3) a fifth frame gets FullQueue; (4) the first 25 bytes of the buffer are the test payload |
| FastPacket.TestVectorFrames | src/nmea_frame.rs:102-136 | the frame-codec tests: counters, length and payload of the test first frame; encoding it back; the consecutive frame with sequence 1 and frame counter 3 |

## Left out

- `src/binding.rs` (the Python binding), `src/lib.rs` and `tests/message_test.py` are not part of this model. The Rust unit tests are stated as lemmas (`TestVector...`).
- The `Kind` and `FlowKind` enums are declared in the frame module but never used.
- The error enums' display strings and the `AsRef<[u8]>` impl are not modelled.
- `fixed_queue::VecDeque` is not part of this model. The store is a sequence of capacity 31. The source discards the result of every push, so a push onto a full store is assumed to leave it unchanged (`PushBack`).
- `MessageType` is recorded by `from_payload` and `clear` and never read. The model keeps it as a field only.
- NmeaMessage.Message.AddFrame: requires that the frame does not reach `num_frames - 1` with `num_frames == 0`. That case is an in-order non-first frame sent to a message that has not seen a first frame. There the u8 subtraction panics in a debug build and wraps in a release build, and neither is modelled.
- NmeaMessage.Message.AddFrame: `cur_frame_counter + 1` is computed on unbounded integers. The u8 overflow at 255 cannot happen: `Valid()` bounds the field by 31, and every method keeps `Valid()`.
- NmeaMessage.Message.FromPayload: requires at most 223 bytes, and a sequence counter of at most 7 for a multi-frame payload. For a multi-frame payload with a counter above 7, and for payloads of 224 to 255 bytes (frame counter 32), `consecutive_frame` fails and the source panics. From 256 bytes on, the `as u8` casts take the length mod 256, which the model does not follow; it excludes every length over 223.
- NmeaMessage.Message.GetPayload: requires that every write falls inside the buffer (`FitsIn`). The source panics on an out-of-range slice.
- FastPacket.Relay: requires at most 216 bytes. Payloads of 217 to 223 bytes need 32 frames, the store keeps 31, and no round trip holds for them. `LongPayloadDropsLastFrame` states what the store keeps for those lengths instead.
