# Display bridge: a verified model

The display bridge turns an Ubuntu machine's virtual screen into a live picture on a Mac. This project models
the parts of it whose correctness is not visible from any single function, and proves what they promise:

- **Bitstream.** The sender prints HEVC parameter sets and slice headers bit by bit into a zeroed buffer, escapes
  them and frames them with start codes; the receiver splits the byte stream and re-frames the slices with length
  prefixes. Each layer is shown to be undone by a reader written from Rec. ITU-T H.265, and the layers compose.
- **Picture numbering.** A state machine of encodes (successful or failed) and forced IDRs, with its reference
  surfaces.
- **Frame ring.** Eight slots under a mutex, refining a queue of at most seven frames that drops its oldest.
- **Virtual display.** Line-at-a-time composition with rotation against a pixel-at-a-time definition, pre-multiplied
  blending in 32-bit arithmetic, the CRC hand-over between the vblank timer and the composer worker, and the
  configuration graph with its validator.
- **Colour.** BGRx to NV12 in buffers with strides and pitches, and the shader's way back.

| file | contents |
|---|---|
| `Bits.dfy` | bit strings, Exp-Golomb codes, packing into bytes |
| `BitWriter.dfy` | the in-place bit writer |
| `Emulation.dfy` | emulation prevention |
| `AnnexB.dfy` | start-code scan, splitting, length prefixes |
| `ParameterSets.dfy` | syntax of VPS, SPS and PPS: a writer form and a reader for each group of fields |
| `SequenceHeaders.dfy` | the sender's serialisers, the combined stream, the whole round trip |
| `Gop.dfy`, `SliceHeaders.dfy` | picture numbering, reference surfaces, the packed slice header and what a decoder makes of it |
| `DriverParameters.dfy` | what the driver is told, against what the headers say |
| `FrameRing.dfy` | the ring of encoded frames |
| `Geometry.dfy`, `Formats.dfy`, `Blending.dfy`, `Composer.dfy` | the composer |
| `CrcProtocol.dfy` | timer and worker |
| `Config.dfy` | the configuration graph |
| `Colour.dfy`, `Nv12.dfy` | colour formulas, buffers |

Conventions. Code that changes buffers or objects is a method over an array or a class, proved against a function;
the properties are lemmas about that function. Readers return no value for syntax that no field of the sender can
select. 32- and 64-bit wrap-around is written out where it can happen. Parameters stand for what cannot be seen from
here: whether an allocation succeeds, what the driver does with an encode, and the CRC function. The host is
little-endian. A few kernel helpers that are not part of the repository are defined from their meaning: the inverse
rotation of a rectangle, its translation, the integer part of a 16.16 rectangle, and division rounded to the nearest.

Where the code and its own words differ, the code is followed:

- The comment on the escaper sizes its output by a factor of 4/3; the exact bound is n + (n - 1)/2
  (`Emulation.EscapeBound`, tight by `Emulation.EscapeBoundIsTight`).
- A popped slot is said to be valid until the next pop; it is valid for 7 - k pushes, k being the frames left
  (`FrameRing.PopWindow`).
- The vertical step of the line readers uses the block's width where its height is meant; the two agree exactly for
  square blocks (`Formats.VerticalStepExactly`). The defect is latent: every format the driver lists has one-pixel
  blocks (ubuntu/vkms-patched/vkms_plane.c:15-22).
- `blend_line` clips its source on the left but starts writing at the plane's own column. The writes stay in the line,
  and source points reach their own columns, exactly for planes that do not begin left of the CRTC
  (`Composer.WritesStayInLineExactly`; a failing plane, `Composer.PlaneLeftOfLine`). The driver's atomic check
  (ubuntu/vkms-patched/vkms_plane.c:140-143) has the DRM core clip targets to the CRTC, so no such plane arrives there.
- Forcing an IDR rounds a 64-bit counter up; the sum can wrap, and then the next picture need not be an IDR
  (`Gop.ForceIdrExactly`; a run that ends so, `Gop.ForceIdrCanWrap`).
- The unsigned code writer emits nothing for 2^32 - 1 (`Bits.UeRoundTripExactly`). The signed one computes in 32-bit
  signed arithmetic, which overflows, and so is undefined in C, exactly from magnitude 2^30 on
  (`Bits.SeRoundTripExactly`). Where the model goes on beyond that, it assumes that overflow wraps; under that
  assumption only -2^31 is not read back (`Bits.SeRoundTripIfWrapping`).
- The packed slice header leaves out two fields that section 7.3.6.1 expects under the sender's own parameter sets, so
  it cannot be read to its end (`SliceHeaders.HeaderIsIncomplete`); with the two it could
  (`SliceHeaders.TwoFieldsAreMissing`).
- The parser ignores a stream of four bytes, although one byte behind a three-byte start code is a unit
  (`AnnexB.ParseMixedExactly`).
- For odd picture sizes the conformance window crops one sample too few (`SequenceHeaders.ShownSizeExactly`).
- The channel blend wraps for some sources that are not pre-multiplied (`Blending.UnmultipliedWraps`; exactly when,
  `Blending.BlendChannelExactly`).

## Model

| member | source | states |
|---|---|---|
| Bits.UeRoundTrip | ubuntu/src/encoder.c:107-118 | section 9.2 reads an unsigned code back whatever follows it, and the code takes 2*floor(log2(v+1))+1 bits |
| Bits.UeRoundTripExactly | ubuntu/src/encoder.c:107-118 | of all 32-bit values exactly 2^32-1 is not read back |
| Bits.SeRoundTripExactly | ubuntu/src/encoder.c:121-129 | of all 32-bit values exactly those of magnitude below 2^30 are computed without signed overflow and read back |
| Bits.SeRoundTripIfWrapping | ubuntu/src/encoder.c:121-129 | if signed overflow is taken to wrap, exactly -2^31 is not read back from its signed code |
| Bits.PutUe | ubuntu/src/encoder.c:107-118 | an unsigned code in front of any rest reads as its value and leaves the rest; at most 63 bits |
| Bits.PutSe | ubuntu/src/encoder.c:121-129 | a signed code in front of any rest reads as its value and leaves the rest |
| Bits.PutU | ubuntu/src/encoder.c:87-98 | a fixed-width field in front of any rest reads as its value and leaves the rest |
| Bits.FieldsRoundTrip | ubuntu/src/encoder.c:87-129 | any series of fixed, unsigned and signed fields is read back value for value in front of any rest, which is untouched |
| Bits.CodeOfValue | ubuntu/src/encoder.c:87-98 | the digits of a bit string's value are the bit string, so n bits determine and are determined by a number below 2^n |
| Bits.UnpackPack | ubuntu/src/encoder.c:62-98 | packing whole bytes most significant bit first and unpacking them is the identity |
| Bits.PackIsUnique | ubuntu/src/encoder.c:62-98 | bytes whose bits are the given bits are the packed bytes, no others |
| Bits.SetDigit | ubuntu/src/encoder.c:91 | setting a clear binary digit adds exactly its weight to the number |
| Bits.OrBit | ubuntu/src/encoder.c:91 | adding 2^(7-j) to a byte whose bit j is clear, and nothing otherwise, sets bit j and keeps the other seven |
| BitWriting.BitWriter.constructor | ubuntu/src/encoder.c:69-76 | a zeroed buffer holds the empty bit string |
| BitWriting.BitWriter.WriteBit | ubuntu/src/encoder.c:87-98 | one step appends one bit; the buffer's bits are what was written and zeros beyond |
| BitWriting.BitWriter.Write | ubuntu/src/encoder.c:87-98 | appends the low n bits of the value, within capacity, with everything beyond still zero |
| BitWriting.BitWriter.Write1 | ubuntu/src/encoder.c:101-104 | appends one flag |
| BitWriting.BitWriter.WriteUe | ubuntu/src/encoder.c:107-118 | appends exactly the unsigned code, in any room that is enough for that code |
| BitWriting.BitWriter.WriteSe | ubuntu/src/encoder.c:121-129 | appends exactly the signed code; where C leaves the code number undefined, wrapping is assumed |
| BitWriting.BitWriter.WriteFields | ubuntu/src/encoder.c:87-129 | after any series of writes that fits, read from the bit where the series began, the buffer gives every value back and zeros behind |
| BitWriting.BitWriter.WriteTrailingBits | ubuntu/src/encoder.c:132-137 | appends a one and the zeros up to the next byte boundary |
| BitWriting.BitWriter.PackedWritten | ubuntu/src/encoder.c:140-143 | once aligned, the bytes counted as written are the packed bits |
| BitWriting.BitWriter.BufferBits | ubuntu/src/encoder.c:69-98 | the bits of the whole buffer are those written and then zeros |
| BitWriting.LastByteNonZero | ubuntu/src/encoder.c:132-137 | a payload with trailing bits packs into bytes of which the last is not zero |
| Emulation.AddEmulationPrevention | ubuntu/src/encoder.c:168-184 | fills the front of dst with the escaped input, stays within n+(n-1)/2 bytes, touches nothing behind |
| Emulation.UnescapeEscape | ubuntu/src/encoder.c:168-184 | stripping 00 00 03 as section 7.3.1.1 says returns the input, for every byte sequence |
| Emulation.NoForbiddenPattern | ubuntu/src/encoder.c:168-184 | the output has no 00 00 00, 00 00 01 or 00 00 02, and its 00 00 03 are exactly the inserted escapes |
| Emulation.EscapesAreNeeded | ubuntu/src/encoder.c:168-184 | every inserted 3 stands before an input byte of at most 3, the only place where section 7.4.2 wants one |
| Emulation.EscapeBound | ubuntu/src/encoder.c:166-184 | the output is at most n+(n-1)/2 bytes long |
| Emulation.EscapeBoundIsTight | ubuntu/src/encoder.c:166-184 | every run of n zero bytes reaches that bound |
| Emulation.WholeNalIsProtected | ubuntu/src/encoder.c:161-184 | escaping the body alone keeps the whole unit free of the forbidden patterns, as the second header byte is not zero |
| AnnexB.FindStartPositions | mac/Sources/DisplayBridgeReceiver/HEVCDecoder.swift:322-340 | the while loop collects the start codes of the recursive scan |
| AnnexB.ParseAnnexB | mac/Sources/DisplayBridgeReceiver/HEVCDecoder.swift:316-361 | the two loops return the non-empty units between the start codes, with their types |
| AnnexB.KindIsTypeField | mac/Sources/DisplayBridgeReceiver/HEVCDecoder.swift:355-356 | the type of a unit is the six-bit field behind the forbidden bit of section 7.3.1.2 |
| AnnexB.ParseMixedExactly | mac/Sources/DisplayBridgeReceiver/HEVCDecoder.swift:316-361 | for units behind any mix of three- and four-byte start codes (each non-empty and clean, none ending in a zero byte before a short code) parsing returns exactly the units, if and only if the stream is not four bytes long |
| AnnexB.ParseStream | mac/Sources/DisplayBridgeReceiver/HEVCDecoder.swift:316-361 | units behind four-byte start codes, not empty and free of 00 00 01, come back exactly, trailing zero bytes included |
| AnnexB.ParsedUnitsAreClean | mac/Sources/DisplayBridgeReceiver/HEVCDecoder.swift:316-361 | for any input at all, no unit returned is empty or contains a start code |
| AnnexB.ParseStreamExactly | mac/Sources/DisplayBridgeReceiver/HEVCDecoder.swift:316-361 | framing and parsing returns the list if and only if every unit is non-empty and free of 00 00 01 |
| AnnexB.BigEndian | mac/Sources/DisplayBridgeReceiver/HEVCDecoder.swift:114-115 | four bytes from which every length below 2^32 is read back |
| AnnexB.BigEndianIsMsbFirst | mac/Sources/DisplayBridgeReceiver/HEVCDecoder.swift:114-115 | the four bytes are the 32 binary digits of the length, most significant first |
| AnnexB.FilterSlices | mac/Sources/DisplayBridgeReceiver/HEVCDecoder.swift:106-109 | keeps the units of types up to 31, in order |
| AnnexB.BuildAvcc | mac/Sources/DisplayBridgeReceiver/HEVCDecoder.swift:106-118 | the buffer is the slices, each behind its length |
| AnnexB.SplitAvcc | mac/Sources/DisplayBridgeReceiver/HEVCDecoder.swift:111-118 | taking the buffer apart by its lengths gives the slices back |
| AnnexB.FrameRoundTrip | mac/Sources/DisplayBridgeReceiver/HEVCDecoder.swift:106-118 | from frame to decoder buffer to units: exactly the frame's slices in order |
| ParameterSets.PutPtl | ubuntu/src/encoder.c:191-218 | profile, tier and level read back as written (section 7.3.3) |
| ParameterSets.WriteProfileTierLevel | ubuntu/src/encoder.c:191-218 | the writer appends the Main profile's fields and nothing else |
| ParameterSets.PutVps | ubuntu/src/encoder.c:221-261 | a VPS in range reads back field for field (section 7.3.2.1) |
| ParameterSets.PutSps | ubuntu/src/encoder.c:264-337 | an SPS in range reads back field for field (section 7.3.2.2) |
| ParameterSets.PutPps | ubuntu/src/encoder.c:340-396 | a PPS in range reads back field for field (section 7.3.2.3) |
| ParameterSets.PutWindow | ubuntu/src/encoder.c:286-297 | the conformance window reads back, absent or present |
| ParameterSets.PutDeblocking | ubuntu/src/encoder.c:378-384 | the deblocking control reads back, with and without offsets |
| SequenceHeaders.Align64 | ubuntu/src/encoder.c:271-272 | a multiple of 64 from x up to x+63 |
| SequenceHeaders.WriteVps | ubuntu/src/encoder.c:221-261 | at most 128 bytes: the escaped VPS with the sender's values, within raw_buf and the body buffer |
| SequenceHeaders.WriteSps | ubuntu/src/encoder.c:264-337 | the escaped SPS for the given size, within raw_buf and the body buffer |
| SequenceHeaders.WritePps | ubuntu/src/encoder.c:340-396 | the escaped PPS, within raw_buf and the body buffer |
| SequenceHeaders.WriteWindow | ubuntu/src/encoder.c:286-297 | writes the window exactly when the coded size differs from the picture size |
| SequenceHeaders.WriteStartCodeAndNaluHeader | ubuntu/src/encoder.c:151-164 | appends 00 00 00 01 and the two header bytes |
| SequenceHeaders.NalHeaderReads | ubuntu/src/encoder.c:161-162 | section 7.3.1.2 reads the two bytes as no forbidden bit, the type, layer 0 and temporal layer 0 |
| SequenceHeaders.BuildSequenceHeaders | ubuntu/src/encoder.c:526-557 | the combined buffer holds the three framed units and no write leaves any of the buffers |
| SequenceHeaders.RbspRoundTrip | ubuntu/src/encoder.c:132-184 | whatever syntax a payload has, if it is readable before trailing bits and escaping it is readable after |
| SequenceHeaders.VpsRoundTrip | ubuntu/src/encoder.c:221-261 | the bytes sent read as every VPS field, to the last bit |
| SequenceHeaders.SpsRoundTrip | ubuntu/src/encoder.c:264-337 | the bytes sent read as every SPS field, to the last bit |
| SequenceHeaders.PpsRoundTrip | ubuntu/src/encoder.c:340-396 | the bytes sent read as every PPS field, to the last bit |
| SequenceHeaders.EscapedIsClean | ubuntu/src/encoder.c:151-184 | no unit the sender makes contains a start code |
| SequenceHeaders.SequenceHeadersRoundTrip | ubuntu/src/encoder.c:526-557 | for every size and rate the receiver's parser finds exactly three units of types 32, 33, 34, which unescape and read as every field written |
| SequenceHeaders.SetsReceived | ubuntu/src/encoder.c:526-557 | the receiver gets out of the stream exactly the three parameter sets that the sender put in |
| SequenceHeaders.CodedSizeIsLeast | ubuntu/src/encoder.c:271-272 | no smaller multiple of 64 holds the dimension |
| SequenceHeaders.ShownSizeExactly | ubuntu/src/encoder.c:286-297 | coded size less window is the picture size if and only if both dimensions are even |
| Gop.EncodeKeepsInv | ubuntu/src/encoder.c:938-1049 | an encode with any outcome keeps: unless an IDR is next, the previous surface holds the last encoded picture, one count behind |
| Gop.ForceIdrExactly | ubuntu/src/encoder.c:1307-1313 | a forced IDR makes the next picture an IDR exactly when the count is a multiple already or rounding it up does not pass 2^64 |
| Gop.SuccessesCount | ubuntu/src/encoder.c:1040-1043 | n successful encodes from the start, for any n below 2^64, keep the invariant and leave the count at n |
| Gop.IdrEveryTwoSeconds | ubuntu/src/encoder.c:1055-1070 | after n successes the next picture is an IDR if and only if n is a multiple of twice the rate |
| Gop.ForceIdrCanWrap | ubuntu/src/encoder.c:1307-1313 | at 60 frames a second, after the run of 2^64-1 successes, a forced IDR is lost to the wrap |
| Gop.EveryRunKeepsInv | ubuntu/src/encoder.c:938-1070 | the invariant holds after every run of up to 2^52 encodes, failures and forced IDRs, at any rate up to 2048 |
| Gop.SubmissionIsSound | ubuntu/src/encoder.c:655-768 | from the invariant: the reference is not the current surface, holds the last picture, and is one count behind; IDRs have count 0; counts fit 12 bits |
| Gop.SubmittedSurfaceIsFilled | ubuntu/src/encoder.c:938-1049 | the surface and order count handed to the driver are those under which the picture is held afterwards; a failure can spoil that surface only |
| Gop.EveryEncodeIsSound | ubuntu/src/encoder.c:938-1049 | that soundness for every encode of every run |
| Gop.ReferenceIsLastSuccess | ubuntu/src/encoder.c:655-748 | in every run a P picture refers to the surface, under the order count, that the last successful encode was given, whatever failed since |
| Gop.ForcedIdrSurvivesFailures | ubuntu/src/encoder.c:942-950 | after a forced IDR, any number of failures and requests leaves the next success an IDR |
| Gop.NextSuccessIsIdr | ubuntu/src/encoder.c:1307-1313 | in every run of up to 2^52 steps, the next success after a forced IDR is an IDR, through any failures and requests |
| Gop.Encoder.constructor | ubuntu/src/encoder.c:1055-1070 | counter 0, interval twice the rate, first surface |
| Gop.Encoder.EncodeSurface | ubuntu/src/encoder.c:938-1049 | the method's new state is the state machine's step, what it submits is sound, and only a success returns 0 |
| Gop.Encoder.ForceIdr | ubuntu/src/encoder.c:1307-1313 | the new state is the step, and the next picture is an IDR exactly under the rounding condition |
| SliceHeaders.EntriesRoundTrip | ubuntu/src/encoder.c:440-448 | any list of references reads back by section 7.3.7 |
| SliceHeaders.RefsRoundTrip | ubuntu/src/encoder.c:432-448 | order count and inline reference picture set read back under a sequence parameter set that announces twelve bits and no stored sets |
| SliceHeaders.WriteSliceHeader | ubuntu/src/encoder.c:401-478 | the bits appended are those of the header for the picture submitted |
| SliceHeaders.SliceHeadRoundTrip | ubuntu/src/encoder.c:401-451 | under parameter sets that refer to each other and ask for what is written, the header up to the reference set reads back, whatever follows |
| SliceHeaders.SentSetsExpect | ubuntu/src/encoder.c:264-396 | the parameter sets the sender sends are of that kind: twelve bits of order count, no stored sets, no extra fields |
| SliceHeaders.HeadDecodes | ubuntu/src/encoder.c:433-448 | from the fields a decoder derives (sections 8.3.1, 8.3.2) the submitted order count, and exactly the picture held by the reference surface as usable reference, none for an IDR; the slice type is P or I accordingly; the buffer announced suffices |
| SliceHeaders.BuildPackedSlice | ubuntu/src/encoder.c:560-577 | the buffer holds one framed unit with the escaped header, within 512 bytes |
| SliceHeaders.PackedSliceRoundTrip | ubuntu/src/encoder.c:560-577 | in every state of every run, for every size: sequence headers and slice header parse, and read under the sets received the slice decodes as the picture submitted |
| SliceHeaders.HeaderIsIncomplete | ubuntu/src/encoder.c:450-484 | read on by section 7.3.6.1 under the sets sent, the fields of every packed slice header run into its trailing bits |
| SliceHeaders.TwoFieldsAreMissing | ubuntu/src/encoder.c:450-484 | with the merge candidates of a P slice and the loop filter flag added it would read as complete |
| DriverParameters.HeadersAgreeWithDriver | ubuntu/src/encoder.c:613-716 | what the receiver reads out of the sequence headers is, field for field, what the driver is told about sequence and picture; the sets are consistent and announce fps pictures per second |
| DriverParameters.SliceCoversPicture | ubuntu/src/encoder.c:718-731 | the one slice has as many blocks as the picture that the SPS announces, if and only if these are fewer than 2^32; the picture is whole in smallest coding blocks |
| DriverParameters.SliceAgreesWithDriver | ubuntu/src/encoder.c:655-768 | the driver's reference list holds the order counts a decoder derives from the slice header, in order; type, set and current surface agree, and no reference is the current surface |
| DriverParameters.MissingFieldsAreTold | ubuntu/src/encoder.c:750-768 | the two fields missing from the packed header would carry the values the driver is told |
| FrameRing.PushRefines | ubuntu/src/main.c:81-111 | on the slots, a push is enqueueing into a queue of at most seven that drops its oldest |
| FrameRing.PopRefines | ubuntu/src/main.c:115-139 | a pop takes the head of the queue, and nothing exactly when it is empty |
| FrameRing.FlushRefines | ubuntu/src/main.c:143-154 | a flush empties the queue |
| FrameRing.StepIsFaithful | ubuntu/src/main.c:81-154 | every step keeps: pushed = popped + dropped + flushed + queued, the queue is the newest part of what was pushed, popped frames are pushed frames in push order |
| FrameRing.EveryRunIsFaithful | ubuntu/src/main.c:81-154 | conservation, order and exact contents after every run |
| FrameRing.PoppedSlotIsStable | ubuntu/src/main.c:113-139 | the slot popped with k frames left survives 7-k pushes, whatever pops and flushes come between |
| FrameRing.PoppedSlotIsReused | ubuntu/src/main.c:85-106 | push 8-k writes that slot |
| FrameRing.PopWindow | ubuntu/src/main.c:113-139 | both halves of the window for the slot a pop returns: the oldest frame until then, the new frame after |
| FrameRing.RingEntry.Store | ubuntu/src/main.c:92-105 | the entry holds exactly the bytes, time stamp and key flag, in a buffer grown if need be |
| FrameRing.RingBuffer.constructor | ubuntu/src/main.c:59-69 | eight entries with buffers of their own, empty queue |
| FrameRing.RingBuffer.PushFrame | ubuntu/src/main.c:81-111 | the object's queue after a push, and only the head entry changes |
| FrameRing.RingBuffer.PopFrame | ubuntu/src/main.c:115-139 | returns the entry that holds the oldest frame, or null exactly on an empty queue |
| FrameRing.RingBuffer.FlushFrames | ubuntu/src/main.c:143-154 | empties the queue and counts what it held |
| Geometry.IntegerPart | ubuntu/vkms-patched/vkms_composer.c:281 | a fixed-point rectangle with whole corners comes out with those corners |
| Geometry.FractionDropped | ubuntu/vkms-patched/vkms_composer.c:281 | a fractional one loses the fraction of its upper left corner and of its size |
| Geometry.RotationInverse | ubuntu/vkms-patched/vkms_composer.c:295-309 | the inverse undoes the rotation both ways and maps exactly the turned area onto the source area |
| Geometry.TurnsCompose | ubuntu/vkms-patched/vkms_composer.c:295-309 | two quarter turns are a half turn, three the opposite quarter, and a quarter turn is counter-clockwise |
| Geometry.ReflectionsComeFirst | ubuntu/vkms-patched/vkms_composer.c:295-309 | a rotation is the reflections, each along its axis, and then the turn |
| Geometry.RectOfPixel | ubuntu/vkms-patched/vkms_composer.c:305-309 | the rectangle form agrees with the pixel form |
| Geometry.DirectionForRotation | ubuntu/vkms-patched/vkms_composer.c:145-177 | the probe of two points gives the direction tabulated for each of the sixteen rotations; the fall-back is never taken |
| Geometry.InverseAlong | ubuntu/vkms-patched/vkms_composer.c:140-177 | that direction is the image of one step to the right on the CRTC |
| Geometry.LineShape | ubuntu/vkms-patched/vkms_composer.c:305-315 | the inverted line stays one pixel thick and lies along the reading direction |
| Geometry.LineVisitsInverses | ubuntu/vkms-patched/vkms_composer.c:295-338 | one strided read of the inverted line visits the inverse of each point in order |
| Formats.WordLayout8 | ubuntu/vkms-patched/vkms_formats.c:150-165 | the 8888 readers take A, R, G, B (or A, B, G, R) from the top of a little-endian word down |
| Formats.WordLayout16 | ubuntu/vkms-patched/vkms_formats.c:167-183 | the 16161616 readers likewise, sixteen bits each |
| Formats.To8IsNearest | ubuntu/vkms-patched/vkms_formats.c:341-357 | an eight-bit channel is off by at most 128 of 65535, half a step |
| Formats.DecodeEncode | ubuntu/vkms-patched/vkms_formats.c:341-393 | reading what was written gives every channel, alpha included, rounded to the depth of the format |
| Formats.OpaqueRoundTrip | ubuntu/vkms-patched/vkms_formats.c:150-177 | an opaque pixel read, blended over anything and written in its format keeps every colour byte, with the fourth channel all ones |
| Formats.EncodeDecode | ubuntu/vkms-patched/vkms_formats.c:341-393 | writing what was read is the identity on opaque pixels in each of the five formats |
| Formats.BlockAddress | ubuntu/vkms-patched/vkms_formats.c:32-53 | blocks follow each other along a row and rows of blocks at pitch times block height, with the place in the block |
| Formats.VerticalStepExactly | ubuntu/vkms-patched/vkms_formats.c:95-112 | the vertical step reaches the next block if and only if blocks are square |
| Formats.StepMoves | ubuntu/vkms-patched/vkms_formats.c:95-112 | for one-pixel blocks a pointer step is a step of one pixel in every direction |
| Formats.ReadLine | ubuntu/vkms-patched/vkms_formats.c:218-312 | the loop leaves the pixels of the line, in order, all reads inside the mapping, all else untouched |
| Formats.RowsDoNotOverlap | ubuntu/vkms-patched/vkms_formats.c:421-435 | rows no longer than the pitch do not overlap in the writeback buffer |
| Formats.WritebackRow | ubuntu/vkms-patched/vkms_formats.c:421-435 | each pixel's bytes stand at its place and no byte outside the row changes |
| Blending.BlendChannelExactly | ubuntu/vkms-patched/vkms_composer.c:16-23 | the 32-bit blend equals the rounded exact blend if and only if the sum stays below 65535^2 + 32768 |
| Blending.UnmultipliedWraps | ubuntu/vkms-patched/vkms_composer.c:16-23 | a source that is not pre-multiplied and does wrap |
| Blending.PremultipliedBlend | ubuntu/vkms-patched/vkms_composer.c:16-52 | for channel <= alpha nothing wraps and the rounding error is below one half |
| Blending.OneLayerError | ubuntu/vkms-patched/vkms_composer.c:40-52 | a layer adds one rounding to an error its transparency cannot enlarge |
| Blending.CompositionError | ubuntu/vkms-patched/vkms_composer.c:40-52 | n pre-multiplied layers: alpha 0xffff and each channel within n*32767/65535 of the exact composite |
| Composer.LineIsPointwise | ubuntu/vkms-patched/vkms_composer.c:260-338 | the line blend_line computes visits the source point of every column, inside the framebuffer |
| Composer.ClampIsDead | ubuntu/vkms-patched/vkms_composer.c:197-249 | on a plane that fits its framebuffer the clamping of the source changes nothing, wherever the line was clipped |
| Composer.WritesStayInLineExactly | ubuntu/vkms-patched/vkms_composer.c:260-353 | for a plane that fits and is visible in the row: the columns written lie in the line, and are those of the source points read, if and only if it does not begin left of the CRTC |
| Composer.PlaneLeftOfLine | ubuntu/vkms-patched/vkms_composer.c:260-353 | a fitting, visible plane one pixel left of a line of four, written from column -1 |
| Composer.PreMulAlphaBlend | ubuntu/vkms-patched/vkms_composer.c:40-52 | exactly the columns asked for are blended, each from its own stage pixel |
| Composer.BlendLine | ubuntu/vkms-patched/vkms_composer.c:260-353 | every pixel of the row is the pixel definition applied to what was there |
| Composer.FillBackground | ubuntu/vkms-patched/vkms_composer.c:55-60 | the whole line becomes opaque black |
| Composer.ComposeRow | ubuntu/vkms-patched/vkms_composer.c:388-394 | the output line is the pixel-by-pixel fold over all planes in z-order |
| Composer.Blend | ubuntu/vkms-patched/vkms_composer.c:368-403 | the checksum is fed every composed row from the top down, each once, and every row stands in the writeback buffer at the end |
| Composer.SourcePixelLands | ubuntu/vkms-patched/vkms_composer.c:260-353 | for any rotation and list of planes: the framebuffer pixel at (u, v) of the source rectangle, by its memory address, is what is blended at the rotated place of the target |
| Composer.UnrotatedPlane | ubuntu/vkms-patched/vkms_composer.c:260-353 | without rotation: pixel (x, y) blends the memory at offset + (y - dst.y1 + src.y1)*pitch + (x - dst.x1 + src.x1)*cpp, and pixels outside the target stay |
| Composer.OpaqueTopHides | ubuntu/vkms-patched/vkms_composer.c:391-394 | where the last plane is opaque nothing below shows; where there is no plane the line is opaque black |
| Composer.ComposeIsBlendAll | ubuntu/vkms-patched/vkms_composer.c:391-394 | the composed pixel is the blend of the source pixels of exactly the planes that cover it |
| Composer.ComposeError | ubuntu/vkms-patched/vkms_composer.c:16-52 | composed pixels over pre-multiplied planes are opaque and within one half step per covering plane of the exact result |
| Composer.FullScreenReproduces | ubuntu/vkms-patched/vkms_composer.c:368-403 | one opaque full-screen plane written back in its format reproduces every colour byte at every pixel, by memory address, for any offsets and pitches |
| CrcProtocol.StepAccounts | ubuntu/vkms-patched/vkms_crtc.c:34-56 | after any step each frame since the start is in exactly one place: emitted, lost, with the worker, or pending |
| CrcProtocol.StepOrders | ubuntu/vkms-patched/vkms_composer.c:504-556 | after any step emitted frames precede those being worked on, and those precede the pending ones |
| CrcProtocol.StepKeepsInv | ubuntu/vkms-patched/vkms_composer.c:491-557 | every step of timer or worker keeps accounting, order, and that a pending frame has somebody coming for it |
| CrcProtocol.RunKeepsInv | ubuntu/vkms-patched/vkms_composer.c:491-557 | the same over every interleaving |
| CrcProtocol.EveryFrameHasItsFate | ubuntu/vkms-patched/vkms_composer.c:491-557 | in every interleaving entries increase, none is also lost, pending frames are served, and at quiescence every vblank is emitted or lost |
| CrcProtocol.FailedRangeIsLost | ubuntu/vkms-patched/vkms_composer.c:537-543 | a range whose composition failed is recorded as lost, and no later step of any run makes an entry for it |
| CrcProtocol.BacklogBoundsTheRun | ubuntu/vkms-patched/vkms_composer.c:504-556 | without a new vblank the threads can take only as many steps as the backlog counts |
| CrcProtocol.SomebodyCanMove | ubuntu/vkms-patched/vkms_composer.c:504-556 | no step but a tick is possible exactly at quiescence, so the worker always catches up |
| CrcProtocol.SmoothRunIsConsecutive | ubuntu/vkms-patched/vkms_composer.c:504-556 | with one vblank per tick and composition succeeding, the entries are consecutive at every moment and complete at quiescence |
| CrcProtocol.CrtcState.PublishFrame | ubuntu/vkms-patched/vkms_crtc.c:43-51 | the timer's locked section is the protocol's publish step |
| CrcProtocol.CrtcState.TakeFrames | ubuntu/vkms-patched/vkms_composer.c:504-511 | the worker's locked section hands out the range and resets it, and reads the writeback flag without resetting it |
| CrcProtocol.EmitEntries | ubuntu/vkms-patched/vkms_composer.c:552-556 | one entry for each frame of the range, in order, the late ones included |
| ConfigGraph.Find | ubuntu/vkms-patched/vkms_config.c:416-419 | finds a link if and only if there is one |
| ConfigGraph.Attach | ubuntu/vkms-patched/vkms_config.c:406-423 | a link already there is refused; otherwise one is added at a free index, unless memory fails |
| ConfigGraph.Detach | ubuntu/vkms-patched/vkms_config.c:426-436 | removes exactly the links to the object |
| ConfigGraph.AttachKeepsSound | ubuntu/vkms-patched/vkms_config.c:406-423 | links stay inside the configuration and unduplicated |
| ConfigGraph.DetachKeepsSound | ubuntu/vkms-patched/vkms_config.c:426-436 | after detaching, the object can be removed and no link points at it |
| ConfigGraph.DetachUndoesAttach | ubuntu/vkms-patched/vkms_config.c:406-436 | detaching after attaching restores the links |
| ConfigGraph.WithoutKeepsOrder | ubuntu/vkms-patched/vkms_config.c:398-403 | deleting from a list leaves the others in their order |
| ConfigGraph.Config.CreatePlane | ubuntu/vkms-patched/vkms_config.c:380-395 | a fresh unlinked overlay plane at the end of the list, the invariant kept, or nothing at all |
| ConfigGraph.Config.CreateCrtc | ubuntu/vkms-patched/vkms_config.c:439-453 | a fresh CRTC at the end of the list, or nothing at all |
| ConfigGraph.Config.CreateEncoder | ubuntu/vkms-patched/vkms_config.c:518-532 | a fresh unlinked encoder at the end of the list, or nothing at all |
| ConfigGraph.Config.CreateConnector | ubuntu/vkms-patched/vkms_config.c:582-596 | a fresh unlinked connector at the end of the list, or nothing at all |
| ConfigGraph.Config.DestroyPlane | ubuntu/vkms-patched/vkms_config.c:398-403 | the plane leaves the list and the invariant holds |
| ConfigGraph.Config.DestroyCrtc | ubuntu/vkms-patched/vkms_config.c:456-470 | the CRTC and every link to it are gone, all other links stay |
| ConfigGraph.Config.DestroyEncoder | ubuntu/vkms-patched/vkms_config.c:535-546 | the encoder and every link to it are gone, all other links stay |
| ConfigGraph.Config.DestroyConnector | ubuntu/vkms-patched/vkms_config.c:599-604 | the connector leaves the list and the invariant holds |
| ConfigGraph.Config.Destroy | ubuntu/vkms-patched/vkms_config.c:109-130 | planes, CRTCs, encoders, connectors: the invariant holds all the way to the empty configuration |
| ConfigGraph.PlaneAttachCrtc | ubuntu/vkms-patched/vkms_config.c:406-423 | which error or success, for objects of the same or another configuration; on success one link more, at the lowest free index |
| ConfigGraph.PlaneDetachCrtc | ubuntu/vkms-patched/vkms_config.c:426-436 | the plane's links to the CRTC, and only those, are gone |
| ConfigGraph.EncoderAttachCrtc | ubuntu/vkms-patched/vkms_config.c:549-566 | the same for an encoder's CRTCs |
| ConfigGraph.EncoderDetachCrtc | ubuntu/vkms-patched/vkms_config.c:569-579 | the same for an encoder's CRTCs |
| ConfigGraph.ConnectorAttachEncoder | ubuntu/vkms-patched/vkms_config.c:607-625 | the same for a connector's encoders |
| ConfigGraph.ConnectorDetachEncoder | ubuntu/vkms-patched/vkms_config.c:628-639 | the same for a connector's encoders |
| ConfigGraph.Config.ValidPlanesForCrtc | ubuntu/vkms-patched/vkms_config.c:147-190 | true if and only if exactly one primary and at most one cursor plane can serve the CRTC |
| ConfigGraph.Config.ValidEncoderPossibleCrtcs | ubuntu/vkms-patched/vkms_config.c:235-269 | true if and only if every encoder has a CRTC and every CRTC an encoder |
| ConfigGraph.Config.IsValid | ubuntu/vkms-patched/vkms_config.c:301-332 | true if and only if the counts are 1 to 31 and all of the above hold, for every configuration with the invariant |
| ConfigGraph.Config.GetPlane | ubuntu/vkms-patched/vkms_config.c:483-502 | the first plane of the type that can serve the CRTC, null exactly if there is none |
| ConfigGraph.Config.PrimaryPlane | ubuntu/vkms-patched/vkms_output.c:33-40 | on a valid configuration the plane that set-up dereferences is there and is the only one |
| ConfigGraph.DefaultCreate | ubuntu/vkms-patched/vkms_config.c:34-106 | the default configuration passes the validator whatever is enabled, and there is none exactly if one of its allocations fails; what was built then goes through the destroy order |
| Colour.LimitedRange | ubuntu/src/encoder.c:1280-1291 | luma stays in 16..235 and chroma in 16..240, so no cast to a byte loses anything; greys have chroma 128 |
| Colour.CloseToStandard | ubuntu/src/encoder.c:1280-1291 | luma and chroma are within one code value of the exact BT.601 values, for every colour |
| Colour.ShaderInvertsStandard | mac/Sources/DisplayBridgeReceiver/MetalRenderer.swift:277-285 | applied to the exact BT.601 values the shader's stretching and matrix give each colour back to a thousandth of a code value |
| Colour.ColourRoundTrip | mac/Sources/DisplayBridgeReceiver/MetalRenderer.swift:273-287 | every 8-bit colour comes back from the shader with red and green within 2 and blue within 3 code values |
| Colour.RedBoundIsBest | mac/Sources/DisplayBridgeReceiver/MetalRenderer.swift:277-287 | a colour whose red misses by more than 1 |
| Colour.GreenBoundIsBest | mac/Sources/DisplayBridgeReceiver/MetalRenderer.swift:277-287 | a colour whose green misses by more than 1 |
| Colour.BlueBoundIsBest | mac/Sources/DisplayBridgeReceiver/MetalRenderer.swift:277-287 | a colour whose blue misses by more than 2 |
| Nv12.ConvertLumaRow | ubuntu/src/encoder.c:1276-1281 | a row of the luma plane is the formula on the row of the picture, all else unchanged |
| Nv12.ConvertChromaRow | ubuntu/src/encoder.c:1284-1293 | a row of pairs is the formula on every second pixel of the row, all else unchanged |
| Nv12.NeededIsBothPlanes | ubuntu/src/encoder.c:1245-1256 | the allocation is exactly the two packed planes |
| Nv12.Convert | ubuntu/src/encoder.c:1269-1294 | the buffer holds the picture in packed NV12, in bounds, with nothing behind it changed |
| Nv12.CopyPlane | ubuntu/src/encoder.c:1214-1221 | every row arrives at its pitch and no byte outside the rows changes, with nothing needed behind the last row |
| Nv12.ChromaSourceExactly | ubuntu/src/encoder.c:1224 | the 32-bit product finds the chroma plane if and only if the luma plane is below 4 GiB |
| Nv12.CopyPicture | ubuntu/src/encoder.c:1214-1230 | both planes arrive whole in disjoint planes, every other byte of the surface keeps its value |
| Nv12.EncodeBgrx | ubuntu/src/encoder.c:1240-1298 | from the captured frame to the surface, growing the conversion buffer if need be: the picture is there and all other bytes are untouched, or memory failed and the surface is as it was |
| Nv12.HoldsEveryPixel | ubuntu/src/encoder.c:1269-1294 | pixel by pixel: luma is the formula on pixel (x, y), the chroma pair the formula on the top-left pixel of its block |

## Left out

- Gop.EveryRunKeepsInv: encodes and forced IDRs are atomic steps; the sender calls `db_encoder_force_idr` from another thread without a lock, and a call inside an encode is not modelled. The run is shorter than 2^52 steps, so that the 64-bit count does not wrap.
- Gop.Encoder.EncodeSurface: the driver calls are one outcome: success, failure before the surface is touched, or failure after; the buffers handed to the driver are reduced to the reference fields.
- SliceHeaders.SliceHeadRoundTrip: first slice segments only; reference sets predicted from stored ones and long-term references are not read.
- DriverParameters.HeadersAgreeWithDriver: bit rate, intra period, scan hints and other fields that the headers do not carry are left out.
- SequenceHeaders.BuildSequenceHeaders: sizes for which ALIGN would overflow a 32-bit int are excluded; the serialisers are split into groups of fields.
- Composer.BlendLine: the outcome of the atomic check is a predicate (source inside the framebuffer, target of the source's size up to a quarter turn, clipped on the left); framebuffer blocks are single pixels; coordinates are unbounded integers.
- Composer.Blend: no gamma LUT and no RGB565, whose fixed-point arithmetic is not part of this model; the CRC function is a parameter applied to whole rows of pixels.
- Formats.ReadLine: one method for the five line readers, which differ in the decoded pixel only; the framebuffer's pixels lie inside the mapping.
- CrcProtocol.RunKeepsInv: one CRTC state with the composer enabled; the two locked sections, the enqueueing and each entry are atomic; the completion of a writeback and the change of CRTC state across commits are not modelled.
- FrameRing.RingBuffer.PushFrame: allocation of a larger slot buffer succeeds; the failure path, which has dropped the oldest frame and stores nothing, is not modelled.
- FrameRing.RingEntry.Store: likewise assumes that the larger buffer is there.
- BitWriting.BitWriter.WriteSe: signed overflow in the code number, from magnitude 2^30 on, is assumed to wrap.
- FrameRing.RingBuffer.PopFrame: the timed wait is left out; the method is the state after it.
- ConfigGraph.Config.CreatePlane: names, connector status and the DRM objects behind a configuration are not modelled; the index arrays are maps from indices to objects.
- Colour.ColourRoundTrip: constant 2x2 blocks, a lossless codec and a shader in exact reals.
- Nv12.EncodeBgrx: even dimensions and a luma plane below 4 GiB; mapping the surface is a foreign call.
- Odd picture sizes for chroma, where halving the dimensions drops a column or a row.
- The receiver's session handling around the parser: parameter-set changes, waiting for an IDR, VideoToolbox and Metal set-up.
- VAAPI, PipeWire, D-Bus, SRT, Avahi and uinput, which are foreign calls and input/output.
- Wire headers, adaptive bitrate, reconnection and EDID bytes, which would add easy members only.
- Mouse-button forwarding, where sender and receiver disagree on the encoding of press and release.
