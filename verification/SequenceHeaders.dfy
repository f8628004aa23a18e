/** The sender's VPS, SPS and PPS, and the stream they make together. */
module SequenceHeaders {
  import opened Wrappers
  import opened Bits
  import opened BitWriting
  import opened Emulation
  import opened AnnexB
  import opened ParameterSets

  /** ALIGN(x, 64). */
  function Align64(x: nat): (a: nat)
    ensures x <= a < x + 64 && a % 64 == 0
  {
    (x + 63) / 64 * 64
  }

  // ---- the values the sender writes ----

  function SingleLayerOrdering(): Ordering { Ordering(false, 1, 0, 0) }

  function VpsHeadFields(): VpsHead { VpsHead(0, true, true, 0, 0, true, 0xFFFF) }

  function VpsTailFields(fps: nat): VpsTail { VpsTail(0, 0, Some(Timing(1, fps, None, 0)), false) }

  function VpsFields(fps: nat): Vps {
    Vps(VpsHeadFields(), MainPtl(), SingleLayerOrdering(), VpsTailFields(fps))
  }

  /** The conformance window, present only when the coded size is not the picture size. */
  function WindowFields(width: nat, height: nat): Option<Window> {
    var aw, ah := Align64(width), Align64(height);
    if aw == width && ah == height then None else Some(Window(0, (aw - width) / 2, 0, (ah - height) / 2))
  }

  function SpsFormatFields(width: nat, height: nat): SpsFormat {
    SpsFormat(0, 1, Align64(width), Align64(height), WindowFields(width, height), 0, 0, 8)
  }

  function TreeFields(): CodingTree { CodingTree(0, 3, 0, 3, 2, 2) }

  function SpsToolFields(): SpsTools { SpsTools(false, true, false, false, 0, false, false, true, false, false) }

  function SpsFields(width: nat, height: nat): Sps {
    Sps(SpsHead(0, 0, true), MainPtl(), SpsFormatFields(width, height), SingleLayerOrdering(), TreeFields(),
        SpsToolFields())
  }

  function PpsFields(): Pps {
    Pps(PpsHead(0, 0, false, false, 0, false, false, 0, 0),
        PpsQp(0, false, false, Some(0), 0, 0, false),
        PpsTools(false, false, false, false, false, true),
        Some(Deblocking(false, Some(Offsets(0, 0)))),
        PpsTail(false, false, 0, false, false))
  }

  // ---- the serialisers ----

  ghost predicate Room(bs: BitWriter, n: nat)
    reads bs
  {
    |bs.written| + n <= 8 * bs.buf.Length
  }

  method WriteOrdering(bs: BitWriter)
    requires bs.Valid() && Room(bs, 190)
    modifies bs, bs.buf
    ensures bs.Valid() && |bs.written| <= |old(bs.written)| + 190
    ensures forall rest {:trigger PutOrdering(SingleLayerOrdering(), rest)} ::
              bs.written + rest == old(bs.written) + PutOrdering(SingleLayerOrdering(), rest)
  {
    bs.Write1(false);
    bs.WriteUe(1);
    bs.WriteUe(0);
    bs.WriteUe(0);
  }

  method WriteVpsHead(bs: BitWriter)
    requires bs.Valid() && Room(bs, 32)
    modifies bs, bs.buf
    ensures bs.Valid() && |bs.written| <= |old(bs.written)| + 32
    ensures forall rest {:trigger PutVpsHead(VpsHeadFields(), rest)} ::
              bs.written + rest == old(bs.written) + PutVpsHead(VpsHeadFields(), rest)
  {
    bs.Write(0, 4);
    bs.Write1(true);
    bs.Write1(true);
    bs.Write(0, 6);
    bs.Write(0, 3);
    bs.Write1(true);
    bs.Write(0xFFFF, 16);
  }

  method WriteVpsTail(bs: BitWriter, fps: nat)
    requires bs.Valid() && Room(bs, 199) && fps < TWO_TO_32
    modifies bs, bs.buf
    ensures bs.Valid() && |bs.written| <= |old(bs.written)| + 199
    ensures forall rest {:trigger PutVpsTail(VpsTailFields(fps), rest)} ::
              bs.written + rest == old(bs.written) + PutVpsTail(VpsTailFields(fps), rest)
  {
    hide PutU, PutUe, PutFlag, Code, UeCode;
    bs.Write(0, 6);
    bs.WriteUe(0);
    bs.Write1(true);
    bs.Write(1, 32);
    bs.Write(fps, 32);
    bs.Write1(false);
    bs.WriteUe(0);
    bs.Write1(false);
  }

  /** The payload with its trailing bits, as bytes. */
  function Rbsp(payload: BitString): (bytes: seq<Byte>)
    ensures 8 * |bytes| <= |payload| + 8
  {
    Pack(payload + Trailing(|payload|))
  }

  /** Ends the payload and escapes it into out. */
  method Finish(bs: BitWriter, out: array<Byte>) returns (len: nat)
    requires bs.Valid() && Room(bs, 8) && bs.buf != out
    requires 3 * (|bs.written| + 8) <= 16 * out.Length
    modifies bs, bs.buf, out
    ensures len <= out.Length && out[..len] == Escape(0, Rbsp(old(bs.written)))
  {
    bs.WriteTrailingBits();
    bs.PackedWritten();
    var rawLen := bs.BytesWritten();
    len := AddEmulationPrevention(out, bs.buf, rawLen);
  }

  method WriteVps(out: array<Byte>, fps: nat) returns (len: nat)
    requires out.Length >= 512 && fps < TWO_TO_32
    modifies out
    ensures len <= 128 && out[..len] == VpsBody(fps)
  {
    hide PutVpsHead, PutPtl, PutOrdering, PutVpsTail, MainPtl, Rbsp;
    var bs := new BitWriter(256);
    WriteVpsHead(bs);
    WriteProfileTierLevel(bs);
    WriteOrdering(bs);
    WriteVpsTail(bs, fps);
    assert bs.written + [] == bs.written;
    assert bs.written == PutVps(VpsFields(fps), []);
    len := Finish(bs, out);
    EscapeBound(0, Rbsp(PutVps(VpsFields(fps), [])));
  }

  /** The conformance window, written only if needed. */
  method WriteWindow(bs: BitWriter, width: nat, height: nat, aw: nat, ah: nat)
    requires bs.Valid() && Room(bs, 253) && width <= MAX_SIZE && height <= MAX_SIZE
    requires aw == Align64(width) && ah == Align64(height)
    modifies bs, bs.buf
    ensures bs.Valid() && |bs.written| <= |old(bs.written)| + 253
    ensures forall rest {:trigger PutWindow(WindowFields(width, height), rest)} ::
              bs.written + rest == old(bs.written) + PutWindow(WindowFields(width, height), rest)
  {
    hide PutUe, PutFlag, UeCode, Align64, PutWindow, WindowFields, ReadUe, ReadFlag, ReadWindow, BitWriter.Valid;
    var needConf := aw != width || ah != height;
    bs.Write1(needConf);
    if needConf {
      var rightOffset := (aw - width) / 2;
      var bottomOffset := (ah - height) / 2;
      bs.WriteUe(0);
      bs.WriteUe(rightOffset);
      bs.WriteUe(0);
      bs.WriteUe(bottomOffset);
    }
    forall rest ensures bs.written + rest == old(bs.written) + PutWindow(WindowFields(width, height), rest) {
      PutWindowOf(width, height, rest);
    }
  }

  lemma PutWindowOf(width: nat, height: nat, rest: BitString)
    ensures var aw, ah := Align64(width), Align64(height);
            PutWindow(WindowFields(width, height), rest) ==
            if aw == width && ah == height then PutFlag(false, rest)
            else PutFlag(true, PutUe(0, PutUe((aw - width) / 2, PutUe(0, PutUe((ah - height) / 2, rest)))))
  {
    hide Align64, PutUe, PutFlag;
  }

  method WriteSpsFormat(bs: BitWriter, width: nat, height: nat)
    requires bs.Valid() && Room(bs, 694) && width <= MAX_SIZE && height <= MAX_SIZE
    modifies bs, bs.buf
    ensures bs.Valid() && |bs.written| <= |old(bs.written)| + 694
    ensures forall rest {:trigger PutSpsFormat(SpsFormatFields(width, height), rest)} ::
              bs.written + rest == old(bs.written) + PutSpsFormat(SpsFormatFields(width, height), rest)
  {
    hide PutUe, PutWindow, UeCode, WindowFields;
    var aw, ah := Align64(width), Align64(height);
    bs.WriteUe(0);
    bs.WriteUe(1);
    bs.WriteUe(aw);
    bs.WriteUe(ah);
    WriteWindow(bs, width, height, aw, ah);
    bs.WriteUe(0);
    bs.WriteUe(0);
    bs.WriteUe(8);
  }

  method WriteTree(bs: BitWriter)
    requires bs.Valid() && Room(bs, 378)
    modifies bs, bs.buf
    ensures bs.Valid() && |bs.written| <= |old(bs.written)| + 378
    ensures forall rest {:trigger PutTree(TreeFields(), rest)} ::
              bs.written + rest == old(bs.written) + PutTree(TreeFields(), rest)
  {
    hide PutUe, UeCode;
    bs.WriteUe(0);
    bs.WriteUe(3);
    bs.WriteUe(0);
    bs.WriteUe(3);
    bs.WriteUe(2);
    bs.WriteUe(2);
  }

  method WriteSpsTools(bs: BitWriter)
    requires bs.Valid() && Room(bs, 72)
    modifies bs, bs.buf
    ensures bs.Valid() && |bs.written| <= |old(bs.written)| + 72
    ensures forall rest {:trigger PutSpsTools(SpsToolFields(), rest)} ::
              bs.written + rest == old(bs.written) + PutSpsTools(SpsToolFields(), rest)
  {
    hide PutUe, PutFlag, UeCode;
    bs.Write1(false);
    bs.Write1(true);
    bs.Write1(false);
    bs.Write1(false);
    bs.WriteUe(0);
    bs.Write1(false);
    bs.Write1(false);
    bs.Write1(true);
    bs.Write1(false);
    bs.Write1(false);
  }

  method WriteSps(out: array<Byte>, width: nat, height: nat) returns (len: nat)
    requires out.Length >= 512 && width <= MAX_SIZE && height <= MAX_SIZE
    modifies out
    ensures len <= 310 && out[..len] == SpsBody(width, height)
  {
    hide PutPtl, PutSpsFormat, PutOrdering, PutTree, PutSpsTools, MainPtl, Rbsp, PutU, PutFlag, Code;
    var bs := new BitWriter(512);
    bs.Write(0, 4);
    bs.Write(0, 3);
    bs.Write1(true);
    WriteProfileTierLevel(bs);
    WriteSpsFormat(bs, width, height);
    WriteOrdering(bs);
    WriteTree(bs);
    WriteSpsTools(bs);
    assert bs.written + [] == bs.written;
    assert bs.written == PutSps(SpsFields(width, height), []);
    len := Finish(bs, out);
    EscapeBound(0, Rbsp(PutSps(SpsFields(width, height), [])));
  }

  method WritePpsHead(bs: BitWriter)
    requires bs.Valid() && Room(bs, 259)
    modifies bs, bs.buf
    ensures bs.Valid() && |bs.written| <= |old(bs.written)| + 259
    ensures forall rest {:trigger PutPpsHead(PpsFields().head, rest)} ::
              bs.written + rest == old(bs.written) + PutPpsHead(PpsFields().head, rest)
  {
    hide PutU, PutUe, PutFlag, Code, UeCode;
    bs.WriteUe(0);
    bs.WriteUe(0);
    bs.Write1(false);
    bs.Write1(false);
    bs.Write(0, 3);
    bs.Write1(false);
    bs.Write1(false);
    bs.WriteUe(0);
    bs.WriteUe(0);
  }

  method WritePpsQp(bs: BitWriter)
    requires bs.Valid() && Room(bs, 256)
    modifies bs, bs.buf
    ensures bs.Valid() && |bs.written| <= |old(bs.written)| + 256
    ensures forall rest {:trigger PutPpsQp(PpsFields().qp, rest)} ::
              bs.written + rest == old(bs.written) + PutPpsQp(PpsFields().qp, rest)
  {
    hide PutUe, PutSe, PutFlag, UeCode, SeMapped;
    bs.WriteSe(0);
    bs.Write1(false);
    bs.Write1(false);
    bs.Write1(true);
    bs.WriteUe(0);
    bs.WriteSe(0);
    bs.WriteSe(0);
    bs.Write1(false);
  }

  method WritePpsTools(bs: BitWriter)
    requires bs.Valid() && Room(bs, 6)
    modifies bs, bs.buf
    ensures bs.Valid() && |bs.written| <= |old(bs.written)| + 6
    ensures forall rest {:trigger PutPpsTools(PpsFields().tools, rest)} ::
              bs.written + rest == old(bs.written) + PutPpsTools(PpsFields().tools, rest)
  {
    hide PutFlag;
    bs.Write1(false);
    bs.Write1(false);
    bs.Write1(false);
    bs.Write1(false);
    bs.Write1(false);
    bs.Write1(true);
  }

  method WriteDeblocking(bs: BitWriter)
    requires bs.Valid() && Room(bs, 129)
    modifies bs, bs.buf
    ensures bs.Valid() && |bs.written| <= |old(bs.written)| + 129
    ensures forall rest {:trigger PutDeblocking(PpsFields().deblocking, rest)} ::
              bs.written + rest == old(bs.written) + PutDeblocking(PpsFields().deblocking, rest)
  {
    hide PutSe, PutFlag, UeCode, SeMapped;
    bs.Write1(true);
    bs.Write1(false);
    bs.Write1(false);
    bs.WriteSe(0);
    bs.WriteSe(0);
  }

  method WritePpsTail(bs: BitWriter)
    requires bs.Valid() && Room(bs, 67)
    modifies bs, bs.buf
    ensures bs.Valid() && |bs.written| <= |old(bs.written)| + 67
    ensures forall rest {:trigger PutPpsTail(PpsFields().tail, rest)} ::
              bs.written + rest == old(bs.written) + PutPpsTail(PpsFields().tail, rest)
  {
    hide PutUe, PutFlag, UeCode;
    bs.Write1(false);
    bs.Write1(false);
    bs.WriteUe(0);
    bs.Write1(false);
    bs.Write1(false);
  }

  method WritePps(out: array<Byte>) returns (len: nat)
    requires out.Length >= 512
    modifies out
    ensures len <= 156 && out[..len] == PpsBody()
  {
    hide PutPpsHead, PutPpsQp, PutPpsTools, PutDeblocking, PutPpsTail, Rbsp;
    var bs := new BitWriter(256);
    WritePpsHead(bs);
    WritePpsQp(bs);
    WritePpsTools(bs);
    WriteDeblocking(bs);
    WritePpsTail(bs);
    assert bs.written + [] == bs.written;
    assert bs.written == PutPps(PpsFields(), []);
    len := Finish(bs, out);
    EscapeBound(0, Rbsp(PutPps(PpsFields(), [])));
  }

  // ---- the combined stream ----

  /** Above this size ALIGN would overflow a 32-bit int. */
  const MAX_SIZE: nat := 0x7FFF_FFC0

  function VpsBody(fps: nat): seq<Byte> { Escape(0, Rbsp(PutVps(VpsFields(fps), []))) }

  function SpsBody(width: nat, height: nat): seq<Byte> { Escape(0, Rbsp(PutSps(SpsFields(width, height), []))) }

  function PpsBody(): seq<Byte> { Escape(0, Rbsp(PutPps(PpsFields(), []))) }

  /** The two header bytes of a NAL unit of the given type. */
  function NalHeader(kind: nat, temporalIdPlus1: nat): (h: seq<Byte>)
    ensures |h| == 2
  {
    [kind % 64 * 2, temporalIdPlus1 % 8]
  }

  /** Section 7.3.1.2: no forbidden bit, the type, layer 0, and temporal layer 0. */
  lemma NalHeaderReads(kind: nat)
    requires kind < 64
    ensures Unpack(NalHeader(kind, 1)) == [false] + Code(kind, 6) + Code(0, 6) + Code(1, 3)
  {
    hide Value, Code, Pow2;
    var h := NalHeader(kind, 1);
    ValueOfBytes(h);
    ValueOfBytes(h[1..]);
    assert h[1..][1..] == [];
    NoBytes();
    ValueAppend([false] + Code(kind, 6) + Code(0, 6), Code(1, 3));
    ValueAppend([false] + Code(kind, 6), Code(0, 6));
    ValueAppend([false], Code(kind, 6));
    ValueOfCode(kind, 6);
    ValueOfCode(0, 6);
    ValueOfCode(1, 3);
    HeaderPowers();
    ValueIsUnique(Unpack(h), [false] + Code(kind, 6) + Code(0, 6) + Code(1, 3));
  }

  lemma HeaderPowers()
    ensures Pow2(0) == 1 && Pow2(3) == 8 && Pow2(6) == 64 && Pow2(8) == 256 && Value([false]) == 0
  {
  }

  function Units(width: nat, height: nat, fps: nat): (u: seq<seq<Byte>>)
    ensures |u| == 3
  {
    [NalHeader(32, 1) + VpsBody(fps), NalHeader(33, 1) + SpsBody(width, height), NalHeader(34, 1) + PpsBody()]
  }

  method WriteStartCodeAndNaluHeader(dst: array<Byte>, pos: nat, kind: nat, temporalIdPlus1: nat) returns (p: nat)
    requires pos + 6 <= dst.Length
    modifies dst
    ensures p == pos + 6 && dst[..p] == old(dst[..pos]) + START_CODE + NalHeader(kind, temporalIdPlus1)
  {
    dst[pos] := 0;
    dst[pos + 1] := 0;
    dst[pos + 2] := 0;
    dst[pos + 3] := 1;
    dst[pos + 4] := kind % 64 * 2;
    dst[pos + 5] := temporalIdPlus1 % 8;
    p := pos + 6;
  }

  /** memcpy of the first len bytes of src to offset pos of dst. */
  method CopyTo(dst: array<Byte>, pos: nat, src: array<Byte>, len: nat) returns (p: nat)
    requires dst != src && len <= src.Length && pos + len <= dst.Length
    modifies dst
    ensures p == pos + len && dst[..p] == old(dst[..pos]) + src[..len]
  {
    forall k | 0 <= k < len {
      dst[pos + k] := src[k];
    }
    p := pos + len;
    assert dst[..pos] == old(dst[..pos]);
    assert dst[pos..p] == src[..len];
    assert dst[..p] == dst[..pos] + dst[pos..p];
  }

  /** Everything but the hand-over to the driver: the bytes combined[..pos]. */
  method BuildSequenceHeaders(width: nat, height: nat, fps: nat) returns (combined: array<Byte>, pos: nat)
    requires width <= MAX_SIZE && height <= MAX_SIZE && fps < TWO_TO_32
    ensures pos <= combined.Length == 2048
    ensures combined[..pos] == Stream(Units(width, height, fps))
  {
    hide *;
    combined := new Byte[2048];
    var naluBody := new Byte[512];
    pos := WriteStartCodeAndNaluHeader(combined, 0, 32, 1);
    var len := WriteVps(naluBody, fps);
    pos := CopyTo(combined, pos, naluBody, len);
    ghost var first := [] + START_CODE + NalHeader(32, 1) + VpsBody(fps);
    assert combined[..pos] == first;
    pos := WriteStartCodeAndNaluHeader(combined, pos, 33, 1);
    len := WriteSps(naluBody, width, height);
    pos := CopyTo(combined, pos, naluBody, len);
    ghost var second := first + START_CODE + NalHeader(33, 1) + SpsBody(width, height);
    assert combined[..pos] == second;
    pos := WriteStartCodeAndNaluHeader(combined, pos, 34, 1);
    len := WritePps(naluBody);
    pos := CopyTo(combined, pos, naluBody, len);
    assert combined[..pos] == second + START_CODE + NalHeader(34, 1) + PpsBody();
    StreamOfThree(NalHeader(32, 1), VpsBody(fps), NalHeader(33, 1), SpsBody(width, height), NalHeader(34, 1), PpsBody());
    UnitsOf(width, height, fps);
  }

  lemma UnitsOf(width: nat, height: nat, fps: nat)
    ensures Units(width, height, fps) ==
            [NalHeader(32, 1) + VpsBody(fps), NalHeader(33, 1) + SpsBody(width, height), NalHeader(34, 1) + PpsBody()]
  {
  }

  lemma StreamOfThree(h0: seq<Byte>, b0: seq<Byte>, h1: seq<Byte>, b1: seq<Byte>, h2: seq<Byte>, b2: seq<Byte>)
    ensures Stream([h0 + b0, h1 + b1, h2 + b2]) ==
            [] + START_CODE + h0 + b0 + START_CODE + h1 + b1 + START_CODE + h2 + b2
  {
    var units := [h0 + b0, h1 + b1, h2 + b2];
    assert units[1..] == [h1 + b1, h2 + b2] && units[1..][1..] == [h2 + b2];
    assert Stream([h2 + b2]) == START_CODE + (h2 + b2) + [];
    assert Stream(units[1..]) == START_CODE + (h1 + b1) + Stream([h2 + b2]);
    assert Stream(units) == START_CODE + (h0 + b0) + Stream(units[1..]);
  }

  // ---- what the receiver makes of it ----

  /** Reads a whole payload: the syntax structure, then trailing bits and nothing else. */
  function ReadRbsp<T>(read: BitString -> Parsed<T>, bytes: seq<Byte>): Option<T> {
    var (value, rest) :- read(Unpack(bytes));
    if IsTrailing(rest) then Some(value) else None
  }

  /** Stripping the escapes and unpacking gives back the payload and its trailing bits. */
  lemma RbspBits(payload: BitString)
    ensures Unpack(Unescape(Escape(0, Rbsp(payload)))) == payload + Trailing(|payload|)
  {
    hide Escape, Unescape, Pack, Unpack, Trailing;
    UnescapeEscape(0, Rbsp(payload));
    assert ZeroBytes(0) + Escape(0, Rbsp(payload)) == Escape(0, Rbsp(payload));
    assert ZeroBytes(0) + Rbsp(payload) == Rbsp(payload);
    UnpackPack(payload + Trailing(|payload|));
  }

  lemma RbspRoundTrip<T>(read: BitString -> Parsed<T>, payload: BitString, value: T)
    requires read(payload + Trailing(|payload|)) == Some((value, Trailing(|payload|)))
    ensures ReadRbsp(read, Unescape(Escape(0, Rbsp(payload)))) == Some(value)
  {
    assert IsTrailing(Trailing(|payload|));
    hide Escape, Unescape, Unpack, Trailing, Rbsp;
    RbspBits(payload);
  }

  lemma VpsFieldsInRange(fps: nat)
    requires fps < TWO_TO_32
    ensures VpsInRange(VpsFields(fps))
  {
  }

  lemma SpsFieldsInRange(width: nat, height: nat)
    requires width <= MAX_SIZE && height <= MAX_SIZE
    ensures SpsInRange(SpsFields(width, height))
  {
  }

  lemma PpsFieldsInRange()
    ensures PpsInRange(PpsFields())
  {
  }

  lemma VpsRoundTrip(fps: nat)
    requires fps < TWO_TO_32
    ensures ReadRbsp(ReadVps, Unescape(VpsBody(fps))) == Some(VpsFields(fps))
  {
    hide Escape, Rbsp, ReadRbsp, ReadVps, PutVps, VpsFields, VpsInRange, Trailing, Unescape;
    VpsFieldsInRange(fps);
    var v := VpsFields(fps);
    var payload := PutVps(v, []);
    var t := Trailing(|payload|);
    PutVpsAppends(v, [], t);
    assert [] + t == t;
    RbspRoundTrip(ReadVps, payload, v);
  }

  lemma SpsRoundTrip(width: nat, height: nat)
    requires width <= MAX_SIZE && height <= MAX_SIZE
    ensures ReadRbsp(ReadSps, Unescape(SpsBody(width, height))) == Some(SpsFields(width, height))
  {
    hide Escape, Rbsp, ReadRbsp, ReadSps, PutSps, SpsFields, SpsInRange, Trailing, Unescape;
    SpsFieldsInRange(width, height);
    var s := SpsFields(width, height);
    var payload := PutSps(s, []);
    var t := Trailing(|payload|);
    PutSpsAppends(s, [], t);
    assert [] + t == t;
    RbspRoundTrip(ReadSps, payload, s);
  }

  lemma PpsRoundTrip()
    ensures ReadRbsp(ReadPps, Unescape(PpsBody())) == Some(PpsFields())
  {
    hide Escape, Rbsp, ReadRbsp, ReadPps, PutPps, PpsFields, PpsInRange, Trailing, Unescape;
    PpsFieldsInRange();
    var p := PpsFields();
    var payload := PutPps(p, []);
    var t := Trailing(|payload|);
    PutPpsAppends(p, [], t);
    assert [] + t == t;
    RbspRoundTrip(ReadPps, payload, p);
  }

  /** A unit made of the two header bytes and an escaped payload has no start code in it. */
  lemma EscapedIsClean(kind: nat, src: seq<Byte>)
    ensures Clean(NalHeader(kind, 1) + Escape(0, src))
  {
    var nal := NalHeader(kind, 1) + Escape(0, src);
    forall i: nat ensures !PatternAt(nal, i, 1) {
      WholeNalIsProtected(kind % 64 * 2, 1, src, i);
    }
  }

  /** Three units of types 32, 33 and 34 whose payloads read as every field the sender wrote. */
  ghost predicate Announces(nalus: seq<Nalu>, width: nat, height: nat, fps: nat) {
    && |nalus| == 3
    && (forall i :: 0 <= i < 3 ==> nalus[i].kind == 32 + i && |nalus[i].data| >= 2)
    && ReadRbsp(ReadVps, Unescape(nalus[0].data[2..])) == Some(VpsFields(fps))
    && ReadRbsp(ReadSps, Unescape(nalus[1].data[2..])) == Some(SpsFields(width, height))
    && ReadRbsp(ReadPps, Unescape(nalus[2].data[2..])) == Some(PpsFields())
  }

  /** The whole path, for every size and frame rate: write, escape, frame, split, strip, read. */
  lemma SequenceHeadersRoundTrip(width: nat, height: nat, fps: nat)
    requires width <= MAX_SIZE && height <= MAX_SIZE && fps < TWO_TO_32
    ensures Announces(Parse(Stream(Units(width, height, fps))), width, height, fps)
  {
    hide Escape, Unescape, ReadRbsp, Rbsp, Parse, Stream;
    hide PutVps, PutSps, PutPps, VpsFields, SpsFields, PpsFields, ReadVps, ReadSps, ReadPps;
    EscapedIsClean(32, Rbsp(PutVps(VpsFields(fps), [])));
    EscapedIsClean(33, Rbsp(PutSps(SpsFields(width, height), [])));
    EscapedIsClean(34, Rbsp(PutPps(PpsFields(), [])));
    var units := Units(width, height, fps);
    ParseStream(units);
    assert units[0][2..] == VpsBody(fps);
    assert units[1][2..] == SpsBody(width, height);
    assert units[2][2..] == PpsBody();
    VpsRoundTrip(fps);
    SpsRoundTrip(width, height);
    PpsRoundTrip();
  }

  /** The parameter sets a receiver activates together. */
  datatype Sets = Sets(vps: Vps, sps: Sps, pps: Pps)

  /** What a receiver gets out of the three units, if there are three and each reads to its end. */
  function ReadSets(nalus: seq<Nalu>): Option<Sets> {
    if |nalus| != 3 || exists i :: 0 <= i < 3 && |nalus[i].data| < 2 then None
    else
      var vps :- ReadRbsp(ReadVps, Unescape(nalus[0].data[2..]));
      var sps :- ReadRbsp(ReadSps, Unescape(nalus[1].data[2..]));
      var pps :- ReadRbsp(ReadPps, Unescape(nalus[2].data[2..]));
      Some(Sets(vps, sps, pps))
  }

  function SentSets(width: nat, height: nat, fps: nat): Sets {
    Sets(VpsFields(fps), SpsFields(width, height), PpsFields())
  }

  lemma SetsReceived(width: nat, height: nat, fps: nat)
    requires width <= MAX_SIZE && height <= MAX_SIZE && fps < TWO_TO_32
    ensures ReadSets(Parse(Stream(Units(width, height, fps)))) == Some(SentSets(width, height, fps))
  {
    hide Escape, Unescape, ReadRbsp, Parse, Stream, Units, VpsFields, SpsFields, PpsFields, ReadVps, ReadSps, ReadPps;
    SequenceHeadersRoundTrip(width, height, fps);
  }

  /** The coded size is the least multiple of the coding-tree block size that holds the picture. */
  lemma CodedSizeIsLeast(x: nat, m: nat)
    requires m % 64 == 0 && x <= m
    ensures Align64(x) <= m
  {
  }

  /** The picture a decoder shows: the coded size less the window, in units of two samples for 4:2:0. */
  function ShownSize(f: SpsFormat): (int, int)
    requires f.chromaFormatIdc == 1
  {
    if f.window.None? then (f.width, f.height)
    else
      var w := f.window.value;
      (f.width - 2 * (w.left + w.right), f.height - 2 * (w.top + w.bottom))
  }

  lemma HalfTheMargin(x: nat)
    ensures Align64(x) - 2 * ((Align64(x) - x) / 2) == x <==> x % 2 == 0
    ensures Align64(x) == x ==> x % 2 == 0
  {
    MarginParity(Align64(x), Align64(x) / 64, x, (Align64(x) - x) / 2);
  }

  lemma MarginParity(a: nat, blocks: nat, x: nat, half: nat)
    requires a == 64 * blocks && 2 * half <= a - x <= 2 * half + 1
    ensures a - 2 * half == x <==> x % 2 == 0
  {
  }

  /** The window crops back to the picture exactly for even dimensions. */
  lemma ShownSizeExactly(width: nat, height: nat)
    ensures ShownSize(SpsFormatFields(width, height)) == (width, height) <==> width % 2 == 0 && height % 2 == 0
  {
    HalfTheMargin(width);
    HalfTheMargin(height);
  }
}
