/** The packed slice header: its syntax up to the reference picture set, its bytes, and what a reader gets back. */
module SliceHeaders {
  import opened Wrappers
  import opened Bits
  import opened BitWriting
  import opened Emulation
  import opened AnnexB
  import opened ParameterSets
  import opened SequenceHeaders
  import opened Gop

  // ---- the syntax, read under the parameter sets in force ----

  /** A short-term reference: its distance from the one before it, and whether this picture may use it. */
  datatype Entry = Entry(deltaPocMinus1: nat, used: bool)

  datatype RefPicSet = RefPicSet(negatives: seq<Entry>, positives: seq<Entry>)

  datatype SliceRefs = SliceRefs(pocLsb: nat, rps: RefPicSet)

  datatype SliceHead = SliceHead(
    noOutputOfPrior: Option<bool>, ppsId: nat, extra: BitString, sliceType: nat, picOutput: Option<bool>,
    refs: Option<SliceRefs>)

  function ReadOptionalFlag(present: bool, b: BitString): Parsed<Option<bool>> {
    if !present then Some((None, b))
    else
      var (f, b) :- ReadFlag(b);
      Some((Some(f), b))
  }

  function ReadEntries(n: nat, b: BitString): Parsed<seq<Entry>>
    decreases n
  {
    if n == 0 then Some(([], b))
    else
      var (delta, b) :- ReadUe(b);
      var (used, b) :- ReadFlag(b);
      var (more, b) :- ReadEntries(n - 1, b);
      Some(([Entry(delta, used)] + more, b))
  }

  /** Section 7.3.7, for a set coded in a slice header; prediction from stored sets is not covered. */
  function ReadRps(sps: Sps, b: BitString): Parsed<RefPicSet> {
    var (predicted, b) :- ReadOptionalFlag(sps.tools.numShortTermRps != 0, b);
    if predicted == Some(true) then None else
    var (negative, b) :- ReadUe(b);
    var (positive, b) :- ReadUe(b);
    var (negatives, b) :- ReadEntries(negative, b);
    var (positives, b) :- ReadEntries(positive, b);
    Some((RefPicSet(negatives, positives), b))
  }

  /** The order count takes as many bits as the sequence parameter set says. */
  function ReadRefs(sps: Sps, b: BitString): Parsed<SliceRefs> {
    var (poc, b) :- ReadU(b, sps.format.log2MaxPocLsbMinus4 + 4);
    var (stored, b) :- ReadFlag(b);
    if stored || sps.tools.longTermRefs then None else
    var (rps, b) :- ReadRps(sps, b);
    Some((SliceRefs(poc, rps), b))
  }

  predicate IsIdr(nalType: nat) { nalType == 19 || nalType == 20 }

  /** Each set is the one the next refers to. */
  predicate Chained(sets: Sets, ppsId: nat) {
    && ppsId == sets.pps.head.id && sets.pps.head.spsId == sets.sps.format.id
    && sets.sps.head.vpsId == sets.vps.head.id
  }

  /** Section 7.3.6.1 for the first slice segment of a picture, up to the short-term reference picture set. */
  function ReadSliceHead(sets: Sets, nalType: nat, b: BitString): Parsed<SliceHead> {
    var (first, b) :- ReadFlag(b);
    if !first then None else
    var (prior, b) :- ReadOptionalFlag(16 <= nalType <= 23, b);
    var (ppsId, b) :- ReadUe(b);
    if !Chained(sets, ppsId) then None else
    var (extra, b) :- ReadFlags(b, sets.pps.head.numExtraSliceHeaderBits);
    var (sliceType, b) :- ReadUe(b);
    var (output, b) :- ReadOptionalFlag(sets.pps.head.outputFlagPresent, b);
    if IsIdr(nalType) then Some((SliceHead(prior, ppsId, extra, sliceType, output, None), b))
    else
      var (refs, b) :- ReadRefs(sets.sps, b);
      Some((SliceHead(prior, ppsId, extra, sliceType, output, Some(refs)), b))
  }

  // ---- what a decoder makes of the fields ----

  /** Section 8.3.1: the order count from its low bits and the order count of the previous picture. */
  function PicOrderCount(previous: nat, lsb: nat, maxLsb: nat): int
    requires maxLsb > 0
  {
    var low := previous % maxLsb;
    var high := previous - low;
    if lsb < low && low - lsb >= maxLsb / 2 then high + maxLsb + lsb
    else if lsb > low && lsb - low > maxLsb / 2 then high - maxLsb + lsb
    else high + lsb
  }

  function DecodedPoc(sps: Sps, h: SliceHead, previous: nat): int {
    if h.refs.None? then 0
    else PicOrderCount(previous, h.refs.value.pocLsb, Pow2(sps.format.log2MaxPocLsbMinus4 + 4))
  }

  /** Section 8.3.2: order counts of the pictures the current one may refer to, following the distances. */
  function InUse(entries: seq<Entry>, direction: int, poc: int): seq<int> {
    if entries == [] then []
    else
      var next := poc + direction * (entries[0].deltaPocMinus1 + 1);
      (if entries[0].used then [next] else []) + InUse(entries[1..], direction, next)
  }

  function CurrentReferences(h: SliceHead, poc: int): seq<int> {
    if h.refs.None? then []
    else InUse(h.refs.value.rps.negatives, -1, poc) + InUse(h.refs.value.rps.positives, 1, poc)
  }

  function NumReferences(h: SliceHead): nat {
    if h.refs.None? then 0 else |h.refs.value.rps.negatives| + |h.refs.value.rps.positives|
  }

  // ---- what the sender writes ----

  function PutEntries(entries: seq<Entry>, rest: BitString): BitString {
    if entries == [] then rest
    else PutUe(entries[0].deltaPocMinus1, PutFlag(entries[0].used, PutEntries(entries[1..], rest)))
  }

  lemma {:induction false} EntriesRoundTrip(entries: seq<Entry>, rest: BitString)
    requires forall i :: 0 <= i < |entries| ==> Codable(entries[i].deltaPocMinus1)
    ensures ReadEntries(|entries|, PutEntries(entries, rest)) == Some((entries, rest))
  {
    hide PutUe, PutFlag, ReadUe, ReadFlag;
    if entries == [] {
    } else {
      EntriesRoundTrip(entries[1..], rest);
      assert [entries[0]] + entries[1..] == entries;
    }
  }

  function PutRefs(r: SliceRefs, rest: BitString): BitString {
    PutU(12, r.pocLsb, PutFlag(false, PutUe(|r.rps.negatives|, PutUe(|r.rps.positives|,
      PutEntries(r.rps.negatives, PutEntries(r.rps.positives, rest))))))
  }

  predicate RefsInRange(r: SliceRefs) {
    && r.pocLsb < 0x1000 && Codable(|r.rps.negatives|) && Codable(|r.rps.positives|)
    && (forall i :: 0 <= i < |r.rps.negatives| ==> Codable(r.rps.negatives[i].deltaPocMinus1))
    && (forall i :: 0 <= i < |r.rps.positives| ==> Codable(r.rps.positives[i].deltaPocMinus1))
  }

  /** A sequence parameter set under which twelve bits of order count and an inline set are expected. */
  predicate ExpectsTwelveBits(sps: Sps) {
    sps.format.log2MaxPocLsbMinus4 == 8 && sps.tools.numShortTermRps == 0 && !sps.tools.longTermRefs
  }

  lemma RefsRoundTrip(sps: Sps, r: SliceRefs, rest: BitString)
    requires ExpectsTwelveBits(sps) && RefsInRange(r)
    ensures ReadRefs(sps, PutRefs(r, rest)) == Some((r, rest))
  {
    hide PutU, PutFlag, PutUe, ReadU, ReadFlag, ReadUe, PutEntries, ReadEntries;
    SmallPowers();
    EntriesRoundTrip(r.rps.positives, rest);
    EntriesRoundTrip(r.rps.negatives, PutEntries(r.rps.positives, rest));
  }

  function RefsOf(poc: nat): SliceRefs { SliceRefs(poc, RefPicSet([Entry(0, true)], [])) }

  function HeadOf(s: Submission): SliceHead {
    if s.isIdr then SliceHead(Some(false), 0, [], 2, None, None)
    else SliceHead(None, 0, [], 1, None, Some(RefsOf(s.poc)))
  }

  function PutHead(h: SliceHead, rest: BitString): BitString {
    var body := if h.refs.Some? then PutRefs(h.refs.value, rest) else rest;
    var ids := PutUe(h.ppsId, PutUe(h.sliceType, body));
    PutFlag(true, if h.noOutputOfPrior.Some? then PutFlag(h.noOutputOfPrior.value, ids) else ids)
  }

  /** The fields behind the reference picture set. */
  function PutRemainder(s: Submission, rest: BitString): BitString {
    if s.isIdr then PutSe(0, rest) else PutFlag(false, PutSe(0, rest))
  }

  /** The payload of the packed slice header, before its trailing bits. */
  method WriteSliceHeader(bs: BitWriter, s: Submission)
    requires bs.Valid() && |bs.written| + 400 <= 8 * bs.buf.Length && s.poc < TWO_TO_32
    modifies bs, bs.buf
    ensures bs.Valid() && |bs.written| <= |old(bs.written)| + 400
    ensures bs.written == old(bs.written) + PutHead(HeadOf(s), PutRemainder(s, []))
  {
    hide PutRefs, PutUe, PutSe, PutFlag, Code, UeCode, SeMapped;
    bs.Write1(true);
    if s.isIdr {
      bs.Write1(false);
    }
    bs.WriteUe(0);
    bs.WriteUe(if s.isIdr then 2 else 1);
    if !s.isIdr {
      WriteRefs(bs, s.poc);
    }
    if !s.isIdr {
      bs.Write1(false);
    }
    bs.WriteSe(0);
    assert bs.written + [] == bs.written;
  }

  method WriteRefs(bs: BitWriter, poc: nat)
    requires bs.Valid() && |bs.written| + 203 <= 8 * bs.buf.Length && poc < TWO_TO_32
    modifies bs, bs.buf
    ensures bs.Valid() && |bs.written| <= |old(bs.written)| + 203
    ensures forall rest {:trigger PutRefs(RefsOf(poc), rest)} ::
              bs.written + rest == old(bs.written) + PutRefs(RefsOf(poc), rest)
  {
    hide PutU, PutUe, PutFlag, Code, UeCode;
    TwelveBitRefs(poc);
    bs.Write(poc, 12);
    bs.Write1(false);
    bs.WriteUe(1);
    bs.WriteUe(0);
    bs.WriteUe(0);
    bs.Write1(true);
  }

  /** The bits of the one reference picture set the sender uses. */
  lemma TwelveBitRefs(poc: nat)
    ensures forall rest {:trigger PutRefs(RefsOf(poc), rest)} :: PutRefs(RefsOf(poc), rest) ==
              PutU(12, poc, PutFlag(false, PutUe(1, PutUe(0, PutUe(0, PutFlag(true, rest))))))
  {
    hide PutU, PutUe, PutFlag;
    forall rest ensures PutRefs(RefsOf(poc), rest) ==
                          PutU(12, poc, PutFlag(false, PutUe(1, PutUe(0, PutUe(0, PutFlag(true, rest))))))
    {
      var one := [Entry(0, true)];
      assert one[1..] == [];
      assert PutEntries(one, PutEntries([], rest)) == PutUe(0, PutFlag(true, PutEntries([], PutEntries([], rest))));
    }
  }

  /** The parameter sets expect what the slice header writes. */
  predicate Expect(sets: Sets) {
    && Chained(sets, 0) && ExpectsTwelveBits(sets.sps)
    && sets.pps.head.numExtraSliceHeaderBits == 0 && !sets.pps.head.outputFlagPresent
  }

  /** Under such sets the slice header reads back as written, whatever follows the reference picture set. */
  lemma SliceHeadRoundTrip(sets: Sets, s: Submission, rest: BitString)
    requires Expect(sets) && s.poc < 0x1000 && s.nalType == if s.isIdr then 19 else 1
    ensures ReadSliceHead(sets, s.nalType, PutHead(HeadOf(s), rest)) == Some((HeadOf(s), rest))
  {
    hide PutUe, PutFlag, ReadUe, ReadFlag, PutRefs, ReadRefs;
    if s.isIdr {
      NoFlags(PutUe(2, rest));
    } else {
      NoFlags(PutUe(1, PutRefs(RefsOf(s.poc), rest)));
      RefsRoundTrip(sets.sps, RefsOf(s.poc), rest);
    }
  }

  lemma NoFlags(b: BitString)
    ensures ReadFlags(b, 0) == Some(([], b))
  {
  }

  /** The sets the sender sends are of that kind. */
  lemma SentSetsExpect(width: nat, height: nat, fps: nat)
    ensures Expect(SentSets(width, height, fps))
  {
  }

  /** The picture held by the surface a submission refers to. */
  function Held(g: Gop, s: Submission): Picture
    requires Sound(g, s) && !s.isIdr
  {
    g.surfaces[s.reference.value.surface].value
  }

  /**
   * A decoder that has just decoded the last picture arrives at this one's order count, and may refer to
   * exactly the picture that the submission's reference surface holds; the slice type says which it is.
   */
  ghost predicate DecodesAs(sps: Sps, h: SliceHead, g: Gop, s: Submission) {
    && Sound(g, s)
    && (forall previous: nat :: s.isIdr || previous == Held(g, s).poc ==> DecodedPoc(sps, h, previous) == s.poc)
    && CurrentReferences(h, s.poc) == (if s.isIdr then [] else [Held(g, s).poc as int])
    && (h.sliceType == 1 <==> CurrentReferences(h, s.poc) != [])
    && (h.sliceType == 2 <==> CurrentReferences(h, s.poc) == [])
    && NumReferences(h) <= sps.ordering.maxDecPicBufferingMinus1
  }

  lemma HeadDecodes(sps: Sps, g: Gop)
    requires Inv(g) && ExpectsTwelveBits(sps) && sps.ordering.maxDecPicBufferingMinus1 >= 1
    ensures DecodesAs(sps, HeadOf(Submit(g)), g, Submit(g))
  {
    var s := Submit(g);
    hide Submit, PicOrderCount, Inv;
    SubmissionIsSound(g);
    SmallPowers();
    if !s.isIdr {
      NextPicture(s.poc - 1);
      var one := [Entry(0, true)];
      assert InUse(one[1..], -1, s.poc - 1) == [];
      assert InUse(one, -1, s.poc) == [s.poc - 1];
    }
  }

  lemma NextPicture(previous: nat)
    requires previous + 1 < 0x1000
    ensures PicOrderCount(previous, previous + 1, 0x1000) == previous + 1
  {
  }

  // ---- the packed header ----

  function SliceBody(s: Submission): seq<Byte> { Escape(0, Rbsp(PutHead(HeadOf(s), PutRemainder(s, [])))) }

  /** The framed unit. */
  function PackedSlice(s: Submission): seq<Byte> { Stream([NalHeader(s.nalType, 1) + SliceBody(s)]) }

  /** The serialised header, with trailing bits and escapes. */
  method WriteSliceBody(out: array<Byte>, s: Submission) returns (len: nat)
    requires out.Length >= 256 && s.poc < TWO_TO_32
    modifies out
    ensures len <= 256 && out[..len] == SliceBody(s)
  {
    hide PutHead, PutRemainder, Rbsp;
    var bs := new BitWriter(256);
    WriteSliceHeader(bs, s);
    assert bs.written == PutHead(HeadOf(s), PutRemainder(s, []));
    len := Finish(bs, out);
    EscapeBound(0, Rbsp(PutHead(HeadOf(s), PutRemainder(s, []))));
  }

  /** Everything but the hand-over to the driver: the bytes combined[..pos]. */
  method BuildPackedSlice(s: Submission) returns (combined: array<Byte>, pos: nat)
    requires s.poc < TWO_TO_32 && s.nalType == if s.isIdr then 19 else 1
    ensures pos <= combined.Length == 512
    ensures combined[..pos] == PackedSlice(s)
  {
    hide SliceBody, NalHeader;
    combined := new Byte[512];
    var naluBody := new Byte[256];
    pos := WriteStartCodeAndNaluHeader(combined, 0, if s.isIdr then 19 else 1, 1);
    var len := WriteSliceBody(naluBody, s);
    pos := CopyTo(combined, pos, naluBody, len);
    StreamOfOne(NalHeader(s.nalType, 1), SliceBody(s));
  }

  lemma StreamOfOne(header: seq<Byte>, body: seq<Byte>)
    ensures Stream([header + body]) == [] + START_CODE + header + body
  {
    assert Stream([header + body]) == START_CODE + (header + body) + [];
  }

  lemma PutHeadAppends(s: Submission, t: BitString)
    ensures PutHead(HeadOf(s), PutRemainder(s, [])) + t == PutHead(HeadOf(s), PutRemainder(s, t))
  {
    hide PutU, PutFlag, PutUe, PutSe, PutRefs;
    PrimitivesAppend();
    TwelveBitRefs(s.poc);
    assert [] + t == t;
  }

  /** What the receiver reads out of the payload of a slice's unit. */
  function ReadPayload(sets: Sets, n: Nalu): Parsed<SliceHead>
    requires |n.data| >= 2
  {
    ReadSliceHead(sets, n.kind, Unpack(Unescape(n.data[2..])))
  }

  /** The unit as the receiver's parser delivers it: its type, and temporal layer 0. */
  ghost predicate OneUnit(nalus: seq<Nalu>, nalType: nat) {
    |nalus| == 1 && nalus[0].kind == nalType && |nalus[0].data| >= 2 && nalus[0].data[1] == 1
  }

  /** The receiver's view of the sent bytes: read under the sets from the headers, the slice is picture s. */
  ghost predicate ReadsAs(headers: seq<Byte>, slice: seq<Byte>, g: Gop, s: Submission) {
    var sets, nalus := ReadSets(Parse(headers)), Parse(slice);
    && sets.Some? && OneUnit(nalus, s.nalType)
    && var read := ReadPayload(sets.value, nalus[0]);
       read.Some? && DecodesAs(sets.value.sps, read.value.0, g, s)
  }

  /**
   * In every state of every run, for every size and rate: the packed slice header parses as one unit, and
   * read under the parameter sets that the receiver got from the sequence headers it decodes as the
   * picture being encoded.
   */
  lemma PackedSliceRoundTrip(g: Gop, width: nat, height: nat, fps: nat)
    requires Inv(g) && width <= MAX_SIZE && height <= MAX_SIZE && fps < TWO_TO_32
    ensures ReadsAs(Stream(Units(width, height, fps)), PackedSlice(Submit(g)), g, Submit(g))
  {
    var s, sets := Submit(g), SentSets(width, height, fps);
    hide *;
    SetsReceived(width, height, fps);
    SentSetsExpect(width, height, fps);
    SentOrdering(width, height, fps);
    SliceReceived(sets, g);
    ExpectIsTwelveBits(sets);
    HeadDecodes(sets.sps, g);
    Received(Stream(Units(width, height, fps)), PackedSlice(s), g, s, sets);
  }

  lemma Received(headers: seq<Byte>, slice: seq<Byte>, g: Gop, s: Submission, sets: Sets)
    requires ReadSets(Parse(headers)) == Some(sets) && OneUnit(Parse(slice), s.nalType)
    requires ReadPayload(sets, Parse(slice)[0]) == Some((HeadOf(s), Behind(s)))
    requires DecodesAs(sets.sps, HeadOf(s), g, s)
    ensures ReadsAs(headers, slice, g, s)
  {
    hide ReadSets, Parse, ReadPayload, HeadOf, Behind, DecodesAs;
  }

  lemma SentOrdering(width: nat, height: nat, fps: nat)
    ensures SentSets(width, height, fps).sps.ordering.maxDecPicBufferingMinus1 == 1
  {
  }

  lemma ExpectIsTwelveBits(sets: Sets)
    requires Expect(sets)
    ensures ExpectsTwelveBits(sets.sps)
  {
  }

  /** What is left after the head: the remaining fields and the trailing bits. */
  function Behind(s: Submission): BitString {
    PutRemainder(s, Trailing(|PutHead(HeadOf(s), PutRemainder(s, []))|))
  }

  lemma SliceReceived(sets: Sets, g: Gop)
    requires Inv(g) && Expect(sets)
    ensures var s := Submit(g);
            var nalus := Parse(PackedSlice(s));
            OneUnit(nalus, s.nalType) && ReadPayload(sets, nalus[0]) == Some((HeadOf(s), Behind(s)))
  {
    hide PutHead, PutRemainder, ReadSliceHead, Escape, Unescape, Parse, Stream, Rbsp, Submit, Trailing, Pack, Unpack;
    hide Expect, HeadOf;
    var s := Submit(g);
    SubmissionIsSound(g);
    var payload := PutHead(HeadOf(s), PutRemainder(s, []));
    var unit := NalHeader(s.nalType, 1) + SliceBody(s);
    EscapedIsClean(s.nalType, Rbsp(payload));
    ParseStream([unit]);
    assert unit[2..] == SliceBody(s);
    RbspBits(payload);
    PutHeadAppends(s, Trailing(|payload|));
    SliceHeadRoundTrip(sets, s, Behind(s));
  }

  // ---- the rest of the header ----

  /** How a complete slice header may end, with the fields behind the reference picture set. */
  datatype Ending = Uncovered | NotAligned | Complete(mergeMissing: Option<nat>, qpDelta: int, across: Option<bool>)

  function DeblockingDisabled(pps: Pps): bool { pps.deblocking.Some? && pps.deblocking.value.offsets.None? }

  /** Parameter sets that ask for fields not covered by ReadEnding. */
  predicate AsksForMore(sets: Sets) {
    || sets.sps.tools.sao || sets.sps.tools.temporalMvp || sets.pps.head.cabacInitPresent
    || sets.pps.tools.weightedPred || sets.pps.tools.weightedBipred || sets.pps.tail.listsModification
    || sets.pps.qp.sliceChromaOffsets || sets.pps.tools.tiles || sets.pps.tools.entropySync
    || sets.pps.tail.sliceExtension || (sets.pps.deblocking.Some? && sets.pps.deblocking.value.overrideEnabled)
  }

  /** Section 7.3.6.1 behind the reference picture set, to the alignment bits; None if the bits run out. */
  function ReadEnding(sets: Sets, h: SliceHead, b: BitString): Option<Ending> {
    if AsksForMore(sets) || h.sliceType == 0 then Some(Uncovered) else
    var (override, b) :- ReadOptionalFlag(h.sliceType == 1, b);
    if override == Some(true) then Some(Uncovered) else
    var (merge, b) :- ReadOptionalUe(h.sliceType == 1, b);
    var (qp, b) :- ReadSe(b);
    var (across, b) :- ReadOptionalFlag(sets.pps.tools.loopFilterAcrossSlices && !DeblockingDisabled(sets.pps), b);
    if IsTrailing(b) then Some(Complete(merge, qp, across)) else Some(NotAligned)
  }

  predicate Incomplete(e: Option<Ending>) { e.None? || e.value.NotAligned? }

  /**
   * Read to its end under the sets sent, no packed slice header is complete, whatever the state: the fields
   * run into the trailing bits.
   */
  lemma HeaderIsIncomplete(g: Gop, width: nat, height: nat, fps: nat)
    requires Inv(g)
    ensures var s := Submit(g); Incomplete(ReadEnding(SentSets(width, height, fps), HeadOf(s), Behind(s)))
  {
    hide PutHead, Submit, ReadUe, ReadSe, SpsFormatFields, VpsFields;
    var s := Submit(g);
    var t := Trailing(|PutHead(HeadOf(s), PutRemainder(s, []))|);
    ReadOne(t);
    ReadOne(t[1..]);
    assert [true] + t[1..] == t;
  }

  lemma ReadOne(t: BitString)
    ensures ReadUe([true] + t) == Some((0, t)) && ReadSe([true] + t) == Some((0, t)) && PutSe(0, t) == [true] + t
  {
    UeRoundTrip(0, t);
    assert UeCode(0) == [true];
  }

  /** The remaining fields with the two that are missing: merge candidates in a P slice, and the loop filter flag. */
  function PutWholeRemainder(s: Submission, rest: BitString): BitString {
    if s.isIdr then PutSe(0, PutFlag(true, rest)) else PutFlag(false, PutUe(0, PutSe(0, PutFlag(true, rest))))
  }

  /** With those two fields in place the header would be complete, with the values the driver is told. */
  lemma TwoFieldsAreMissing(s: Submission, width: nat, height: nat, fps: nat, n: nat)
    ensures ReadEnding(SentSets(width, height, fps), HeadOf(s), PutWholeRemainder(s, Trailing(n))) ==
            Some(Complete(if s.isIdr then None else Some(0), 0, Some(true)))
  {
    hide PutUe, PutSe, PutFlag, ReadUe, ReadSe, ReadFlag, SpsFormatFields, VpsFields;
    assert IsTrailing(Trailing(n));
  }
}
