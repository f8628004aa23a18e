/**
 * What the driver is told about sequence, picture and slice, beside what the sender's own headers tell the
 * receiver. The driver codes the slice data by the former, the receiver reads it by the latter.
 */
module DriverParameters {
  import opened Wrappers
  import opened Bits
  import opened BitWriting
  import opened AnnexB
  import opened ParameterSets
  import opened SequenceHeaders
  import opened Gop
  import opened SliceHeaders

  const CTU_SIZE: nat := 64

  datatype SeqParam = SeqParam(
    profileIdc: nat, levelIdc: nat, tier: bool, width: nat, height: nat, chromaFormatIdc: nat,
    bitDepthLumaMinus8: nat, bitDepthChromaMinus8: nat, scalingList: bool, strongIntraSmoothing: bool, amp: bool,
    sao: bool, pcm: bool, temporalMvp: bool, log2MinCbMinus3: nat, log2DiffCb: nat, log2MinTbMinus2: nat,
    log2DiffTb: nat, depthInter: nat, depthIntra: nat, vui: bool)

  datatype PicParam = PicParam(
    current: Reference, references: seq<Reference>, initQp: int, cuQpDeltaDepth: nat, cbOffset: int, crOffset: int,
    log2ParallelMergeMinus2: nat, numRefL0Minus1: nat, numRefL1Minus1: nat, ppsId: nat, nalType: nat,
    dependentSlices: bool, signDataHiding: bool, constrainedIntra: bool, transformSkip: bool, cuQpDelta: bool,
    weightedPred: bool, weightedBipred: bool, transquantBypass: bool, tiles: bool, entropySync: bool,
    acrossSlices: bool, scalingList: bool, noOutputOfPrior: bool)

  datatype SliceParam = SliceParam(
    address: nat, numCtu: nat, sliceType: nat, ppsId: nat, list0: seq<Reference>, maxNumMergeCand: nat, qpDelta: int,
    betaOffset: int, tcOffset: int, temporalMvp: bool, saoLuma: bool, saoChroma: bool, numRefOverride: bool,
    cabacInit: bool, deblockingDisabled: bool, acrossSlices: bool)

  function FillSeqParam(width: nat, height: nat): SeqParam {
    SeqParam(1, 120, false, Align64(width), Align64(height), 1, 0, 0, false, true, true, false, false, false,
             0, 3, 0, 3, 2, 2, false)
  }

  function ReferencesOf(s: Submission): seq<Reference> {
    if s.reference.Some? then [s.reference.value] else []
  }

  function FillPicParam(s: Submission): PicParam {
    PicParam(Reference(s.surface, s.poc), ReferencesOf(s), 26, 0, 0, 0, 0, 0, 0, 0, s.nalType,
             false, false, false, false, true, false, false, false, false, false, true, false, false)
  }

  /** The number of blocks is a product of 32-bit numbers. */
  function FillSliceParam(width: nat, height: nat, s: Submission): SliceParam {
    SliceParam(0, (Align64(width) / CTU_SIZE) * (Align64(height) / CTU_SIZE) % TWO_TO_32, if s.isIdr then 2 else 1, 0,
               ReferencesOf(s), 5, 0, 0, 0, false, false, false, false, false, false, true)
  }

  // ---- sequence and picture ----

  predicate SeqAgrees(p: SeqParam, sps: Sps) {
    && p.profileIdc == sps.ptl.profileIdc && p.levelIdc == sps.ptl.levelIdc && p.tier == sps.ptl.tier
    && p.width == sps.format.width && p.height == sps.format.height
    && p.chromaFormatIdc == sps.format.chromaFormatIdc
    && p.bitDepthLumaMinus8 == sps.format.bitDepthLumaMinus8
    && p.bitDepthChromaMinus8 == sps.format.bitDepthChromaMinus8
    && p.scalingList == sps.tools.scalingList && p.strongIntraSmoothing == sps.tools.strongIntraSmoothing
    && p.amp == sps.tools.amp && p.sao == sps.tools.sao && p.pcm == sps.tools.pcm && p.vui == sps.tools.vui
    && p.temporalMvp == sps.tools.temporalMvp
    && sps.tree == CodingTree(p.log2MinCbMinus3, p.log2DiffCb, p.log2MinTbMinus2, p.log2DiffTb, p.depthInter, p.depthIntra)
  }

  predicate PicAgrees(p: PicParam, pps: Pps) {
    && p.ppsId == pps.head.id && p.dependentSlices == pps.head.dependentSlices
    && p.signDataHiding == pps.head.signDataHiding
    && p.numRefL0Minus1 == pps.head.numRefL0Minus1 && p.numRefL1Minus1 == pps.head.numRefL1Minus1
    && p.initQp == pps.qp.initQpMinus26 + 26 && p.constrainedIntra == pps.qp.constrainedIntra
    && p.transformSkip == pps.qp.transformSkip
    && pps.qp.cuQpDeltaDepth == (if p.cuQpDelta then Some(p.cuQpDeltaDepth) else None)
    && p.cbOffset == pps.qp.cbOffset && p.crOffset == pps.qp.crOffset
    && p.weightedPred == pps.tools.weightedPred && p.weightedBipred == pps.tools.weightedBipred
    && p.transquantBypass == pps.tools.transquantBypass && p.tiles == pps.tools.tiles
    && p.entropySync == pps.tools.entropySync && p.acrossSlices == pps.tools.loopFilterAcrossSlices
    && p.log2ParallelMergeMinus2 == pps.tail.log2ParallelMergeMinus2 && p.scalingList == pps.tail.scalingList
  }

  /** One layer, one sub-layer, Main profile, and the same buffering announced twice; the sets refer to each other. */
  predicate Consistent(sets: Sets) {
    && Chained(sets, sets.pps.head.id)
    && sets.vps.ptl == sets.sps.ptl && sets.vps.ordering == sets.sps.ordering
    && sets.vps.head.maxSubLayersMinus1 == sets.sps.head.maxSubLayersMinus1 == 0
    && sets.vps.head.temporalIdNesting && sets.sps.head.temporalIdNesting
    && sets.vps.head.reserved == 0xFFFF && sets.vps.head.maxLayersMinus1 == 0 && sets.vps.tail.maxLayerId == 0
    && |sets.sps.ptl.compatibility| == 32 && sets.sps.ptl.profileIdc < 32
    && sets.sps.ptl.compatibility[sets.sps.ptl.profileIdc]
    && sets.sps.ptl.compatibility[1] && sets.sps.ptl.compatibility[2]
    && sets.sps.ordering.maxNumReorder <= sets.sps.ordering.maxDecPicBufferingMinus1
    && sets.vps.head.baseLayerInternal && sets.vps.head.baseLayerAvailable && ProgressiveFrames(sets.sps.ptl)
  }

  /** The source is captured in whole frames, one after the other. */
  predicate ProgressiveFrames(p: ProfileTierLevel) {
    p.progressive && !p.interlaced && p.nonPacked && p.frameOnly
  }

  /** Slices that do not override it are filtered as the driver is told. */
  predicate DeblockingAgrees(p: SliceParam, pps: Pps) {
    pps.deblocking == Some(Deblocking(false, if p.deblockingDisabled then None else Some(Offsets(p.betaOffset, p.tcOffset))))
  }

  /** The frame rate announced: a whole number of pictures per second. */
  predicate PicturesPerSecond(vps: Vps, fps: nat) {
    && vps.tail.timing.Some? && vps.tail.timing.value.numUnitsInTick > 0
    && vps.tail.timing.value.timeScale == fps * vps.tail.timing.value.numUnitsInTick
  }

  /** What the receiver reads out of the sequence headers is what the driver codes by. */
  ghost predicate Told(sets: Option<Sets>, width: nat, height: nat, fps: nat, s: Submission) {
    && sets.Some? && Consistent(sets.value) && PicturesPerSecond(sets.value.vps, fps)
    && SeqAgrees(FillSeqParam(width, height), sets.value.sps) && PicAgrees(FillPicParam(s), sets.value.pps)
    && DeblockingAgrees(FillSliceParam(width, height, s), sets.value.pps)
  }

  lemma HeadersAgreeWithDriver(width: nat, height: nat, fps: nat, s: Submission)
    requires width <= MAX_SIZE && height <= MAX_SIZE && fps < TWO_TO_32
    ensures Told(ReadSets(Parse(Stream(Units(width, height, fps)))), width, height, fps, s)
  {
    hide ReadSets, Parse, Stream, Units, Align64;
    SetsReceived(width, height, fps);
  }

  // ---- the slice ----

  /** Width of the coding tree blocks a sequence parameter set announces, and their number in a picture. */
  function CtbSize(sps: Sps): nat { Pow2(sps.tree.log2MinCbMinus3 + 3 + sps.tree.log2DiffCb) }

  function CeilDiv(a: nat, b: nat): nat
    requires b > 0
  {
    (a + b - 1) / b
  }

  function PicSizeInCtbs(sps: Sps): nat {
    CeilDiv(sps.format.width, CtbSize(sps)) * CeilDiv(sps.format.height, CtbSize(sps))
  }

  /**
   * The one slice begins at the first block and is as long as the picture that the receiver expects, exactly
   * for pictures of fewer than 2^32 blocks; and the picture is whole in smallest coding blocks.
   */
  lemma SliceCoversPicture(width: nat, height: nat, s: Submission)
    ensures var sps, p := SpsFields(width, height), FillSliceParam(width, height, s);
            && p.address == 0
            && (p.numCtu == PicSizeInCtbs(sps) <==> PicSizeInCtbs(sps) < TWO_TO_32)
            && sps.format.width % Pow2(sps.tree.log2MinCbMinus3 + 3) == 0
            && sps.format.height % Pow2(sps.tree.log2MinCbMinus3 + 3) == 0
  {
    hide WindowFields, Align64, CeilDiv;
    assert Pow2(6) == 64 && Pow2(3) == 8;
    WholeBlocks(Align64(width));
    WholeBlocks(Align64(height));
    hide Pow2;
  }

  lemma WholeBlocks(x: nat)
    requires x % 64 == 0
    ensures CeilDiv(x, 64) == x / CTU_SIZE && x % 8 == 0
  {
    var q := x / 64;
    DivModUnique(x + 63, 64, q, 63);
    DivModUnique(x, 8, 8 * q, 0);
  }

  /**
   * In every state the driver's reference list holds exactly the pictures, in order, that the receiver's
   * decoder derives from the slice header, and both take the same slice type and order count.
   */
  lemma SliceAgreesWithDriver(g: Gop, sps: Sps, width: nat, height: nat)
    requires Inv(g) && DecodesAs(sps, HeadOf(Submit(g)), g, Submit(g))
    ensures var s := Submit(g);
            var h, slice, pic := HeadOf(s), FillSliceParam(width, height, s), FillPicParam(s);
            && slice.list0 == pic.references && |slice.list0| <= 1
            && CurrentReferences(h, s.poc) == seq(|slice.list0|, i requires 0 <= i < |slice.list0| => slice.list0[i].poc)
            && h.sliceType == slice.sliceType && h.ppsId == slice.ppsId == pic.ppsId
            && h.noOutputOfPrior == (if s.isIdr then Some(pic.noOutputOfPrior) else None)
            && pic.current == Reference(s.surface, s.poc)
            && (forall i :: 0 <= i < |slice.list0| ==> slice.list0[i].surface != pic.current.surface)
  {
    hide Inv, CurrentReferences, DecodedPoc, NumReferences;
  }

  /** The two fields missing from the packed slice header are fields the driver is told. */
  lemma MissingFieldsAreTold(s: Submission, width: nat, height: nat, fps: nat, n: nat)
    ensures var p := FillSliceParam(width, height, s);
            ReadEnding(SentSets(width, height, fps), HeadOf(s), PutWholeRemainder(s, Trailing(n))) ==
            Some(Complete(if s.isIdr then None else Some(5 - p.maxNumMergeCand), p.qpDelta, Some(p.acrossSlices)))
  {
    hide ReadEnding, PutWholeRemainder, Align64;
    TwoFieldsAreMissing(s, width, height, fps, n);
  }
}
