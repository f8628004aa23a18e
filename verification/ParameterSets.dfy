/**
 * The video, sequence and picture parameter sets: their syntax as sections 7.3.2.1 to 7.3.2.3 and 7.3.3
 * of Rec. ITU-T H.265 read it, and the sender's serialisers. A reader returns None on syntax it does not
 * cover (more than one sub-layer, layer sets, HRD, scaling lists, PCM, stored reference picture sets,
 * long-term references, VUI, tiles, extensions).
 */
module ParameterSets {
  import opened Wrappers
  import opened Bits
  import opened BitWriting

  // ---- profile, tier and level ----

  datatype ProfileTierLevel = ProfileTierLevel(
    profileSpace: nat, tier: bool, profileIdc: nat, compatibility: BitString,
    progressive: bool, interlaced: bool, nonPacked: bool, frameOnly: bool, reserved: BitString, levelIdc: nat)

  predicate PtlInRange(p: ProfileTierLevel) {
    p.profileSpace < 4 && p.profileIdc < 32 && |p.compatibility| == 32 && |p.reserved| == 44 && p.levelIdc < 256
  }

  function ReadPtl(b: BitString): Parsed<ProfileTierLevel> {
    var (space, b) :- ReadU(b, 2);
    var (tier, b) :- ReadFlag(b);
    var (idc, b) :- ReadU(b, 5);
    var (compatibility, b) :- ReadFlags(b, 32);
    var (progressive, b) :- ReadFlag(b);
    var (interlaced, b) :- ReadFlag(b);
    var (nonPacked, b) :- ReadFlag(b);
    var (frameOnly, b) :- ReadFlag(b);
    var (reserved, b) :- ReadFlags(b, 44);
    var (level, b) :- ReadU(b, 8);
    Some((ProfileTierLevel(space, tier, idc, compatibility, progressive, interlaced, nonPacked, frameOnly,
                           reserved, level), b))
  }

  function PutPtl(p: ProfileTierLevel, rest: BitString): (b: BitString)
    ensures PtlInRange(p) ==> |b| == 96 + |rest| && ReadPtl(b) == Some((p, rest))
  {
    hide PutU, PutFlag, PutFlags;
    SmallPowers();
    PutU(2, p.profileSpace, PutFlag(p.tier, PutU(5, p.profileIdc, PutFlags(p.compatibility,
      PutFlag(p.progressive, PutFlag(p.interlaced, PutFlag(p.nonPacked, PutFlag(p.frameOnly,
        PutFlags(p.reserved, PutU(8, p.levelIdc, rest))))))))))
  }

  lemma SmallPowers()
    ensures Pow2(2) == 4 && Pow2(3) == 8 && Pow2(4) == 16 && Pow2(5) == 32 && Pow2(6) == 64 && Pow2(8) == 256
    ensures Pow2(12) == 0x1000 && Pow2(16) == 0x1_0000 && Pow2(32) == TWO_TO_32
  {
    Pow2Of32();
  }

  /** Main profile, level 4.0. */
  function MainPtl(): (p: ProfileTierLevel)
    ensures PtlInRange(p)
  {
    ProfileTierLevel(0, false, 1, MainFlags(32), true, false, true, true, Zeros(44), 120)
  }

  /** Compatibility flags 1 and 2 are set. */
  function MainFlags(n: nat): BitString { seq(n, i => i == 1 || i == 2) }

  method WriteProfileTierLevel(bs: BitWriter)
    requires bs.Valid() && |bs.written| + 96 <= 8 * bs.buf.Length
    modifies bs, bs.buf
    ensures bs.Valid() && |bs.written| == |old(bs.written)| + 96
    ensures forall rest {:trigger PutPtl(MainPtl(), rest)} ::
              bs.written + rest == old(bs.written) + PutPtl(MainPtl(), rest)
  {
    bs.Write(0, 2);
    bs.Write1(false);
    bs.Write(1, 5);
    WriteFlags(bs, MainFlags(32));
    bs.Write1(true);
    bs.Write1(false);
    bs.Write1(true);
    bs.Write1(true);
    WriteFlags(bs, Zeros(44));
    bs.Write(120, 8);
  }

  /** A counted loop of single bits. */
  method WriteFlags(bs: BitWriter, flags: BitString)
    requires bs.Valid() && |bs.written| + |flags| <= 8 * bs.buf.Length
    modifies bs, bs.buf
    ensures bs.Valid() && bs.written == old(bs.written) + flags
    ensures forall rest {:trigger PutFlags(flags, rest)} ::
              bs.written + rest == old(bs.written) + PutFlags(flags, rest)
  {
    for i := 0 to |flags|
      invariant bs.Valid() && bs.written == old(bs.written) + flags[..i]
    {
      bs.Write1(flags[i]);
    }
    PutFlagsAppends(old(bs.written), flags);
  }

  lemma PutFlagsAppends(before: BitString, flags: BitString)
    ensures forall rest :: before + flags + rest == before + PutFlags(flags, rest)
  {
    forall rest ensures before + flags + rest == before + PutFlags(flags, rest) {
      assert before + flags + rest == before + (flags + rest);
    }
  }

  // ---- sub-layer ordering information for a single sub-layer ----

  datatype Ordering = Ordering(present: bool, maxDecPicBufferingMinus1: nat, maxNumReorder: nat, maxLatencyPlus1: nat)

  predicate Codable(v: nat) { v < TWO_TO_32 - 1 }

  predicate OrderingInRange(o: Ordering) {
    Codable(o.maxDecPicBufferingMinus1) && Codable(o.maxNumReorder) && Codable(o.maxLatencyPlus1)
  }

  function ReadOrdering(b: BitString): Parsed<Ordering> {
    var (present, b) :- ReadFlag(b);
    var (buffering, b) :- ReadUe(b);
    var (reorder, b) :- ReadUe(b);
    var (latency, b) :- ReadUe(b);
    Some((Ordering(present, buffering, reorder, latency), b))
  }

  function PutOrdering(o: Ordering, rest: BitString): (b: BitString)
    ensures OrderingInRange(o) ==> ReadOrdering(b) == Some((o, rest))
  {
    PutFlag(o.present, PutUe(o.maxDecPicBufferingMinus1, PutUe(o.maxNumReorder, PutUe(o.maxLatencyPlus1, rest))))
  }

  // ---- video parameter set ----

  datatype Timing = Timing(numUnitsInTick: nat, timeScale: nat, ticksPerPocMinus1: Option<nat>, numHrd: nat)

  datatype VpsHead = VpsHead(
    id: nat, baseLayerInternal: bool, baseLayerAvailable: bool, maxLayersMinus1: nat, maxSubLayersMinus1: nat,
    temporalIdNesting: bool, reserved: nat)

  datatype VpsTail = VpsTail(maxLayerId: nat, numLayerSetsMinus1: nat, timing: Option<Timing>, extension: bool)

  datatype Vps = Vps(head: VpsHead, ptl: ProfileTierLevel, ordering: Ordering, tail: VpsTail)

  predicate TimingInRange(t: Option<Timing>) {
    t.Some? ==>
      && t.value.numUnitsInTick < TWO_TO_32 && t.value.timeScale < TWO_TO_32 && t.value.numHrd == 0
      && (t.value.ticksPerPocMinus1.Some? ==> Codable(t.value.ticksPerPocMinus1.value))
  }

  predicate VpsHeadInRange(h: VpsHead) {
    h.id < 16 && h.maxLayersMinus1 < 64 && h.maxSubLayersMinus1 == 0 && h.reserved < 0x1_0000
  }

  predicate VpsTailInRange(t: VpsTail) {
    t.maxLayerId < 64 && t.numLayerSetsMinus1 == 0 && TimingInRange(t.timing) && !t.extension
  }

  predicate VpsInRange(v: Vps) {
    VpsHeadInRange(v.head) && PtlInRange(v.ptl) && OrderingInRange(v.ordering) && VpsTailInRange(v.tail)
  }

  function ReadOptionalUe(present: bool, b: BitString): Parsed<Option<nat>> {
    if !present then Some((None, b))
    else
      var (v, b) :- ReadUe(b);
      Some((Some(v), b))
  }

  function PutOptionalUe(v: Option<nat>, rest: BitString): (b: BitString)
    ensures (v.Some? ==> Codable(v.value)) ==> ReadOptionalUe(v.Some?, b) == Some((v, rest))
  {
    if v.None? then rest else PutUe(v.value, rest)
  }

  function ReadTiming(b: BitString): Parsed<Option<Timing>> {
    var (present, b) :- ReadFlag(b);
    if !present then Some((None, b))
    else
      var (units, b) :- ReadU(b, 32);
      var (scale, b) :- ReadU(b, 32);
      var (proportional, b) :- ReadFlag(b);
      var (ticks, b) :- ReadOptionalUe(proportional, b);
      var (hrd, b) :- ReadUe(b);
      if hrd != 0 then None else Some((Some(Timing(units, scale, ticks, hrd)), b))
  }

  function PutTiming(t: Option<Timing>, rest: BitString): (b: BitString)
    ensures TimingInRange(t) ==> ReadTiming(b) == Some((t, rest))
  {
    SmallPowers();
    if t.None? then PutFlag(false, rest)
    else PutFlag(true, PutU(32, t.value.numUnitsInTick, PutU(32, t.value.timeScale,
           PutFlag(t.value.ticksPerPocMinus1.Some?, PutOptionalUe(t.value.ticksPerPocMinus1,
             PutUe(t.value.numHrd, rest))))))
  }

  function ReadVpsHead(b: BitString): Parsed<VpsHead> {
    var (id, b) :- ReadU(b, 4);
    var (internal, b) :- ReadFlag(b);
    var (available, b) :- ReadFlag(b);
    var (maxLayers, b) :- ReadU(b, 6);
    var (maxSubLayers, b) :- ReadU(b, 3);
    var (nesting, b) :- ReadFlag(b);
    var (reserved, b) :- ReadU(b, 16);
    if maxSubLayers != 0 then None
    else Some((VpsHead(id, internal, available, maxLayers, maxSubLayers, nesting, reserved), b))
  }

  function PutVpsHead(h: VpsHead, rest: BitString): (b: BitString)
    ensures VpsHeadInRange(h) ==> ReadVpsHead(b) == Some((h, rest))
  {
    SmallPowers();
    PutU(4, h.id, PutFlag(h.baseLayerInternal, PutFlag(h.baseLayerAvailable, PutU(6, h.maxLayersMinus1,
      PutU(3, h.maxSubLayersMinus1, PutFlag(h.temporalIdNesting, PutU(16, h.reserved, rest)))))))
  }

  function ReadVpsTail(b: BitString): Parsed<VpsTail> {
    var (maxLayerId, b) :- ReadU(b, 6);
    var (layerSets, b) :- ReadUe(b);
    if layerSets != 0 then None else
    var (timing, b) :- ReadTiming(b);
    var (extension, b) :- ReadFlag(b);
    if extension then None else Some((VpsTail(maxLayerId, layerSets, timing, extension), b))
  }

  function PutVpsTail(t: VpsTail, rest: BitString): (b: BitString)
    ensures VpsTailInRange(t) ==> ReadVpsTail(b) == Some((t, rest))
  {
    SmallPowers();
    PutU(6, t.maxLayerId, PutUe(t.numLayerSetsMinus1, PutTiming(t.timing, PutFlag(t.extension, rest))))
  }

  function ReadVps(b: BitString): Parsed<Vps> {
    var (head, b) :- ReadVpsHead(b);
    var (ptl, b) :- ReadPtl(b);
    var (ordering, b) :- ReadOrdering(b);
    var (tail, b) :- ReadVpsTail(b);
    Some((Vps(head, ptl, ordering, tail), b))
  }

  function PutVps(v: Vps, rest: BitString): (b: BitString)
    ensures VpsInRange(v) ==> ReadVps(b) == Some((v, rest))
  {
    PutVpsHead(v.head, PutPtl(v.ptl, PutOrdering(v.ordering, PutVpsTail(v.tail, rest))))
  }

  // ---- sequence parameter set ----

  datatype Window = Window(left: nat, right: nat, top: nat, bottom: nat)

  datatype CodingTree = CodingTree(
    log2MinCbMinus3: nat, log2DiffCb: nat, log2MinTbMinus2: nat, log2DiffTb: nat, depthInter: nat, depthIntra: nat)

  datatype SpsTools = SpsTools(
    scalingList: bool, amp: bool, sao: bool, pcm: bool, numShortTermRps: nat, longTermRefs: bool,
    temporalMvp: bool, strongIntraSmoothing: bool, vui: bool, extension: bool)

  datatype SpsHead = SpsHead(vpsId: nat, maxSubLayersMinus1: nat, temporalIdNesting: bool)

  datatype SpsFormat = SpsFormat(
    id: nat, chromaFormatIdc: nat, width: nat, height: nat, window: Option<Window>, bitDepthLumaMinus8: nat,
    bitDepthChromaMinus8: nat, log2MaxPocLsbMinus4: nat)

  datatype Sps = Sps(
    head: SpsHead, ptl: ProfileTierLevel, format: SpsFormat, ordering: Ordering, tree: CodingTree, tools: SpsTools)

  predicate WindowInRange(w: Option<Window>) {
    w.Some? ==> Codable(w.value.left) && Codable(w.value.right) && Codable(w.value.top) && Codable(w.value.bottom)
  }

  predicate TreeInRange(t: CodingTree) {
    && Codable(t.log2MinCbMinus3) && Codable(t.log2DiffCb) && Codable(t.log2MinTbMinus2)
    && Codable(t.log2DiffTb) && Codable(t.depthInter) && Codable(t.depthIntra)
  }

  predicate SpsToolsInRange(t: SpsTools) {
    !t.scalingList && !t.pcm && t.numShortTermRps == 0 && !t.longTermRefs && !t.vui && !t.extension
  }

  predicate SpsFormatInRange(f: SpsFormat) {
    && Codable(f.id) && f.chromaFormatIdc < 3 && Codable(f.width) && Codable(f.height) && WindowInRange(f.window)
    && Codable(f.bitDepthLumaMinus8) && Codable(f.bitDepthChromaMinus8) && Codable(f.log2MaxPocLsbMinus4)
  }

  predicate SpsInRange(s: Sps) {
    && s.head.vpsId < 16 && s.head.maxSubLayersMinus1 == 0 && PtlInRange(s.ptl) && SpsFormatInRange(s.format)
    && OrderingInRange(s.ordering) && TreeInRange(s.tree) && SpsToolsInRange(s.tools)
  }

  function ReadWindow(b: BitString): Parsed<Option<Window>> {
    var (present, b) :- ReadFlag(b);
    if !present then Some((None, b))
    else
      var (left, b) :- ReadUe(b);
      var (right, b) :- ReadUe(b);
      var (top, b) :- ReadUe(b);
      var (bottom, b) :- ReadUe(b);
      Some((Some(Window(left, right, top, bottom)), b))
  }

  function PutWindow(w: Option<Window>, rest: BitString): (b: BitString)
    ensures WindowInRange(w) ==> ReadWindow(b) == Some((w, rest))
  {
    if w.None? then PutFlag(false, rest)
    else PutFlag(true, PutUe(w.value.left, PutUe(w.value.right, PutUe(w.value.top, PutUe(w.value.bottom, rest)))))
  }

  function ReadTree(b: BitString): Parsed<CodingTree> {
    var (minCb, b) :- ReadUe(b);
    var (diffCb, b) :- ReadUe(b);
    var (minTb, b) :- ReadUe(b);
    var (diffTb, b) :- ReadUe(b);
    var (inter, b) :- ReadUe(b);
    var (intra, b) :- ReadUe(b);
    Some((CodingTree(minCb, diffCb, minTb, diffTb, inter, intra), b))
  }

  function PutTree(t: CodingTree, rest: BitString): (b: BitString)
    ensures TreeInRange(t) ==> ReadTree(b) == Some((t, rest))
  {
    PutUe(t.log2MinCbMinus3, PutUe(t.log2DiffCb, PutUe(t.log2MinTbMinus2, PutUe(t.log2DiffTb,
      PutUe(t.depthInter, PutUe(t.depthIntra, rest))))))
  }

  function ReadSpsTools(b: BitString): Parsed<SpsTools> {
    var (scalingList, b) :- ReadFlag(b);
    if scalingList then None else
    var (amp, b) :- ReadFlag(b);
    var (sao, b) :- ReadFlag(b);
    var (pcm, b) :- ReadFlag(b);
    if pcm then None else
    var (rps, b) :- ReadUe(b);
    if rps != 0 then None else
    var (longTerm, b) :- ReadFlag(b);
    if longTerm then None else
    var (mvp, b) :- ReadFlag(b);
    var (smoothing, b) :- ReadFlag(b);
    var (vui, b) :- ReadFlag(b);
    if vui then None else
    var (extension, b) :- ReadFlag(b);
    if extension then None
    else Some((SpsTools(scalingList, amp, sao, pcm, rps, longTerm, mvp, smoothing, vui, extension), b))
  }

  function PutSpsTools(t: SpsTools, rest: BitString): (b: BitString)
    ensures SpsToolsInRange(t) ==> ReadSpsTools(b) == Some((t, rest))
  {
    PutFlag(t.scalingList, PutFlag(t.amp, PutFlag(t.sao, PutFlag(t.pcm, PutUe(t.numShortTermRps,
      PutFlag(t.longTermRefs, PutFlag(t.temporalMvp, PutFlag(t.strongIntraSmoothing, PutFlag(t.vui,
        PutFlag(t.extension, rest))))))))))
  }

  function ReadSpsHead(b: BitString): Parsed<SpsHead> {
    var (vpsId, b) :- ReadU(b, 4);
    var (maxSubLayers, b) :- ReadU(b, 3);
    var (nesting, b) :- ReadFlag(b);
    if maxSubLayers != 0 then None else Some((SpsHead(vpsId, maxSubLayers, nesting), b))
  }

  function PutSpsHead(h: SpsHead, rest: BitString): (b: BitString)
    ensures h.vpsId < 16 && h.maxSubLayersMinus1 == 0 ==> ReadSpsHead(b) == Some((h, rest))
  {
    SmallPowers();
    PutU(4, h.vpsId, PutU(3, h.maxSubLayersMinus1, PutFlag(h.temporalIdNesting, rest)))
  }

  function ReadSpsFormat(b: BitString): Parsed<SpsFormat> {
    var (id, b) :- ReadUe(b);
    var (chroma, b) :- ReadUe(b);
    if chroma >= 3 then None else
    var (width, b) :- ReadUe(b);
    var (height, b) :- ReadUe(b);
    var (window, b) :- ReadWindow(b);
    var (luma, b) :- ReadUe(b);
    var (chromaDepth, b) :- ReadUe(b);
    var (poc, b) :- ReadUe(b);
    Some((SpsFormat(id, chroma, width, height, window, luma, chromaDepth, poc), b))
  }

  function PutSpsFormat(f: SpsFormat, rest: BitString): (b: BitString)
    ensures SpsFormatInRange(f) ==> ReadSpsFormat(b) == Some((f, rest))
  {
    PutUe(f.id, PutUe(f.chromaFormatIdc, PutUe(f.width, PutUe(f.height, PutWindow(f.window,
      PutUe(f.bitDepthLumaMinus8, PutUe(f.bitDepthChromaMinus8, PutUe(f.log2MaxPocLsbMinus4, rest))))))))
  }

  function ReadSps(b: BitString): Parsed<Sps> {
    var (head, b) :- ReadSpsHead(b);
    var (ptl, b) :- ReadPtl(b);
    var (format, b) :- ReadSpsFormat(b);
    var (ordering, b) :- ReadOrdering(b);
    var (tree, b) :- ReadTree(b);
    var (tools, b) :- ReadSpsTools(b);
    Some((Sps(head, ptl, format, ordering, tree, tools), b))
  }

  function PutSps(s: Sps, rest: BitString): (b: BitString)
    ensures SpsInRange(s) ==> ReadSps(b) == Some((s, rest))
  {
    PutSpsHead(s.head, PutPtl(s.ptl, PutSpsFormat(s.format, PutOrdering(s.ordering, PutTree(s.tree,
      PutSpsTools(s.tools, rest))))))
  }

  // ---- picture parameter set ----

  datatype PpsHead = PpsHead(
    id: nat, spsId: nat, dependentSlices: bool, outputFlagPresent: bool, numExtraSliceHeaderBits: nat,
    signDataHiding: bool, cabacInitPresent: bool, numRefL0Minus1: nat, numRefL1Minus1: nat)

  datatype PpsQp = PpsQp(
    initQpMinus26: int, constrainedIntra: bool, transformSkip: bool, cuQpDeltaDepth: Option<nat>,
    cbOffset: int, crOffset: int, sliceChromaOffsets: bool)

  datatype PpsTools = PpsTools(
    weightedPred: bool, weightedBipred: bool, transquantBypass: bool, tiles: bool, entropySync: bool,
    loopFilterAcrossSlices: bool)

  datatype Offsets = Offsets(beta: int, tc: int)

  datatype Deblocking = Deblocking(overrideEnabled: bool, offsets: Option<Offsets>)

  datatype PpsTail = PpsTail(
    scalingList: bool, listsModification: bool, log2ParallelMergeMinus2: nat, sliceExtension: bool, extension: bool)

  datatype Pps = Pps(head: PpsHead, qp: PpsQp, tools: PpsTools, deblocking: Option<Deblocking>, tail: PpsTail)

  predicate Signed32(v: int) { -0x8000_0000 < v < 0x8000_0000 }

  predicate PpsInRange(p: Pps) {
    && PpsHeadInRange(p.head) && PpsQpInRange(p.qp) && !p.tools.tiles && DeblockingInRange(p.deblocking)
    && PpsTailInRange(p.tail)
  }

  predicate PpsHeadInRange(h: PpsHead) {
    && Codable(h.id) && Codable(h.spsId) && h.numExtraSliceHeaderBits < 8
    && Codable(h.numRefL0Minus1) && Codable(h.numRefL1Minus1)
  }

  predicate PpsTailInRange(t: PpsTail) { Codable(t.log2ParallelMergeMinus2) && !t.scalingList && !t.extension }

  predicate PpsQpInRange(q: PpsQp) {
    && Signed32(q.initQpMinus26) && Signed32(q.cbOffset) && Signed32(q.crOffset)
    && (q.cuQpDeltaDepth.Some? ==> Codable(q.cuQpDeltaDepth.value))
  }

  predicate DeblockingInRange(d: Option<Deblocking>) {
    d.Some? && d.value.offsets.Some? ==> Signed32(d.value.offsets.value.beta) && Signed32(d.value.offsets.value.tc)
  }

  function ReadPpsHead(b: BitString): Parsed<PpsHead> {
    var (id, b) :- ReadUe(b);
    var (spsId, b) :- ReadUe(b);
    var (dependent, b) :- ReadFlag(b);
    var (output, b) :- ReadFlag(b);
    var (extra, b) :- ReadU(b, 3);
    var (sign, b) :- ReadFlag(b);
    var (cabac, b) :- ReadFlag(b);
    var (l0, b) :- ReadUe(b);
    var (l1, b) :- ReadUe(b);
    Some((PpsHead(id, spsId, dependent, output, extra, sign, cabac, l0, l1), b))
  }

  function PutPpsHead(h: PpsHead, rest: BitString): (b: BitString)
    ensures PpsHeadInRange(h) ==> ReadPpsHead(b) == Some((h, rest))
  {
    SmallPowers();
    PutUe(h.id, PutUe(h.spsId, PutFlag(h.dependentSlices, PutFlag(h.outputFlagPresent,
      PutU(3, h.numExtraSliceHeaderBits, PutFlag(h.signDataHiding, PutFlag(h.cabacInitPresent,
        PutUe(h.numRefL0Minus1, PutUe(h.numRefL1Minus1, rest)))))))))
  }

  function ReadPpsQp(b: BitString): Parsed<PpsQp> {
    var (qp, b) :- ReadSe(b);
    var (intra, b) :- ReadFlag(b);
    var (skip, b) :- ReadFlag(b);
    var (delta, b) :- ReadFlag(b);
    var (depth, b) :- ReadOptionalUe(delta, b);
    var (cb, b) :- ReadSe(b);
    var (cr, b) :- ReadSe(b);
    var (chroma, b) :- ReadFlag(b);
    Some((PpsQp(qp, intra, skip, depth, cb, cr, chroma), b))
  }

  function PutPpsQp(q: PpsQp, rest: BitString): (b: BitString)
    ensures PpsQpInRange(q) ==> ReadPpsQp(b) == Some((q, rest))
  {
    PutSe(q.initQpMinus26, PutFlag(q.constrainedIntra, PutFlag(q.transformSkip, PutFlag(q.cuQpDeltaDepth.Some?,
      PutOptionalUe(q.cuQpDeltaDepth, PutSe(q.cbOffset, PutSe(q.crOffset,
        PutFlag(q.sliceChromaOffsets, rest))))))))
  }

  function ReadPpsTools(b: BitString): Parsed<PpsTools> {
    var (pred, b) :- ReadFlag(b);
    var (bipred, b) :- ReadFlag(b);
    var (bypass, b) :- ReadFlag(b);
    var (tiles, b) :- ReadFlag(b);
    var (sync, b) :- ReadFlag(b);
    if tiles then None else
    var (across, b) :- ReadFlag(b);
    Some((PpsTools(pred, bipred, bypass, tiles, sync, across), b))
  }

  function PutPpsTools(t: PpsTools, rest: BitString): (b: BitString)
    ensures !t.tiles ==> ReadPpsTools(b) == Some((t, rest))
  {
    PutFlag(t.weightedPred, PutFlag(t.weightedBipred, PutFlag(t.transquantBypass, PutFlag(t.tiles,
      PutFlag(t.entropySync, PutFlag(t.loopFilterAcrossSlices, rest))))))
  }

  function ReadDeblocking(b: BitString): Parsed<Option<Deblocking>> {
    var (present, b) :- ReadFlag(b);
    if !present then Some((None, b)) else
    var (override, b) :- ReadFlag(b);
    var (disabled, b) :- ReadFlag(b);
    if disabled then Some((Some(Deblocking(override, None)), b)) else
    var (beta, b) :- ReadSe(b);
    var (tc, b) :- ReadSe(b);
    Some((Some(Deblocking(override, Some(Offsets(beta, tc)))), b))
  }

  function PutDeblocking(d: Option<Deblocking>, rest: BitString): (b: BitString)
    ensures DeblockingInRange(d) ==> ReadDeblocking(b) == Some((d, rest))
  {
    if d.None? then PutFlag(false, rest)
    else if d.value.offsets.None? then PutFlag(true, PutFlag(d.value.overrideEnabled, PutFlag(true, rest)))
    else PutFlag(true, PutFlag(d.value.overrideEnabled, PutFlag(false,
           PutSe(d.value.offsets.value.beta, PutSe(d.value.offsets.value.tc, rest)))))
  }

  function ReadPpsTail(b: BitString): Parsed<PpsTail> {
    var (scaling, b) :- ReadFlag(b);
    if scaling then None else
    var (lists, b) :- ReadFlag(b);
    var (merge, b) :- ReadUe(b);
    var (slice, b) :- ReadFlag(b);
    var (extension, b) :- ReadFlag(b);
    if extension then None else Some((PpsTail(scaling, lists, merge, slice, extension), b))
  }

  function PutPpsTail(t: PpsTail, rest: BitString): (b: BitString)
    ensures PpsTailInRange(t) ==> ReadPpsTail(b) == Some((t, rest))
  {
    PutFlag(t.scalingList, PutFlag(t.listsModification, PutUe(t.log2ParallelMergeMinus2,
      PutFlag(t.sliceExtension, PutFlag(t.extension, rest)))))
  }

  function ReadPps(b: BitString): Parsed<Pps> {
    var (head, b) :- ReadPpsHead(b);
    var (qp, b) :- ReadPpsQp(b);
    var (tools, b) :- ReadPpsTools(b);
    var (deblocking, b) :- ReadDeblocking(b);
    var (tail, b) :- ReadPpsTail(b);
    Some((Pps(head, qp, tools, deblocking, tail), b))
  }

  function PutPps(p: Pps, rest: BitString): (b: BitString)
    ensures PpsInRange(p) ==> ReadPps(b) == Some((p, rest))
  {
    PutPpsHead(p.head, PutPpsQp(p.qp, PutPpsTools(p.tools, PutDeblocking(p.deblocking, PutPpsTail(p.tail, rest)))))
  }

  // ---- what is put behind a structure may be appended later ----

  lemma PrimitivesAppend()
    ensures forall n, v, r, t {:trigger PutU(n, v, r) + t} :: PutU(n, v, r) + t == PutU(n, v, r + t)
    ensures forall f, r, t {:trigger PutFlag(f, r) + t} :: PutFlag(f, r) + t == PutFlag(f, r + t)
    ensures forall f, r, t {:trigger PutFlags(f, r) + t} :: PutFlags(f, r) + t == PutFlags(f, r + t)
    ensures forall v, r, t {:trigger PutUe(v, r) + t} :: PutUe(v, r) + t == PutUe(v, r + t)
    ensures forall v, r, t {:trigger PutSe(v, r) + t} :: PutSe(v, r) + t == PutSe(v, r + t)
  {
    forall n, v, r, t ensures PutU(n, v, r) + t == PutU(n, v, r + t) {
      assert Code(v, n) + r + t == Code(v, n) + (r + t);
    }
    forall f: bool, r, t ensures PutFlag(f, r) + t == PutFlag(f, r + t) {
      assert [f] + r + t == [f] + (r + t);
    }
    forall f, r, t ensures PutFlags(f, r) + t == PutFlags(f, r + t) {
      assert f + r + t == f + (r + t);
    }
    forall v, r, t ensures PutUe(v, r) + t == PutUe(v, r + t) {
      assert UeCode(v) + r + t == UeCode(v) + (r + t);
    }
    forall v, r, t ensures PutSe(v, r) + t == PutSe(v, r + t) {
      assert UeCode(SeMapped(v)) + r + t == UeCode(SeMapped(v)) + (r + t);
    }
  }

  lemma PutPtlAppends(x: ProfileTierLevel, r: BitString, t: BitString)
    ensures PutPtl(x, r) + t == PutPtl(x, r + t)
  {
    hide PutU, PutFlag, PutFlags, PutUe, PutSe, ReadPtl;
    PrimitivesAppend();
  }

  lemma PutOrderingAppends(x: Ordering, r: BitString, t: BitString)
    ensures PutOrdering(x, r) + t == PutOrdering(x, r + t)
  {
    hide PutU, PutFlag, PutFlags, PutUe, PutSe, ReadOrdering;
    PrimitivesAppend();
  }

  lemma PutVpsAppends(v: Vps, r: BitString, t: BitString)
    ensures PutVps(v, r) + t == PutVps(v, r + t)
  {
    hide PutU, PutFlag, PutFlags, PutUe, PutSe, PutPtl, PutOrdering;
    hide ReadVps, ReadVpsHead, ReadPtl, ReadOrdering, ReadVpsTail, ReadTiming, ReadOptionalUe, VpsInRange;
    PrimitivesAppend();
    var tail := PutVpsTail(v.tail, r);
    PutOrderingAppends(v.ordering, tail, t);
    PutPtlAppends(v.ptl, PutOrdering(v.ordering, tail), t);
  }

  lemma PutSpsFormatAppends(x: SpsFormat, r: BitString, t: BitString)
    ensures PutSpsFormat(x, r) + t == PutSpsFormat(x, r + t)
  {
    hide PutU, PutFlag, PutFlags, PutUe, PutSe, ReadSpsFormat, ReadWindow;
    PrimitivesAppend();
  }

  lemma PutSpsAppends(s: Sps, r: BitString, t: BitString)
    ensures PutSps(s, r) + t == PutSps(s, r + t)
  {
    hide PutU, PutFlag, PutFlags, PutUe, PutSe, PutPtl, PutOrdering, PutSpsFormat;
    hide ReadSps, ReadSpsHead, ReadPtl, ReadSpsFormat, ReadOrdering, ReadTree, ReadSpsTools, SpsInRange;
    PrimitivesAppend();
    var tree := PutTree(s.tree, PutSpsTools(s.tools, r));
    var ordering := PutOrdering(s.ordering, tree);
    PutOrderingAppends(s.ordering, tree, t);
    PutSpsFormatAppends(s.format, ordering, t);
    PutPtlAppends(s.ptl, PutSpsFormat(s.format, ordering), t);
  }

  lemma PutPpsEndAppends(x: Option<Deblocking>, y: PpsTail, r: BitString, t: BitString)
    ensures PutDeblocking(x, PutPpsTail(y, r)) + t == PutDeblocking(x, PutPpsTail(y, r + t))
  {
    hide PutU, PutFlag, PutFlags, PutUe, PutSe, ReadDeblocking, ReadPpsTail;
    PrimitivesAppend();
  }

  lemma PutPpsQpAppends(x: PpsQp, r: BitString, t: BitString)
    ensures PutPpsQp(x, r) + t == PutPpsQp(x, r + t)
  {
    hide PutU, PutFlag, PutFlags, PutUe, PutSe, ReadPpsQp;
    PrimitivesAppend();
  }

  lemma PutPpsAppends(p: Pps, r: BitString, t: BitString)
    ensures PutPps(p, r) + t == PutPps(p, r + t)
  {
    hide PutU, PutFlag, PutFlags, PutUe, PutSe, PutPpsQp, PutDeblocking, PutPpsTail;
    hide ReadPps, ReadPpsHead, ReadPpsQp, ReadPpsTools, PpsInRange;
    PrimitivesAppend();
    var end := PutDeblocking(p.deblocking, PutPpsTail(p.tail, r));
    PutPpsEndAppends(p.deblocking, p.tail, r, t);
    PutPpsQpAppends(p.qp, PutPpsTools(p.tools, end), t);
  }
}
