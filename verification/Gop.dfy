/** The encoder's picture numbering and reference surfaces, over every run of encodes and forced IDRs. */
module Gop {
  import opened Wrappers
  import opened Bits

  /** Reconstructed surfaces in the pool. */
  const POOL: nat := 4
  const TWO_TO_64: nat := 0x1_0000_0000_0000_0000

  /** A picture held by a surface: its place in the order of successful encodes, and its order count. */
  datatype Picture = Picture(serial: nat, poc: nat)

  datatype Gop = Gop(frameCount: nat, interval: nat, recon: nat, surfaces: seq<Option<Picture>>, encoded: nat)

  /** A failed encode either never reached the hardware or may have spoilt the surface it was writing. */
  datatype Outcome = Success | FailedEarly | FailedLate

  datatype Op = Encode(outcome: Outcome) | ForceIdr

  datatype Reference = Reference(surface: nat, poc: nat)

  /** What one encode hands to the driver. */
  datatype Submission = Submission(isIdr: bool, nalType: nat, surface: nat, poc: nat, reference: Option<Reference>)

  function Previous(recon: nat): nat { (recon + POOL - 1) % POOL }

  function Submit(g: Gop): Submission
    requires g.interval > 0
  {
    if g.frameCount % g.interval == 0 then
      Submission(true, 19, g.recon, g.frameCount % g.interval, None)
    else
      Submission(false, 1, g.recon, g.frameCount % g.interval,
                 Some(Reference(Previous(g.recon), (g.frameCount - 1) % g.interval)))
  }

  predicate WellFormed(g: Gop) {
    g.interval > 0 && g.frameCount < TWO_TO_64 && g.recon < POOL && |g.surfaces| == POOL
  }

  /** Unsigned 64-bit wrap of a sum of two 64-bit numbers. */
  function Wrap64(n: nat): (w: nat)
    requires n < 2 * TWO_TO_64
    ensures w < TWO_TO_64
  {
    if n < TWO_TO_64 then n else n - TWO_TO_64
  }

  function Step(g: Gop, op: Op): (h: Gop)
    requires WellFormed(g) && g.interval <= TWO_TO_64
    ensures WellFormed(h) && h.interval == g.interval
  {
    match op
    case Encode(Success) =>
      Gop(Wrap64(g.frameCount + 1), g.interval, (g.recon + 1) % POOL,
          g.surfaces[g.recon := Some(Picture(g.encoded, g.frameCount % g.interval))], g.encoded + 1)
    case Encode(FailedEarly) => g
    case Encode(FailedLate) => g.(surfaces := g.surfaces[g.recon := None])
    case ForceIdr =>
      var remainder := g.frameCount % g.interval;
      if remainder != 0 then g.(frameCount := Wrap64(g.frameCount + (g.interval - remainder))) else g
  }

  function Initial(fps: nat): Gop { Gop(0, fps * 2, 0, [None, None, None, None], 0) }

  /** Unless the next picture is an IDR, the previous surface holds the last encoded picture, one count behind. */
  ghost predicate Inv(g: Gop) {
    && WellFormed(g) && g.interval <= 4096
    && var poc := g.frameCount % g.interval;
       poc != 0 ==> g.encoded > 0 && g.surfaces[Previous(g.recon)] == Some(Picture(g.encoded - 1, poc - 1))
  }

  /** Rounding the 64-bit frame count up to a multiple of the interval does not wrap, except to zero. */
  predicate RoundsUp(g: Gop)
    requires g.interval > 0
  {
    || g.frameCount % g.interval == 0
    || g.frameCount + (g.interval - g.frameCount % g.interval) <= TWO_TO_64
  }

  lemma NextCount(n: nat, d: nat)
    requires d > 0
    ensures (n + 1) % d == if n % d + 1 == d then 0 else n % d + 1
  {
    var q, r := n / d, n % d;
    assert n == d * q + r;
    if r + 1 == d {
      assert n + 1 == d * (q + 1);
      DivModUnique(n + 1, d, q + 1, 0);
    } else {
      DivModUnique(n + 1, d, q, r + 1);
    }
  }

  lemma RoundUpIsMultiple(n: nat, d: nat)
    requires d > 0
    ensures (n + (d - n % d)) % d == 0
  {
    var q := n / d;
    assert n + (d - n % d) == d * (q + 1);
    DivModUnique(n + (d - n % d), d, q + 1, 0);
  }

  lemma EncodeKeepsInv(g: Gop, outcome: Outcome)
    requires Inv(g)
    ensures Inv(Step(g, Encode(outcome)))
  {
    NextCount(g.frameCount, g.interval);
    DivModUnique(0, g.interval, 0, 0);
  }

  /** A forced IDR makes the next picture an IDR exactly when the rounding condition holds. */
  lemma ForceIdrExactly(g: Gop)
    requires Inv(g)
    ensures Submit(Step(g, ForceIdr)).isIdr <==> RoundsUp(g)
    ensures RoundsUp(g) ==> Inv(Step(g, ForceIdr))
  {
    var d, r := g.interval, g.frameCount % g.interval;
    if r != 0 {
      var up := g.frameCount + (d - r);
      RoundUpIsMultiple(g.frameCount, d);
      if up >= TWO_TO_64 {
        WrapOfMultiple(up, TWO_TO_64, d);
      }
    }
  }

  /** A multiple of d just above m is m itself or leaves a remainder, depending on whether d divides m. */
  lemma WrapOfMultiple(up: nat, m: nat, d: nat)
    requires d > 0 && up % d == 0 && m <= up < m + d
    ensures m % d == 0 <==> up == m
    ensures (up - m) % d == 0 <==> up == m
  {
    var q := up / d;
    assert up == d * q;
    if up == m {
      DivModUnique(0, d, 0, 0);
    } else {
      assert d * (q - 1) == d * q - d;
      DivModUnique(m, d, q - 1, d - (up - m));
      DivModUnique(up - m, d, 0, up - m);
    }
  }

  function Run(g: Gop, ops: seq<Op>): (h: Gop)
    requires WellFormed(g) && g.interval <= TWO_TO_64
    ensures WellFormed(h) && h.interval == g.interval
    decreases |ops|
  {
    if ops == [] then g else Step(Run(g, ops[..|ops| - 1]), ops[|ops| - 1])
  }

  /** A step raises the frame count by at most the interval. */
  lemma StepBound(g: Gop, op: Op)
    requires Inv(g)
    ensures Step(g, op).frameCount <= g.frameCount + g.interval
  {
  }

  /** Every run of fewer than 2^52 steps, in any mix of encodes, failures and forced IDRs, keeps the invariant. */
  lemma {:induction false} EveryRunKeepsInv(fps: nat, ops: seq<Op>)
    requires 1 <= fps <= 2048 && |ops| < 0x10_0000_0000_0000
    ensures Inv(Run(Initial(fps), ops))
    ensures Run(Initial(fps), ops).frameCount <= |ops| * 4096
    decreases |ops|
  {
    if ops == [] {
      InitialInv(fps);
    } else {
      EveryRunKeepsInv(fps, ops[..|ops| - 1]);
      var g, op := Run(Initial(fps), ops[..|ops| - 1]), ops[|ops| - 1];
      StepBound(g, op);
      match op {
        case Encode(outcome) => EncodeKeepsInv(g, outcome);
        case ForceIdr => ForceIdrExactly(g);
      }
    }
  }

  lemma InitialInv(fps: nat)
    requires 1 <= fps <= 2048
    ensures Inv(Initial(fps))
  {
    DivModUnique(0, 2 * fps, 0, 0);
  }

  /** A run of successes alone counts its pictures, as far as 64 bits go. */
  lemma {:induction false} SuccessesCount(fps: nat, n: nat)
    requires 1 <= fps <= 2048 && n < TWO_TO_64
    ensures Inv(Run(Initial(fps), Successes(n))) && Run(Initial(fps), Successes(n)).frameCount == n
  {
    if n == 0 {
      InitialInv(fps);
    } else {
      assert Successes(n)[..n - 1] == Successes(n - 1);
      SuccessesCount(fps, n - 1);
      EncodeKeepsInv(Run(Initial(fps), Successes(n - 1)), Success);
    }
  }

  function Successes(n: nat): seq<Op> { seq(n, _ => Encode(Success)) }

  /** Of n pictures encoded in a row, the next is an IDR exactly every two seconds' worth of pictures. */
  lemma IdrEveryTwoSeconds(fps: nat, n: nat)
    requires 1 <= fps <= 2048 && n < TWO_TO_64
    ensures Submit(Run(Initial(fps), Successes(n))).isIdr <==> n % (2 * fps) == 0
  {
    SuccessesCount(fps, n);
  }

  /** The wrap does lose a forced IDR: at 60 frames a second, after 2^64 - 1 successful encodes. */
  lemma ForceIdrCanWrap()
    ensures var g := Run(Initial(60), Successes(TWO_TO_64 - 1)); Inv(g) && !Submit(Step(g, ForceIdr)).isIdr
  {
    SuccessesCount(60, TWO_TO_64 - 1);
    ForceIdrExactly(Run(Initial(60), Successes(TWO_TO_64 - 1)));
  }

  /**
   * The surface handed to the driver is the one that holds the picture afterwards, under the order count
   * handed over; a failure can spoil that surface only.
   */
  lemma SubmittedSurfaceIsFilled(g: Gop)
    requires Inv(g)
    ensures var s := Submit(g);
            && s.surface < POOL
            && Step(g, Encode(Success)).surfaces == g.surfaces[s.surface := Some(Picture(g.encoded, s.poc))]
            && Step(g, Encode(FailedLate)).surfaces == g.surfaces[s.surface := None]
            && Step(g, Encode(FailedEarly)).surfaces == g.surfaces
  {
  }

  /** What an encode may rely on, stated of the submission and the surfaces. */
  ghost predicate Sound(g: Gop, s: Submission) {
    && s.poc < 4096
    && s.nalType == (if s.isIdr then 19 else 1)
    && (s.isIdr ==> s.poc == 0 && s.reference.None?)
    && (!s.isIdr ==>
          && s.reference.Some?
          && var r := s.reference.value;
             && r.surface != s.surface && r.surface < |g.surfaces| && r.poc + 1 == s.poc
             && g.encoded > 0 && g.surfaces[r.surface] == Some(Picture(g.encoded - 1, r.poc)))
  }

  lemma SubmissionIsSound(g: Gop)
    requires Inv(g)
    ensures Sound(g, Submit(g))
  {
    if g.frameCount % g.interval != 0 {
      NextCount(g.frameCount - 1, g.interval);
    }
  }

  /**
   * In every run, whatever fails and whenever an IDR is forced, each picture that is not an IDR refers to
   * a surface that holds the last successfully encoded picture, exactly one order count behind.
   */
  lemma EveryEncodeIsSound(fps: nat, ops: seq<Op>, i: nat)
    requires 1 <= fps <= 2048 && |ops| < 0x10_0000_0000_0000 && i < |ops|
    ensures var g := Run(Initial(fps), ops[..i]); g.interval > 0 && Sound(g, Submit(g))
  {
    EveryRunKeepsInv(fps, ops[..i]);
    SubmissionIsSound(Run(Initial(fps), ops[..i]));
  }

  /** After a forced IDR, failed encodes and further requests do not lose it: the next success is an IDR. */
  lemma {:induction false} ForcedIdrSurvivesFailures(g: Gop, ops: seq<Op>)
    requires Inv(g) && RoundsUp(g)
    requires forall i :: 0 <= i < |ops| ==> ops[i] != Encode(Success)
    ensures var h := Run(Step(g, ForceIdr), ops);
            Inv(h) && Submit(h).isIdr && h.encoded == g.encoded
    decreases |ops|
  {
    ForceIdrExactly(g);
    if ops == [] {
    } else {
      ForcedIdrSurvivesFailures(g, ops[..|ops| - 1]);
    }
  }

  lemma {:induction false} RunAppend(g: Gop, ops: seq<Op>, more: seq<Op>)
    requires WellFormed(g) && g.interval <= TWO_TO_64
    ensures Run(g, ops + more) == Run(Run(g, ops), more)
    decreases |more|
  {
    if more == [] {
      assert ops + [] == ops;
    } else {
      assert (ops + more)[..|ops + more| - 1] == ops + more[..|more| - 1];
      RunAppend(g, ops, more[..|more| - 1]);
    }
  }

  /** In every run, whatever came before: the next success after a forced IDR is an IDR. */
  lemma NextSuccessIsIdr(fps: nat, ops: seq<Op>, later: seq<Op>)
    requires 1 <= fps <= 2048 && |ops| < 0x10_0000_0000_0000
    requires forall i :: 0 <= i < |later| ==> later[i] != Encode(Success)
    ensures var g, h := Run(Initial(fps), ops), Run(Initial(fps), ops + [ForceIdr] + later);
            Inv(h) && Submit(h).isIdr && h.encoded == g.encoded
  {
    var g := Run(Initial(fps), ops);
    EveryRunKeepsInv(fps, ops);
    RunAppend(Initial(fps), ops + [ForceIdr], later);
    assert (ops + [ForceIdr])[..|ops|] == ops;
    assert Run(Initial(fps), ops + [ForceIdr]) == Step(g, ForceIdr);
    ForcedIdrSurvivesFailures(g, later);
  }

  /** h comes after the success in g with nothing encoded since: either an IDR is due, or g's surface is next. */
  predicate Follows(g: Gop, h: Gop)
    requires g.interval > 0
  {
    && h.interval == g.interval && h.recon == (g.recon + 1) % POOL
    && (h.frameCount % h.interval == 0 || h.frameCount == g.frameCount + 1)
  }

  lemma {:induction false} NothingBetween(fps: nat, ops: seq<Op>, later: seq<Op>)
    requires 1 <= fps <= 2048 && |ops| + 1 + |later| < 0x10_0000_0000_0000
    requires forall i :: 0 <= i < |later| ==> later[i] != Encode(Success)
    ensures Follows(Run(Initial(fps), ops), Run(Initial(fps), ops + [Encode(Success)] + later))
    decreases |later|
  {
    var g, done := Run(Initial(fps), ops), ops + [Encode(Success)];
    EveryRunKeepsInv(fps, ops);
    if later == [] {
      assert done + later == done && done[..|ops|] == ops;
    } else {
      var before, op := later[..|later| - 1], later[|later| - 1];
      assert (done + later)[..|done + later| - 1] == done + before;
      NothingBetween(fps, ops, before);
      EveryRunKeepsInv(fps, done + before);
      assert op != Encode(Success);
      var h := Run(Initial(fps), done + before);
      if op == ForceIdr && h.frameCount % h.interval != 0 { ForceIdrExactly(h); }
    }
  }

  /**
   * In every run: the reference of a picture that is not an IDR is the very surface that the last success
   * was told to fill, under the order count it was given, whatever failed in between.
   */
  lemma ReferenceIsLastSuccess(fps: nat, ops: seq<Op>, later: seq<Op>)
    requires 1 <= fps <= 2048 && |ops| + 1 + |later| < 0x10_0000_0000_0000
    requires forall i :: 0 <= i < |later| ==> later[i] != Encode(Success)
    ensures var g, h := Run(Initial(fps), ops), Run(Initial(fps), ops + [Encode(Success)] + later);
            !Submit(h).isIdr ==> Submit(h).reference == Some(Reference(Submit(g).surface, Submit(g).poc))
  {
    hide Submit, Follows;
    NothingBetween(fps, ops, later);
    EveryRunKeepsInv(fps, ops);
    FollowerRefersBack(Run(Initial(fps), ops), Run(Initial(fps), ops + [Encode(Success)] + later));
  }

  lemma FollowerRefersBack(g: Gop, h: Gop)
    requires WellFormed(g) && Follows(g, h)
    ensures !Submit(h).isIdr ==> Submit(h).reference == Some(Reference(Submit(g).surface, Submit(g).poc))
  {
  }

  // ---- the encoder object ----

  class Encoder {
    var frameCount: nat
    var idrInterval: nat
    var currentReconIdx: nat
    ghost var surfaces: seq<Option<Picture>>
    ghost var encoded: nat

    ghost function View(): Gop
      reads this
    {
      Gop(frameCount, idrInterval, currentReconIdx, surfaces, encoded)
    }

    constructor (fps: nat)
      ensures View() == Initial(fps)
    {
      frameCount, idrInterval, currentReconIdx := 0, fps * 2, 0;
      surfaces, encoded := [None, None, None, None], 0;
    }

    /** The outcome stands for what the driver does with the submission. */
    method EncodeSurface(outcome: Outcome) returns (ret: int, isKeyframe: bool, s: Submission)
      requires Inv(View())
      modifies this
      ensures Inv(View()) && View() == Step(old(View()), Encode(outcome))
      ensures s == Submit(old(View())) && Sound(old(View()), s)
      ensures isKeyframe == s.isIdr && ret == (if outcome.Success? then 0 else -1)
    {
      SubmissionIsSound(View());
      EncodeKeepsInv(View(), outcome);
      var isIdr := frameCount % idrInterval == 0;
      isKeyframe := isIdr;
      var curRecon := currentReconIdx;
      var prevRecon := (curRecon + POOL - 1) % POOL;
      var reference := None;
      if !isIdr {
        reference := Some(Reference(prevRecon, (frameCount - 1) % idrInterval));
      }
      s := Submission(isIdr, if isIdr then 19 else 1, curRecon, frameCount % idrInterval, reference);
      match outcome
      case FailedEarly =>
        ret := -1;
      case FailedLate =>
        surfaces := surfaces[curRecon := None];
        ret := -1;
      case Success =>
        surfaces := surfaces[curRecon := Some(Picture(encoded, frameCount % idrInterval))];
        encoded := encoded + 1;
        currentReconIdx := (curRecon + 1) % POOL;
        frameCount := Wrap64(frameCount + 1);
        ret := 0;
    }

    method ForceIdr()
      requires Inv(View())
      modifies this
      ensures View() == Step(old(View()), Op.ForceIdr) && WellFormed(View())
      ensures Submit(View()).isIdr <==> RoundsUp(old(View()))
      ensures RoundsUp(old(View())) ==> Inv(View())
    {
      ForceIdrExactly(View());
      var remainder := frameCount % idrInterval;
      if remainder != 0 {
        frameCount := Wrap64(frameCount + (idrInterval - remainder));
      }
    }
  }
}
