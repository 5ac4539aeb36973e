/** The 64-bit phase slider and its behaviour over unbounded runs. */
module PhaseSlider {
  import opened Bits
  import opened Words
  import opened Divisibility

  /** The five fields of `SlideVector64`. */
  datatype Slider = Slider(phase: u64, phaseStep: u64, radiusNum: u64, radiusDen: u64, seqId: u64)

  datatype SlideReceipt = SlideReceipt(phase: u64, radiusNum: u64, radiusDen: u64, seqId: u64)

  function Receipt(s: Slider): SlideReceipt {
    SlideReceipt(s.phase, s.radiusNum, s.radiusDen, s.seqId)
  }

  function Forward(s: Slider): Slider {
    s.(phase := WrapU64(s.phase + s.phaseStep), seqId := WrapU64(s.seqId + 1))
  }

  function Slides(s: Slider, n: nat): Slider {
    if n == 0 then s else Forward(Slides(s, n - 1))
  }

  class SlideVector64 {
    var phase: u64
    var phaseStep: u64
    var radiusNum: u64
    var radiusDen: u64
    var seqId: u64

    function View(): Slider
      reads this
    {
      Slider(phase, phaseStep, radiusNum, radiusDen, seqId)
    }

    /** `slide_init` */
    method SlideInit(step: u64, rNum: u64, rDen: u64)
      modifies this
      ensures View() == Slider(0, step, rNum, rDen, 0)
      ensures phase == 0 && phaseStep == step && radiusNum == rNum && radiusDen == rDen && seqId == 0
    {
      phase := 0;
      phaseStep := step;
      radiusNum := rNum;
      radiusDen := rDen;
      seqId := 0;
    }

    /** `slide_forward` */
    method SlideForward()
      modifies this
      ensures View() == Forward(old(View()))
      ensures phase == (old(phase) + phaseStep) % 0x1_0000_0000_0000_0000
      ensures seqId == (old(seqId) + 1) % 0x1_0000_0000_0000_0000
      ensures phaseStep == old(phaseStep) && radiusNum == old(radiusNum) && radiusDen == old(radiusDen)
    {
      phase := WrapU64((phase as int) + (phaseStep as int));
      seqId := WrapU64((seqId as int) + 1);
    }

    /** `slide_emit_receipt`: of all the sliders that n more slides can make of this one, the
        receipt fits just those after a multiple of 2^64; in particular, n = 0, this one. */
    method SlideEmitReceipt() returns (out: SlideReceipt)
      ensures out.phase == phase && out.seqId == seqId && out.radiusNum == radiusNum && out.radiusDen == radiusDen
      ensures forall n: nat :: out == Receipt(Slides(View(), n)) <==> WrapU64(n) == 0
    {
      out := SlideReceipt(phase, radiusNum, radiusDen, seqId);
      forall n: nat
        ensures out == Receipt(Slides(View(), n)) <==> WrapU64(n) == 0
      {
        ReceiptIdentifiesSlides(View(), 0, n);
      }
    }
  }

  lemma WrapCongruent(x: int, k: int)
    ensures WrapU64(x + k * 0x1_0000_0000_0000_0000) == WrapU64(x)
  {
    DivModUnique(x + k * 0x1_0000_0000_0000_0000, 0x1_0000_0000_0000_0000,
                 x / 0x1_0000_0000_0000_0000 + k, x % 0x1_0000_0000_0000_0000);
  }

  lemma WrapAdd(x: int, y: int)
    ensures WrapU64(WrapU64(x) + y) == WrapU64(x + y)
  {
    WrapCongruent(WrapU64(x) + y, x / 0x1_0000_0000_0000_0000);
  }

  lemma OneMoreSlide(phase: int, step: int, seqId: int, n: int)
    ensures WrapU64(WrapU64(phase + (n - 1) * step) + step) == WrapU64(phase + n * step)
    ensures WrapU64(WrapU64(seqId + (n - 1)) + 1) == WrapU64(seqId + n)
  {
    hide WrapU64;
    WrapAdd(phase + (n - 1) * step, step);
    WrapAdd(seqId + (n - 1), 1);
    OneMoreStep(n, step);
  }

  lemma OneMoreStep(n: int, step: int)
    ensures (n - 1) * step + step == n * step
  {
  }

  lemma NoSlide(s: Slider)
    ensures WrapU64(s.phase + 0 * s.phaseStep) == s.phase && WrapU64(s.seqId + 0) == s.seqId
  {
  }

  /** After n slides the phase has advanced n steps and the counter by n, both modulo 2^64;
      nothing else has changed. */
  lemma {:induction false} SlidesClosedForm(s: Slider, n: nat)
    ensures Slides(s, n) == s.(phase := WrapU64(s.phase + n * s.phaseStep), seqId := WrapU64(s.seqId + n))
  {
    hide WrapU64;
    if n == 0 {
      NoSlide(s);
    } else {
      SlidesClosedForm(s, n - 1);
      OneMoreSlide(s.phase, s.phaseStep, s.seqId, n);
    }
  }

  /** From `slide_init` on, the phase is the counter times the step modulo 2^64 — also after
      the counter itself has wrapped. */
  lemma PhaseIsCounterTimesStep(step: u64, rNum: u64, rDen: u64, n: nat)
    ensures var s := Slides(Slider(0, step, rNum, rDen, 0), n);
            s.phase == WrapU64(s.seqId * step)
  {
    SlidesClosedForm(Slider(0, step, rNum, rDen, 0), n);
    WrapFactor(n, step);
  }

  lemma WrapFactor(n: int, step: int)
    ensures WrapU64(n * step) == WrapU64(WrapU64(n) * step)
  {
    var q, c := n / 0x1_0000_0000_0000_0000, WrapU64(n);
    MulDist(q * 0x1_0000_0000_0000_0000, c, step);
    assert (q * 0x1_0000_0000_0000_0000) * step == (q * step) * 0x1_0000_0000_0000_0000;
    WrapCongruent(c * step, q * step);
  }

  /** gcd(step, 2^64) */
  function StepGcd(step: u64): nat {
    Gcd(step, 0x1_0000_0000_0000_0000)
  }

  /** The number of slides after which a phase comes back. */
  function Period(step: u64): nat {
    var g := StepGcd(step);
    if g == 0 then 0 else 0x1_0000_0000_0000_0000 / g
  }

  /** The step and 2^64 as multiples of their greatest common divisor, and the divisor as a
      combination of the two. */
  lemma PeriodFactors(step: u64) returns (g: nat, s: nat, x: int, y: int)
    ensures g == StepGcd(step) > 0
    ensures step == g * s && g * Period(step) == 0x1_0000_0000_0000_0000
    ensures step * x + 0x1_0000_0000_0000_0000 * y == g
    ensures Period(step) > 0
  {
    var p: nat;
    s, p := GcdDivides(step, 0x1_0000_0000_0000_0000);
    x, y := Bezout(step, 0x1_0000_0000_0000_0000);
    g := StepGcd(step);
    assert g != 0;
    assert p * g == 0x1_0000_0000_0000_0000;
    DivModUnique(0x1_0000_0000_0000_0000, g, p, 0);
  }

  /** n steps make a whole number of turns exactly when the period divides n. */
  lemma WholeTurns(step: u64, n: nat)
    ensures Period(step) > 0
    ensures WrapU64(n * step) == 0 <==> n % Period(step) == 0
  {
    var g, s, x, y := PeriodFactors(step);
    var p := Period(step);
    if n % p == 0 {
      var k := n / p;
      assert n == k * p;
      TurnsForward(k, p, g, s);
      WrapCongruent(0, k * s);
    }
    if WrapU64(n * step) == 0 {
      var t := (n * step) / 0x1_0000_0000_0000_0000;
      var m := t * x + n * y;
      TurnsBackward(n, step, x, y, t, g);
      assert g * n == g * (p * m) by {
        MulAssoc(g, p, m);
      }
      MulCancel(g, n, p * m);
      DivModUnique(n, p, m, 0);
    }
  }

  lemma TurnsForward(k: nat, p: nat, g: nat, s: nat)
    requires g * p == 0x1_0000_0000_0000_0000
    ensures (k * p) * (g * s) == (k * s) * 0x1_0000_0000_0000_0000
  {
    assert (k * p) * (g * s) == (k * s) * (g * p);
  }

  lemma TurnsBackward(n: nat, step: nat, x: int, y: int, t: int, g: nat)
    requires step * x + 0x1_0000_0000_0000_0000 * y == g
    requires n * step == t * 0x1_0000_0000_0000_0000
    ensures g * n == 0x1_0000_0000_0000_0000 * (t * x + n * y)
  {
    assert (step * x) * n == (n * step) * x;
    MulAssoc(t, 0x1_0000_0000_0000_0000, x);
    assert (0x1_0000_0000_0000_0000 * y) * n == 0x1_0000_0000_0000_0000 * (n * y);
    MulDist(step * x, 0x1_0000_0000_0000_0000 * y, n);
  }

  /** Two points of a run show the same phase exactly when the period divides their distance.
      In particular the first return to the starting phase comes after `Period(step)` slides. */
  lemma PhaseRepeatsExactly(s: Slider, i: nat, j: nat)
    requires i <= j
    ensures Period(s.phaseStep) > 0
    ensures Slides(s, i).phase == Slides(s, j).phase <==> (j - i) % Period(s.phaseStep) == 0
  {
    var step := s.phaseStep;
    SlidesClosedForm(s, i);
    SlidesClosedForm(s, j);
    WholeTurns(step, j - i);
    var a, b := s.phase + i * step, s.phase + j * step;
    assert b - a == (j - i) * step;
    SamePhase(a, b);
  }

  lemma SamePhase(a: int, b: int)
    ensures WrapU64(a) == WrapU64(b) <==> WrapU64(b - a) == 0
  {
    var q := (b - a) / 0x1_0000_0000_0000_0000;
    if WrapU64(b - a) == 0 {
      WrapCongruent(a, q);
    }
    if WrapU64(a) == WrapU64(b) {
      WrapCongruent(0, b / 0x1_0000_0000_0000_0000 - a / 0x1_0000_0000_0000_0000);
    }
  }

  lemma NoTurn(n: nat, step: u64)
    requires WrapU64(n) == 0
    ensures WrapU64(n * step) == 0
  {
    WrapFactor(n, step);
  }

  /** Two receipts of one run are equal exactly when a multiple of 2^64 slides lies between
      them: the counter alone tells them apart, and the phase adds nothing. */
  lemma ReceiptIdentifiesSlides(s: Slider, i: nat, j: nat)
    requires i <= j
    ensures Receipt(Slides(s, i)) == Receipt(Slides(s, j)) <==> WrapU64(j - i) == 0
  {
    hide WrapU64, Slides;
    SlidesClosedForm(s, i);
    SlidesClosedForm(s, j);
    SamePhase(s.seqId + i, s.seqId + j);
    if WrapU64(j - i) == 0 {
      NoTurn(j - i, s.phaseStep);
      MulDiff(j, i, s.phaseStep);
      SamePhase(s.phase + i * s.phaseStep, s.phase + j * s.phaseStep);
    }
  }

  /** The phases a run from `slide_init` visits include all multiples of gcd(step, 2^64), each
      within the first period. */
  lemma VisitedPhases(step: u64, phase: u64, f: nat) returns (n: nat)
    requires phase == f * StepGcd(step)
    ensures n < Period(step) && WrapU64(n * step) == phase
  {
    var g, s, x, y := PeriodFactors(step);
    var q: int;
    q, n := Quotient(f * x, Period(step));
    VisitedArithmetic(step, f, g, s, Period(step), x, y, q, n);
    WrapCongruent(phase, -(f * y) - q * s);
  }

  lemma Quotient(m: int, p: nat) returns (q: int, n: nat)
    requires p > 0
    ensures m == q * p + n && n < p
  {
    q, n := m / p, m % p;
  }

  lemma VisitedArithmetic(step: nat, f: nat, g: nat, s: nat, p: nat, x: int, y: int, q: int, n: nat)
    requires step * x + 0x1_0000_0000_0000_0000 * y == g
    requires step == g * s && g * p == 0x1_0000_0000_0000_0000
    requires f * x == q * p + n
    ensures n * step == f * g + (-(f * y) - q * s) * 0x1_0000_0000_0000_0000
  {
    assert n * step == (f * x) * step - (q * p) * step;
    assert (q * p) * (g * s) == (q * s) * (g * p);
    assert (f * x) * step == f * (step * x);
    assert f * (g - 0x1_0000_0000_0000_0000 * y) == f * g - 0x1_0000_0000_0000_0000 * (f * y);
  }

  lemma EvenProduct(step: nat, g: nat, s: nat, j: nat)
    requires step == g * s && g == Pow2(j) && j > 0
    ensures step % 2 == 0
  {
    MulAssoc(2, Pow2(j - 1), s);
    DivModUnique(step, 2, Pow2(j - 1) * s, 0);
  }

  lemma OddStepHasFullPeriod(step: u64)
    requires step % 2 == 1
    ensures StepGcd(step) == 1 && Period(step) == 0x1_0000_0000_0000_0000
  {
    hide Pow2, Period, StepGcd;
    var g, s, _, _ := PeriodFactors(step);
    Pow2Values();
    var j := DivisorOfPow2(g, Period(step), 64);
    if j > 0 {
      EvenProduct(step, g, s, j);
    }
  }

  /** An odd step visits every one of the 2^64 phases exactly once per period. */
  lemma OddStepVisitsEveryPhase(step: u64, phase: u64) returns (n: nat)
    requires step % 2 == 1
    ensures Period(step) == 0x1_0000_0000_0000_0000
    ensures n < 0x1_0000_0000_0000_0000 && WrapU64(n * step) == phase
    ensures forall k: nat :: k < 0x1_0000_0000_0000_0000 && WrapU64(k * step) == phase ==> k == n
  {
    OddStepHasFullPeriod(step);
    n := VisitedPhases(step, phase, phase);
    forall k: nat | k < 0x1_0000_0000_0000_0000 && WrapU64(k * step) == phase
      ensures k == n
    {
      SamePhaseWithinPeriod(step, k, n);
    }
  }

  lemma SamePhaseWithinPeriod(step: u64, i: nat, j: nat)
    requires i < Period(step) && j < Period(step) && WrapU64(i * step) == WrapU64(j * step)
    ensures i == j
    decreases i
  {
    if i > j {
      SamePhaseWithinPeriod(step, j, i);
    } else {
      SamePhase(i * step, j * step);
      MulDiff(j, i, step);
      WholeTurns(step, j - i);
      SmallMultiple(j - i, Period(step));
    }
  }

  lemma MulDiff(a: int, b: int, c: int)
    ensures (a - b) * c == a * c - b * c
  {
  }

  lemma SmallMultiple(n: nat, p: nat)
    requires n < p && n % p == 0
    ensures n == 0
  {
    DivModUnique(n, p, 0, n);
  }

  lemma MultipleOf2To40(step: u64)
    requires step % 0x100_0000_0000 == 0
    ensures StepGcd(step) % 0x100_0000_0000 == 0
  {
    var g, s, x, y := PeriodFactors(step);
    var t := step / 0x100_0000_0000;
    MulAssoc(0x100_0000_0000, t, x);
    DivModUnique(g, 0x100_0000_0000, t * x + 0x100_0000 * y, 0);
  }

  lemma DivisibleBy2To40(step: nat, g: nat, s: nat, j: nat)
    requires step == g * s && g == Pow2(j) && j >= 40
    ensures step % 0x100_0000_0000 == 0
  {
    Pow2Values();
    Pow2Add(40, j - 40);
    MulAssoc(0x100_0000_0000, Pow2(j - 40), s);
    DivModUnique(step, 0x100_0000_0000, Pow2(j - 40) * s, 0);
  }

  /** The period exceeds 2^24 for all steps but the multiples of 2^40. */
  lemma LongPeriod(step: u64)
    ensures Period(step) > 0x100_0000 <==> step % 0x100_0000_0000 != 0
  {
    hide Pow2, Period, StepGcd;
    var g, s, _, _ := PeriodFactors(step);
    Pow2Values();
    var j := DivisorOfPow2(g, Period(step), 64);
    if j < 40 {
      Pow2Less(24, 64 - j);
      Pow2Less(j, 40);
      if step % 0x100_0000_0000 == 0 {
        MultipleOf2To40(step);
      }
    } else {
      if j > 40 {
        Pow2Less(64 - j, 24);
      }
      DivisibleBy2To40(step, g, s, j);
    }
  }
}
