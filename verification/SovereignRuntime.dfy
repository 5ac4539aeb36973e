/** The bounded run loop of the bare-metal runtime. */
module SovereignRuntime {
  import opened Words
  import opened Divisibility
  import opened PhaseSlider

  const STATUS_OPERATIONAL: int := 0x1
  const STATUS_SELF_CHECK_FAILED: int := 0xDEAD_FA17

  class SovereignKernelContext {
    var status: u64
    var faultCount: u64
    var lastSyncTick: u64
  }

  /** The loop leaves after the cycle numbered 0xFFFFFF. */
  function CyclesRun(runtimeCycles: u64): (n: nat)
    ensures n <= runtimeCycles && n <= 0x100_0000 && (n == runtimeCycles || n == 0x100_0000)
  {
    if runtimeCycles < 0x100_0000 then runtimeCycles else 0x100_0000
  }

  /** `execute_sovereign_runtime`; `selfCheck` is what the built-in assertion suite returned. */
  method ExecuteSovereignRuntime(sv: SlideVector64, ctx: SovereignKernelContext, selfCheck: int,
                                 tickStride: u64, runtimeCycles: u64)
    modifies sv, ctx
    ensures ctx.faultCount == old(ctx.faultCount)
    ensures selfCheck != 0 ==>
              ctx.status == STATUS_SELF_CHECK_FAILED &&
              ctx.lastSyncTick == old(ctx.lastSyncTick) && sv.View() == old(sv.View())
    ensures selfCheck == 0 ==>
              ctx.status == STATUS_OPERATIONAL &&
              ctx.lastSyncTick == WrapU64(old(ctx.lastSyncTick) + CyclesRun(runtimeCycles) * tickStride) &&
              sv.View() == Slides(old(sv.View()), CyclesRun(runtimeCycles))
    ensures selfCheck == 0 ==>
              var n: int := if runtimeCycles < 0x100_0000 then runtimeCycles else 0x100_0000;
              && sv.phase == (old(sv.phase) + n * sv.phaseStep) % 0x1_0000_0000_0000_0000
              && sv.seqId == (old(sv.seqId) + n) % 0x1_0000_0000_0000_0000
              && ctx.lastSyncTick == (old(ctx.lastSyncTick) + n * tickStride) % 0x1_0000_0000_0000_0000
              && sv.phaseStep == old(sv.phaseStep)
              && sv.radiusNum == old(sv.radiusNum) && sv.radiusDen == old(sv.radiusDen)
  {
    if selfCheck != 0 {
      ctx.status := STATUS_SELF_CHECK_FAILED;
      return;
    }
    ctx.status := STATUS_OPERATIONAL;
    ghost var tick0: int := ctx.lastSyncTick;
    var cycle: int := 0;
    while cycle < runtimeCycles
      invariant 0 <= cycle <= CyclesRun(runtimeCycles) && cycle < 0x100_0000
      invariant ctx.status == STATUS_OPERATIONAL && ctx.faultCount == old(ctx.faultCount)
      invariant ctx.lastSyncTick == WrapU64(tick0 + cycle * tickStride)
      invariant sv.View() == Slides(old(sv.View()), cycle)
    {
      TickStep(tick0, cycle, tickStride);
      sv.SlideForward();
      ctx.lastSyncTick := WrapU64((ctx.lastSyncTick as int) + (tickStride as int));
      if cycle == 0xFFFFFF {
        break;
      }
      cycle := cycle + 1;
    }
    assert cycle == CyclesRun(runtimeCycles) || cycle == 0xFF_FFFF;
    SlidesClosedForm(old(sv.View()), CyclesRun(runtimeCycles));
  }

  lemma TickStep(tick0: int, cycle: int, stride: int)
    ensures WrapU64(WrapU64(tick0 + cycle * stride) + stride) == WrapU64(tick0 + (cycle + 1) * stride)
  {
    MulDist(cycle, 1, stride);
    WrapAdd(tick0 + cycle * stride, stride);
  }

  ghost predicate DistinctPhases(s: Slider, n: nat) {
    forall i: nat, j: nat :: i < j <= n ==> Slides(s, i).phase != Slides(s, j).phase
  }

  lemma DifferentWithinPeriod(s: Slider, i: nat, j: nat)
    requires i < j && j - i < Period(s.phaseStep)
    ensures Slides(s, i).phase != Slides(s, j).phase
  {
    PhaseRepeatsExactly(s, i, j);
    if (j - i) % Period(s.phaseStep) == 0 {
      SmallMultiple(j - i, Period(s.phaseStep));
    }
  }

  /** The phases seen in a call that performs n slides are all different exactly when n is
      below the period of the step. */
  lemma DistinctPhasesExactly(s: Slider, n: nat)
    ensures DistinctPhases(s, n) <==> n < Period(s.phaseStep)
  {
    var p := Period(s.phaseStep);
    PhaseRepeatsExactly(s, 0, p);
    assert p % p == 0;
    if n < p {
      forall i: nat, j: nat | i < j <= n
        ensures Slides(s, i).phase != Slides(s, j).phase
      {
        DifferentWithinPeriod(s, i, j);
      }
    } else {
      assert 0 < p <= n;
    }
  }

  /** A call that runs to the cycle limit shows no phase twice exactly when the step is not a
      multiple of 2^40; a shorter call never does unless the step is such a multiple. */
  lemma NoPhaseRepeatsInOneCall(s: Slider, runtimeCycles: u64)
    ensures s.phaseStep % 0x100_0000_0000 != 0 ==> DistinctPhases(s, CyclesRun(runtimeCycles))
    ensures runtimeCycles >= 0x100_0000 ==>
              (DistinctPhases(s, CyclesRun(runtimeCycles)) <==> s.phaseStep % 0x100_0000_0000 != 0)
  {
    DistinctPhasesExactly(s, CyclesRun(runtimeCycles));
    LongPeriod(s.phaseStep);
  }
}
