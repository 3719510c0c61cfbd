/** Interrupt handlers keep masked what was masked when they began; so none of them waits for a lock that
    the code which it interrupted holds. */
module HandlerMasks {
  import opened Sequences
  import opened CriticalSections
  import opened SpinLock

  /** What a handler runs with at least: IRQs masked, and FIQs as well if it is an FIQ handler or if FIQs were
      masked when it began. */
  function HandlerMask(resume: Mask): Mask {
    Mask(true, resume.irq || resume.fiq)
  }

  /** The masks that a context is going to set are no less than `m`. */
  predicate SavedAtLeast(pc: Pc, m: Mask) {
    match pc
    case EnterRead(_, _, saved) => AtLeast(saved, m)
    case EnterMasked(_, _, saved) => AtLeast(saved, m)
    case LeavePopped(popped) => AtLeast(popped, m)
    case _ => true
  }

  /** Critical sections of `sections[lo..hi]` were entered with `m` masked. */
  predicate EnteredWith(sections: seq<Section>, lo: nat, hi: nat, m: Mask) {
    forall j | lo <= j < hi && j < |sections| && sections[j].Critical() :: AtLeast(sections[j].entry, m)
  }

  /** Context `k` was not entered with both levels masked, and it keeps its mask. */
  ghost predicate KeepsMask(c: Core, k: nat)
    requires 0 < k < |c.frames|
  {
    var m := HandlerMask(c.frames[k].resume);
    && c.frames[k].resume != BOTH
    && AtLeast(RunMask(c, k), m)
    && SavedAtLeast(c.frames[k].pc, m)
    && EnteredWith(c.sections, c.frames[k].bottom, Extent(c, k), m)
  }

  /** Sections at IRQ_LEVEL were entered with FIQs unmasked. */
  predicate IrqSectionsOk(sections: seq<Section>) {
    forall j | 0 <= j < |sections| && sections[j].level == Irq :: !sections[j].entry.fiq
  }

  ghost predicate HandlersKeepMasks(c: Core) {
    && c.frames != [] && c.frames[0].bottom == 0
    && IrqSectionsOk(c.sections)
    && forall k | 0 < k < |c.frames| :: KeepsMask(c, k)
  }

  // ---------- every step keeps this ----------

  /** A step of the running context concerns the running context only. */
  lemma OthersKeepMasks(c: Core, c': Core, k: nat)
    requires CoreInv(c) && HandlersKeepMasks(c) && SameBelow(c, c') && 0 < k < |c.frames| - 1
    ensures KeepsMask(c', k)
  {
    BottomsBelow(c, k);
    assert KeepsMask(c, k);
    assert Extent(c', k) == Extent(c, k) && RunMask(c', k) == RunMask(c, k);
    forall j | 0 <= j < Extent(c, k) ensures c'.sections[j] == c.sections[j] {
      assert c'.sections[j] == c'.sections[..Last(c).bottom][j];
    }
  }

  /** What the running context has to keep, if it is a handler. */
  ghost predicate RunningKeepsMask(c: Core) {
    && c.frames != []
    && (|c.frames| > 1 ==>
          var m := HandlerMask(Last(c).resume);
          && Last(c).resume != BOTH && AtLeast(c.mask, m) && SavedAtLeast(Last(c).pc, m)
          && EnteredWith(c.sections, Last(c).bottom, |c.sections|, m))
  }

  lemma RunningHandler(c: Core)
    requires HandlersKeepMasks(c)
    ensures RunningKeepsMask(c)
  {
    assert |c.frames| > 1 ==> KeepsMask(c, |c.frames| - 1);
  }

  lemma RunningStepKeepsMasks(c: Core, c': Core)
    requires CoreInv(c) && HandlersKeepMasks(c) && SameBelow(c, c')
    requires RunningKeepsMask(c') && IrqSectionsOk(c'.sections)
    ensures HandlersKeepMasks(c')
  {
    forall k | 0 < k < |c'.frames| ensures KeepsMask(c', k) {
      if k < |c.frames| - 1 {
        OthersKeepMasks(c, c', k);
      }
    }
  }

  lemma EnteringKeepsMasks(c: Core, step: Step, c': Core)
    requires CoreInv(c) && HandlersKeepMasks(c) && Enabled(c, step) && c' == Do(c, step)
    requires step.BeginEnter? || step.MaskBoth? || step.PushCpsr? || step.BeginTaskLock?
    ensures HandlersKeepMasks(c')
  {
    RunningPosition(c);
    RunningHandler(c);
    assert forall j | 0 <= j < |c.sections| :: c'.sections[j] == c.sections[j];
    RunningStepKeepsMasks(c, c');
  }

  lemma FinishEnterKeepsMasks(c: Core, c': Core)
    requires CoreInv(c) && HandlersKeepMasks(c) && Enabled(c, FinishEnter) && c' == Do(c, FinishEnter)
    ensures HandlersKeepMasks(c')
  {
    RunningPosition(c);
    RunningHandler(c);
    assert c.sections[|c.sections| - 1].Critical();
    RunningStepKeepsMasks(c, c');
  }

  lemma SpinningKeepsMasks(c: Core, step: Step, c': Core)
    requires CoreInv(c) && HandlersKeepMasks(c) && Enabled(c, step) && c' == Do(c, step)
    requires step.LoadExclusive? || step.Retry? || step.StoreExclusive?
    ensures HandlersKeepMasks(c')
  {
    RunningPosition(c);
    RunningHandler(c);
    assert forall j | 0 <= j < |c.sections| :: c'.sections[j] == c.sections[j].(holds := c'.sections[j].holds);
    RunningStepKeepsMasks(c, c');
  }

  lemma LeavingKeepsMasks(c: Core, step: Step, c': Core)
    requires CoreInv(c) && HandlersKeepMasks(c) && Enabled(c, step) && c' == Do(c, step)
    requires step.GiveBack? || step.MaskFiq? || step.RestoreCpsr?
    ensures HandlersKeepMasks(c')
  {
    RunningPosition(c);
    RunningHandler(c);
    if step.GiveBack? && c.sections[step.index].Critical() {
      assert forall j | 0 <= j < |c.sections| :: c'.sections[j] == c.sections[j].(holds := c'.sections[j].holds);
    }
    RunningStepKeepsMasks(c, c');
  }

  lemma OneSectionLess(a: seq<Section>, i: nat, lo: nat, m: Mask, b: seq<Section>)
    requires lo <= i < |a| && b == RemoveAt(a, i)
    ensures EnteredWith(a, lo, |a|, m) ==> EnteredWith(b, lo, |b|, m)
    ensures IrqSectionsOk(a) ==> IrqSectionsOk(b)
  {
  }

  lemma PopKeepsMasks(c: Core, c': Core)
    requires CoreInv(c) && HandlersKeepMasks(c) && Enabled(c, PopCpsr) && c' == Do(c, PopCpsr)
    ensures HandlersKeepMasks(c')
  {
    RunningPosition(c);
    RunningHandler(c);
    PopKeepsInv(c, c');
    OneSectionLess(c.sections, Last(c).pc.index, Last(c).bottom, HandlerMask(Last(c).resume), c'.sections);
    RunningStepKeepsMasks(c, c');
  }

  lemma TakingKeepsMasks(c: Core, step: Step, c': Core)
    requires CoreInv(c) && HandlersKeepMasks(c) && Enabled(c, step) && c' == Do(c, step)
    requires step.TakeIrq? || step.TakeFiq?
    ensures HandlersKeepMasks(c')
  {
    forall k | 0 < k < |c'.frames| ensures KeepsMask(c', k) {
      if k < |c.frames| {
        assert KeepsMask(c, k);
      }
    }
  }

  lemma ReturningKeepsMasks(c: Core, c': Core)
    requires CoreInv(c) && HandlersKeepMasks(c) && Enabled(c, ReturnFromInterrupt) && c' == Do(c, ReturnFromInterrupt)
    ensures HandlersKeepMasks(c')
  {
    forall k | 0 < k < |c'.frames| ensures KeepsMask(c', k) {
      assert KeepsMask(c, k);
    }
  }

  lemma StepKeepsMasks(c: Core, step: Step, c': Core)
    requires CoreInv(c) && HandlersKeepMasks(c) && Enabled(c, step) && c' == Do(c, step)
    ensures HandlersKeepMasks(c')
  {
    match step
    case FinishEnter => FinishEnterKeepsMasks(c, c');
    case LoadExclusive(_) => SpinningKeepsMasks(c, step, c');
    case Retry => SpinningKeepsMasks(c, step, c');
    case StoreExclusive(_) => SpinningKeepsMasks(c, step, c');
    case GiveBack(_) => LeavingKeepsMasks(c, step, c');
    case MaskFiq => LeavingKeepsMasks(c, step, c');
    case RestoreCpsr => LeavingKeepsMasks(c, step, c');
    case PopCpsr => PopKeepsMasks(c, c');
    case TakeIrq => TakingKeepsMasks(c, step, c');
    case TakeFiq => TakingKeepsMasks(c, step, c');
    case ReturnFromInterrupt => ReturningKeepsMasks(c, c');
    case _ => EnteringKeepsMasks(c, step, c');
  }

  // ---------- in every run ----------

  lemma OpenMonitorKeepsMasks(c: Core)
    requires HandlersKeepMasks(c)
    ensures HandlersKeepMasks(c.(monitor := Open))
  {
    forall k | 0 < k < |c.frames| ensures KeepsMask(c.(monitor := Open), k) {
      assert KeepsMask(c, k);
    }
  }

  lemma NextKeepsMasks(s: System, n: nat, step: Step, t: System)
    requires Inv(s) && CanDo(s, n, step) && t == Next(s, n, step)
    requires forall m | 0 <= m < |s.cores| :: HandlersKeepMasks(s.cores[m])
    ensures |t.cores| == |s.cores| && forall m | 0 <= m < |t.cores| :: HandlersKeepMasks(t.cores[m])
  {
    StepKeepsMasks(s.cores[n], step, Do(s.cores[n], step));
    forall m | 0 <= m < |t.cores| ensures HandlersKeepMasks(t.cores[m]) {
      if m != n {
        OpenMonitorKeepsMasks(s.cores[m]);
      }
    }
  }

  lemma {:induction false} ReachableKeepsMasks(s: System, run: seq<Event>, t: System)
    requires Reachable(s, run, t)
    ensures forall n | 0 <= n < |t.cores| :: HandlersKeepMasks(t.cores[n])
    decreases |run|
  {
    if run != [] {
      var last := run[|run| - 1];
      var u: System :| Reachable(s, run[..|run| - 1], u) && CanDo(u, last.core, last.step)
        && t == Next(u, last.core, last.step);
      ReachableKeepsMasks(s, run[..|run| - 1], u);
      ReachableInv(s, run[..|run| - 1], u);
      NextKeepsMasks(u, last.core, last.step, t);
    }
  }

  // ---------- handlers do not wait for what they interrupted ----------

  /** The first context above the one that entered section `i`. */
  lemma FirstAbove(c: Core, i: nat, k: nat) returns (j: nat)
    requires CoreInv(c) && HandlersKeepMasks(c) && i < |c.sections| && k < |c.frames| && c.frames[k].bottom > i
    ensures 0 < j <= k && c.frames[j].bottom > i && c.frames[j - 1].bottom <= i
  {
    j := k;
    while c.frames[j - 1].bottom > i
      invariant 0 < j <= k && c.frames[j].bottom > i
      decreases j
    {
      j := j - 1;
    }
  }

  /** Above a context inside an IRQ- or FIQ-level section there is at most one more, an FIQ handler inside of
      an IRQ-level section. */
  lemma HandlerAbove(c: Core, i: nat, k: nat)
    requires CoreInv(c) && HandlersKeepMasks(c) && i < |c.sections| && c.sections[i].Critical()
    requires k < |c.frames| && c.frames[k].bottom > i
    ensures c.sections[i].level == Irq && k > 0 && HandlerMask(c.frames[k].resume) == BOTH
  {
    var j := FirstAbove(c, i, k);
    BottomsBelow(c, j - 1);
    SectionMasksItsLevel(c, j - 1, i);
    assert KeepsMask(c, j);
    if j < k {
      InterruptedHandler(c, j);
    }
  }

  /** Nothing can be on top of a handler that runs with both levels masked. */
  lemma InterruptedHandler(c: Core, j: nat)
    requires HandlersKeepMasks(c) && 0 < j < |c.frames| - 1
    ensures HandlerMask(c.frames[j].resume) != BOTH
  {
    assert KeepsMask(c, j) && KeepsMask(c, j + 1);
  }

  /** An FIQ handler, and any other one that began with FIQs masked, is inside of no IRQ-level section. */
  lemma NoIrqSectionInFiqHandler(c: Core, k: nat, e: nat)
    requires HandlersKeepMasks(c) && 0 < k < |c.frames| && HandlerMask(c.frames[k].resume) == BOTH
    requires c.frames[k].bottom <= e < Extent(c, k) && e < |c.sections|
    ensures c.sections[e].level != Irq
  {
    assert KeepsMask(c, k);
  }

  /** A context that waits for a lock is inside of the lock's section. */
  lemma WaitingSection(c: Core, levels: seq<Level>, k: nat, id: nat) returns (e: nat)
    requires CoreInv(c) && LocksExist(c, levels) && k < |c.frames| && id < |levels|
    requires c.frames[k].pc == Spinning(id) || (c.frames[k].pc.Loaded? && c.frames[k].pc.id == id)
    ensures c.frames[k].bottom <= e < Extent(c, k) && e < |c.sections| && c.sections[e].level == levels[id]
  {
    assert FrameOk(c, k);
    e := Extent(c, k) - 1;
    assert c.sections[e] == c.sections[..Extent(c, k)][e];
  }

  /** A handler on the core of the holder of an IRQ- or FIQ-level lock does not wait for this lock: no core
      blocks itself. */
  lemma NoHandlerWaitsForHolder(s: System, run: seq<Event>, t: System, n: nat, i: nat, id: nat, k: nat)
    requires Reachable(s, run, t) && Holds(t, n, i, id) && id < |t.levels| && t.levels[id] != Task
    requires k < |t.cores[n].frames| && t.cores[n].frames[k].bottom > i
    ensures t.cores[n].frames[k].pc != Spinning(id)
    ensures forall value :: t.cores[n].frames[k].pc != Loaded(id, value)
  {
    ReachableInv(s, run, t);
    ReachableKeepsMasks(s, run, t);
    var c := t.cores[n];
    assert LocksExist(c, t.levels);
    HandlerAbove(c, i, k);
    if c.frames[k].pc == Spinning(id) || (c.frames[k].pc.Loaded? && c.frames[k].pc.id == id) {
      var e := WaitingSection(c, t.levels, k, id);
      NoIrqSectionInFiqHandler(c, k, e);
    }
  }
}
