/** The multi-core EnterCritical and LeaveCritical on their arrays s_nCPSR and s_nCriticalLevel, run
    without interruption; CriticalSections interleaves their instructions with interrupts. */
module Synchronize {
  import opened Sequences
  import opened CriticalSections

  class Cores {
    const count: nat
    const cpsr: array2<Mask>        // s_nCPSR
    const level: array<nat>         // s_nCriticalLevel
    const masks: array<Mask>        // the I and F bits of each core

    ghost predicate Valid()
      reads this, level
    {
      && cpsr.Length0 == count && cpsr.Length1 == MAX_CRITICAL_LEVEL
      && level.Length == count && masks.Length == count
      && forall n | 0 <= n < count :: level[n] <= MAX_CRITICAL_LEVEL
    }

    /** The masks stored for one core, oldest first. */
    ghost function Stored(n: nat): (s: seq<Mask>)
      requires n < count && Valid()
      reads this, cpsr, level
      ensures |s| == level[n]
    {
      seq(level[n], j requires 0 <= j < level[n] reads this, cpsr, level requires Valid() => cpsr[n, j])
    }

    constructor (cores: nat)
      ensures Valid() && count == cores && fresh(cpsr) && fresh(level) && fresh(masks)
      ensures forall n | 0 <= n < cores :: Stored(n) == [] && masks[n] == Mask(false, false)
    {
      count := cores;
      cpsr := new Mask[cores, MAX_CRITICAL_LEVEL]((i, j) => Mask(false, false));
      level := new nat[cores](i => 0);
      masks := new Mask[cores](i => Mask(false, false));
    }

    method EnterCritical(n: nat, target: Level)
      requires Valid() && n < count
      requires target != Task
      requires target == Fiq || !masks[n].fiq
      requires level[n] < MAX_CRITICAL_LEVEL
      modifies cpsr, level, masks
      ensures Valid()
      ensures Stored(n) == old(Stored(n)) + [old(masks[n])]
      ensures masks[n] == Mask(true, target == Fiq)
      ensures forall m | 0 <= m < count && m != n :: Stored(m) == old(Stored(m)) && masks[m] == old(masks[m])
    {
      var saved := masks[n];
      masks[n] := BOTH;
      cpsr[n, level[n]] := saved;
      level[n] := level[n] + 1;
      if target == Irq {
        masks[n] := masks[n].(fiq := false);
      }
    }

    method LeaveCritical(n: nat)
      requires Valid() && n < count
      requires level[n] > 0
      modifies level, masks
      ensures Valid()
      ensures Stored(n) + [masks[n]] == old(Stored(n))
      ensures forall m | 0 <= m < count && m != n :: Stored(m) == old(Stored(m)) && masks[m] == old(masks[m])
    {
      masks[n] := masks[n].(fiq := true);
      level[n] := level[n] - 1;
      masks[n] := cpsr[n, level[n]];
    }

    method CurrentExecutionLevel(n: nat) returns (r: Level)
      requires Valid() && n < count
      ensures r == Task <==> masks[n] == Mask(false, false)
      ensures r == Fiq <==> masks[n].fiq
    {
      if masks[n].fiq {
        return Fiq;
      }
      if masks[n].irq {
        return Irq;
      }
      return Task;
    }
  }

  // ---------- the methods and the steps of CriticalSections ----------

  /** `d` is `c` after an EnterCritical that nothing interrupts. */
  ghost predicate Entered(c: Core, target: Level, d: Core) {
    exists a: Core, b: Core, e: Core ::
      && Enabled(c, BeginEnter(NoLock, target)) && a == Do(c, BeginEnter(NoLock, target))
      && Enabled(a, MaskBoth) && b == Do(a, MaskBoth)
      && Enabled(b, PushCpsr) && e == Do(b, PushCpsr)
      && Enabled(e, FinishEnter) && d == Do(e, FinishEnter)
  }

  /** `d` is `c` after a LeaveCritical, of section `i`, that nothing interrupts; the section need not be the
      one entered last. */
  ghost predicate Left(c: Core, i: nat, d: Core) {
    exists a: Core, b: Core, e: Core ::
      && Possible(c, GiveBack(i)) && c.sections[i].Critical() && a == Do(c, GiveBack(i))
      && Possible(a, MaskFiq) && b == Do(a, MaskFiq)
      && Possible(b, PopCpsr) && e == Do(b, PopCpsr)
      && Possible(e, RestoreCpsr) && d == Do(e, RestoreCpsr)
  }

  /** The four steps of EnterCritical do to a core what the method does to the arrays. */
  lemma EnteredAsMethod(c: Core, target: Level, d: Core)
    requires Entered(c, target, d)
    ensures d.cpsr == c.cpsr + [c.mask]
    ensures d.mask == Mask(true, target == Fiq)
    ensures d.sections == c.sections + [Section(NoLock, target, c.mask, false)]
    ensures d.frames == c.frames && d.monitor == c.monitor
  {
  }

  lemma LeaveGivesBack(c: Core, i: nat, a: Core, b: Core)
    requires Possible(c, GiveBack(i)) && c.sections[i].Critical() && a == Do(c, GiveBack(i))
    requires Possible(a, MaskFiq) && b == Do(a, MaskFiq)
    ensures b == Goto(c.(sections := c.sections[i := c.sections[i].(holds := false)], mask := c.mask.(fiq := true)),
                      LeaveMasked(i))
  {
  }

  lemma LeavePops(c: Core, i: nat, b: Core, e: Core, d: Core)
    requires c.frames != [] && i < |c.sections| && Last(c).pc.Outside?
    requires b == Goto(c.(sections := c.sections[i := c.sections[i].(holds := false)], mask := c.mask.(fiq := true)),
                       LeaveMasked(i))
    requires Possible(b, PopCpsr) && e == Do(b, PopCpsr)
    requires Possible(e, RestoreCpsr) && d == Do(e, RestoreCpsr)
    ensures c.cpsr != [] && d.cpsr == c.cpsr[..|c.cpsr| - 1] && d.mask == c.cpsr[|c.cpsr| - 1]
    ensures d.sections == RemoveAt(c.sections, i)
    ensures d.frames == c.frames && d.monitor == c.monitor
  {
  }

  /** The four steps of LeaveCritical do to a core what the method does to the arrays, whichever section is
      left. */
  lemma LeftAsMethod(c: Core, i: nat, d: Core)
    requires Left(c, i, d)
    ensures d.cpsr + [d.mask] == c.cpsr
    ensures i < |c.sections| && d.sections == RemoveAt(c.sections, i)
    ensures d.frames == c.frames && d.monitor == c.monitor
  {
    var a: Core, b: Core, e: Core :|
      && Possible(c, GiveBack(i)) && c.sections[i].Critical() && a == Do(c, GiveBack(i))
      && Possible(a, MaskFiq) && b == Do(a, MaskFiq)
      && Possible(b, PopCpsr) && e == Do(b, PopCpsr)
      && Possible(e, RestoreCpsr) && d == Do(e, RestoreCpsr);
    LeaveGivesBack(c, i, a, b);
    LeavePops(c, i, b, e, d);
  }

  /** If it is the section entered last, the mask is the one that its own EnterCritical found. */
  lemma LeftInOrder(c: Core, i: nat, d: Core)
    requires CoreInv(c) && Left(c, i, d) && Enabled(c, GiveBack(i))
    ensures d.mask == c.sections[i].entry
  {
    LeftAsMethod(c, i, d);
    LastStoredMask(c.sections, i);
  }

  /** If it is not, the mask is that of the section entered last, and that protects what remains entered if
      and only if the section entered last is at IRQ_LEVEL or was entered with FIQs masked. */
  lemma LeftOutOfOrderIsSafeIff(c: Core, i: nat, last: nat, d: Core)
    requires CoreInv(c) && Left(c, i, d) && i < last < |c.sections|
    requires c.sections[last].Critical() && LastCritical(c.sections, last)
    ensures d.mask == c.sections[last].entry
    ensures AtLeast(d.mask, Floor(d.sections)) <==> c.sections[last].level == Irq || c.sections[last].entry.fiq
  {
    LeftAsMethod(c, i, d);
    TopBelongsToLast(c, last);
    EntryMaskSufficesIff(c.sections, i, last);
  }

  const IDLE := Core(Mask(false, false), [], [Frame(Mask(false, false), 0, Outside)], [], Open)

  lemma EnterFromOutside(c: Core, target: Level) returns (d: Core)
    requires CoreInv(c) && Last(c).pc.Outside? && |c.cpsr| < MAX_CRITICAL_LEVEL
    requires target != Task && (target == Irq ==> !c.mask.fiq)
    ensures Entered(c, target, d)
  {
    var a := Do(c, BeginEnter(NoLock, target));
    var b := Do(a, MaskBoth);
    var e := Do(b, PushCpsr);
    d := Do(e, FinishEnter);
  }

  lemma EnteredKeepsInv(c: Core, target: Level, d: Core)
    requires CoreInv(c) && Entered(c, target, d)
    ensures CoreInv(d)
  {
    var a: Core, b: Core, e: Core :|
      && Enabled(c, BeginEnter(NoLock, target)) && a == Do(c, BeginEnter(NoLock, target))
      && Enabled(a, MaskBoth) && b == Do(a, MaskBoth)
      && Enabled(b, PushCpsr) && e == Do(b, PushCpsr)
      && Enabled(e, FinishEnter) && d == Do(e, FinishEnter);
    StepKeepsCoreInv(c, BeginEnter(NoLock, target), a);
    StepKeepsCoreInv(a, MaskBoth, b);
    StepKeepsCoreInv(b, PushCpsr, e);
    StepKeepsCoreInv(e, FinishEnter, d);
  }

  lemma LeaveAnyway(c: Core, i: nat) returns (d: Core)
    requires CoreInv(c) && Possible(c, GiveBack(i)) && c.sections[i].Critical() && c.cpsr != []
    ensures Left(c, i, d)
  {
    var a := Do(c, GiveBack(i));
    var b := Do(a, MaskFiq);
    var e := Do(b, PopCpsr);
    d := Do(e, RestoreCpsr);
  }

  /** It does happen: a core enters a section at IRQ_LEVEL and another one at FIQ_LEVEL inside of it.  When it
      leaves the first one first, it goes on inside of the second one with FIQs unmasked. */
  lemma LeavingOutOfOrderUnmasks() returns (c: Core, d: Core, e: Core)
    ensures CoreInv(IDLE) && Entered(IDLE, Irq, c) && Entered(c, Fiq, d) && Left(d, 0, e)
    ensures |e.sections| == 1 && e.sections[0].level == Fiq && !e.mask.fiq && Possible(e, TakeFiq)
  {
    assert FrameOk(IDLE, 0);
    c := EnterFromOutside(IDLE, Irq);
    EnteredAsMethod(IDLE, Irq, c);
    EnteredKeepsInv(IDLE, Irq, c);
    d := EnterFromOutside(c, Fiq);
    EnteredAsMethod(c, Fiq, d);
    EnteredKeepsInv(c, Fiq, d);
    e := LeaveAnyway(d, 0);
    LeftOutOfOrderIsSafeIff(d, 0, 1, e);
    LeftAsMethod(d, 0, e);
  }

  /** EnterCritical followed by LeaveCritical changes nothing. */
  lemma LeaveUndoesEnter(c: Core, target: Level, d: Core, f: Core)
    requires Entered(c, target, d) && Left(d, |c.sections|, f)
    ensures f == c
  {
    EnteredAsMethod(c, target, d);
    LeftAsMethod(d, |c.sections|, f);
    assert f.sections == c.sections;
  }
}
