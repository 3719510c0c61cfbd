/** Critical sections on one core: EnterCritical and LeaveCritical instruction by instruction, with
    interrupts wherever the processor allows them, and the LL/SC loop of a spin lock in between. */
module CriticalSections {
  import opened Sequences

  // ---------- one core ----------

  /** The I and F bits of the CPSR; true means masked. */
  datatype Mask = Mask(irq: bool, fiq: bool)

  const BOTH := Mask(true, true)
  const MAX_CRITICAL_LEVEL: nat := 20

  /** `a` masks no less than `b`. */
  predicate AtLeast(a: Mask, b: Mask) {
    (b.irq ==> a.irq) && (b.fiq ==> a.fiq)
  }

  /** Execution levels: TASK_LEVEL, IRQ_LEVEL, FIQ_LEVEL. */
  datatype Level = Task | Irq | Fiq

  /** What a running section protects: a spin lock, or nothing but itself. */
  datatype Target = NoLock | Lock(id: nat)

  /** A section that was entered and not left yet: a spin lock (TASK_LEVEL or above), or a bare critical
      section.  `entry` is the mask at the time of EnterCritical; `holds` tells that the lock is taken. */
  datatype Section = Section(target: Target, level: Level, entry: Mask, holds: bool)
  {
    predicate Critical() {
      level != Task
    }
  }

  /** Where a context is inside Acquire, Release, EnterCritical or LeaveCritical. */
  datatype Pc =
    | Outside
    | EnterRead(target: Target, level: Level, saved: Mask)    // CPSR is read
    | EnterMasked(target: Target, level: Level, saved: Mask)  // cpsid if
    | EnterPushed(target: Target, level: Level)               // CPSR is stored
    | Spinning(id: nat)                                       // at the label 1
    | Loaded(id: nat, value: nat)                             // after ldrex
    | LeaveBegin(index: nat)                                  // the lock is given back
    | LeaveMasked(index: nat)                                 // cpsid f
    | LeavePopped(popped: Mask)                               // the stored CPSR is read back

  /** A task or an interrupt handler: the mask to which it returns, the sections below it, its position. */
  datatype Frame = Frame(resume: Mask, bottom: nat, pc: Pc)

  datatype Monitor = Open | Exclusive(id: nat)

  /** `cpsr` is s_nCPSR up to s_nCriticalLevel; `frames` are the nested contexts, the running one last. */
  datatype Core = Core(mask: Mask, cpsr: seq<Mask>, frames: seq<Frame>, sections: seq<Section>, monitor: Monitor)

  function Last(c: Core): Frame
    requires c.frames != []
  {
    c.frames[|c.frames| - 1]
  }

  function Goto(c: Core, pc: Pc): Core
    requires c.frames != []
  {
    c.(frames := c.frames[|c.frames| - 1 := Last(c).(pc := pc)])
  }

  // ---------- steps of one core ----------

  datatype Step =
    | BeginEnter(target: Target, level: Level)
    | MaskBoth
    | PushCpsr
    | FinishEnter
    | BeginTaskLock(id: nat)
    | LoadExclusive(value: nat)
    | Retry
    | StoreExclusive(success: bool)
    | GiveBack(index: nat)
    | MaskFiq
    | PopCpsr
    | RestoreCpsr
    | TakeIrq
    | TakeFiq
    | ReturnFromInterrupt

  /** No critical section was entered after section `i`. */
  predicate LastCritical(sections: seq<Section>, i: nat)
    requires i < |sections|
  {
    forall j | i < j < |sections| :: !sections[j].Critical()
  }

  /** What a context may do.  It leaves what it entered itself, critical sections in reverse order. */
  predicate Enabled(c: Core, step: Step) {
    && Possible(c, step)
    && (step.GiveBack? && c.sections[step.index].Critical() ==> LastCritical(c.sections, step.index))
  }

  /** The same without an order of leaving.  A context returns from an interrupt only when it has left
      everything.  The assertions of EnterCritical are guards: it is not entered at IRQ_LEVEL with FIQs
      masked, nor nested deeper than MAX_CRITICAL_LEVEL. */
  predicate Possible(c: Core, step: Step) {
    && c.frames != []
    && var f := Last(c);
      match step
      case BeginEnter(target, level) =>
        f.pc.Outside? && level != Task && (level == Irq ==> !c.mask.fiq)
      case MaskBoth => f.pc.EnterRead?
      case PushCpsr => f.pc.EnterMasked? && |c.cpsr| < MAX_CRITICAL_LEVEL
      case FinishEnter => f.pc.EnterPushed?
      case BeginTaskLock(id) => f.pc.Outside?
      case LoadExclusive(value) => f.pc.Spinning?
      case Retry => f.pc.Loaded? && f.pc.value != 0
      case StoreExclusive(success) =>
        f.pc.Loaded? && f.pc.value == 0 && (success ==> c.monitor == Exclusive(f.pc.id)) && c.sections != []
      case GiveBack(i) => f.pc.Outside? && f.bottom <= i < |c.sections|
      case MaskFiq => f.pc.LeaveBegin?
      case PopCpsr => f.pc.LeaveMasked? && c.cpsr != [] && f.pc.index < |c.sections|
      case RestoreCpsr => f.pc.LeavePopped?
      case TakeIrq => !c.mask.irq
      case TakeFiq => !c.mask.fiq
      case ReturnFromInterrupt => |c.frames| > 1 && f.pc.Outside? && |c.sections| == f.bottom
  }

  function Do(c: Core, step: Step): Core
    requires Possible(c, step)
  {
    var f := Last(c);
    match step
    case BeginEnter(target, level) => Goto(c, EnterRead(target, level, c.mask))
    case MaskBoth => Goto(c.(mask := BOTH), EnterMasked(f.pc.target, f.pc.level, f.pc.saved))
    case PushCpsr =>
      Goto(c.(cpsr := c.cpsr + [f.pc.saved],
              sections := c.sections + [Section(f.pc.target, f.pc.level, f.pc.saved, false)]),
           EnterPushed(f.pc.target, f.pc.level))
    case FinishEnter =>
      Goto(if f.pc.level == Irq then c.(mask := c.mask.(fiq := false)) else c,
           if f.pc.target.Lock? then Spinning(f.pc.target.id) else Outside)
    case BeginTaskLock(id) =>
      Goto(c.(sections := c.sections + [Section(Lock(id), Task, c.mask, false)]), Spinning(id))
    case LoadExclusive(value) => Goto(c.(monitor := Exclusive(f.pc.id)), Loaded(f.pc.id, value))
    case Retry => Goto(c, Spinning(f.pc.id))
    case StoreExclusive(success) =>
      if success then
        var i := |c.sections| - 1;
        Goto(c.(monitor := Open, sections := c.sections[i := c.sections[i].(holds := true)]), Outside)
      else
        Goto(c.(monitor := Open), Spinning(f.pc.id))
    case GiveBack(i) =>
      if c.sections[i].Critical() then
        Goto(c.(sections := c.sections[i := c.sections[i].(holds := false)]), LeaveBegin(i))
      else
        c.(sections := RemoveAt(c.sections, i))
    case MaskFiq => Goto(c.(mask := c.mask.(fiq := true)), LeaveMasked(f.pc.index))
    case PopCpsr =>
      Goto(c.(cpsr := c.cpsr[..|c.cpsr| - 1], sections := RemoveAt(c.sections, f.pc.index)),
           LeavePopped(c.cpsr[|c.cpsr| - 1]))
    case RestoreCpsr => Goto(c.(mask := f.pc.popped), Outside)
    case TakeIrq =>
      c.(mask := c.mask.(irq := true), frames := c.frames + [Frame(c.mask, |c.sections|, Outside)])
    case TakeFiq =>
      c.(mask := BOTH, frames := c.frames + [Frame(c.mask, |c.sections|, Outside)])
    case ReturnFromInterrupt =>
      c.(mask := f.resume, frames := c.frames[..|c.frames| - 1])
  }

  // ---------- invariant of one core ----------

  /** What has to be masked while these sections are entered. */
  function Floor(sections: seq<Section>): (m: Mask) {
    if sections == [] then Mask(false, false) else
      var m := Floor(sections[..|sections| - 1]);
      var s := sections[|sections| - 1];
      Mask(m.irq || s.Critical(), m.fiq || s.level == Fiq)
  }

  /** The masks that EnterCritical found, of the critical sections in order. */
  function EntryMasks(sections: seq<Section>): seq<Mask> {
    if sections == [] then [] else
      var s := sections[|sections| - 1];
      EntryMasks(sections[..|sections| - 1]) + (if s.Critical() then [s.entry] else [])
  }

  /** Each critical section was entered under a mask that the sections around it require. */
  ghost predicate Nested(sections: seq<Section>) {
    forall i | 0 <= i < |sections| && sections[i].Critical() :: AtLeast(sections[i].entry, Floor(sections[..i]))
  }

  /** How many sections a context sees: those up to where the next context starts. */
  function Extent(c: Core, k: nat): nat
    requires k < |c.frames|
  {
    if k == |c.frames| - 1 then |c.sections| else c.frames[k + 1].bottom
  }

  /** The mask under which a context runs, or will run on when it is resumed. */
  function RunMask(c: Core, k: nat): Mask
    requires k < |c.frames|
  {
    if k == |c.frames| - 1 then c.mask else c.frames[k + 1].resume
  }

  /** The context is on its way into or out of section `j`, the last of `n` when it is entering. */
  predicate Moving(pc: Pc, j: nat, n: nat) {
    match pc
    case EnterPushed(_, _) => j + 1 == n
    case Spinning(_) => j + 1 == n
    case Loaded(_, _) => j + 1 == n
    case LeaveBegin(i) => j == i
    case LeaveMasked(i) => j == i
    case _ => false
  }

  /** A context holds every lock whose section it entered, save the one it is busy with. */
  ghost predicate HoldsItsLocks(pc: Pc, seen: seq<Section>, bottom: nat) {
    forall j | bottom <= j < |seen| && seen[j].target.Lock? && !seen[j].holds :: Moving(pc, j, |seen|)
  }

  /** A context's position fits the sections that it sees and the mask under which it runs. */
  ghost predicate PositionOk(pc: Pc, seen: seq<Section>, bottom: nat, mask: Mask, running: bool) {
    && bottom <= |seen|
    && AtLeast(mask, Floor(seen))
    && HoldsItsLocks(pc, seen, bottom)
    && match pc
       case Outside => true
       case EnterRead(target, level, saved) =>
         saved == mask && level != Task && (level == Irq ==> !saved.fiq)
       case EnterMasked(target, level, saved) =>
         running && mask == BOTH && AtLeast(saved, Floor(seen)) && level != Task && (level == Irq ==> !saved.fiq)
       case EnterPushed(target, level) =>
         && running && mask == BOTH && bottom < |seen| && level != Task
         && var s := seen[|seen| - 1];
           s.target == target && s.level == level && !s.holds && (level == Irq ==> !s.entry.fiq)
       case Spinning(id) =>
         bottom < |seen| && seen[|seen| - 1].target == Lock(id) && !seen[|seen| - 1].holds
       case Loaded(id, value) =>
         bottom < |seen| && seen[|seen| - 1].target == Lock(id) && !seen[|seen| - 1].holds
       case LeaveBegin(i) =>
         bottom <= i < |seen| && seen[i].Critical() && !seen[i].holds && LastCritical(seen, i)
       case LeaveMasked(i) =>
         running && mask == BOTH && bottom <= i < |seen| && seen[i].Critical() && !seen[i].holds
           && LastCritical(seen, i)
       case LeavePopped(m) =>
         running && mask == BOTH && AtLeast(m, Floor(seen))
  }

  ghost predicate FrameOk(c: Core, k: nat)
    requires k < |c.frames|
  {
    && Extent(c, k) <= |c.sections|
    && PositionOk(c.frames[k].pc, c.sections[..Extent(c, k)], c.frames[k].bottom, RunMask(c, k), k == |c.frames| - 1)
  }

  ghost predicate CoreInv(c: Core) {
    && c.frames != []
    && (forall k | 0 <= k < |c.frames| :: FrameOk(c, k))
    && c.cpsr == EntryMasks(c.sections)
    && Nested(c.sections)
  }

  // ---------- the invariant is kept ----------

  function Join(a: Mask, b: Mask): Mask {
    Mask(a.irq || b.irq, a.fiq || b.fiq)
  }

  lemma {:induction false} FloorOfConcat(a: seq<Section>, b: seq<Section>)
    ensures Floor(a + b) == Join(Floor(a), Floor(b))
    ensures EntryMasks(a + b) == EntryMasks(a) + EntryMasks(b)
    decreases |b|
  {
    if b == [] {
      assert a + b == a;
    } else {
      var n := |b| - 1;
      assert (a + b)[..|a + b| - 1] == a + b[..n];
      FloorOfConcat(a, b[..n]);
    }
  }

  lemma {:induction false} FloorOfTaskSections(a: seq<Section>)
    requires forall j | 0 <= j < |a| :: !a[j].Critical()
    ensures Floor(a) == Mask(false, false) && EntryMasks(a) == []
    decreases |a|
  {
    if a != [] {
      FloorOfTaskSections(a[..|a| - 1]);
    }
  }

  lemma FloorOfOneMore(a: seq<Section>, i: nat)
    requires i < |a|
    ensures AtLeast(Floor(a[..i + 1]), Floor(a[..i]))
    ensures !a[i].Critical() ==>
              Floor(a[..i + 1]) == Floor(a[..i]) && EntryMasks(a[..i + 1]) == EntryMasks(a[..i])
  {
    var b := a[..i + 1];
    assert b[..|b| - 1] == a[..i] && b[|b| - 1] == a[i];
  }

  /** The sections from `i` on count no less when section `i` is there. */
  lemma FloorWithout(a: seq<Section>, i: nat)
    requires i < |a|
    ensures AtLeast(Floor(a), Floor(RemoveAt(a, i)))
    ensures !a[i].Critical() ==> Floor(RemoveAt(a, i)) == Floor(a) && EntryMasks(RemoveAt(a, i)) == EntryMasks(a)
  {
    assert a == a[..i + 1] + a[i + 1..];
    FloorOfConcat(a[..i + 1], a[i + 1..]);
    FloorOfConcat(a[..i], a[i + 1..]);
    FloorOfOneMore(a, i);
  }

  /** A section's level is masked under everything that nests inside it. */
  lemma FloorCovers(a: seq<Section>, i: nat)
    requires i < |a|
    ensures a[i].Critical() ==> Floor(a).irq
    ensures a[i].level == Fiq ==> Floor(a).fiq
  {
  }

  /** Leaving the last critical section: the stored mask is the one its entry found. */
  lemma LastStoredMask(a: seq<Section>, i: nat)
    requires i < |a| && a[i].Critical() && LastCritical(a, i)
    ensures EntryMasks(a) == EntryMasks(a[..i]) + [a[i].entry]
    ensures EntryMasks(RemoveAt(a, i)) == EntryMasks(a[..i])
    ensures Floor(RemoveAt(a, i)) == Floor(a[..i])
  {
    assert a == a[..i + 1] + a[i + 1..];
    FloorOfConcat(a[..i + 1], a[i + 1..]);
    FloorOfConcat(a[..i], a[i + 1..]);
    FloorOfTaskSections(a[i + 1..]);
    assert a[..i + 1][..i] == a[..i];
  }

  lemma NestedWithout(a: seq<Section>, i: nat)
    requires i < |a| && Nested(a)
    ensures Nested(RemoveAt(a, i))
  {
    var b := RemoveAt(a, i);
    forall j | 0 <= j < |b| && b[j].Critical() ensures AtLeast(b[j].entry, Floor(b[..j])) {
      if j < i {
        assert b[..j] == a[..j];
      } else {
        assert b[j] == a[j + 1];
        assert b[..j] == RemoveAt(a[..j + 1], i);
        FloorWithout(a[..j + 1], i);
      }
    }
  }

  /** Same sections apart from which locks are held. */
  ghost predicate SameButHolds(a: seq<Section>, b: seq<Section>) {
    |a| == |b| && forall j | 0 <= j < |a| :: b[j] == a[j].(holds := b[j].holds)
  }

  lemma {:induction false} HoldsDoesNotMask(a: seq<Section>, b: seq<Section>)
    requires SameButHolds(a, b)
    ensures Floor(a) == Floor(b) && EntryMasks(a) == EntryMasks(b)
    decreases |a|
  {
    if a != [] {
      HoldsDoesNotMask(a[..|a| - 1], b[..|b| - 1]);
    }
  }

  lemma NestedSame(a: seq<Section>, b: seq<Section>)
    requires SameButHolds(a, b) && Nested(a)
    ensures Nested(b)
  {
    forall j | 0 <= j < |b| && b[j].Critical() ensures AtLeast(b[j].entry, Floor(b[..j])) {
      HoldsDoesNotMask(a[..j], b[..j]);
    }
  }

  lemma RunningPosition(c: Core)
    requires CoreInv(c)
    ensures PositionOk(Last(c).pc, c.sections, Last(c).bottom, c.mask, true)
  {
    assert FrameOk(c, |c.frames| - 1);
    assert c.sections[..|c.sections|] == c.sections;
  }

  /** A step of the running context leaves the contexts below it, and what they see, alone. */
  ghost predicate SameBelow(c: Core, c': Core) {
    && c.frames != [] && |c'.frames| == |c.frames|
    && (forall k | 0 <= k < |c.frames| - 1 :: c'.frames[k] == c.frames[k])
    && Last(c').bottom == Last(c).bottom && Last(c').resume == Last(c).resume
    && Last(c).bottom <= |c.sections| && Last(c).bottom <= |c'.sections|
    && c'.sections[..Last(c).bottom] == c.sections[..Last(c).bottom]
  }

  lemma BottomsBelow(c: Core, k: nat)
    requires CoreInv(c) && k < |c.frames|
    ensures c.frames[k].bottom <= Extent(c, k) <= |c.sections|
    ensures k < |c.frames| - 1 ==> Extent(c, k) <= Last(c).bottom
    decreases |c.frames| - k
  {
    assert FrameOk(c, k);
    if k < |c.frames| - 1 {
      BottomsBelow(c, k + 1);
    }
  }

  lemma OnlyTheRunningMoves(c: Core, c': Core)
    requires CoreInv(c) && SameBelow(c, c')
    requires PositionOk(Last(c').pc, c'.sections, Last(c').bottom, c'.mask, true)
    requires c'.cpsr == EntryMasks(c'.sections) && Nested(c'.sections)
    ensures CoreInv(c')
  {
    forall k | 0 <= k < |c'.frames| ensures FrameOk(c', k) {
      assert FrameOk(c, k);
      BottomsBelow(c, k);
      if k < |c.frames| - 1 {
        var e := Extent(c, k);
        assert Extent(c', k) == e && RunMask(c', k) == RunMask(c, k);
        assert c'.sections[..e] == c'.sections[..Last(c).bottom][..e] == c.sections[..e];
      } else {
        assert c'.sections[..|c'.sections|] == c'.sections;
      }
    }
  }

  /** One more section, entered under a mask that covers those around it. */
  lemma OneMoreSection(a: seq<Section>, s: Section, b: seq<Section>)
    requires Nested(a) && (s.Critical() ==> AtLeast(s.entry, Floor(a))) && b == a + [s]
    ensures Nested(b) && b[..|a|] == a
    ensures EntryMasks(b) == EntryMasks(a) + (if s.Critical() then [s.entry] else [])
    ensures Floor(b) == Join(Floor(a), Mask(s.Critical(), s.level == Fiq))
  {
    assert b[..|a|] == a;
    assert forall j | 0 <= j < |a| :: b[j] == a[j] && b[..j] == a[..j];
  }

  lemma RequestKeepsInv(c: Core, step: Step, c': Core)
    requires CoreInv(c) && Enabled(c, step) && c' == Do(c, step)
    requires step.BeginEnter? || step.MaskBoth?
    ensures CoreInv(c')
  {
    RunningPosition(c);
    OnlyTheRunningMoves(c, c');
  }

  lemma PushKeepsInv(c: Core, c': Core)
    requires CoreInv(c) && Enabled(c, PushCpsr) && c' == Do(c, PushCpsr)
    ensures CoreInv(c')
  {
    RunningPosition(c);
    OneMoreSection(c.sections, c'.sections[|c.sections|], c'.sections);
    OnlyTheRunningMoves(c, c');
  }

  lemma BeginTaskLockKeepsInv(c: Core, id: nat, c': Core)
    requires CoreInv(c) && Enabled(c, BeginTaskLock(id)) && c' == Do(c, BeginTaskLock(id))
    ensures CoreInv(c')
  {
    RunningPosition(c);
    OneMoreSection(c.sections, c'.sections[|c.sections|], c'.sections);
    OnlyTheRunningMoves(c, c');
  }

  lemma FinishEnterKeepsInv(c: Core, c': Core)
    requires CoreInv(c) && Enabled(c, FinishEnter) && c' == Do(c, FinishEnter)
    ensures CoreInv(c')
  {
    RunningPosition(c);
    var n := |c.sections| - 1;
    assert c.sections[n].Critical();
    assert AtLeast(c.sections[n].entry, Floor(c.sections[..n]));
    OnlyTheRunningMoves(c, c');
  }

  lemma AcquiringKeepsInv(c: Core, step: Step, c': Core)
    requires CoreInv(c) && Enabled(c, step) && c' == Do(c, step)
    requires step.LoadExclusive? || step.Retry? || step.StoreExclusive?
    ensures CoreInv(c')
  {
    RunningPosition(c);
    HoldsDoesNotMask(c.sections, c'.sections);
    NestedSame(c.sections, c'.sections);
    OnlyTheRunningMoves(c, c');
  }

  lemma GiveBackCriticalKeepsInv(c: Core, i: nat, c': Core)
    requires CoreInv(c) && Enabled(c, GiveBack(i)) && c' == Do(c, GiveBack(i))
    requires c.sections[i].Critical()
    ensures CoreInv(c')
  {
    RunningPosition(c);
    HoldsDoesNotMask(c.sections, c'.sections);
    NestedSame(c.sections, c'.sections);
    assert LastCritical(c'.sections, i);
    OnlyTheRunningMoves(c, c');
  }

  lemma HoldsWithout(a: seq<Section>, i: nat, bottom: nat)
    requires bottom <= i < |a| && HoldsItsLocks(Outside, a, bottom)
    ensures HoldsItsLocks(Outside, RemoveAt(a, i), bottom)
  {
  }

  lemma GiveBackTaskKeepsInv(c: Core, i: nat, c': Core)
    requires CoreInv(c) && Enabled(c, GiveBack(i)) && c' == Do(c, GiveBack(i))
    requires !c.sections[i].Critical()
    ensures CoreInv(c')
  {
    RunningPosition(c);
    FloorWithout(c.sections, i);
    NestedWithout(c.sections, i);
    HoldsWithout(c.sections, i, Last(c).bottom);
    OnlyTheRunningMoves(c, c');
  }

  /** Taking out the critical section entered last. */
  lemma LastTakenOut(a: seq<Section>, i: nat, b: seq<Section>)
    requires Nested(a) && i < |a| && a[i].Critical() && LastCritical(a, i) && b == RemoveAt(a, i)
    ensures EntryMasks(a) == EntryMasks(b) + [a[i].entry]
    ensures Nested(b) && AtLeast(a[i].entry, Floor(b))
  {
    LastStoredMask(a, i);
    NestedWithout(a, i);
    assert AtLeast(a[i].entry, Floor(a[..i]));
  }

  lemma HoldsWithoutLeft(a: seq<Section>, i: nat, bottom: nat, b: seq<Section>, m: Mask)
    requires bottom <= i < |a| && HoldsItsLocks(LeaveMasked(i), a, bottom) && b == RemoveAt(a, i)
    ensures HoldsItsLocks(LeavePopped(m), b, bottom)
    ensures b[..bottom] == a[..bottom]
  {
  }

  lemma PopKeepsInv(c: Core, c': Core)
    requires CoreInv(c) && Enabled(c, PopCpsr) && c' == Do(c, PopCpsr)
    ensures CoreInv(c')
    ensures Last(c').pc == LeavePopped(c.sections[Last(c).pc.index].entry)
  {
    RunningPosition(c);
    LastTakenOut(c.sections, Last(c).pc.index, c'.sections);
    HoldsWithoutLeft(c.sections, Last(c).pc.index, Last(c).bottom, c'.sections, Last(c').pc.popped);
    OnlyTheRunningMoves(c, c');
  }

  lemma LeavingKeepsInv(c: Core, step: Step, c': Core)
    requires CoreInv(c) && Enabled(c, step) && c' == Do(c, step)
    requires step.MaskFiq? || step.RestoreCpsr?
    ensures CoreInv(c')
  {
    RunningPosition(c);
    if step.MaskFiq? {
      FloorCovers(c.sections, Last(c).pc.index);
    }
    OnlyTheRunningMoves(c, c');
  }

  lemma InterruptKeepsInv(c: Core, step: Step, c': Core)
    requires CoreInv(c) && Enabled(c, step) && c' == Do(c, step)
    requires step.TakeIrq? || step.TakeFiq? || step.ReturnFromInterrupt?
    ensures CoreInv(c')
  {
    forall k | 0 <= k < |c'.frames| ensures FrameOk(c', k) {
      assert c.sections[..|c.sections|] == c.sections;
      if k < |c.frames| {
        assert FrameOk(c, k);
      }
      assert FrameOk(c, |c.frames| - 1);
    }
  }

  lemma StepKeepsCoreInv(c: Core, step: Step, c': Core)
    requires CoreInv(c) && Enabled(c, step) && c' == Do(c, step)
    ensures CoreInv(c')
  {
    match step
    case BeginEnter(_, _) => RequestKeepsInv(c, step, c');
    case MaskBoth => RequestKeepsInv(c, step, c');
    case PushCpsr => PushKeepsInv(c, c');
    case FinishEnter => FinishEnterKeepsInv(c, c');
    case BeginTaskLock(id) => BeginTaskLockKeepsInv(c, id, c');
    case LoadExclusive(_) => AcquiringKeepsInv(c, step, c');
    case Retry => AcquiringKeepsInv(c, step, c');
    case StoreExclusive(_) => AcquiringKeepsInv(c, step, c');
    case GiveBack(i) =>
      if c.sections[i].Critical() {
        GiveBackCriticalKeepsInv(c, i, c');
      } else {
        GiveBackTaskKeepsInv(c, i, c');
      }
    case MaskFiq => LeavingKeepsInv(c, step, c');
    case PopCpsr => PopKeepsInv(c, c');
    case RestoreCpsr => LeavingKeepsInv(c, step, c');
    case TakeIrq => InterruptKeepsInv(c, step, c');
    case TakeFiq => InterruptKeepsInv(c, step, c');
    case ReturnFromInterrupt => InterruptKeepsInv(c, step, c');
  }

  // ---------- what critical sections are for ----------

  /** As long as a context is inside a critical section, it runs, and after every interrupt continues to
      run, with the section's level masked; the running context cannot be interrupted at that level. */
  lemma SectionMasksItsLevel(c: Core, k: nat, i: nat)
    requires CoreInv(c) && k < |c.frames| && i < Extent(c, k)
    requires i < |c.sections| && c.sections[i].Critical()
    ensures RunMask(c, k).irq && (c.sections[i].level == Fiq ==> RunMask(c, k).fiq)
    ensures !Enabled(c, TakeIrq) && (c.sections[i].level == Fiq ==> !Enabled(c, TakeFiq))
  {
    BottomsBelow(c, k);
    assert FrameOk(c, k);
    FloorCovers(c.sections[..Extent(c, k)], i);
    RunningPosition(c);
    FloorCovers(c.sections, i);
  }

  /** EnterCritical stores the mask that its caller ran with: no interrupt between reading the CPSR and
      masking both levels makes a difference. */
  lemma EnterStoresTheMask(c: Core, masked: Core, pushed: Core)
    requires CoreInv(c) && Last(c).pc.EnterRead?
    requires masked == Do(c, MaskBoth)
    requires Enabled(masked, PushCpsr) && pushed == Do(masked, PushCpsr)
    ensures pushed.sections == c.sections + [Section(Last(c).pc.target, Last(c).pc.level, c.mask, false)]
    ensures pushed.cpsr == c.cpsr + [c.mask]
  {
    RunningPosition(c);
  }

  /** LeaveCritical sets the mask that the EnterCritical of the same section stored, however many other
      sections and interrupts came in between. */
  lemma LeaveRestoresTheMask(c: Core, popped: Core, restored: Core)
    requires CoreInv(c) && Last(c).pc.LeaveMasked?
    requires Enabled(c, PopCpsr) && popped == Do(c, PopCpsr)
    requires restored == Do(popped, RestoreCpsr)
    ensures restored.mask == c.sections[Last(c).pc.index].entry
    ensures restored.sections == RemoveAt(c.sections, Last(c).pc.index)
  {
    PopKeepsInv(c, popped);
  }

  /** PopCpsr finds a stored mask: the assertion of LeaveCritical holds. */
  lemma LeaveFindsAMask(c: Core)
    requires CoreInv(c) && Last(c).pc.LeaveMasked?
    ensures Enabled(c, PopCpsr)
  {
    RunningPosition(c);
    LastStoredMask(c.sections, Last(c).pc.index);
  }

  /** The mask on top of the stack is the one that was stored for the section entered last, whichever is
      left. */
  lemma TopBelongsToLast(c: Core, last: nat)
    requires CoreInv(c) && last < |c.sections|
    requires c.sections[last].Critical() && LastCritical(c.sections, last)
    ensures c.cpsr != [] && c.cpsr[|c.cpsr| - 1] == c.sections[last].entry
  {
    LastStoredMask(c.sections, last);
  }

  lemma FloorUpToLast(a: seq<Section>, last: nat)
    requires last < |a| && a[last].Critical() && LastCritical(a, last)
    ensures Floor(a) == Join(Floor(a[..last]), Mask(true, a[last].level == Fiq))
  {
    assert a == a[..last + 1] + a[last + 1..];
    FloorOfConcat(a[..last + 1], a[last + 1..]);
    FloorOfTaskSections(a[last + 1..]);
    assert a[..last + 1][..last] == a[..last];
  }

  /** The mask that the section entered last found is enough for what remains when another critical section
      is left before it, if and only if it does not need more than that section did. */
  lemma EntryMaskSufficesIff(a: seq<Section>, i: nat, last: nat)
    requires Nested(a) && i < last < |a| && a[i].Critical() && a[last].Critical() && LastCritical(a, last)
    ensures AtLeast(a[last].entry, Floor(RemoveAt(a, i))) <==> a[last].level == Irq || a[last].entry.fiq
  {
    var b := RemoveAt(a, i);
    assert b[last - 1] == a[last] && LastCritical(b, last - 1);
    FloorUpToLast(b, last - 1);
    assert b[..last - 1] == RemoveAt(a[..last], i);
    FloorWithout(a[..last], i);
    FloorCovers(a[..last], i);
    assert AtLeast(a[last].entry, Floor(a[..last]));
  }
}
