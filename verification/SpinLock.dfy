/** CSpinLock on any number of cores: every interleaving of the LL/SC steps, critical sections and
    interrupts of CriticalSections. */
module SpinLock {
  import opened Sequences
  import opened CriticalSections

  /** `words[id]` is m_nLocked and `levels[id]` m_nTargetLevel of lock `id`. */
  datatype System = System(cores: seq<Core>, words: seq<nat>, levels: seq<Level>)

  /** The steps of a core are those of CriticalSections; here they meet the locks.  A lock is acquired at
      its own level, a load reads the lock's word, and a store succeeds only on an exclusive monitor. */
  predicate CanDo(s: System, n: nat, step: Step) {
    && n < |s.cores| && |s.words| == |s.levels|
    && Enabled(s.cores[n], step)
    && match step
       case BeginEnter(Lock(id), level) => id < |s.levels| && level == s.levels[id]
       case BeginTaskLock(id) => id < |s.levels| && s.levels[id] == Task
       case LoadExclusive(value) => var id := Last(s.cores[n]).pc.id; id < |s.words| && value == s.words[id]
       case StoreExclusive(_) => Last(s.cores[n]).pc.id < |s.words|
       case GiveBack(i) =>
         var t := s.cores[n].sections[i].target;
         t.Lock? ==> t.id < |s.words|
       case _ => true
  }

  /** A store to the word of a lock opens the monitors of the other cores that wait for it. */
  function Snoop(cores: seq<Core>, n: nat, id: nat): (r: seq<Core>)
    ensures |r| == |cores|
    ensures forall m | 0 <= m < |cores| ::
              r[m] == if m != n && cores[m].monitor == Exclusive(id) then cores[m].(monitor := Open) else cores[m]
  {
    seq(|cores|, m requires 0 <= m < |cores| =>
      if m != n && cores[m].monitor == Exclusive(id) then cores[m].(monitor := Open) else cores[m])
  }

  function Store(s: System, n: nat, id: nat, value: nat): System
    requires id < |s.words|
  {
    s.(cores := Snoop(s.cores, n, id), words := s.words[id := value])
  }

  /** The state after core `n` did a step. */
  function Next(s: System, n: nat, step: Step): System
    requires CanDo(s, n, step)
  {
    var t := s.(cores := s.cores[n := Do(s.cores[n], step)]);
    match step
    case StoreExclusive(true) => Store(t, n, Last(s.cores[n]).pc.id, 1)
    case GiveBack(i) =>
      var target := s.cores[n].sections[i].target;
      if target.Lock? then Store(t, n, target.id, 0) else t
    case _ => t
  }

  // ---------- runs ----------

  datatype Event = Event(core: nat, step: Step)

  /** At the start every core runs a task outside all sections, and every lock is free. */
  predicate Initial(s: System) {
    && |s.words| == |s.levels|
    && (forall id | 0 <= id < |s.words| :: s.words[id] == 0)
    && (forall n | 0 <= n < |s.cores| ::
      s.cores[n] == Core(Mask(false, false), [], [Frame(Mask(false, false), 0, Outside)], [], Open))
  }

  ghost predicate Reachable(s: System, run: seq<Event>, t: System)
    decreases |run|
  {
    if run == [] then t == s && Initial(s) else
      var last := run[|run| - 1];
      exists u: System :: Reachable(s, run[..|run| - 1], u) && CanDo(u, last.core, last.step)
        && t == Next(u, last.core, last.step)
  }

  // ---------- counting holders ----------

  function One(s: Section, id: nat): nat {
    if s.target == Lock(id) && s.holds then 1 else 0
  }

  /** How often a core holds a lock. */
  function Count(sections: seq<Section>, id: nat): nat {
    if sections == [] then 0 else Count(sections[..|sections| - 1], id) + One(sections[|sections| - 1], id)
  }

  /** How often all cores together hold a lock. */
  function Total(cores: seq<Core>, id: nat): nat {
    if cores == [] then 0 else Total(cores[..|cores| - 1], id) + Count(cores[|cores| - 1].sections, id)
  }

  lemma {:induction false} CountConcat(a: seq<Section>, b: seq<Section>, id: nat)
    ensures Count(a + b, id) == Count(a, id) + Count(b, id)
    decreases |b|
  {
    if b == [] {
      assert a + b == a;
    } else {
      assert (a + b)[..|a + b| - 1] == a + b[..|b| - 1];
      CountConcat(a, b[..|b| - 1], id);
    }
  }

  lemma CountAt(a: seq<Section>, i: nat, id: nat)
    requires i < |a|
    ensures Count(a, id) == Count(a[..i], id) + One(a[i], id) + Count(a[i + 1..], id)
    ensures Count(RemoveAt(a, i), id) == Count(a, id) - One(a[i], id)
  {
    assert a == a[..i + 1] + a[i + 1..] && a[..i + 1][..i] == a[..i];
    CountConcat(a[..i + 1], a[i + 1..], id);
    CountConcat(a[..i], a[i + 1..], id);
  }

  lemma CountUpdate(a: seq<Section>, i: nat, x: Section, id: nat)
    requires i < |a|
    ensures Count(a[i := x], id) == Count(a, id) - One(a[i], id) + One(x, id)
  {
    var b := a[i := x];
    CountAt(a, i, id);
    CountAt(b, i, id);
    assert b[..i] == a[..i] && b[i + 1..] == a[i + 1..];
  }

  lemma {:induction false} TotalUpdate(cores: seq<Core>, n: nat, c: Core, id: nat)
    requires n < |cores|
    ensures Total(cores[n := c], id) == Total(cores, id) - Count(cores[n].sections, id) + Count(c.sections, id)
    ensures Total(cores, id) >= Count(cores[n].sections, id)
    decreases |cores|
  {
    var k := |cores| - 1;
    if n == k {
      assert cores[n := c][..k] == cores[..k];
    } else {
      assert cores[n := c][..k] == cores[..k][n := c];
      TotalUpdate(cores[..k], n, c, id);
    }
  }

  lemma {:induction false} TotalSame(a: seq<Core>, b: seq<Core>, id: nat)
    requires |a| == |b| && forall m | 0 <= m < |a| :: a[m].sections == b[m].sections
    ensures Total(a, id) == Total(b, id)
    decreases |a|
  {
    if a != [] {
      TotalSame(a[..|a| - 1], b[..|b| - 1], id);
    }
  }

  lemma {:induction false} NoneHeld(cores: seq<Core>, id: nat)
    requires forall m | 0 <= m < |cores| :: cores[m].sections == []
    ensures Total(cores, id) == 0
    decreases |cores|
  {
    if cores != [] {
      NoneHeld(cores[..|cores| - 1], id);
    }
  }

  // ---------- invariant ----------

  /** The innermost context that is between a load and its store has not been overtaken while its core's
      monitor is exclusive: the word is still what it loaded, if that was zero. */
  ghost predicate MonitorOk(c: Core, words: seq<nat>) {
    forall k | 0 <= k < |c.frames| && Innermost(c, k) ::
      c.frames[k].pc.Loaded? && c.frames[k].pc.value == 0 && c.monitor == Exclusive(c.frames[k].pc.id) ==>
        c.frames[k].pc.id < |words| && words[c.frames[k].pc.id] == 0
  }

  predicate Waiting(pc: Pc) {
    pc.Spinning? || pc.Loaded?
  }

  ghost predicate Innermost(c: Core, k: nat)
    requires k < |c.frames|
  {
    forall j | k < j < |c.frames| :: !Waiting(c.frames[j].pc)
  }

  /** The locks that a core is concerned with exist and are used at their own level. */
  ghost predicate LocksExist(c: Core, levels: seq<Level>) {
    && (forall i | 0 <= i < |c.sections| && c.sections[i].target.Lock? ::
          c.sections[i].target.id < |levels| && c.sections[i].level == levels[c.sections[i].target.id])
    && (forall k | 0 <= k < |c.frames| :: AtLevel(c.frames[k].pc, levels))
  }

  predicate AtLevel(pc: Pc, levels: seq<Level>) {
    match pc
    case EnterRead(Lock(id), level, _) => id < |levels| && level == levels[id]
    case EnterMasked(Lock(id), level, _) => id < |levels| && level == levels[id]
    case EnterPushed(Lock(id), level) => id < |levels| && level == levels[id]
    case Spinning(id) => id < |levels|
    case Loaded(id, _) => id < |levels|
    case _ => true
  }

  /** Each lock's word says how often it is held, which is at most once. */
  ghost predicate Exclusion(cores: seq<Core>, words: seq<nat>) {
    forall id | 0 <= id < |words| :: words[id] <= 1 && Total(cores, id) == words[id]
  }

  ghost predicate Inv(s: System) {
    && |s.words| == |s.levels|
    && (forall n | 0 <= n < |s.cores| :: CoreInv(s.cores[n]))
    && (forall n | 0 <= n < |s.cores| :: MonitorOk(s.cores[n], s.words))
    && (forall n | 0 <= n < |s.cores| :: LocksExist(s.cores[n], s.levels))
    && Exclusion(s.cores, s.words)
  }

  // ---------- the invariant is kept ----------

  lemma OpenMonitorKeepsInv(c: Core)
    requires CoreInv(c)
    ensures CoreInv(c.(monitor := Open))
  {
    var d := c.(monitor := Open);
    forall k | 0 <= k < |d.frames| ensures FrameOk(d, k) {
      assert FrameOk(c, k);
    }
  }

  /** Interrupts begin and end outside of the LL/SC loop. */
  lemma InterruptKeepsMonitor(c: Core, step: Step, c': Core, words: seq<nat>)
    requires Enabled(c, step) && c' == Do(c, step) && MonitorOk(c, words)
    requires step.TakeIrq? || step.TakeFiq? || step.ReturnFromInterrupt?
    ensures MonitorOk(c', words)
  {
    forall k | 0 <= k < |c'.frames| && Innermost(c', k) && Waiting(c'.frames[k].pc)
      ensures k < |c.frames| && c.frames[k] == c'.frames[k] && Innermost(c, k)
    {
      forall j | k < j < |c.frames| ensures !Waiting(c.frames[j].pc) {
        assert j < |c'.frames| ==> c.frames[j] == c'.frames[j];
      }
    }
  }

  /** A load reads the word that it reserves. */
  lemma LoadKeepsMonitor(c: Core, step: Step, c': Core, words: seq<nat>)
    requires Enabled(c, step) && c' == Do(c, step) && step.LoadExclusive?
    requires Last(c).pc.id < |words| && step.value == words[Last(c).pc.id]
    ensures MonitorOk(c', words)
  {
    var last := |c.frames| - 1;
    assert c'.frames[last].pc.Loaded?;
    assert forall k | 0 <= k < last :: !Innermost(c', k);
  }

  /** A store opens the monitor, whether it succeeds or not. */
  lemma StoreOpensMonitor(c: Core, step: Step, c': Core, words: seq<nat>)
    requires Enabled(c, step) && c' == Do(c, step) && step.StoreExclusive?
    ensures MonitorOk(c', words)
  {
  }

  /** Every other step leaves the monitor and the contexts below alone, and does not leave the loop. */
  lemma OtherStepKeepsMonitor(c: Core, step: Step, c': Core, words: seq<nat>)
    requires Enabled(c, step) && c' == Do(c, step) && MonitorOk(c, words)
    requires !step.TakeIrq? && !step.TakeFiq? && !step.ReturnFromInterrupt?
    requires !step.LoadExclusive? && !step.StoreExclusive?
    ensures MonitorOk(c', words)
  {
    var last := |c.frames| - 1;
    forall k | 0 <= k < |c'.frames| && Innermost(c', k) && c'.frames[k].pc.Loaded?
      ensures c.frames[k] == c'.frames[k] && Innermost(c, k)
    {
      assert k < last;
      forall j | k < j < |c.frames| ensures !Waiting(c.frames[j].pc) {
        assert !Waiting(c'.frames[j].pc);
      }
    }
  }

  /** Giving a lock back can only make a word zero. */
  lemma ZeroKeepsMonitor(c: Core, words: seq<nat>, id: nat)
    requires MonitorOk(c, words) && id < |words|
    ensures MonitorOk(c, words[id := 0])
  {
  }

  lemma StepKeepsLocks(s: System, n: nat, step: Step, c': Core)
    requires CanDo(s, n, step) && c' == Do(s.cores[n], step)
    requires CoreInv(s.cores[n]) && LocksExist(s.cores[n], s.levels)
    ensures LocksExist(c', s.levels)
  {
    var c := s.cores[n];
    RunningPosition(c);
    forall i | 0 <= i < |c'.sections| && c'.sections[i].target.Lock?
      ensures c'.sections[i].target.id < |s.levels| && c'.sections[i].level == s.levels[c'.sections[i].target.id]
    {
      assert AtLevel(Last(c).pc, s.levels);
    }
    forall k | 0 <= k < |c'.frames| ensures AtLevel(c'.frames[k].pc, s.levels) {
      assert k < |c.frames| ==> AtLevel(c.frames[k].pc, s.levels);
    }
  }

  /** How a step changes the number of locks its core holds. */
  function Gain(c: Core, step: Step, id: nat): int
    requires Enabled(c, step)
  {
    match step
    case StoreExclusive(true) => if Last(c).pc.id == id then 1 else 0
    case GiveBack(i) => if c.sections[i].target == Lock(id) then -1 else 0
    case _ => 0
  }

  lemma StepCounts(c: Core, step: Step, c': Core, id: nat)
    requires CoreInv(c) && Enabled(c, step) && c' == Do(c, step)
    ensures Count(c'.sections, id) == Count(c.sections, id) + Gain(c, step, id)
  {
    RunningPosition(c);
    match step
    case PushCpsr => assert c'.sections[..|c.sections|] == c.sections;
    case BeginTaskLock(_) => assert c'.sections[..|c.sections|] == c.sections;
    case StoreExclusive(success) =>
      if success {
        CountUpdate(c.sections, |c.sections| - 1, c'.sections[|c.sections| - 1], id);
      }
    case GiveBack(i) =>
      if c.sections[i].Critical() {
        CountUpdate(c.sections, i, c'.sections[i], id);
      } else {
        CountAt(c.sections, i, id);
      }
    case PopCpsr => CountAt(c.sections, Last(c).pc.index, id);
    case _ =>
  }

  /** Everything about the cores that the words do not matter for. */
  lemma StepKeepsCores(s: System, n: nat, step: Step, t: System)
    requires Inv(s) && CanDo(s, n, step) && t == Next(s, n, step)
    ensures |t.cores| == |s.cores| && t.levels == s.levels && |t.words| == |s.words|
    ensures forall m | 0 <= m < |t.cores| :: CoreInv(t.cores[m]) && LocksExist(t.cores[m], t.levels)
  {
    StepKeepsCoreInv(s.cores[n], step, Do(s.cores[n], step));
    StepKeepsLocks(s, n, step, Do(s.cores[n], step));
    forall m | 0 <= m < |t.cores| ensures CoreInv(t.cores[m]) && LocksExist(t.cores[m], t.levels) {
      if m != n {
        OpenMonitorKeepsInv(s.cores[m]);
        assert LocksExist(s.cores[m], s.levels);
      }
    }
  }

  lemma StepKeepsMonitors(s: System, n: nat, step: Step, t: System)
    requires Inv(s) && CanDo(s, n, step) && t == Next(s, n, step)
    ensures forall m | 0 <= m < |t.cores| :: MonitorOk(t.cores[m], t.words)
  {
    var c, c' := s.cores[n], Do(s.cores[n], step);
    assert MonitorOk(c, s.words);
    assert t.cores[n] == c';
    if step.StoreExclusive? {
      StoreOpensMonitor(c, step, c', t.words);
    } else if step.LoadExclusive? {
      LoadKeepsMonitor(c, step, c', s.words);
    } else if step.TakeIrq? || step.TakeFiq? || step.ReturnFromInterrupt? {
      InterruptKeepsMonitor(c, step, c', s.words);
    } else {
      OtherStepKeepsMonitor(c, step, c', s.words);
      if step.GiveBack? && c.sections[step.index].target.Lock? {
        ZeroKeepsMonitor(c', s.words, c.sections[step.index].target.id);
      }
    }
    OthersKeepMonitors(s, n, step, t);
  }

  lemma OthersKeepMonitors(s: System, n: nat, step: Step, t: System)
    requires Inv(s) && CanDo(s, n, step) && t == Next(s, n, step)
    ensures forall m | 0 <= m < |t.cores| && m != n :: MonitorOk(t.cores[m], t.words)
  {
  }

  /** The store that takes a lock finds it free: the monitor would be open otherwise. */
  lemma StoreFindsZero(s: System, n: nat)
    requires Inv(s) && CanDo(s, n, StoreExclusive(true))
    ensures s.words[Last(s.cores[n]).pc.id] == 0
  {
  }

  /** A lock is given back by the core that holds it. */
  lemma GiveBackFindsOne(s: System, n: nat, i: nat)
    requires Inv(s) && CanDo(s, n, GiveBack(i)) && s.cores[n].sections[i].target.Lock?
    ensures s.cores[n].sections[i].holds
    ensures s.words[s.cores[n].sections[i].target.id] == 1
  {
    var c := s.cores[n];
    RunningPosition(c);
    var id := c.sections[i].target.id;
    CountAt(c.sections, i, id);
    TotalUpdate(s.cores, n, c, id);
  }

  lemma StepChangesTotal(s: System, n: nat, step: Step, t: System, id: nat)
    requires Inv(s) && CanDo(s, n, step) && t == Next(s, n, step)
    ensures Total(t.cores, id) == Total(s.cores, id) + Gain(s.cores[n], step, id)
  {
    var c' := Do(s.cores[n], step);
    StepCounts(s.cores[n], step, c', id);
    TotalUpdate(s.cores, n, c', id);
    TotalSame(s.cores[n := c'], t.cores, id);
  }

  lemma StepKeepsExclusion(s: System, n: nat, step: Step, t: System)
    requires Inv(s) && CanDo(s, n, step) && t == Next(s, n, step)
    ensures Exclusion(t.cores, t.words)
  {
    var c := s.cores[n];
    if step == StoreExclusive(true) {
      StoreFindsZero(s, n);
    } else if step.GiveBack? && c.sections[step.index].target.Lock? {
      GiveBackFindsOne(s, n, step.index);
    }
    forall id | 0 <= id < |t.words| ensures t.words[id] <= 1 && Total(t.cores, id) == t.words[id] {
      StepChangesTotal(s, n, step, t, id);
    }
  }

  lemma StepKeepsInv(s: System, n: nat, step: Step, t: System)
    requires Inv(s) && CanDo(s, n, step) && t == Next(s, n, step)
    ensures Inv(t)
  {
    StepKeepsCores(s, n, step, t);
    StepKeepsMonitors(s, n, step, t);
    StepKeepsExclusion(s, n, step, t);
  }

  lemma InitialInv(s: System)
    requires Initial(s)
    ensures Inv(s)
  {
    forall n | 0 <= n < |s.cores| ensures CoreInv(s.cores[n]) {
      assert FrameOk(s.cores[n], 0);
    }
    forall id | 0 <= id < |s.words| ensures Total(s.cores, id) == 0 {
      NoneHeld(s.cores, id);
    }
  }

  lemma {:induction false} ReachableInv(s: System, run: seq<Event>, t: System)
    requires Reachable(s, run, t)
    ensures Inv(t) && |t.cores| == |s.cores| && t.levels == s.levels
    decreases |run|
  {
    if run == [] {
      InitialInv(s);
    } else {
      var last := run[|run| - 1];
      var u: System :| Reachable(s, run[..|run| - 1], u) && CanDo(u, last.core, last.step)
        && t == Next(u, last.core, last.step);
      ReachableInv(s, run[..|run| - 1], u);
      StepKeepsInv(u, last.core, last.step, t);
    }
  }

  // ---------- what spin locks are for ----------

  /** Core `n` is inside Acquire and Release of lock `id`, with the lock taken, in section `i`. */
  ghost predicate Holds(s: System, n: nat, i: nat, id: nat) {
    n < |s.cores| && i < |s.cores[n].sections|
      && s.cores[n].sections[i].target == Lock(id) && s.cores[n].sections[i].holds
  }

  lemma {:induction false} TwoCores(cores: seq<Core>, n: nat, m: nat, id: nat)
    requires n < m < |cores|
    ensures Total(cores, id) >= Count(cores[n].sections, id) + Count(cores[m].sections, id)
    decreases |cores|
  {
    var k := |cores| - 1;
    if m == k {
      TotalUpdate(cores[..k], n, cores[n], id);
    } else {
      TwoCores(cores[..k], n, m, id);
    }
  }

  lemma TwoSections(a: seq<Section>, i: nat, j: nat, id: nat)
    requires i < j < |a|
    ensures Count(a, id) >= One(a[i], id) + One(a[j], id)
  {
    CountAt(a, j, id);
    CountAt(a[..j], i, id);
  }

  lemma HolderIsUnique(s: System, id: nat, n: nat, i: nat, m: nat, j: nat)
    requires Inv(s) && Holds(s, n, i, id) && Holds(s, m, j, id)
    ensures n == m && i == j
  {
    assert LocksExist(s.cores[n], s.levels);
    CountAt(s.cores[n].sections, i, id);
    CountAt(s.cores[m].sections, j, id);
    if n < m {
      TwoCores(s.cores, n, m, id);
    } else if m < n {
      TwoCores(s.cores, m, n, id);
    } else {
      TotalUpdate(s.cores, n, s.cores[n], id);
      if i < j {
        TwoSections(s.cores[n].sections, i, j, id);
      } else if j < i {
        TwoSections(s.cores[n].sections, j, i, id);
      }
    }
  }

  /** However the cores and their interrupts interleave: at most one core holds a lock, once, and its word
      says whether one does. */
  lemma MutualExclusion(s: System, run: seq<Event>, t: System, id: nat)
    requires Reachable(s, run, t) && id < |t.levels|
    ensures |t.words| == |t.levels| && t.words[id] <= 1
    ensures t.words[id] == 0 <==> forall n: nat, i: nat :: !Holds(t, n, i, id)
    ensures forall n: nat, i: nat, m: nat, j: nat :: Holds(t, n, i, id) && Holds(t, m, j, id) ==> n == m && i == j
  {
    ReachableInv(s, run, t);
    forall n: nat, i: nat, m: nat, j: nat | Holds(t, n, i, id) && Holds(t, m, j, id) ensures n == m && i == j {
      HolderIsUnique(t, id, n, i, m, j);
    }
    forall n: nat, i: nat | Holds(t, n, i, id) ensures t.words[id] != 0 {
      CountAt(t.cores[n].sections, i, id);
      TotalUpdate(t.cores, n, t.cores[n], id);
    }
    if forall n: nat, i: nat :: !Holds(t, n, i, id) {
      forall n | 0 <= n < |t.cores| ensures Count(t.cores[n].sections, id) == 0 {
        forall i | 0 <= i < |t.cores[n].sections| ensures One(t.cores[n].sections[i], id) == 0 {
          assert !Holds(t, n, i, id);
        }
        CountZero(t.cores[n].sections, id);
      }
      TotalZero(t.cores, id);
    }
  }

  lemma {:induction false} CountZero(a: seq<Section>, id: nat)
    requires forall i | 0 <= i < |a| :: One(a[i], id) == 0
    ensures Count(a, id) == 0
    decreases |a|
  {
    if a != [] {
      CountZero(a[..|a| - 1], id);
    }
  }

  lemma {:induction false} TotalZero(cores: seq<Core>, id: nat)
    requires forall n | 0 <= n < |cores| :: Count(cores[n].sections, id) == 0
    ensures Total(cores, id) == 0
    decreases |cores|
  {
    if cores != [] {
      TotalZero(cores[..|cores| - 1], id);
    }
  }

  /** A core that finds the lock free takes it, if nothing comes in between. */
  lemma FreeLockIsTaken(s: System, n: nat, id: nat) returns (t: System, u: System)
    requires Inv(s) && n < |s.cores| && Last(s.cores[n]).pc == Spinning(id)
    requires id < |s.words| && s.words[id] == 0 && s.cores[n].sections != []
    ensures CanDo(s, n, LoadExclusive(0)) && t == Next(s, n, LoadExclusive(0))
    ensures CanDo(t, n, StoreExclusive(true)) && u == Next(t, n, StoreExclusive(true))
    ensures u.words == s.words[id := 1] && Last(u.cores[n]).pc == Outside
    ensures u.cores[n].sections[|s.cores[n].sections| - 1].holds
  {
    t := Next(s, n, LoadExclusive(0));
    u := Next(t, n, StoreExclusive(true));
  }

  /** One that finds it taken cannot store, but tries again. */
  lemma TakenLockIsAwaited(s: System, n: nat, id: nat)
    requires n < |s.cores| && |s.words| == |s.levels| && s.cores[n].frames != []
    requires Last(s.cores[n]).pc == Spinning(id) && id < |s.words| && s.words[id] == 1
    ensures CanDo(s, n, LoadExclusive(1))
    ensures var t := Next(s, n, LoadExclusive(1));
      && !CanDo(t, n, StoreExclusive(true)) && !CanDo(t, n, StoreExclusive(false)) && CanDo(t, n, Retry)
      && Last(Next(t, n, Retry).cores[n]).pc == Spinning(id)
  {
  }

  /** Giving a lock back frees it. */
  lemma ReleaseFrees(s: System, n: nat, i: nat, id: nat)
    requires CanDo(s, n, GiveBack(i)) && s.cores[n].sections[i].target == Lock(id)
    ensures Next(s, n, GiveBack(i)).words == s.words[id := 0]
  {
  }

  /** The holder of an IRQ_LEVEL lock cannot be interrupted by an IRQ, that of an FIQ_LEVEL lock by
      nothing, until it has released the lock. */
  lemma HolderIsNotInterrupted(s: System, run: seq<Event>, t: System, n: nat, i: nat, id: nat)
    requires Reachable(s, run, t) && Holds(t, n, i, id)
    ensures id < |t.levels|
    ensures t.levels[id] != Task ==> t.cores[n].mask.irq && !CanDo(t, n, TakeIrq)
    ensures t.levels[id] == Fiq ==> t.cores[n].mask.fiq && !CanDo(t, n, TakeFiq)
  {
    ReachableInv(s, run, t);
    var c := t.cores[n];
    assert LocksExist(c, t.levels);
    if c.sections[i].Critical() {
      SectionMasksItsLevel(c, |c.frames| - 1, i);
    }
  }
}
