/** The queue of kernel timers: start, cancel and poll on 32-bit tick counts, and what they mean in time. */
module KernelTimers {
  import opened Sequences

  const MODULUS: int := 0x1_0000_0000
  const HALF: int := 0x8000_0000

  /** Between reading the tick count and inserting the timer StartKernelTimer may be interrupted: so many
      ticks may pass meanwhile. */
  const MAX_LAG: nat := 0xFFFF

  /** The longest delay for which the signed comparison of any two queued timers is right: one may be a tick
      and MAX_LAG behind the tick count, the other one this far ahead of it. */
  const MAX_DELAY: nat := 0x7FFE_FFFF
  type Delay = d: nat | d <= MAX_DELAY

  /** `elapsesAt` is the 32-bit word that the code compares.  `due` is the tick since boot at which the timer
      has to fire, and `started` the one at which it was put into the queue; the code does not know them.
      Handles are numbered in the order in which timers are put into the queue. */
  datatype Timer = Timer(handle: nat, elapsesAt: nat, started: nat, due: nat)

  /** `now` counts the ticks since boot (m_nTicks is its low word), `started` the timers. */
  datatype State = State(now: nat, started: nat, queue: seq<Timer>)

  function Word(n: nat): nat {
    n % MODULUS
  }

  /** (int) (a - b) > 0 */
  predicate Later(a: nat, b: nat) {
    0 < (a - b) % MODULUS < HALF
  }

  // ---------- start and cancel ----------

  function Insert(queue: seq<Timer>, t: Timer): (r: seq<Timer>)
    ensures |r| == |queue| + 1
  {
    if queue == [] || Later(queue[0].elapsesAt, t.elapsesAt) then [t] + queue else
      [queue[0]] + Insert(queue[1..], t)
  }

  /** A timer whose delay counts from tick `read`. */
  function NewTimer(s: State, read: nat, d: Delay): Timer {
    Timer(s.started, Word(Word(read) + d), s.now, read + d)
  }

  /** StartKernelTimer from Acquire on, after it has read the tick count at tick `read`. */
  function Start(s: State, read: nat, d: Delay): State {
    s.(started := s.started + 1, queue := Insert(s.queue, NewTimer(s, read, d)))
  }

  /** The tick count was read recently. */
  predicate Recent(s: State, read: nat) {
    read <= s.now <= read + MAX_LAG
  }

  /** Where a timer is in the queue; the length of the queue if nowhere. */
  function Find(queue: seq<Timer>, handle: nat): (i: nat)
    ensures i <= |queue|
    ensures i < |queue| ==> queue[i].handle == handle
    ensures forall j | 0 <= j < i :: queue[j].handle != handle
  {
    if queue == [] || queue[0].handle == handle then 0 else 1 + Find(queue[1..], handle)
  }

  function Cancel(s: State, handle: nat): State {
    var i := Find(s.queue, handle);
    if i < |s.queue| then s.(queue := RemoveAt(s.queue, i)) else s
  }

  // ---------- poll ----------

  /** What a timer handler, or another core while a handler runs, may do.  There is no tick in a poll. */
  datatype Action = StartTimer(delay: Delay) | CancelTimer(handle: nat)

  function Act(s: State, a: Action): State {
    match a
    case StartTimer(d) => Start(s, s.now, d)
    case CancelTimer(h) => Cancel(s, h)
  }

  function Run(s: State, actions: seq<Action>): State
    decreases |actions|
  {
    if actions == [] then s else Run(Act(s, actions[0]), actions[1..])
  }

  /** pElement: the timer looked at next. */
  datatype Cursor = End | At(handle: nat)

  /** `Dangling`: the saved successor was cancelled while a handler ran. */
  datatype Outcome = Dangling | Polled(state: State, fired: seq<Timer>)

  function First(queue: seq<Timer>): Cursor {
    if queue == [] then End else At(queue[0].handle)
  }

  function Head(scripts: seq<seq<Action>>): seq<Action> {
    if scripts == [] then [] else scripts[0]
  }

  function Tail(scripts: seq<seq<Action>>): seq<seq<Action>> {
    if scripts == [] then [] else scripts[1..]
  }

  /** The loop of PollKernelTimers: `scripts` is what is done during the handlers, one by one; handlers
      without a script do nothing with timers. */
  function PollFrom(s: State, cursor: Cursor, scripts: seq<seq<Action>>): Outcome
    decreases |scripts|, |s.queue|
  {
    match cursor
    case End => Polled(s, [])
    case At(h) =>
      var i := Find(s.queue, h);
      if i == |s.queue| then Dangling
      else if Later(s.queue[i].elapsesAt, Word(s.now)) then Polled(s, [])
      else
        var next := First(s.queue[i + 1..]);
        var u := Run(s.(queue := RemoveAt(s.queue, i)), Head(scripts));
        match PollFrom(u, next, Tail(scripts))
        case Dangling => Dangling
        case Polled(v, fired) => Polled(v, [s.queue[i]] + fired)
  }

  function Poll(s: State, scripts: seq<seq<Action>>): Outcome {
    PollFrom(s, First(s.queue), scripts)
  }

  /** The same in terms of time, without pointers: fire the first timer if it is due, and go on if the one
      behind it was due as well. */
  function Fire(s: State, scripts: seq<seq<Action>>): (State, seq<Timer>)
    decreases |scripts|, |s.queue|
  {
    if s.queue == [] || s.queue[0].due > s.now then (s, []) else
      var u := AfterFirst(s, scripts);
      if SecondIsDue(s) then
        var r := Fire(u, Tail(scripts));
        (r.0, [s.queue[0]] + r.1)
      else
        (u, [s.queue[0]])
  }

  predicate SecondIsDue(s: State) {
    |s.queue| > 1 && s.queue[1].due <= s.now
  }

  function AfterFirst(s: State, scripts: seq<seq<Action>>): State
    requires s.queue != []
  {
    Run(s.(queue := s.queue[1..]), Head(scripts))
  }

  // ---------- the order of the queue ----------

  /** Due earlier, or at the same tick but started earlier. */
  predicate Before(a: Timer, b: Timer) {
    a.due < b.due || (a.due == b.due && a.handle < b.handle)
  }

  ghost predicate Sorted(q: seq<Timer>) {
    forall i, j | 0 <= i < j < |q| :: Before(q[i], q[j])
  }

  ghost predicate OwnHandles(q: seq<Timer>) {
    forall i, j | 0 <= i < j < |q| :: q[i].handle != q[j].handle
  }

  /** The tick from which on a timer is to be fired. */
  function Expiry(t: Timer): nat {
    if t.due > t.started then t.due else t.started
  }

  /** A timer of the queue: at most one tick late, never more than MAX_DELAY ahead. */
  predicate InTime(s: State, t: Timer) {
    && t.elapsesAt == Word(t.due)
    && t.handle < s.started
    && t.started <= s.now <= Expiry(t) + 1
    && t.started - MAX_LAG <= t.due <= s.now + MAX_DELAY
    && (Expiry(t) < s.now ==> t.due <= t.started)
  }

  ghost predicate Inv(s: State) {
    Sorted(s.queue) && OwnHandles(s.queue) && forall t | t in s.queue :: InTime(s, t)
  }

  /** What is still queued after a poll is due later, or was started too late for it. */
  ghost predicate Idle(s: State) {
    Inv(s) && forall t | t in s.queue :: t.due > s.now || t.started == s.now
  }

  // ---------- tick counts and time ----------

  lemma SmallModulo(x: int)
    requires -MODULUS < x < MODULUS
    ensures x % MODULUS == if x < 0 then x + MODULUS else x
  {
  }

  lemma ModuloOfDifference(a: nat, b: nat)
    ensures (Word(a) - Word(b)) % MODULUS == (a - b) % MODULUS
  {
  }

  lemma ModuloOfMultiple(k: int, x: int)
    ensures (MODULUS * k + x) % MODULUS == x % MODULUS
  {
  }

  /** The signed comparison of two tick counts is right while they are less than 2^31 ticks apart. */
  lemma LaterInTime(a: nat, b: nat)
    requires -HALF < a - b < HALF
    ensures Later(Word(a), Word(b)) <==> a > b
  {
    ModuloOfDifference(a, b);
    SmallModulo(a - b);
  }

  /** A timer counts as being ahead just when its delay is at least 1 and below 2^31.  One that is started
      with a longer delay is due at once. */
  lemma DelayIsAheadIff(now: nat, d: nat)
    requires d < MODULUS
    ensures Later(Word(now + d), Word(now)) <==> 0 < d < HALF
  {
    ModuloOfDifference(now + d, now);
    SmallModulo(d);
  }

  lemma WordOfSum(a: nat, d: nat)
    ensures Word(Word(a) + d) == Word(a + d)
  {
    assert a + d == MODULUS * (a / MODULUS) + (Word(a) + d);
    ModuloOfMultiple(a / MODULUS, Word(a) + d);
  }

  // ---------- start and cancel keep the order ----------

  /** The place of a new timer, in terms of time: behind everything that is not due later. */
  function Place(queue: seq<Timer>, due: nat): (i: nat)
    ensures i <= |queue|
  {
    if queue == [] || queue[0].due > due then 0 else 1 + Place(queue[1..], due)
  }

  lemma {:induction false} InsertAtPlace(queue: seq<Timer>, t: Timer)
    requires t.elapsesAt == Word(t.due)
    requires forall x | x in queue :: x.elapsesAt == Word(x.due) && -HALF < x.due - t.due < HALF
    ensures Insert(queue, t) == InsertAt(queue, Place(queue, t.due), t)
    decreases |queue|
  {
    if queue != [] {
      var x := queue[0];
      assert x in queue;
      LaterInTime(x.due, t.due);
      if x.due <= t.due {
        InsertAtPlace(queue[1..], t);
        var i := Place(queue[1..], t.due);
        assert queue[..i + 1] == [x] + queue[1..][..i];
        assert queue[i + 1..] == queue[1..][i..];
      }
    }
  }

  lemma {:induction false} PlaceSplits(queue: seq<Timer>, due: nat)
    requires Sorted(queue)
    ensures forall j | 0 <= j < Place(queue, due) :: queue[j].due <= due
    ensures forall j | Place(queue, due) <= j < |queue| :: queue[j].due > due
    decreases |queue|
  {
    if queue != [] && queue[0].due <= due {
      assert forall j | 0 < j < |queue| :: queue[j] == queue[1..][j - 1];
      PlaceSplits(queue[1..], due);
    }
  }

  lemma SortedInsert(q: seq<Timer>, i: nat, t: Timer)
    requires Sorted(q) && OwnHandles(q) && i <= |q|
    requires forall j | 0 <= j < i :: Before(q[j], t)
    requires forall j | i <= j < |q| :: Before(t, q[j])
    requires forall j | 0 <= j < |q| :: q[j].handle != t.handle
    ensures Sorted(InsertAt(q, i, t)) && OwnHandles(InsertAt(q, i, t))
  {
  }

  /** What actions of handlers keep. */
  ghost predicate Evolves(s: State, u: State) {
    && Inv(u) && u.now == s.now && u.started >= s.started
    && forall t | t in u.queue :: t in s.queue || (t.handle >= s.started && t.started == s.now <= t.due)
  }

  /** The new timer goes behind the timers that are due no later, at the tick the caller asked for, even if
      that is past already. */
  lemma StartKeepsInv(s: State, read: nat, d: Delay, u: State)
    requires Inv(s) && Recent(s, read) && u == Start(s, read, d)
    ensures Inv(u)
    ensures u.queue == InsertAt(s.queue, Place(s.queue, read + d), NewTimer(s, read, d))
    ensures forall t :: t in u.queue <==> t in s.queue || t == NewTimer(s, read, d)
  {
    var t := NewTimer(s, read, d);
    StartInserts(s, read, d);
    SortedStart(s, t);
    InsertedMembers(s.queue, Place(s.queue, read + d), t);
    StartedInTime(s, read, d, u);
  }

  /** What is new in the queue: one timer, whose tick is so many behind the one read. */
  lemma StartQueues(s: State, read: nat, d: Delay, u: State) returns (t: Timer)
    requires Inv(s) && Recent(s, read) && u == Start(s, read, d)
    ensures t in u.queue && t.handle == s.started && t.due == read + d && t.started == s.now
    ensures t.elapsesAt == (read + d) % 0x1_0000_0000
    ensures u.now == s.now && u.started == s.started + 1
    ensures forall x | x in u.queue :: x == t || x in s.queue
    ensures forall x | x in s.queue :: x in u.queue
  {
    StartKeepsInv(s, read, d, u);
    t := NewTimer(s, read, d);
    WordOfSum(read, d);
  }

  lemma StartedInTime(s: State, read: nat, d: Delay, u: State)
    requires Recent(s, read) && u.now == s.now && u.started == s.started + 1
    requires forall x | x in s.queue :: InTime(s, x)
    requires forall x | x in u.queue :: x in s.queue || x == NewTimer(s, read, d)
    ensures forall x | x in u.queue :: InTime(u, x)
  {
    WordOfSum(read, d);
  }

  lemma SortedStart(s: State, t: Timer)
    requires Inv(s) && t.handle == s.started
    ensures Sorted(InsertAt(s.queue, Place(s.queue, t.due), t))
    ensures OwnHandles(InsertAt(s.queue, Place(s.queue, t.due), t))
  {
    PlaceSplits(s.queue, t.due);
    assert forall j | 0 <= j < |s.queue| :: s.queue[j] in s.queue;
    SortedInsert(s.queue, Place(s.queue, t.due), t);
  }

  lemma StartInserts(s: State, read: nat, d: Delay)
    requires Inv(s) && Recent(s, read)
    ensures Start(s, read, d).queue == InsertAt(s.queue, Place(s.queue, read + d), NewTimer(s, read, d))
  {
    WordOfSum(read, d);
    InsertAtPlace(s.queue, NewTimer(s, read, d));
  }

  lemma InsertedMembers(q: seq<Timer>, i: nat, t: Timer)
    requires i <= |q|
    ensures forall x :: x in InsertAt(q, i, t) <==> x in q || x == t
  {
    assert q == q[..i] + q[i..];
  }

  lemma SortedWithout(q: seq<Timer>, i: nat)
    requires Sorted(q) && OwnHandles(q) && i < |q|
    ensures Sorted(RemoveAt(q, i)) && OwnHandles(RemoveAt(q, i))
  {
  }

  /** Cancelling removes the timer with this handle, and no other. */
  lemma CancelKeepsInv(s: State, h: nat, u: State)
    requires Inv(s) && u == Cancel(s, h)
    ensures Evolves(s, u) && u.started == s.started
    ensures forall t :: t in u.queue <==> t in s.queue && t.handle != h
  {
    var i := Find(s.queue, h);
    if i < |s.queue| {
      SortedWithout(s.queue, i);
      forall t ensures t in u.queue <==> t in s.queue && t.handle != h {
        if t in s.queue && t.handle != h {
          var j :| 0 <= j < |s.queue| && s.queue[j] == t;
          assert u.queue[if j < i then j else j - 1] == t;
        }
      }
    }
  }

  lemma ActKeepsInv(s: State, a: Action, u: State)
    requires Inv(s) && u == Act(s, a)
    ensures Evolves(s, u)
  {
    match a
    case StartTimer(d) => StartKeepsInv(s, s.now, d, u);
    case CancelTimer(h) => CancelKeepsInv(s, h, u);
  }

  lemma {:induction false} RunKeepsInv(s: State, actions: seq<Action>, u: State)
    requires Inv(s) && u == Run(s, actions)
    ensures Evolves(s, u)
    decreases |actions|
  {
    if actions != [] {
      var m := Act(s, actions[0]);
      ActKeepsInv(s, actions[0], m);
      RunKeepsInv(m, actions[1..], u);
    }
  }

  // ---------- the poll loop with its saved pointer is Fire ----------

  lemma SortedTail(q: seq<Timer>, r: seq<Timer>)
    requires Sorted(q) && OwnHandles(q) && q != [] && r == q[1..]
    ensures Sorted(r) && OwnHandles(r) && forall t | t in r :: t in q
  {
    assert forall j | 0 <= j < |r| :: r[j] == q[j + 1];
  }

  lemma AfterFirstKeepsInv(s: State, scripts: seq<seq<Action>>, m: State, u: State)
    requires Inv(s) && s.queue != []
    requires m == s.(queue := s.queue[1..]) && u == AfterFirst(s, scripts)
    ensures Inv(m) && Evolves(m, u)
  {
    SortedTail(s.queue, m.queue);
    RunKeepsInv(m, Head(scripts), u);
  }

  lemma SameHandle(q: seq<Timer>, a: Timer, b: Timer)
    requires OwnHandles(q) && a in q && b in q && a.handle == b.handle
    ensures a == b
  {
  }

  /** A due timer at the front stays at the front until it is removed. */
  lemma FirstStaysFirst(m: State, u: State)
    requires Inv(m) && Evolves(m, u)
    requires m.queue != [] && m.queue[0].due <= m.now
    requires exists t :: t in u.queue && t.handle == m.queue[0].handle
    ensures u.queue != [] && u.queue[0] == m.queue[0]
  {
    var x, y := m.queue[0], u.queue[0];
    assert x in m.queue;
    var z :| z in u.queue && z.handle == x.handle;
    SameHandle(m.queue, x, z);
    assert y == x || Before(y, x);
    assert y in m.queue ==> y == x || Before(x, y);
  }

  /** The saved successor is not due: the poll ends. */
  lemma NotDueEnds(m: State, u: State, scripts: seq<seq<Action>>)
    requires Inv(m) && Evolves(m, u)
    requires m.queue != [] && m.queue[0].due > m.now
    requires Find(u.queue, m.queue[0].handle) < |u.queue|
    ensures PollFrom(u, At(m.queue[0].handle), scripts) == Polled(u, [])
  {
    var x := m.queue[0];
    var z := u.queue[Find(u.queue, x.handle)];
    assert x in m.queue && z in u.queue;
    SameHandle(m.queue, x, z);
    LaterInTime(z.due, u.now);
  }

  /** While a handler runs the saved successor goes away if and only if it is cancelled. */
  lemma SuccessorGoneIff(m: State, actions: seq<Action>, u: State)
    requires Inv(m) && u == Run(m, actions) && m.queue != []
    ensures Find(u.queue, m.queue[0].handle) == |u.queue| <==> CancelTimer(m.queue[0].handle) in actions
  {
    var x, i := m.queue[0], Find(u.queue, m.queue[0].handle);
    assert x in m.queue && (i < |u.queue| ==> u.queue[i] in u.queue);
    if CancelTimer(x.handle) in actions {
      RunCancels(m, actions, x.handle);
    } else {
      RunLosesOnlyCancelled(m, actions, x);
      var j :| 0 <= j < |u.queue| && u.queue[j] == x;
    }
  }

  /** Some turn that a poll gets to cancels the second timer of the queue, which is looked at next. */
  predicate CancelsNext(s: State, scripts: seq<seq<Action>>)
    decreases |scripts|, |s.queue|
  {
    && |s.queue| > 1 && s.queue[0].due <= s.now
    && (CancelTimer(s.queue[1].handle) in Head(scripts)
        || (s.queue[1].due <= s.now && CancelsNext(AfterFirst(s, scripts), Tail(scripts))))
  }

  lemma PollUnfolds(s: State, scripts: seq<seq<Action>>, m: State, u: State)
    requires Inv(s) && s.queue != [] && s.queue[0].due <= s.now
    requires m == s.(queue := s.queue[1..]) && u == AfterFirst(s, scripts)
    ensures Poll(s, scripts) == match PollFrom(u, First(m.queue), Tail(scripts))
                                case Dangling => Dangling
                                case Polled(v, fired) => Polled(v, [s.queue[0]] + fired)
  {
    assert s.queue[0] in s.queue;
    LaterInTime(s.queue[0].due, s.now);
    assert RemoveAt(s.queue, 0) == m.queue;
  }

  /** PollKernelTimers keeps a pointer to the successor while the handler runs.  The pointer is stale if and
      only if some turn cancels the timer behind the one that it fires; otherwise the loop fires from the
      front of the queue, whatever the handlers do. */
  lemma {:induction false} PollIsFire(s: State, scripts: seq<seq<Action>>)
    requires Inv(s)
    ensures Poll(s, scripts) == Dangling <==> CancelsNext(s, scripts)
    ensures !CancelsNext(s, scripts) ==> Poll(s, scripts) == Polled(Fire(s, scripts).0, Fire(s, scripts).1)
    decreases |scripts|, |s.queue|
  {
    if s.queue != [] {
      var t := s.queue[0];
      assert t in s.queue;
      LaterInTime(t.due, s.now);
      if t.due <= s.now {
        var m, u := s.(queue := s.queue[1..]), AfterFirst(s, scripts);
        AfterFirstKeepsInv(s, scripts, m, u);
        PollUnfolds(s, scripts, m, u);
        if m.queue != [] {
          SuccessorGoneIff(m, Head(scripts), u);
          if CancelTimer(m.queue[0].handle) !in Head(scripts) {
            if SecondIsDue(s) {
              assert u.queue[Find(u.queue, m.queue[0].handle)] in u.queue;
              FirstStaysFirst(m, u);
              PollIsFire(u, Tail(scripts));
            } else {
              NotDueEnds(m, u, Tail(scripts));
            }
          }
        }
      }
    }
  }

  /** It does happen: of two timers, the handler of the first one cancels the second one. */
  lemma CancelledSuccessorDangles(s: State, u: State)
    requires s == Start(Start(START.state, 0, 1), 0, 2) && u == Ticked(s)
    ensures Idle(s)
    ensures Poll(u, [[CancelTimer(1)]]) == Dangling
  {
    var m := Start(START.state, 0, 1);
    StartKeepsInv(START.state, 0, 1, m);
    StartKeepsInv(m, 0, 2, s);
    var a, b := NewTimer(START.state, 0, 1), NewTimer(m, 0, 2);
    assert m.queue == [a];
    assert [a][1..] == [];
    assert s.queue == [a, b];
    TickedInv(s);
    assert CancelsNext(u, [[CancelTimer(1)]]);
    PollIsFire(u, [[CancelTimer(1)]]);
  }

  // ---------- what a poll does ----------

  /** Where a timer comes from that a poll fires or leaves behind. */
  predicate Origin(s: State, t: Timer) {
    t in s.queue || (t.handle >= s.started && t.started == s.now && t.started <= t.due)
  }

  ghost predicate Cancels(scripts: seq<seq<Action>>, handle: nat) {
    exists k | 0 <= k < |scripts| :: CancelTimer(handle) in scripts[k]
  }

  /** `v` and `fired` are what a poll in state `s` makes. */
  ghost predicate Fires(s: State, scripts: seq<seq<Action>>, v: State, fired: seq<Timer>) {
    Inv(s) && v == Fire(s, scripts).0 && fired == Fire(s, scripts).1
  }

  lemma {:induction false} FireKeepsInv(s: State, scripts: seq<seq<Action>>, v: State, fired: seq<Timer>)
    requires Fires(s, scripts, v, fired)
    ensures Idle(v) && v.now == s.now && v.started >= s.started
    decreases |scripts|, |s.queue|
  {
    if s.queue == [] {
    } else if s.queue[0].due > s.now {
      forall t | t in s.queue ensures t.due > s.now {
        var j :| 0 <= j < |s.queue| && s.queue[j] == t;
        assert j == 0 || Before(s.queue[0], t);
      }
    } else {
      var m, u := s.(queue := s.queue[1..]), AfterFirst(s, scripts);
      AfterFirstKeepsInv(s, scripts, m, u);
      if SecondIsDue(s) {
        FireKeepsInv(u, Tail(scripts), v, fired[1..]);
      } else {
        forall t | t in m.queue ensures t.due > s.now {
          var j :| 0 <= j < |m.queue| && m.queue[j] == t;
          assert j == 0 || Before(m.queue[0], t);
        }
      }
    }
  }

  lemma {:induction false} FireOrigin(s: State, scripts: seq<seq<Action>>, v: State, fired: seq<Timer>)
    requires Fires(s, scripts, v, fired)
    ensures forall t | t in fired :: Origin(s, t) && InTime(v, t) && t.due <= s.now
    ensures forall t | t in v.queue :: Origin(s, t)
    decreases |scripts|, |s.queue|
  {
    if s.queue != [] && s.queue[0].due <= s.now {
      var m, u := s.(queue := s.queue[1..]), AfterFirst(s, scripts);
      AfterFirstKeepsInv(s, scripts, m, u);
      if SecondIsDue(s) {
        FireKeepsInv(u, Tail(scripts), v, fired[1..]);
        FireOrigin(u, Tail(scripts), v, fired[1..]);
        assert fired == [s.queue[0]] + fired[1..];
      }
      assert s.queue[0] in s.queue;
    }
  }

  lemma BeforeOrigin(s: State, m: State, u: State, t: Timer)
    requires Inv(s) && s.queue != [] && s.queue[0].due <= s.now
    requires m == s.(queue := s.queue[1..]) && Evolves(m, u) && Origin(u, t)
    ensures Before(s.queue[0], t) && s.queue[0].handle != t.handle
  {
    assert s.queue[0] in s.queue;
    if t in u.queue && t in m.queue {
      var j :| 0 <= j < |m.queue| && m.queue[j] == t;
      assert t == s.queue[j + 1];
    }
  }

  /** A poll fires in the order of expiry, first started first among equals, each timer once; and
      everything that it leaves behind comes later. */
  lemma {:induction false} FiredInOrder(s: State, scripts: seq<seq<Action>>, v: State, fired: seq<Timer>)
    requires Fires(s, scripts, v, fired)
    ensures Sorted(fired) && OwnHandles(fired)
    ensures forall a, b | a in fired && b in v.queue :: Before(a, b) && a.handle != b.handle
    decreases |scripts|, |s.queue|
  {
    if s.queue != [] && s.queue[0].due <= s.now {
      var m, u := s.(queue := s.queue[1..]), AfterFirst(s, scripts);
      AfterFirstKeepsInv(s, scripts, m, u);
      var f := if SecondIsDue(s) then fired[1..] else [];
      if SecondIsDue(s) {
        FireOrigin(u, Tail(scripts), v, f);
        FiredInOrder(u, Tail(scripts), v, f);
      }
      assert fired == [s.queue[0]] + f;
      forall t | Origin(u, t) ensures Before(s.queue[0], t) && s.queue[0].handle != t.handle {
        BeforeOrigin(s, m, u, t);
      }
      FiredBefore(s.queue[0], f, v.queue);
    }
  }

  lemma FiredBefore(t: Timer, f: seq<Timer>, q: seq<Timer>)
    requires Sorted(f) && OwnHandles(f)
    requires forall x | x in f || x in q :: Before(t, x) && t.handle != x.handle
    requires forall a, b | a in f && b in q :: Before(a, b) && a.handle != b.handle
    ensures Sorted([t] + f) && OwnHandles([t] + f)
    ensures forall a, b | a in [t] + f && b in q :: Before(a, b) && a.handle != b.handle
  {
    assert forall i | 0 <= i < |f| :: f[i] in f;
  }

  lemma ActLosesOnlyCancelled(s: State, a: Action, m: State, t: Timer)
    requires Inv(s) && t in s.queue && m == Act(s, a)
    ensures t in m.queue || a == CancelTimer(t.handle)
  {
    match a
    case StartTimer(d) =>
      StartKeepsInv(s, s.now, d, m);
    case CancelTimer(h) => CancelKeepsInv(s, h, m);
  }

  lemma {:induction false} RunLosesOnlyCancelled(s: State, actions: seq<Action>, t: Timer)
    requires Inv(s) && t in s.queue
    ensures t in Run(s, actions).queue || CancelTimer(t.handle) in actions
    decreases |actions|
  {
    if actions != [] {
      var m := Act(s, actions[0]);
      ActKeepsInv(s, actions[0], m);
      ActLosesOnlyCancelled(s, actions[0], m, t);
      if t in m.queue {
        RunLosesOnlyCancelled(m, actions[1..], t);
      }
    }
  }

  /** Every timer that is due when a poll begins is fired by it, unless a handler cancels it first. */
  lemma {:induction false} DueIsFired(s: State, scripts: seq<seq<Action>>, v: State, fired: seq<Timer>, t: Timer)
    requires Fires(s, scripts, v, fired) && t in s.queue && t.due <= s.now
    ensures t in fired || Cancels(scripts, t.handle)
    ensures t !in v.queue
    decreases |scripts|, |s.queue|
  {
    var j :| 0 <= j < |s.queue| && s.queue[j] == t;
    assert j > 0 ==> Before(s.queue[0], t);
    var m, u := s.(queue := s.queue[1..]), AfterFirst(s, scripts);
    AfterFirstKeepsInv(s, scripts, m, u);
    FiredInOrder(s, scripts, v, fired);
    if j > 0 {
      assert m.queue[j - 1] == t;
      assert j > 1 ==> Before(s.queue[1], t);
      var f := fired[1..];
      assert fired == [s.queue[0]] + f;
      if t in u.queue {
        DueIsFired(u, Tail(scripts), v, f, t);
        if Cancels(Tail(scripts), t.handle) {
          var k :| 0 <= k < |Tail(scripts)| && CancelTimer(t.handle) in Tail(scripts)[k];
          assert scripts[k + 1] == Tail(scripts)[k];
        }
      } else {
        RunLosesOnlyCancelled(m, Head(scripts), t);
        assert scripts != [] && CancelTimer(t.handle) in scripts[0];
        FireOrigin(u, Tail(scripts), v, f);
      }
    }
  }

  ghost predicate NoZeroDelay(scripts: seq<seq<Action>>) {
    forall k | 0 <= k < |scripts| :: StartTimer(0) !in scripts[k]
  }

  lemma ActWithoutZeroDelay(s: State, a: Action, m: State, t: Timer)
    requires Inv(s) && a != StartTimer(0) && m == Act(s, a) && t in m.queue
    ensures t in s.queue || t.due > s.now
  {
    match a
    case StartTimer(d) =>
      StartKeepsInv(s, s.now, d, m);
    case CancelTimer(h) => CancelKeepsInv(s, h, m);
  }

  lemma {:induction false} RunWithoutZeroDelay(s: State, actions: seq<Action>, t: Timer)
    requires Inv(s) && StartTimer(0) !in actions
    requires t in Run(s, actions).queue
    ensures t in s.queue || t.due > s.now
    decreases |actions|
  {
    if actions != [] {
      var m := Act(s, actions[0]);
      ActKeepsInv(s, actions[0], m);
      RunWithoutZeroDelay(m, actions[1..], t);
      if t in m.queue {
        ActWithoutZeroDelay(s, actions[0], m, t);
      }
    }
  }

  /** If no handler starts a timer without delay, a poll fires nothing but what was due when it began. */
  lemma {:induction false} OnlyDueIsFired(s: State, scripts: seq<seq<Action>>, v: State, fired: seq<Timer>)
    requires Fires(s, scripts, v, fired) && NoZeroDelay(scripts)
    ensures forall t | t in fired :: t in s.queue && t.due <= s.now
    decreases |scripts|, |s.queue|
  {
    FireOrigin(s, scripts, v, fired);
    if s.queue != [] && s.queue[0].due <= s.now {
      var m, u := s.(queue := s.queue[1..]), AfterFirst(s, scripts);
      AfterFirstKeepsInv(s, scripts, m, u);
      if SecondIsDue(s) {
        assert forall k | 0 <= k < |Tail(scripts)| :: Tail(scripts)[k] == scripts[k + 1];
        assert NoZeroDelay(Tail(scripts));
        OnlyDueIsFired(u, Tail(scripts), v, fired[1..]);
        forall t | t in fired[1..] ensures t in s.queue {
          RunWithoutZeroDelay(m, Head(scripts), t);
        }
        assert fired == [s.queue[0]] + fired[1..];
      }
    }
  }

  lemma ZeroDelayOfFirst(s: State, scripts: seq<seq<Action>>, v: State, fired: seq<Timer>, u: State, t: Timer)
    requires Fires(s, scripts, v, fired) && s.queue != [] && s.queue[0].due <= s.now
    requires u == AfterFirst(s, scripts) && t in u.queue && t.handle >= s.started && t.due == s.now
    ensures SecondIsDue(s) ==> (t in fired || Cancels(Tail(scripts), t.handle)) && t !in v.queue
    ensures !SecondIsDue(s) ==> t !in fired && t in v.queue
  {
    var m := s.(queue := s.queue[1..]);
    AfterFirstKeepsInv(s, scripts, m, u);
    FiredInOrder(s, scripts, v, fired);
    if SecondIsDue(s) {
      DueIsFired(u, Tail(scripts), v, fired[1..], t);
      assert fired == [s.queue[0]] + fired[1..];
    }
  }

  /** The scripts that are left, and the state, when a poll comes to turn `k`. */
  function Rest(scripts: seq<seq<Action>>, k: nat): seq<seq<Action>> {
    if k <= |scripts| then scripts[k..] else []
  }

  function Turn(s: State, scripts: seq<seq<Action>>, k: nat): State
    decreases k
  {
    if k == 0 || s.queue == [] then s else Turn(AfterFirst(s, scripts), Tail(scripts), k - 1)
  }

  lemma {:induction false} TurnFires(s: State, scripts: seq<seq<Action>>, v: State, fired: seq<Timer>, k: nat, w: State)
    requires Fires(s, scripts, v, fired) && k < |fired| && w == Turn(s, scripts, k)
    ensures Fires(w, Rest(scripts, k), v, fired[k..]) && w.now == s.now
    ensures w.queue != [] && w.queue[0] == fired[k] && w.queue[0].due <= s.now
    decreases k
  {
    if k > 0 {
      var m, u := s.(queue := s.queue[1..]), AfterFirst(s, scripts);
      AfterFirstKeepsInv(s, scripts, m, u);
      assert SecondIsDue(s) && fired == [s.queue[0]] + fired[1..];
      TurnFires(u, Tail(scripts), v, fired[1..], k - 1, w);
      assert Rest(Tail(scripts), k - 1) == Rest(scripts, k) && fired[1..][k - 1..] == fired[k..];
    } else {
      assert Rest(scripts, 0) == scripts && fired[0..] == fired;
    }
  }

  /** Exactly: a timer `t` that the handler of turn `k` starts without delay is fired by the same poll, or
      cancelled by a later handler, if and only if the timer behind the one of that turn was due too;
      otherwise it is left for the next tick. */
  lemma ZeroDelayFiresIff(s: State, scripts: seq<seq<Action>>, v: State, fired: seq<Timer>, k: nat, w: State,
                          u: State, t: Timer)
    requires Fires(s, scripts, v, fired) && k < |fired| && w == Turn(s, scripts, k)
    requires w.queue != [] && u == AfterFirst(w, Rest(scripts, k))
    requires t in u.queue && t.handle >= w.started && t.due == s.now
    ensures SecondIsDue(w) ==> (t in fired || Cancels(Rest(scripts, k + 1), t.handle)) && t !in v.queue
    ensures !SecondIsDue(w) ==> t !in fired && t in v.queue
  {
    TurnFires(s, scripts, v, fired, k, w);
    ZeroDelayOfFirst(w, Rest(scripts, k), v, fired[k..], u, t);
    assert Tail(Rest(scripts, k)) == Rest(scripts, k + 1);
    FiredInOrder(s, scripts, v, fired);
  }

  lemma {:induction false} RunCancels(s: State, actions: seq<Action>, h: nat)
    requires Inv(s) && CancelTimer(h) in actions && h < s.started
    ensures forall t | t in Run(s, actions).queue :: t.handle != h
    decreases |actions|
  {
    var m := Act(s, actions[0]);
    ActKeepsInv(s, actions[0], m);
    if actions[0] == CancelTimer(h) {
      CancelKeepsInv(s, h, m);
      RunKeepsInv(m, actions[1..], Run(s, actions));
    } else {
      RunCancels(m, actions[1..], h);
    }
  }

  lemma HandlerCancels(m: State, u: State, actions: seq<Action>, t: Timer)
    requires Inv(m) && u == Run(m, actions) && t.handle < m.started && Origin(u, t)
    ensures CancelTimer(t.handle) !in actions
  {
    RunKeepsInv(m, actions, u);
    if CancelTimer(t.handle) in actions {
      RunCancels(m, actions, t.handle);
    }
  }

  /** A poll that fires more than one timer goes on from the state after the first one. */
  lemma FiresRest(s: State, scripts: seq<seq<Action>>, v: State, fired: seq<Timer>, m: State, u: State)
    requires Fires(s, scripts, v, fired) && |fired| > 1
    requires s.queue != [] ==> m == s.(queue := s.queue[1..]) && u == AfterFirst(s, scripts)
    ensures Inv(m) && u == Run(m, Head(scripts)) && m.started == s.started <= u.started
    ensures Fires(u, Tail(scripts), v, fired[1..])
  {
    AfterFirstKeepsInv(s, scripts, m, u);
    assert SecondIsDue(s);
  }

  /** A timer that a handler cancels is not fired by a later turn of the same poll. */
  lemma {:induction false} CancelledDoesNotFire(s: State, scripts: seq<seq<Action>>, v: State, fired: seq<Timer>,
                                               j: nat, k: nat)
    requires Fires(s, scripts, v, fired) && k < j < |fired| && k < |scripts|
    requires fired[j].handle < s.started
    ensures CancelTimer(fired[j].handle) !in scripts[k]
    decreases |scripts|, |s.queue|
  {
    var m, u := s.(queue := s.queue[1..]), AfterFirst(s, scripts);
    var f := fired[1..];
    FiresRest(s, scripts, v, fired, m, u);
    if k == 0 {
      FireOrigin(u, Tail(scripts), v, f);
      assert fired[j] == f[j - 1] && f[j - 1] in f;
      HandlerCancels(m, u, scripts[0], fired[j]);
    } else {
      CancelledDoesNotFire(u, Tail(scripts), v, f, j - 1, k - 1);
    }
  }

  // ---------- runs ----------

  /** A call of StartKernelTimer, which has read the tick count at tick `read`, or of CancelKernelTimer between
      two ticks, or a tick with its poll. */
  datatype Event = StartCall(read: nat, delay: Delay) | CancelCall(handle: nat) | Tick(scripts: seq<seq<Action>>)

  datatype Firing = Firing(tick: nat, timer: Timer)

  /** The timers and everything that was fired so far. */
  datatype System = System(state: State, log: seq<Firing>)

  function Ticked(s: State): State {
    s.(now := s.now + 1)
  }

  /** The tick count was not read too long ago, and no handler cancels the timer that the poll looks at
      next. */
  predicate CanStep(y: System, e: Event) {
    match e
    case StartCall(read, _) => Recent(y.state, read)
    case CancelCall(_) => true
    case Tick(scripts) => !CancelsNext(Ticked(y.state), scripts)
  }

  function Stamped(tick: nat, fired: seq<Timer>): (r: seq<Firing>)
    ensures |r| == |fired| && forall i | 0 <= i < |r| :: r[i] == Firing(tick, fired[i])
  {
    seq(|fired|, i requires 0 <= i < |fired| => Firing(tick, fired[i]))
  }

  /** A poll whose successor was cancelled is undefined; CanStep excludes it (PollIsFire). */
  function Step(y: System, e: Event): System {
    match e
    case StartCall(read, d) => y.(state := Start(y.state, read, d))
    case CancelCall(h) => y.(state := Cancel(y.state, h))
    case Tick(scripts) =>
      match Poll(Ticked(y.state), scripts)
      case Dangling => y
      case Polled(v, fired) => System(v, y.log + Stamped(y.state.now + 1, fired))
  }

  ghost predicate Reaches(y: System, events: seq<Event>, z: System)
    decreases |events|
  {
    if events == [] then z == y else
      CanStep(y, events[0]) && Reaches(Step(y, events[0]), events[1..], z)
  }

  const START := System(State(0, 0, []), [])

  /** A timer fires at its tick.  One that was put into the queue only when its tick had come, because it has
      no delay or because ticks passed before, fires at the next tick (or in the same poll, if a handler
      started it). */
  predicate OnTime(f: Firing) {
    if f.timer.due > f.timer.started then f.tick == f.timer.due
    else f.timer.started <= f.tick <= f.timer.started + 1
  }

  /** The timer was in the queue by its tick. */
  predicate Prompt(t: Timer) {
    t.started <= t.due
  }

  /** `f` and then `g`: each timer once, poll after poll, in the order of expiry within each poll; and in the
      order of expiry altogether, save for timers that were put into the queue too late. */
  predicate InOrder(f: Firing, g: Firing) {
    && f.timer.handle != g.timer.handle && f.tick <= g.tick
    && (f.tick == g.tick || (Prompt(f.timer) && Prompt(g.timer)) ==> Before(f.timer, g.timer))
  }

  ghost predicate LogSorted(log: seq<Firing>) {
    forall i, j | 0 <= i < j < |log| :: InOrder(log[i], log[j])
  }

  /** What was fired is before what is queued. */
  predicate Ahead(f: Firing, t: Timer) {
    f.timer.handle != t.handle && (Prompt(f.timer) && Prompt(t) ==> Before(f.timer, t))
  }

  ghost predicate SystemInv(y: System) {
    && Idle(y.state)
    && LogSorted(y.log)
    && (forall f | f in y.log :: OnTime(f) && f.tick <= y.state.now && f.timer.handle < y.state.started)
    && (forall f, t | f in y.log && t in y.state.queue :: Ahead(f, t))
  }

  lemma StartHasInv()
    ensures SystemInv(START)
  {
  }

  lemma StartCallKeepsInv(y: System, read: nat, d: Delay, z: System)
    requires SystemInv(y) && Recent(y.state, read) && z == Step(y, StartCall(read, d))
    ensures SystemInv(z)
  {
    StartKeepsInv(y.state, read, d, z.state);
  }

  lemma CancelCallKeepsInv(y: System, h: nat, z: System)
    requires SystemInv(y) && z == Step(y, CancelCall(h))
    ensures SystemInv(z)
  {
    CancelKeepsInv(y.state, h, z.state);
  }

  lemma TickedInv(s: State)
    requires Idle(s)
    ensures Inv(Ticked(s))
    ensures forall t | t in s.queue :: InTime(Ticked(s), t)
  {
  }

  /** No poll of a run is undefined. */
  lemma TickIsDefined(y: System, scripts: seq<seq<Action>>, z: System) returns (fired: seq<Timer>)
    requires Idle(y.state) && CanStep(y, Tick(scripts)) && z == Step(y, Tick(scripts))
    ensures Poll(Ticked(y.state), scripts) == Polled(z.state, fired)
    ensures z.log == y.log + Stamped(y.state.now + 1, fired)
  {
    TickedInv(y.state);
    PollIsFire(Ticked(y.state), scripts);
    fired := Poll(Ticked(y.state), scripts).fired;
  }

  /** What a poll of an idle system does. */
  lemma TickFires(y: System, scripts: seq<seq<Action>>, z: System, fired: seq<Timer>)
    requires Idle(y.state) && CanStep(y, Tick(scripts)) && z == Step(y, Tick(scripts))
    requires Poll(Ticked(y.state), scripts) == Polled(z.state, fired)
    ensures Fires(Ticked(y.state), scripts, z.state, fired)
    ensures Idle(z.state) && z.state.now == y.state.now + 1 && z.state.started >= y.state.started
    ensures forall t | t in fired :: Origin(Ticked(y.state), t) && InTime(z.state, t) && t.due <= z.state.now
    ensures forall t | t in z.state.queue :: Origin(Ticked(y.state), t)
    ensures Sorted(fired) && OwnHandles(fired)
    ensures forall a, b | a in fired && b in z.state.queue :: Before(a, b) && a.handle != b.handle
  {
    TickedInv(y.state);
    PollIsFire(Ticked(y.state), scripts);
    FireKeepsInv(Ticked(y.state), scripts, z.state, fired);
    FireOrigin(Ticked(y.state), scripts, z.state, fired);
    FiredInOrder(Ticked(y.state), scripts, z.state, fired);
  }

  /** What comes out of a poll, or stays behind, is later than everything fired before. */
  lemma LogIsBefore(y: System, f: Firing, t: Timer)
    requires SystemInv(y) && f in y.log && Origin(Ticked(y.state), t)
    ensures Ahead(f, t)
  {
  }

  lemma LogGrows(a: seq<Firing>, b: seq<Firing>)
    requires LogSorted(a) && LogSorted(b)
    requires forall f, g | f in a && g in b :: InOrder(f, g)
    ensures LogSorted(a + b)
  {
    assert forall i | 0 <= i < |a| :: a[i] in a;
    assert forall i | 0 <= i < |b| :: b[i] in b;
  }

  lemma StampedMembers(tick: nat, fired: seq<Timer>)
    requires Sorted(fired) && OwnHandles(fired)
    ensures LogSorted(Stamped(tick, fired))
    ensures forall g | g in Stamped(tick, fired) :: g.timer in fired && g.tick == tick
    ensures forall t | t in fired :: Firing(tick, t) in Stamped(tick, fired)
  {
  }

  lemma TickKeepsInv(y: System, scripts: seq<seq<Action>>, z: System)
    requires SystemInv(y) && CanStep(y, Tick(scripts)) && z == Step(y, Tick(scripts))
    ensures SystemInv(z)
  {
    var fired := TickIsDefined(y, scripts, z);
    TickFires(y, scripts, z, fired);
    var stamped := Stamped(z.state.now, fired);
    StampedMembers(z.state.now, fired);
    forall f, t | f in y.log && Origin(Ticked(y.state), t) ensures Ahead(f, t) {
      LogIsBefore(y, f, t);
    }
    TickIsLogged(y, stamped, z);
  }

  lemma TickIsLogged(y: System, stamped: seq<Firing>, z: System)
    requires SystemInv(y) && Idle(z.state) && LogSorted(stamped)
    requires z.state.now == y.state.now + 1 && z.state.started >= y.state.started && z.log == y.log + stamped
    requires forall g | g in stamped :: g.tick == z.state.now && InTime(z.state, g.timer) && g.timer.due <= z.state.now
    requires forall g, t | g in stamped && t in z.state.queue :: Ahead(g, t)
    requires forall f, g | f in y.log && g in stamped :: Ahead(f, g.timer)
    requires forall f, t | f in y.log && t in z.state.queue :: Ahead(f, t)
    ensures SystemInv(z)
  {
    LogGrows(y.log, stamped);
    assert forall f | f in z.log :: f in y.log || f in stamped;
  }

  lemma StepKeepsInv(y: System, e: Event, z: System)
    requires SystemInv(y) && CanStep(y, e) && z == Step(y, e)
    ensures SystemInv(z)
  {
    match e
    case StartCall(read, d) => StartCallKeepsInv(y, read, d, z);
    case CancelCall(h) => CancelCallKeepsInv(y, h, z);
    case Tick(scripts) => TickKeepsInv(y, scripts, z);
  }

  /** Over every run: the log is in the order of expiry, first started first among equals, each timer once;
      everything in it fired on time, never early; and the queue is in the same order behind it. */
  lemma {:induction false} TimersFireInOrder(y: System, events: seq<Event>, z: System)
    requires SystemInv(y) && Reaches(y, events, z)
    ensures SystemInv(z)
    decreases |events|
  {
    if events != [] {
      var m := Step(y, events[0]);
      StepKeepsInv(y, events[0], m);
      TimersFireInOrder(m, events[1..], z);
    }
  }

  /** The same from boot on. */
  lemma TimersFireInOrderFromBoot(events: seq<Event>, z: System)
    requires Reaches(START, events, z)
    ensures LogSorted(z.log) && Sorted(z.state.queue)
    ensures forall f | f in z.log :: OnTime(f)
    ensures forall f, t | f in z.log && t in z.state.queue :: Ahead(f, t)
  {
    StartHasInv();
    TimersFireInOrder(START, events, z);
  }

  /** No call and no handler cancels the timer. */
  ghost predicate Keeps(e: Event, handle: nat) {
    match e
    case StartCall(_, _) => true
    case CancelCall(h) => h != handle
    case Tick(scripts) => !Cancels(scripts, handle)
  }

  lemma {:induction false} RunKeepsUncancelled(s: State, scripts: seq<seq<Action>>, v: State, fired: seq<Timer>,
                                               t: Timer)
    requires Fires(s, scripts, v, fired) && t in s.queue && !Cancels(scripts, t.handle)
    ensures t in v.queue || t in fired
    decreases |scripts|, |s.queue|
  {
    if s.queue != [] && s.queue[0].due <= s.now && t != s.queue[0] {
      var m, u := s.(queue := s.queue[1..]), AfterFirst(s, scripts);
      AfterFirstKeepsInv(s, scripts, m, u);
      assert t in m.queue;
      RunLosesOnlyCancelled(m, Head(scripts), t);
      assert scripts != [] ==> CancelTimer(t.handle) !in scripts[0];
      if SecondIsDue(s) {
        assert forall k | 0 <= k < |Tail(scripts)| :: Tail(scripts)[k] == scripts[k + 1];
        RunKeepsUncancelled(u, Tail(scripts), v, fired[1..], t);
        assert fired == [s.queue[0]] + fired[1..];
      }
    }
  }

  lemma StepKeepsUncancelled(y: System, e: Event, z: System, t: Timer)
    requires SystemInv(y) && CanStep(y, e) && z == Step(y, e)
    requires t in y.state.queue && Keeps(e, t.handle)
    ensures t in z.state.queue || exists f :: f in z.log && f.timer == t
  {
    match e
    case StartCall(read, d) => StartKeepsInv(y.state, read, d, z.state);
    case CancelCall(h) => CancelKeepsInv(y.state, h, z.state);
    case Tick(scripts) => TickKeepsUncancelled(y, scripts, z, t);
  }

  lemma TickKeepsUncancelled(y: System, scripts: seq<seq<Action>>, z: System, t: Timer)
    requires SystemInv(y) && CanStep(y, Tick(scripts)) && z == Step(y, Tick(scripts))
    requires t in y.state.queue && !Cancels(scripts, t.handle)
    ensures t in z.state.queue || exists f :: f in z.log && f.timer == t
  {
    var fired := TickIsDefined(y, scripts, z);
    TickFires(y, scripts, z, fired);
    RunKeepsUncancelled(Ticked(y.state), scripts, z.state, fired, t);
    StampedMembers(z.state.now, fired);
    assert t in fired ==> Firing(z.state.now, t) in z.log;
  }

  lemma {:induction false} LogOnlyGrows(y: System, events: seq<Event>, z: System)
    requires Reaches(y, events, z)
    ensures y.log <= z.log
    decreases |events|
  {
    if events != [] {
      LogOnlyGrows(Step(y, events[0]), events[1..], z);
    }
  }

  lemma StepIsRun(y: System, e: Event)
    requires CanStep(y, e)
    ensures Reaches(y, [e], Step(y, e))
  {
    assert [e][1..] == [];
    assert Reaches(Step(y, e), [], Step(y, e));
  }

  /** Over every run: a timer that nobody cancels has fired, on time, as soon as its tick is past. */
  lemma {:induction false} UncancelledTimerFires(y: System, events: seq<Event>, z: System, t: Timer)
    requires SystemInv(y) && Reaches(y, events, z) && t in y.state.queue
    requires forall k | 0 <= k < |events| :: Keeps(events[k], t.handle)
    requires z.state.now > Expiry(t)
    ensures exists f :: f in z.log && f.timer == t && OnTime(f)
    decreases |events|
  {
    assert Expiry(t) >= y.state.now;
    TimersFireInOrder(y, events, z);
    if events != [] {
      var m := Step(y, events[0]);
      StepIsRun(y, events[0]);
      TimersFireInOrder(y, [events[0]], m);
      StepKeepsUncancelled(y, events[0], m, t);
      if t in m.state.queue {
        assert forall k | 0 <= k < |events[1..]| :: events[1..][k] == events[k + 1];
        UncancelledTimerFires(m, events[1..], z, t);
      } else {
        var f :| f in m.log && f.timer == t;
        LogOnlyGrows(m, events[1..], z);
        var i :| 0 <= i < |m.log| && m.log[i] == f;
        assert z.log[i] == f;
      }
    }
  }

  /** Over every run: a timer that nobody cancels fires so many ticks behind the one that StartKernelTimer has read,
      or, if this tick had come when it was put into the queue, at most one tick after that. */
  lemma StartedTimerFires(y: System, read: nat, d: Delay, events: seq<Event>, z: System)
    requires SystemInv(y) && Recent(y.state, read) && Reaches(Step(y, StartCall(read, d)), events, z)
    requires forall k | 0 <= k < |events| :: Keeps(events[k], y.state.started)
    requires z.state.now > read + d && z.state.now > y.state.now
    ensures exists f :: && f in z.log && f.timer.handle == y.state.started
                        && (if read + d > y.state.now then f.tick == read + d
                            else y.state.now <= f.tick <= y.state.now + 1)
  {
    var m := Step(y, StartCall(read, d));
    var t := StartQueues(y.state, read, d, m.state);
    StartCallKeepsInv(y, read, d, m);
    UncancelledTimerFires(m, events, z, t);
  }

  lemma StepDoesNotFire(y: System, e: Event, z: System, handle: nat)
    requires SystemInv(y) && CanStep(y, e) && z == Step(y, e) && handle < y.state.started
    requires forall t | t in y.state.queue :: t.handle != handle
    ensures handle < z.state.started && y.log <= z.log
    ensures forall t | t in z.state.queue :: t.handle != handle
    ensures forall i | |y.log| <= i < |z.log| :: z.log[i].timer.handle != handle
  {
    match e
    case StartCall(read, d) => StartKeepsInv(y.state, read, d, z.state);
    case CancelCall(h) => CancelKeepsInv(y.state, h, z.state);
    case Tick(scripts) => TickDoesNotFire(y, scripts, z, handle);
  }

  lemma TickDoesNotFire(y: System, scripts: seq<seq<Action>>, z: System, handle: nat)
    requires SystemInv(y) && CanStep(y, Tick(scripts)) && z == Step(y, Tick(scripts)) && handle < y.state.started
    requires forall t | t in y.state.queue :: t.handle != handle
    ensures handle < z.state.started && y.log <= z.log
    ensures forall t | t in z.state.queue :: t.handle != handle
    ensures forall i | |y.log| <= i < |z.log| :: z.log[i].timer.handle != handle
  {
    var fired := TickIsDefined(y, scripts, z);
    TickFires(y, scripts, z, fired);
    forall t | t in fired || t in z.state.queue ensures t.handle != handle {
      assert Origin(Ticked(y.state), t);
    }
    forall i | |y.log| <= i < |z.log| ensures z.log[i].timer.handle != handle {
      assert z.log[i].timer == fired[i - |y.log|] && fired[i - |y.log|] in fired;
    }
  }

  /** Over every run: a timer that is neither queued nor new, because it was cancelled or has fired, does not
      fire again. */
  lemma {:induction false} GoneForGood(y: System, events: seq<Event>, z: System, handle: nat)
    requires SystemInv(y) && Reaches(y, events, z) && handle < y.state.started
    requires forall t | t in y.state.queue :: t.handle != handle
    ensures forall i | |y.log| <= i < |z.log| :: z.log[i].timer.handle != handle
    decreases |events|
  {
    if events != [] {
      var m := Step(y, events[0]);
      StepIsRun(y, events[0]);
      TimersFireInOrder(y, [events[0]], m);
      StepDoesNotFire(y, events[0], m, handle);
      GoneForGood(m, events[1..], z, handle);
      LogOnlyGrows(m, events[1..], z);
      assert forall i | 0 <= i < |m.log| :: z.log[i] == m.log[i];
    }
  }

  // ---------- a poll need not end ----------

  function Rearming(n: nat): seq<seq<Action>> {
    seq(n, i requires 0 <= i < n => [StartTimer(0)])
  }

  /** Two due timers whose handlers start another timer without delay keep a poll going for as long as they
      do: it fires more than any number of timers. */
  lemma {:induction false} PollGoesOn(s: State, n: nat)
    requires Inv(s) && |s.queue| == 2 && s.queue[0].due <= s.now && s.queue[1].due <= s.now
    ensures |Fire(s, Rearming(n)).1| > n
    decreases n
  {
    var scripts := Rearming(n);
    var m, u := s.(queue := s.queue[1..]), AfterFirst(s, scripts);
    AfterFirstKeepsInv(s, scripts, m, u);
    if n > 0 {
      assert Tail(scripts) == Rearming(n - 1);
      assert Run(m, [StartTimer(0)]) == Start(m, m.now, 0);
      StartKeepsInv(m, m.now, 0, u);
      PlaceSplits(m.queue, s.now);
      assert u.queue == [m.queue[0], NewTimer(m, m.now, 0)];
      PollGoesOn(u, n - 1);
    }
  }
}
