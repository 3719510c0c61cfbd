/** CTimer's kernel timers on the linked list, proved against KernelTimers. */
module TimerDriver {
  import opened Sequences
  import opened KernelTimers
  import opened PtrList

  function Handles(queue: seq<Timer>): (r: seq<nat>)
    ensures |r| == |queue| && forall i | 0 <= i < |r| :: r[i] == queue[i].handle
  {
    seq(|queue|, i requires 0 <= i < |queue| => queue[i].handle)
  }

  function Prepend(fired: seq<Timer>, o: Outcome): Outcome {
    match o
    case Dangling => Dangling
    case Polled(s, f) => Polled(s, fired + f)
  }

  predicate LaterAt(queue: seq<Timer>, i: nat, at: nat) {
    i < |queue| && Later(queue[i].elapsesAt, at)
  }

  /** A new timer goes in front of the first one that elapses later. */
  lemma {:induction false} InsertAtFirstLater(queue: seq<Timer>, t: Timer, i: nat)
    requires i <= |queue|
    requires forall j | 0 <= j < i :: !LaterAt(queue, j, t.elapsesAt)
    requires i < |queue| ==> LaterAt(queue, i, t.elapsesAt)
    ensures Insert(queue, t) == InsertAt(queue, i, t)
    decreases |queue|
  {
    if i > 0 {
      assert !LaterAt(queue, 0, t.elapsesAt);
      forall j | 0 <= j < i - 1 ensures !LaterAt(queue[1..], j, t.elapsesAt) {
        assert !LaterAt(queue, j + 1, t.elapsesAt);
      }
      InsertAtFirstLater(queue[1..], t, i - 1);
    }
  }

  /** The timers of a queue are in memory. */
  ghost predicate InMemory(queue: seq<Timer>, elapsesAt: map<nat, nat>) {
    forall t | t in queue :: t.handle in elapsesAt && elapsesAt[t.handle] == t.elapsesAt
  }

  /** Pointers are distinct, and new ones are different. */
  ghost predicate Numbered(c: seq<nat>, started: nat) {
    && (forall k, l | 0 <= k < l < |c| :: c[k] != c[l])
    && (forall k | 0 <= k < |c| :: c[k] < started)
  }

  /** A timer that is in both lists has the same element there. */
  ghost predicate SameElements(n: seq<Element>, c: seq<nat>, n': seq<Element>, c': seq<nat>) {
    && |n| == |c| && |n'| == |c'|
    && forall k, l | 0 <= k < |c| && 0 <= l < |c'| && c[k] == c'[l] :: n[k] == n'[l]
  }

  /** Every pointer was there before or is a new one. */
  ghost predicate OldOrNew(c: seq<nat>, started: nat, c': seq<nat>) {
    forall l | 0 <= l < |c'| :: c'[l] in c || c'[l] >= started
  }

  lemma SameElementsAgain(n0: seq<Element>, c0: seq<nat>, n1: seq<Element>, c1: seq<nat>, started0: nat, started1: nat,
                          n2: seq<Element>, c2: seq<nat>)
    requires SameElements(n0, c0, n1, c1) && SameElements(n1, c1, n2, c2)
    requires Numbered(c0, started0) && started0 <= started1
    requires OldOrNew(c0, started0, c1) && OldOrNew(c1, started1, c2)
    ensures SameElements(n0, c0, n2, c2) && OldOrNew(c0, started0, c2)
  {
  }

  lemma InsertKeepsElements(n: seq<Element>, c: seq<nat>, i: nat, e: Element, h: nat)
    requires |n| == |c| && i <= |c| && Numbered(c, h)
    ensures SameElements(n, c, InsertAt(n, i, e), InsertAt(c, i, h))
  {
  }

  lemma InsertKeepsNumbers(c: seq<nat>, i: nat, h: nat)
    requires i <= |c| && Numbered(c, h)
    ensures Numbered(InsertAt(c, i, h), h + 1)
  {
  }

  lemma NothingRemoved(n: seq<Element>, c: seq<nat>, started: nat)
    requires |n| == |c| && Numbered(c, started)
    ensures SameElements(n, c, n, c)
  {
  }

  lemma RemoveKeepsElements(n: seq<Element>, c: seq<nat>, i: nat, started: nat)
    requires |n| == |c| && i < |c| && Numbered(c, started)
    ensures SameElements(n, c, RemoveAt(n, i), RemoveAt(c, i))
    ensures Numbered(RemoveAt(c, i), started)
  {
  }

  lemma Started(s: State, read: nat, d: Delay, at: nat, i: nat, elapsesAt: map<nat, nat>, u: State)
    requires InMemory(s.queue, elapsesAt) && Numbered(Handles(s.queue), s.started)
    requires u == Start(s, read, d) && at == NewTimer(s, read, d).elapsesAt
    requires i <= |s.queue| && forall j | 0 <= j < i :: !LaterAt(s.queue, j, at)
    requires i < |s.queue| ==> LaterAt(s.queue, i, at)
    ensures u.now == s.now && u.started == s.started + 1
    ensures InMemory(u.queue, elapsesAt[s.started := at])
    ensures Handles(u.queue) == InsertAt(Handles(s.queue), i, s.started)
  {
    StartedQueue(s.queue, NewTimer(s, read, d), i, u.queue);
    HandlesAvoid(s.queue, s.started);
  }

  lemma StartedQueue(q: seq<Timer>, t: Timer, i: nat, r: seq<Timer>)
    requires i <= |q| && forall j | 0 <= j < i :: !LaterAt(q, j, t.elapsesAt)
    requires i < |q| ==> LaterAt(q, i, t.elapsesAt)
    requires r == Insert(q, t)
    ensures Handles(r) == InsertAt(Handles(q), i, t.handle)
    ensures forall x | x in r :: x in q || x == t
  {
    InsertAtFirstLater(q, t, i);
  }

  lemma FindIs(queue: seq<Timer>, h: nat, i: nat)
    requires i <= |queue| && forall j | 0 <= j < i :: Handles(queue)[j] != h
    requires i < |queue| ==> Handles(queue)[i] == h
    ensures KernelTimers.Find(queue, h) == i
  {
    var k := KernelTimers.Find(queue, h);
    if k < |queue| {
      assert Handles(queue)[k] == h;
    }
    if i < |queue| {
      assert queue[i].handle == h;
    }
  }

  lemma Cancelled(s: State, h: nat, i: nat, elapsesAt: map<nat, nat>, u: State)
    requires InMemory(s.queue, elapsesAt) && Numbered(Handles(s.queue), s.started)
    requires i < |s.queue| && h == Handles(s.queue)[i] && u == Cancel(s, h)
    ensures u.now == s.now && u.started == s.started
    ensures InMemory(u.queue, elapsesAt - {h})
    ensures Handles(u.queue) == RemoveAt(Handles(s.queue), i)
  {
    FindIs(s.queue, h, i);
    TakenOutOfQueue(s.queue, i, elapsesAt);
    HandleIsGone(Handles(s.queue), s.started, i);
    HandlesAvoid(u.queue, h);
  }

  lemma HandleIsGone(c: seq<nat>, started: nat, i: nat)
    requires Numbered(c, started) && i < |c|
    ensures c[i] !in RemoveAt(c, i)
  {
  }

  lemma HandlesAvoid(q: seq<Timer>, h: nat)
    requires h !in Handles(q)
    ensures forall t | t in q :: t.handle != h
  {
  }

  lemma TakenOutOfQueue(q: seq<Timer>, i: nat, elapsesAt: map<nat, nat>)
    requires i < |q| && InMemory(q, elapsesAt)
    ensures InMemory(RemoveAt(q, i), elapsesAt)
    ensures Handles(RemoveAt(q, i)) == RemoveAt(Handles(q), i)
  {
    assert forall t | t in RemoveAt(q, i) :: t in q;
  }

  /** The cursor's timer is in the queue, and in memory. */
  lemma CursorIsQueued(s: State, h: nat, scripts: seq<seq<Action>>)
    requires PollFrom(s, At(h), scripts) != Dangling
    ensures KernelTimers.Find(s.queue, h) < |s.queue|
    ensures s.queue[KernelTimers.Find(s.queue, h)] in s.queue
  {
  }

  lemma FreedIsNotQueued(q: seq<Timer>, elapsesAt: map<nat, nat>, p: nat, c: seq<nat>, started: nat, c': seq<nat>)
    requires InMemory(q, elapsesAt) && c' == Handles(q) && OldOrNew(c, started, c')
    requires p !in c && p < started
    ensures InMemory(q, elapsesAt - {p})
  {
    HandlesAvoid(q, p);
  }

  /** The poll has fired these timers and will end as `o` says. */
  ghost predicate OnTheWay(o: Outcome, s: State, cursor: Cursor, scripts: seq<seq<Action>>, fired: seq<Timer>,
                           calls: seq<nat>) {
    && PollFrom(s, cursor, scripts) != Dangling
    && o == Prepend(fired, PollFrom(s, cursor, scripts))
    && calls == Handles(fired)
  }

  /** A poll that ends in state `s` has called these handlers, in this order. */
  predicate EndsWith(o: Outcome, s: State, calls: seq<nat>) {
    o.Polled? && o.state == s && calls == Handles(o.fired)
  }

  lemma PollBegins(o: Outcome, s: State, scripts: seq<seq<Action>>)
    requires Inv(s) && !CancelsNext(s, scripts) && o == Poll(s, scripts)
    ensures OnTheWay(o, s, First(s.queue), scripts, [], [])
  {
    PollIsFire(s, scripts);
    assert Prepend([], o) == o;
  }

  lemma PollLeavesIdle(o: Outcome, s: State, scripts: seq<seq<Action>>)
    requires Inv(s) && !CancelsNext(s, scripts) && o == Poll(s, scripts)
    ensures o.Polled? && Idle(o.state)
  {
    PollIsFire(s, scripts);
    FireKeepsInv(s, scripts, Fire(s, scripts).0, Fire(s, scripts).1);
  }

  /** Starting and cancelling timers between two ticks leaves them ready for the next tick. */
  lemma StartKeepsIdle(s: State, read: nat, d: Delay, u: State)
    requires u == Start(s, read, d)
    ensures Idle(s) && Recent(s, read) ==> Idle(u)
  {
    if Idle(s) && Recent(s, read) {
      StartKeepsInv(s, read, d, u);
    }
  }

  lemma CancelKeepsIdle(s: State, h: nat, u: State)
    requires u == Cancel(s, h)
    ensures Idle(s) ==> Idle(u)
  {
    if Idle(s) {
      CancelKeepsInv(s, h, u);
    }
  }

  /** The loop ends. */
  lemma PollStops(o: Outcome, s: State, cursor: Cursor, scripts: seq<seq<Action>>, fired: seq<Timer>, calls: seq<nat>)
    requires OnTheWay(o, s, cursor, scripts, fired, calls)
    requires cursor.At? ==> LaterAt(s.queue, KernelTimers.Find(s.queue, cursor.handle), Word(s.now))
    ensures EndsWith(o, s, calls)
  {
  }

  lemma PollFromUnfolds(s: State, h: nat, scripts: seq<seq<Action>>, u: State, next: Cursor)
    requires PollFrom(s, At(h), scripts) != Dangling
    requires !LaterAt(s.queue, KernelTimers.Find(s.queue, h), Word(s.now))
    requires var i := KernelTimers.Find(s.queue, h);
             u == Run(s.(queue := RemoveAt(s.queue, i)), Head(scripts)) && next == First(s.queue[i + 1..])
    ensures PollFrom(u, next, Tail(scripts)) != Dangling
    ensures PollFrom(s, At(h), scripts)
            == Prepend([s.queue[KernelTimers.Find(s.queue, h)]], PollFrom(u, next, Tail(scripts)))
  {
  }

  lemma PrependTwice(a: seq<Timer>, b: seq<Timer>, o: Outcome)
    ensures Prepend(a, Prepend(b, o)) == Prepend(a + b, o)
  {
  }

  /** The loop ends: handlers without a script start no timers. */
  predicate Closer(s: State, scripts: seq<seq<Action>>, u: State) {
    scripts == [] ==> |u.queue| < |s.queue|
  }

  lemma TurnIsCloser(s: State, h: nat, scripts: seq<seq<Action>>, u: State)
    requires KernelTimers.Find(s.queue, h) < |s.queue|
    requires u == Run(s.(queue := RemoveAt(s.queue, KernelTimers.Find(s.queue, h))), Head(scripts))
    ensures Closer(s, scripts, u)
  {
  }

  lemma HandlesGrow(q: seq<Timer>, t: Timer)
    ensures Handles(q + [t]) == Handles(q) + [t.handle]
  {
  }

  /** One turn of the poll loop. */
  lemma PollTurn(o: Outcome, s: State, h: nat, scripts: seq<seq<Action>>, fired: seq<Timer>, calls: seq<nat>, u: State,
                 next: Cursor, fired': seq<Timer>)
    requires OnTheWay(o, s, At(h), scripts, fired, calls)
    requires !LaterAt(s.queue, KernelTimers.Find(s.queue, h), Word(s.now))
    requires var i := KernelTimers.Find(s.queue, h);
             && u == Run(s.(queue := RemoveAt(s.queue, i)), Head(scripts))
             && next == First(s.queue[i + 1..]) && fired' == fired + [s.queue[i]]
    ensures OnTheWay(o, u, next, Tail(scripts), fired', calls + [h])
  {
    var t := s.queue[KernelTimers.Find(s.queue, h)];
    PollFromUnfolds(s, h, scripts, u, next);
    PrependTwice(fired, [t], PollFrom(u, next, Tail(scripts)));
    HandlesGrow(fired, t);
  }

  /** The saved pointer is the list element of the cursor's timer, as long as that timer is queued. */
  ghost predicate PointsTo(e: Element?, cursor: Cursor, n: seq<Element>, c: seq<nat>, started: nat) {
    match cursor
    case End => e == null
    case At(h) => e != null && h < started && |n| == |c| && forall k | 0 <= k < |c| && c[k] == h :: n[k] == e
  }

  /** The cursor's timer and its element are at the same index. */
  lemma PointedAt(e: Element, h: nat, n: seq<Element>, q: seq<Timer>, started: nat)
    requires PointsTo(e, At(h), n, Handles(q), started) && KernelTimers.Find(q, h) < |q|
    ensures |n| == |q| && n[KernelTimers.Find(q, h)] == e && Handles(q)[KernelTimers.Find(q, h)] == h
  {
  }

  /** The element of the successor is still the one that was saved. */
  lemma SuccessorIsPointedTo(q: seq<Timer>, n: seq<Element>, c: seq<nat>, i: nat, n1: seq<Element>, c1: seq<nat>,
                             started: nat, n2: seq<Element>, c2: seq<nat>, started2: nat)
    requires |n| == |c| && i < |c| && n1 == RemoveAt(n, i) && c1 == RemoveAt(c, i) && c == Handles(q)
    requires SameElements(n1, c1, n2, c2) && Numbered(c, started) && started <= started2
    ensures PointsTo(NodeAt(n, i + 1), First(q[i + 1..]), n2, c2, started2)
  {
    if i + 1 < |c| {
      assert n1[i] == n[i + 1] && c1[i] == c[i + 1] && c[i + 1] == q[i + 1].handle;
    }
  }

  // ---------- seconds ----------

  const HZ: int := 100

  /** m_nUptime after a number of ticks: the tick count's word decides, not the tick count. */
  function Uptime(now: nat): nat {
    if now == 0 then 0 else Uptime(now - 1) + (if Word(now) % HZ == 0 then 1 else 0)
  }

  lemma {:induction false} UptimeInWraps(now: nat)
    ensures Uptime(now) == now / MODULUS * 42949673 + Word(now) / HZ
  {
    if now > 0 {
      UptimeInWraps(now - 1);
      NextWord(now - 1);
      NextQuotient(now - 1);
      if Word(now) != 0 {
        NextSecond(Word(now));
      }
    }
  }

  lemma NextWord(now: nat)
    ensures Word(now + 1) == if Word(now) + 1 == MODULUS then 0 else Word(now) + 1
  {
  }

  lemma NextQuotient(now: nat)
    ensures (now + 1) / MODULUS == now / MODULUS + if Word(now) + 1 == MODULUS then 1 else 0
  {
  }

  lemma NextSecond(r: nat)
    requires r > 0
    ensures r / HZ == (r - 1) / HZ + if r % HZ == 0 then 1 else 0
  {
  }

  /** The uptime is the number of whole seconds since boot until the tick count wraps.  2^32 is no multiple
      of HZ: each wrap makes one second four ticks short. */
  lemma UptimeIsSecondsIff(now: nat)
    ensures Uptime(now) == now / HZ <==> Word(now) % HZ >= 4 * (now / MODULUS)
  {
    UptimeInWraps(now);
    var w, r := now / MODULUS, Word(now);
    assert now == 100 * (42949673 * w + r / 100) + (r % 100 - 4 * w);
  }

  /** It does run ahead: at the first wrap the uptime is a second too long. */
  lemma UptimeAheadAtWrap()
    ensures Uptime(MODULUS) == 42949673 && MODULUS / HZ == 42949672
  {
    UptimeInWraps(MODULUS);
  }

  class CTimer {
    var uptime: nat                    // m_nUptime
    var ticks: nat                     // m_nTicks
    const list: PtrList                // m_KernelTimerList, of pointers to timers
    var elapsesAt: map<nat, nat>       // m_nElapsesAt of the timers in memory
    var started: nat                   // timers allocated so far: the next pointer
    ghost var state: State

    ghost predicate Valid()
      reads this, list, list.nodes, list.repr
    {
      && list.Valid() && list.contents == Handles(state.queue)
      && ticks == Word(state.now) && started == state.started
      && InMemory(state.queue, elapsesAt) && Numbered(list.contents, started)
      && uptime == Uptime(state.now)
    }

    constructor ()
      ensures Valid() && fresh(list) && state == START.state && Idle(state)
    {
      ticks := 0;
      uptime := 0;
      list := new PtrList();
      elapsesAt := map[];
      started := 0;
      state := START.state;
    }

    /** The place of a new timer: walk the list up to the first timer that elapses later. */
    method FindPlace(at: nat) returns (previous: Element?, e: Element?, ghost i: nat)
      requires Valid()
      ensures i <= |list.nodes| && e == NodeAt(list.nodes, i) && previous == NodeAt(list.nodes, i - 1)
      ensures forall j | 0 <= j < i :: !LaterAt(state.queue, j, at)
      ensures i < |list.nodes| ==> LaterAt(state.queue, i, at)
    {
      previous := null;
      e := list.GetFirst();
      i := 0;
      while e != null
        invariant i <= |list.nodes| && e == NodeAt(list.nodes, i) && previous == NodeAt(list.nodes, i - 1)
        invariant forall j | 0 <= j < i :: !LaterAt(state.queue, j, at)
        decreases |list.nodes| - i
      {
        var p := list.GetPtr(e, i);
        assert state.queue[i] in state.queue;
        if Later(elapsesAt[p], at) {
          break;
        }
        previous := e;
        e := list.GetNext(e, i);
        i := i + 1;
      }
    }

    method InsertAtPlace(previous: Element?, e: Element?, handle: nat, ghost i: nat)
      requires list.Valid() && i <= |list.nodes| && Numbered(list.contents, handle)
      requires e == NodeAt(list.nodes, i) && previous == NodeAt(list.nodes, i - 1)
      modifies list, list.repr
      ensures unchanged(this) && list.Valid()
      ensures list.contents == InsertAt(old(list.contents), i, handle)
      ensures fresh(list.repr - old(list.repr))
      ensures SameElements(old(list.nodes), old(list.contents), list.nodes, list.contents)
    {
      ghost var n, c := list.nodes, list.contents;
      if e != null {
        list.InsertBefore(e, handle, i);
      } else {
        list.InsertAfter(previous, handle, i);
      }
      InsertKeepsElements(n, c, i, list.nodes[i], handle);
    }

    /** The first part of StartKernelTimer, on a tick count that may grow before the second part. */
    method ElapsesAt(delay: Delay) returns (at: nat)
      requires Valid()
      ensures at == Word(Word(state.now) + delay)
    {
      at := Word(ticks + delay);
    }

    /** The second part of StartKernelTimer, from Acquire on; the tick count was read at tick `read`. */
    method PutIntoQueue(at: nat, ghost read: nat, ghost delay: Delay) returns (handle: nat)
      requires Valid() && at == Word(Word(read) + delay)
      modifies this, list, list.repr
      ensures Valid() && state == Start(old(state), read, delay) && handle == old(state).started
      ensures old(Idle(state) && Recent(state, read)) ==> Idle(state)
      ensures fresh(list.repr - old(list.repr))
      ensures SameElements(old(list.nodes), old(list.contents), list.nodes, list.contents)
      ensures ticks == old(ticks) && started >= old(started)
      ensures OldOrNew(old(list.contents), old(started), list.contents)
    {
      ghost var s, c, u := state, list.contents, Start(state, read, delay);
      var previous, e, i := FindPlace(at);
      Started(s, read, delay, at, i, elapsesAt, u);
      StartKeepsIdle(s, read, delay, u);
      InsertKeepsNumbers(c, i, started);
      handle := started;
      started, state := started + 1, u;
      elapsesAt := elapsesAt[handle := at];
      InsertAtPlace(previous, e, handle, i);
    }

    /** Both parts without a tick between them. */
    method StartKernelTimer(delay: Delay) returns (handle: nat)
      requires Valid()
      modifies this, list, list.repr
      ensures Valid() && state == Start(old(state), old(state).now, delay) && handle == old(state).started
      ensures old(Idle(state)) ==> Idle(state)
      ensures fresh(list.repr - old(list.repr))
      ensures SameElements(old(list.nodes), old(list.contents), list.nodes, list.contents)
      ensures ticks == old(ticks) && started >= old(started)
      ensures OldOrNew(old(list.contents), old(started), list.contents)
    {
      var at := ElapsesAt(delay);
      handle := PutIntoQueue(at, state.now, delay);
    }

    method RemoveTimer(handle: nat) returns (found: bool, ghost i: nat)
      requires list.Valid()
      modifies list, list.repr
      ensures unchanged(this) && list.Valid() && list.repr == old(list.repr)
      ensures i <= |old(list.contents)| && forall j | 0 <= j < i :: old(list.contents)[j] != handle
      ensures found <==> i < |old(list.contents)|
      ensures !found ==> list.nodes == old(list.nodes) && list.contents == old(list.contents)
      ensures found ==> old(list.contents)[i] == handle
      ensures found ==> list.nodes == RemoveAt(old(list.nodes), i) && list.contents == RemoveAt(old(list.contents), i)
    {
      var e;
      e, i := list.Find(handle);
      found := e != null;
      if found {
        list.Remove(e, i);
      }
    }

    method CancelKernelTimer(handle: nat)
      requires Valid()
      modifies this, list, list.repr
      ensures Valid() && state == Cancel(old(state), handle)
      ensures old(Idle(state)) ==> Idle(state)
      ensures fresh(list.repr - old(list.repr))
      ensures SameElements(old(list.nodes), old(list.contents), list.nodes, list.contents)
      ensures ticks == old(ticks) && started == old(started)
      ensures OldOrNew(old(list.contents), old(started), list.contents)
    {
      ghost var s, n, c, u := state, list.nodes, list.contents, Cancel(state, handle);
      var found;
      ghost var i;
      found, i := RemoveTimer(handle);
      FindIs(s.queue, handle, i);
      if found {
        Cancelled(s, handle, i, elapsesAt, u);
        RemoveKeepsElements(n, c, i, started);
        elapsesAt := elapsesAt - {handle};
      } else {
        NothingRemoved(n, c, started);
      }
      state := u;
      CancelKeepsIdle(s, handle, u);
    }

    /** What is done while a handler runs. */
    method Perform(actions: seq<Action>)
      requires Valid()
      modifies this, list, list.repr
      ensures Valid() && state == Run(old(state), actions)
      ensures fresh(list.repr - old(list.repr))
      ensures SameElements(old(list.nodes), old(list.contents), list.nodes, list.contents)
      ensures ticks == old(ticks) && started >= old(started)
      ensures OldOrNew(old(list.contents), old(started), list.contents)
      decreases |actions|
    {
      ghost var n, c, st := list.nodes, list.contents, started;
      if actions == [] {
        NothingRemoved(n, c, st);
      } else {
        match actions[0] {
          case StartTimer(d) =>
            var handle := StartKernelTimer(d);
          case CancelTimer(h) =>
            CancelKernelTimer(h);
        }
        ghost var n1, c1, st1 := list.nodes, list.contents, started;
        Perform(actions[1..]);
        SameElementsAgain(n, c, n1, c1, st, st1, list.nodes, list.contents);
      }
    }

    /** Take a due timer out of the list; its memory stays until its handler has returned. */
    method TakeOut(e: Element, ghost i: nat) returns (p: nat, next: Element?)
      requires Valid() && i < |list.nodes| && list.nodes[i] == e
      modifies this`state, list, list.repr
      ensures Valid() && state == old(state).(queue := RemoveAt(old(state).queue, i))
      ensures p == old(list.contents)[i] && next == NodeAt(old(list.nodes), i + 1)
      ensures p < started && p !in list.contents
      ensures list.repr == old(list.repr)
      ensures list.nodes == RemoveAt(old(list.nodes), i) && list.contents == RemoveAt(old(list.contents), i)
    {
      ghost var q, n, c := state.queue, list.nodes, list.contents;
      p := list.GetPtr(e, i);
      next := list.GetNext(e, i);
      list.Remove(e, i);
      RemoveKeepsElements(n, c, i, started);
      TakenOutOfQueue(q, i, elapsesAt);
      state := state.(queue := RemoveAt(q, i));
    }

    /** A handler runs; afterwards its timer is freed. */
    method Handle(p: nat, actions: seq<Action>)
      requires Valid() && p < started && p !in list.contents
      modifies this, list, list.repr
      ensures Valid() && state == Run(old(state), actions)
      ensures fresh(list.repr - old(list.repr))
      ensures SameElements(old(list.nodes), old(list.contents), list.nodes, list.contents)
      ensures ticks == old(ticks) && started >= old(started)
    {
      ghost var c, st := list.contents, started;
      Perform(actions);
      FreedIsNotQueued(state.queue, elapsesAt, p, c, st, list.contents);
      elapsesAt := elapsesAt - {p};
    }

    /** Remove a due timer, call its handler, and free it; `next` is the successor saved before the call. */
    method Turn(e: Element, actions: seq<Action>, ghost h: nat) returns (p: nat, next: Element?)
      requires Valid() && PointsTo(e, At(h), list.nodes, list.contents, started)
      requires KernelTimers.Find(state.queue, h) < |state.queue|
      modifies this, list, list.repr
      ensures Valid() && ticks == old(ticks) && fresh(list.repr - old(list.repr)) && p == h
      ensures var i := KernelTimers.Find(old(state).queue, h);
              state == Run(old(state).(queue := RemoveAt(old(state).queue, i)), actions)
              && PointsTo(next, First(old(state).queue[i + 1..]), list.nodes, list.contents, started)
    {
      ghost var q, n, c, st := state.queue, list.nodes, list.contents, started;
      ghost var i := KernelTimers.Find(q, h);
      PointedAt(e, h, n, q, st);
      p, next := TakeOut(e, i);
      ghost var n1, c1 := list.nodes, list.contents;
      Handle(p, actions);
      SuccessorIsPointedTo(q, n, c, i, n1, c1, st, list.nodes, list.contents, started);
    }

    method IsDue(e: Element, ghost h: nat) returns (due: bool)
      requires Valid() && PointsTo(e, At(h), list.nodes, list.contents, started)
      requires KernelTimers.Find(state.queue, h) < |state.queue|
      ensures due <==> !LaterAt(state.queue, KernelTimers.Find(state.queue, h), Word(state.now))
    {
      ghost var i := KernelTimers.Find(state.queue, h);
      PointedAt(e, h, list.nodes, state.queue, started);
      var p := list.GetPtr(e, i);
      assert state.queue[i] in state.queue;
      return !Later(elapsesAt[p], ticks);
    }

    /** One round of the poll loop with a due timer, `h`. */
    method PollRound(e: Element, rest: seq<seq<Action>>, ghost h: nat, ghost o: Outcome, ghost fired: seq<Timer>,
                     calls: seq<nat>)
      returns (p: nat, next: Element?, ghost cursor: Cursor, ghost fired': seq<Timer>)
      requires Valid() && PointsTo(e, At(h), list.nodes, list.contents, started)
      requires OnTheWay(o, state, At(h), rest, fired, calls)
      requires KernelTimers.Find(state.queue, h) < |state.queue|
      requires !LaterAt(state.queue, KernelTimers.Find(state.queue, h), Word(state.now))
      modifies this, list, list.repr
      ensures Valid() && ticks == old(ticks) && fresh(list.repr - old(list.repr))
      ensures PointsTo(next, cursor, list.nodes, list.contents, started)
      ensures OnTheWay(o, state, cursor, Tail(rest), fired', calls + [p]) && Closer(old(state), rest, state)
    {
      ghost var s, i := state, KernelTimers.Find(state.queue, h);
      p, next := Turn(e, Head(rest), h);
      cursor, fired' := First(s.queue[i + 1..]), fired + [s.queue[i]];
      PollTurn(o, s, h, rest, fired, calls, state, cursor, fired');
      TurnIsCloser(s, h, rest, state);
    }

    /** `calls` are the handles of the timers whose handlers were called. */
    method PollKernelTimers(scripts: seq<seq<Action>>) returns (calls: seq<nat>)
      requires Valid() && Inv(state) && !CancelsNext(state, scripts)
      modifies this, list, list.repr
      ensures Valid() && ticks == old(ticks)
      ensures EndsWith(Poll(old(state), scripts), state, calls)
    {
      ghost var o := Poll(state, scripts);
      calls := [];
      var rest := scripts;
      var e := list.GetFirst();
      ghost var cursor, fired := First(state.queue), [];
      PollBegins(o, state, scripts);
      while e != null
        invariant Valid() && ticks == old(ticks)
        invariant fresh(list.repr - old(list.repr))
        invariant PointsTo(e, cursor, list.nodes, list.contents, started)
        invariant OnTheWay(o, state, cursor, rest, fired, calls)
        decreases |rest|, |state.queue|
      {
        CursorIsQueued(state, cursor.handle, rest);
        var due := IsDue(e, cursor.handle);
        if !due {
          break;
        }
        var p;
        p, e, cursor, fired := PollRound(e, rest, cursor.handle, o, fired, calls);
        calls := calls + [p];
        rest := Tail(rest);
      }
      PollStops(o, state, cursor, rest, fired, calls);
    }

    /** The tick part of the timer's interrupt handler. */
    method InterruptHandler(scripts: seq<seq<Action>>) returns (calls: seq<nat>)
      requires Valid() && Idle(state) && !CancelsNext(Ticked(state), scripts)
      modifies this, list, list.repr
      ensures Valid()
      ensures Idle(state)
      ensures EndsWith(Poll(Ticked(old(state)), scripts), state, calls)
    {
      TickedInv(state);
      NextWord(state.now);
      ticks := if ticks + 1 == MODULUS then 0 else ticks + 1;
      state := Ticked(state);
      if ticks % HZ == 0 {
        uptime := uptime + 1;
      }
      PollLeavesIdle(Poll(state, scripts), state, scripts);
      calls := PollKernelTimers(scripts);
    }
  }
}
