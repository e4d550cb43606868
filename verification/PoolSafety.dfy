/** What holds in every state the thread pool can reach, under every interleaving. */
module PoolSafety {
  import opened Threads

  // ----- the mutex

  predicate Holds(w: Worker) {
    w.Testing? || w.Taking? || w.Broken?
  }

  predicate CloserHolds(c: Closer) {
    c.Clearing? || c.Flagging? || c.Notifying? || c.Unlocking?
  }

  /** Exactly the owner of the mutex is inside a critical section. */
  predicate Exclusive(p: Pool) {
    && (forall i :: 0 <= i < |p.workers| ==> (Holds(p.workers[i]) <==> p.owner == OfWorker(i)))
    && (forall j :: 0 <= j < |p.adders| ==> (p.adders[j].Pushing? <==> p.owner == OfAdder(j)))
    && (CloserHolds(p.closer) <==> p.owner == OfCloser)
    && (p.owner.OfWorker? ==> p.owner.i < |p.workers|)
    && (p.owner.OfAdder? ==> p.owner.j < |p.adders|)
  }

  lemma WorkExclusive(p: Pool, i: nat)
    requires Exclusive(p) && Enabled(p, Work(i))
    ensures Exclusive(WorkStep(p, i))
  {
  }

  lemma AddExclusive(p: Pool, j: nat, woken: nat)
    requires Exclusive(p) && Enabled(p, Add(j, woken))
    ensures Exclusive(AddStep(p, j, woken))
  {
  }

  lemma CloseExclusive(p: Pool)
    requires Exclusive(p) && Enabled(p, Close)
    ensures Exclusive(CloseStep(p))
  {
  }

  // ----- the flag, and who may wait or exit

  predicate Flagged(c: Closer) {
    c.Notifying? || c.Unlocking? || c.Joining? || c.Closed?
  }

  /** `close` has notified: from here on no worker is blocked. */
  predicate Told(c: Closer) {
    c.Unlocking? || c.Joining? || c.Closed?
  }

  predicate Joined(p: Pool, i: nat) {
    p.closer.Closed? || (p.closer.Joining? && i < p.closer.k)
  }

  predicate WorkerOk(p: Pool, i: nat)
    requires i < |p.workers|
  {
    && p.workers[i] != Broken
    && (p.workers[i].Taking? ==> MayGo(p.tasks, p.flag))
    && (p.workers[i].Exited? ==> p.flag)
    && (p.workers[i].Blocked? ==> !Told(p.closer))
    && (Joined(p, i) ==> p.workers[i].Exited?)
  }

  predicate Orderly(p: Pool) {
    && (p.flag <==> Flagged(p.closer))
    && (p.closer.Joining? ==> p.closer.k <= |p.workers|)
    && (forall i :: 0 <= i < |p.workers| ==> WorkerOk(p, i))
  }

  lemma WorkOrderly(p: Pool, i: nat)
    requires Exclusive(p) && Orderly(p) && Enabled(p, Work(i))
    ensures Orderly(WorkStep(p, i))
  {
    var p' := WorkStep(p, i);
    forall k | 0 <= k < |p'.workers|
      ensures WorkerOk(p', k)
    {
      assert WorkerOk(p, k) && WorkerOk(p, i);
    }
  }

  lemma AddOrderly(p: Pool, j: nat, woken: nat)
    requires Exclusive(p) && Orderly(p) && Enabled(p, Add(j, woken))
    ensures Orderly(AddStep(p, j, woken))
  {
    var p' := AddStep(p, j, woken);
    forall k | 0 <= k < |p'.workers|
      ensures WorkerOk(p', k)
    {
      assert WorkerOk(p, k);
    }
  }

  lemma CloseOrderly(p: Pool)
    requires Exclusive(p) && Orderly(p) && Enabled(p, Close)
    ensures Orderly(CloseStep(p))
  {
    var p' := CloseStep(p);
    forall k | 0 <= k < |p'.workers|
      ensures WorkerOk(p', k)
    {
      assert WorkerOk(p, k);
    }
  }

  // ----- wakeups

  /** A worker on its way to the queue. */
  function Ready(w: Worker): nat {
    if w.Locking? || w.Testing? || w.Taking? then 1 else 0
  }

  /** A call that has pushed its one task and will notify one worker. */
  function OwesOne(a: Adder): nat {
    if a == Pushing([], false) || a == Owing(false) then 1 else 0
  }

  predicate OwesAll(a: Adder) {
    (a.Pushing? || a.Owing?) && a.all
  }

  predicate SomeOwesAll(adders: seq<Adder>) {
    exists j :: 0 <= j < |adders| && OwesAll(adders[j])
  }

  predicate Single(a: Adder) {
    (a.Wanting? || a.Pushing?) && !a.all ==> |a.todo| <= 1
  }

  predicate Covered(p: Pool) {
    SomeOwesAll(p.adders) || |p.tasks| <= Total(p.workers, Ready) + Total(p.adders, OwesOne)
  }

  /** While any worker sleeps, every queued task has a worker on its way to the queue or a notification to come. */
  predicate Attended(p: Pool) {
    && (forall j :: 0 <= j < |p.adders| ==> Single(p.adders[j]))
    && (!NoneIdle(p.workers) ==> Covered(p))
  }

  lemma WorkAttended(p: Pool, i: nat)
    requires Exclusive(p) && Attended(p) && Enabled(p, Work(i))
    ensures Attended(WorkStep(p, i))
  {
    var ws' := WorkStep(p, i).workers;
    if !NoneIdle(ws') && p.workers[i] != Testing {
      var k :| 0 <= k < |ws'| && ws'[k].Blocked?;
      assert p.workers[k].Blocked?;
    }
    TotalSet(p.workers, Ready, i, ws'[i]);
    assert ws' == p.workers[i := ws'[i]];
  }

  lemma WakeAttended(p: Pool, i: nat)
    requires Attended(p) && Idle(p.workers, i)
    ensures Attended(p.(workers := p.workers[i := Locking]))
  {
    TotalSet(p.workers, Ready, i, Locking);
  }

  lemma AddAttended(p: Pool, j: nat, woken: nat)
    requires Exclusive(p) && Attended(p) && Enabled(p, Add(j, woken))
    ensures Attended(AddStep(p, j, woken))
  {
    var p' := AddStep(p, j, woken);
    var a := p'.adders[j];
    assert p'.adders == p.adders[j := a];
    TotalSet(p.adders, OwesOne, j, a);
    assert Single(p.adders[j]);
    if p.adders[j] == Owing(false) && Idle(p.workers, woken) {
      TotalSet(p.workers, Ready, woken, Locking);
    }
    if SomeOwesAll(p.adders) && !SomeOwesAll(p'.adders) {
      OnlyNotifyAllPays(p, j, woken);
    }
  }

  lemma OnlyNotifyAllPays(p: Pool, j: nat, woken: nat)
    requires Enabled(p, Add(j, woken))
    requires SomeOwesAll(p.adders) && !SomeOwesAll(AddStep(p, j, woken).adders)
    ensures NoneIdle(AddStep(p, j, woken).workers)
  {
    var k :| 0 <= k < |p.adders| && OwesAll(p.adders[k]);
    var as' := AddStep(p, j, woken).adders;
    assert !OwesAll(as'[k]) && !OwesAll(as'[j]);
  }

  lemma CallAttended(p: Pool, a: Adder)
    requires Attended(p) && a.Wanting? && Single(a)
    ensures Attended(p.(adders := p.adders + [a]))
  {
    TotalSnoc(p.adders, OwesOne, a);
    var p' := p.(adders := p.adders + [a]);
    if SomeOwesAll(p.adders) {
      var k :| 0 <= k < |p.adders| && OwesAll(p.adders[k]);
      assert p'.adders[k] == p.adders[k];
    }
  }

  lemma CloseAttended(p: Pool)
    requires Attended(p) && Enabled(p, Close)
    ensures Attended(CloseStep(p))
  {
  }

  // ----- the tasks

  /** Every task ever pushed was started, dropped by `close`, or is queued, and these follow one another in the order of
      pushing: those started before the queue was cleared, those dropped, those started later, those queued. */
  predicate Conserved(p: Pool) {
    var h := p.past;
    && h.cut <= |h.started|
    && h.pushed == h.started[..h.cut] + h.dropped + h.started[h.cut..] + p.tasks
    && (!Flagged(p.closer) && !p.closer.Flagging? ==> h.dropped == [] && h.cut == 0)
  }

  lemma WorkConserved(p: Pool, i: nat)
    requires Conserved(p) && Enabled(p, Work(i))
    ensures Conserved(WorkStep(p, i))
  {
    if p.workers[i].Taking? && p.tasks != [] {
      StartFront(p.past, p.tasks);
    }
  }

  lemma StartFront(h: History, tasks: seq<Task>)
    requires h.cut <= |h.started| && tasks != []
    ensures var started := h.started + [tasks[0]];
            started[..h.cut] + h.dropped + started[h.cut..] + tasks[1..]
            == h.started[..h.cut] + h.dropped + h.started[h.cut..] + tasks
  {
    var started := h.started + [tasks[0]];
    assert started[..h.cut] == h.started[..h.cut];
    assert started[h.cut..] == h.started[h.cut..] + [tasks[0]];
    assert [tasks[0]] + tasks[1..] == tasks;
  }

  lemma AddConserved(p: Pool, j: nat, woken: nat)
    requires Conserved(p) && Enabled(p, Add(j, woken))
    ensures Conserved(AddStep(p, j, woken))
  {
    var a := p.adders[j];
    if a.Pushing? && a.todo != [] {
      var h := p.past;
      var front := h.started[..h.cut] + h.dropped + h.started[h.cut..];
      assert (front + p.tasks) + [a.todo[0]] == front + (p.tasks + [a.todo[0]]);
    }
  }

  lemma CloseConserved(p: Pool)
    requires Conserved(p) && Enabled(p, Close)
    ensures Conserved(CloseStep(p))
  {
    var h := p.past;
    if p.closer.Clearing? {
      assert h.started[..0] + [] + h.started[0..] + p.tasks == h.started + p.tasks;
      assert h.started[..|h.started|] + p.tasks + h.started[|h.started|..] + [] == h.started + p.tasks;
    }
  }

  /** Whether a worker is running `t`, as a number to add up. */
  function InHand(t: Task): Worker -> nat {
    (w: Worker) => if w == Running(t) then 1 else 0
  }

  predicate AccountedFor(p: Pool, t: Task) {
    multiset(p.past.started)[t] == p.past.finished[t] + Total(p.workers, InHand(t))
  }

  /** Each start of a task has ended or is under way on exactly one worker. */
  ghost predicate Accounted(p: Pool) {
    forall t :: AccountedFor(p, t)
  }

  lemma CountSnoc(s: seq<Task>, x: Task, t: Task)
    ensures multiset(s + [x])[t] == multiset(s)[t] + InHand(t)(Running(x))
  {
  }

  lemma CountPlus(m: multiset<Task>, x: Task, t: Task)
    ensures (m + multiset{x})[t] == m[t] + InHand(t)(Running(x))
  {
  }

  lemma TakeAccounted(p: Pool, i: nat, t: Task)
    requires AccountedFor(p, t) && Enabled(p, Work(i)) && p.workers[i].Taking? && p.tasks != []
    ensures AccountedFor(WorkStep(p, i), t)
  {
    CountSnoc(p.past.started, p.tasks[0], t);
    TotalSet(p.workers, InHand(t), i, Running(p.tasks[0]));
  }

  lemma FinishAccounted(p: Pool, i: nat, t: Task)
    requires AccountedFor(p, t) && Enabled(p, Work(i)) && p.workers[i].Running?
    ensures AccountedFor(WorkStep(p, i), t)
  {
    CountPlus(p.past.finished, p.workers[i].task, t);
    TotalSet(p.workers, InHand(t), i, Locking);
  }

  lemma WorkAccounted(p: Pool, i: nat, t: Task)
    requires AccountedFor(p, t) && Enabled(p, Work(i))
    ensures AccountedFor(WorkStep(p, i), t)
  {
    var w := p.workers[i];
    if w.Taking? && p.tasks != [] {
      TakeAccounted(p, i, t);
    } else if w.Running? {
      FinishAccounted(p, i, t);
    } else {
      TotalSet(p.workers, InHand(t), i, WorkStep(p, i).workers[i]);
    }
  }

  lemma {:induction false} WakeAllInHand(ws: seq<Worker>, t: Task)
    ensures Total(WakeAll(ws), InHand(t)) == Total(ws, InHand(t))
  {
    if ws != [] {
      assert WakeAll(ws)[1..] == WakeAll(ws[1..]);
      WakeAllInHand(ws[1..], t);
    }
  }

  lemma AddAccounted(p: Pool, j: nat, woken: nat, t: Task)
    requires AccountedFor(p, t) && Enabled(p, Add(j, woken))
    ensures AccountedFor(AddStep(p, j, woken), t)
  {
    if p.adders[j] == Owing(true) {
      WakeAllInHand(p.workers, t);
    } else if Idle(p.workers, woken) {
      TotalSet(p.workers, InHand(t), woken, Locking);
    }
  }

  lemma CloseAccounted(p: Pool, t: Task)
    requires AccountedFor(p, t) && Enabled(p, Close)
    ensures AccountedFor(CloseStep(p), t)
  {
    if p.closer.Notifying? {
      WakeAllInHand(p.workers, t);
    }
  }

  lemma StepAccounted(p: Pool, l: Label)
    requires Accounted(p) && Enabled(p, l)
    ensures Accounted(Step(p, l))
  {
    forall t: Task
      ensures AccountedFor(Step(p, l), t)
    {
      assert AccountedFor(p, t);
      match l
      case Work(i) => WorkAccounted(p, i, t);
      case Wake(i) => TotalSet(p.workers, InHand(t), i, Locking);
      case Add(j, woken) => AddAccounted(p, j, woken, t);
      case Close => CloseAccounted(p, t);
      case _ =>
    }
  }

  // ----- every run

  ghost predicate Safe(p: Pool) {
    Exclusive(p) && Orderly(p) && Attended(p) && Conserved(p) && Accounted(p)
  }

  lemma StepSafe(p: Pool, l: Label)
    requires Safe(p) && Enabled(p, l)
    ensures Safe(Step(p, l))
  {
    StepAccounted(p, l);
    match l
    case Work(i) =>
      WorkExclusive(p, i);
      WorkOrderly(p, i);
      WorkAttended(p, i);
      WorkConserved(p, i);
    case Wake(i) =>
      WakeSafe(p, i);
    case AddOne(t) =>
      CallSafe(p, Wanting([t], false));
    case AddMany(ts) =>
      CallSafe(p, Wanting(ts, true));
    case Add(j, woken) =>
      AddExclusive(p, j, woken);
      AddOrderly(p, j, woken);
      AddAttended(p, j, woken);
      AddConserved(p, j, woken);
    case Close =>
      CloseExclusive(p);
      CloseOrderly(p);
      CloseAttended(p);
      CloseConserved(p);
  }

  lemma WakeSafe(p: Pool, i: nat)
    requires Safe(p) && Enabled(p, Wake(i))
    ensures var p' := Step(p, Wake(i)); Exclusive(p') && Orderly(p') && Attended(p') && Conserved(p')
  {
    var p' := Step(p, Wake(i));
    WakeAttended(p, i);
    forall k | 0 <= k < |p'.workers|
      ensures WorkerOk(p', k)
    {
      assert WorkerOk(p, k);
    }
  }

  lemma CallSafe(p: Pool, a: Adder)
    requires Safe(p) && a.Wanting? && Single(a)
    ensures var p' := p.(adders := p.adders + [a]); Exclusive(p') && Orderly(p') && Attended(p') && Conserved(p')
  {
    var p' := p.(adders := p.adders + [a]);
    CallAttended(p, a);
    forall k | 0 <= k < |p'.workers|
      ensures WorkerOk(p', k)
    {
      assert WorkerOk(p, k);
    }
  }

  lemma StartSafe(n: nat)
    ensures Safe(Start(n))
  {
    forall t: Task
      ensures AccountedFor(Start(n), t)
    {
      NoHands(n, t);
    }
  }

  lemma {:induction false} NoHands(n: nat, t: Task)
    ensures Total(Start(n).workers, InHand(t)) == 0
  {
    if n > 0 {
      assert Start(n).workers[1..] == Start(n - 1).workers;
      NoHands(n - 1, t);
    }
  }

  lemma {:induction false} RunSafe(p: Pool, ls: seq<Label>)
    requires Safe(p) && Runs(p, ls)
    ensures Safe(Run(p, ls))
    decreases |ls|
  {
    if ls != [] {
      StepSafe(p, ls[0]);
      RunSafe(Step(p, ls[0]), ls[1..]);
    }
  }

  /** A worker that will look at the queue again without being notified. */
  predicate Awake(w: Worker) {
    w.Locking? || w.Testing? || w.Taking? || w.Running?
  }

  predicate Owes(a: Adder) {
    OwesAll(a) || OwesOne(a) == 1
  }

  // ----- what this says of a pool with `n` workers after any run

  /** The front of the queue is only taken while there is one, and only one thread is ever in a critical section. */
  lemma SectionsAreSound(n: nat, ls: seq<Label>)
    requires Runs(Start(n), ls)
    ensures var p := Run(Start(n), ls);
            && (forall i :: 0 <= i < |p.workers| ==> p.workers[i] != Broken)
            && (forall i, k :: 0 <= i < k < |p.workers| ==> !(Holds(p.workers[i]) && Holds(p.workers[k])))
            && (forall i, j :: 0 <= i < |p.workers| && 0 <= j < |p.adders| ==> !(Holds(p.workers[i]) && p.adders[j].Pushing?))
            && (CloserHolds(p.closer) ==> forall i :: 0 <= i < |p.workers| ==> !Holds(p.workers[i]))
  {
    StartSafe(n);
    RunSafe(Start(n), ls);
    var p := Run(Start(n), ls);
    forall i | 0 <= i < |p.workers|
      ensures p.workers[i] != Broken
    {
      assert WorkerOk(p, i);
    }
  }

  /** No task waits for a sleeper: while a worker is blocked and no `notify_all` is owed, the queue is no longer than the
      workers on their way to it and the `notify_one` calls still owed. Workers busy with a task do not count. */
  lemma NoTaskWaitsForASleeper(n: nat, ls: seq<Label>)
    requires Runs(Start(n), ls)
    ensures var p := Run(Start(n), ls);
            !NoneIdle(p.workers) && !SomeOwesAll(p.adders) ==>
              |p.tasks| <= Total(p.workers, Ready) + Total(p.adders, OwesOne)
  {
    StartSafe(n);
    RunSafe(Start(n), ls);
  }

  /** No lost wakeup: while the pool is open and a task is queued, some worker is awake or a notification is owed. */
  lemma NoLostWakeup(n: nat, ls: seq<Label>)
    requires n > 0 && Runs(Start(n), ls)
    requires var p := Run(Start(n), ls); p.tasks != [] && !p.flag
    ensures var p := Run(Start(n), ls);
            || (exists i :: 0 <= i < |p.workers| && Awake(p.workers[i]))
            || (exists j :: 0 <= j < |p.adders| && Owes(p.adders[j]))
  {
    StartSafe(n);
    RunSafe(Start(n), ls);
    SameWorkers(Start(n), ls);
    var p := Run(Start(n), ls);
    assert WorkerOk(p, 0);
    if !Awake(p.workers[0]) {
      assert Idle(p.workers, 0);
      if SomeOwesAll(p.adders) {
        var j :| 0 <= j < |p.adders| && OwesAll(p.adders[j]);
        assert Owes(p.adders[j]);
      } else if Total(p.workers, Ready) > 0 {
        var i := SomePositive(p.workers, Ready);
        assert Awake(p.workers[i]);
      } else {
        var j := SomePositive(p.adders, OwesOne);
        assert Owes(p.adders[j]);
      }
    }
  }

  lemma {:induction false} SameWorkers(p: Pool, ls: seq<Label>)
    requires Runs(p, ls)
    ensures |Run(p, ls).workers| == |p.workers|
    decreases |ls|
  {
    if ls != [] {
      SameWorkers(Step(p, ls[0]), ls[1..]);
    }
  }

  lemma {:induction false} SomePositive<T(!new)>(s: seq<T>, f: T -> nat) returns (i: nat)
    requires Total(s, f) > 0
    ensures i < |s| && f(s[i]) > 0
  {
    if f(s[0]) > 0 {
      i := 0;
    } else {
      var k := SomePositive(s[1..], f);
      i := k + 1;
    }
  }

  /** Before `close` empties the queue, the tasks started and those queued are, one after the other, exactly the tasks
      pushed; each is started once and in the order of pushing, and each one started is running or has finished. */
  lemma StartedInOrder(n: nat, ls: seq<Label>)
    requires Runs(Start(n), ls)
    ensures var p := Run(Start(n), ls);
            && (!p.flag && !p.closer.Flagging? ==> p.past.pushed == p.past.started + p.tasks)
            && Accounted(p)
  {
    StartSafe(n);
    RunSafe(Start(n), ls);
    var p := Run(Start(n), ls);
    var h := p.past;
    if !p.flag && !p.closer.Flagging? {
      assert h.started[..0] + [] + h.started[0..] + p.tasks == h.started + p.tasks;
    }
  }

  /** With `close`, the tasks pushed are those started before it, those it dropped, those started after it and those queued,
      in this order: the queue loses nothing, repeats nothing and overtakes nothing. */
  lemma ClosingDropsOneStretch(n: nat, ls: seq<Label>)
    requires Runs(Start(n), ls)
    ensures var p := Run(Start(n), ls); var h := p.past;
            && h.cut <= |h.started|
            && h.pushed == h.started[..h.cut] + h.dropped + h.started[h.cut..] + p.tasks
            && multiset(h.pushed) == multiset(h.started) + multiset(h.dropped) + multiset(p.tasks)
  {
    StartSafe(n);
    RunSafe(Start(n), ls);
    var p := Run(Start(n), ls);
    var h := p.past;
    assert h.started == h.started[..h.cut] + h.started[h.cut..];
  }

  /** The tasks that have left the queue, in the order of pushing. */
  function Gone(h: History): seq<Task>
    requires h.cut <= |h.started|
  {
    h.started[..h.cut] + h.dropped + h.started[h.cut..]
  }

  lemma GoneGrows(p: Pool, l: Label)
    requires Safe(p) && Flagged(p.closer) && Enabled(p, l)
    ensures var q := Step(p, l); Safe(q) && Flagged(q.closer) && Gone(p.past) <= Gone(q.past)
  {
    StepSafe(p, l);
    if l.Work? && p.workers[l.i].Taking? && p.tasks != [] {
      var h := p.past;
      var started := h.started + [p.tasks[0]];
      assert started[..h.cut] == h.started[..h.cut];
      assert started[h.cut..] == h.started[h.cut..] + [p.tasks[0]];
    }
  }

  lemma {:induction false} GoneGrowsOn(p: Pool, ls: seq<Label>)
    requires Safe(p) && Flagged(p.closer) && Runs(p, ls)
    ensures Safe(Run(p, ls)) && Gone(p.past) <= Gone(Run(p, ls).past)
    decreases |ls|
  {
    if ls != [] {
      GoneGrows(p, ls[0]);
      GoneGrowsOn(Step(p, ls[0]), ls[1..]);
    }
  }

  /** A worker that exits has seen the queue empty with the flag set, so everything pushed so far has left the queue. */
  lemma ExitStep(p: Pool, l: Label, i: nat)
    requires Safe(p) && Enabled(p, l) && i < |p.workers| == |Step(p, l).workers|
    requires !p.workers[i].Exited? && Step(p, l).workers[i].Exited?
    ensures Flagged(Step(p, l).closer) && Step(p, l).past == p.past && p.past.pushed == Gone(p.past)
  {
    assert WorkerOk(p, i);
    assert l == Work(i);
  }

  lemma PushedGrows(p: Pool, l: Label)
    requires Enabled(p, l)
    ensures p.past.pushed <= Step(p, l).past.pushed
  {
  }

  /** No worker leaves while a task is waiting: whatever had been pushed while a worker was still there has been started, or
      dropped by `close`, by the time it has gone, also tasks pushed after `close`. */
  lemma {:induction false} ExitLeavesNothing(p: Pool, ls: seq<Label>, i: nat)
    requires Safe(p) && Runs(p, ls) && i < |p.workers| == |Run(p, ls).workers|
    requires !p.workers[i].Exited? && Run(p, ls).workers[i].Exited?
    ensures Safe(Run(p, ls)) && p.past.pushed <= Gone(Run(p, ls).past)
    decreases |ls|
  {
    var q := Step(p, ls[0]);
    StepSafe(p, ls[0]);
    SameWorkers(p, [ls[0]]);
    PushedGrows(p, ls[0]);
    if q.workers[i].Exited? {
      ExitStep(p, ls[0], i);
      GoneGrowsOn(q, ls[1..]);
    } else {
      ExitLeavesNothing(q, ls[1..], i);
    }
  }
}
