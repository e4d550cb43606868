/** What the thread pool gets done: a measure that every step of its own decreases, and what holds where no step is left. */
module PoolProgress {
  import opened Threads
  import opened PoolSafety

  /** A step of a thread already there; the others are new calls of `addTask` and spurious wakeups. */
  predicate Own(l: Label) {
    l.Work? || l.Add? || l.Close?
  }

  // ----- the measure

  function WorkLeft(w: Worker): nat {
    match w
    case Running(_) => 4
    case Locking => 3
    case Testing => 2
    case Taking => 1
    case _ => 0
  }

  /** A pending notification can send `n` blocked workers around once more. */
  function AddLeft(n: nat): Adder -> nat {
    (a: Adder) =>
      match a
      case Wanting(todo, _) => 3 * n + 3 + 5 * |todo|
      case Pushing(todo, _) => 3 * n + 2 + 5 * |todo|
      case Owing(_) => 3 * n + 1
      case Returned => 0
  }

  function CloseLeft(n: nat, c: Closer): nat {
    match c
    case Unclosed => 4 * n + 8
    case Entering => 4 * n + 7
    case Clearing => 4 * n + 6
    case Flagging => 4 * n + 5
    case Notifying => 4 * n + 4
    case Unlocking => n + 3
    case Joining(k) => if k <= n then n - k + 1 else 1
    case Closed => 0
  }

  function Left(p: Pool): nat {
    var n := |p.workers|;
    4 * |p.tasks| + Total(p.workers, WorkLeft) + Total(p.adders, AddLeft(n)) + CloseLeft(n, p.closer)
  }

  lemma {:induction false} WakeAllLeft(ws: seq<Worker>)
    ensures Total(WakeAll(ws), WorkLeft) <= Total(ws, WorkLeft) + 3 * |ws|
  {
    if ws != [] {
      assert WakeAll(ws)[1..] == WakeAll(ws[1..]);
      WakeAllLeft(ws[1..]);
    }
  }

  lemma WorkShrinks(p: Pool, i: nat)
    requires Enabled(p, Work(i))
    ensures Left(WorkStep(p, i)) < Left(p)
  {
    var w' := WorkStep(p, i).workers[i];
    TotalSet(p.workers, WorkLeft, i, w');
    assert WorkStep(p, i).workers == p.workers[i := w'];
  }

  lemma AddShrinks(p: Pool, j: nat, woken: nat)
    requires Enabled(p, Add(j, woken))
    ensures Left(AddStep(p, j, woken)) < Left(p)
  {
    var n := |p.workers|;
    var a' := AddStep(p, j, woken).adders[j];
    TotalSet(p.adders, AddLeft(n), j, a');
    assert AddStep(p, j, woken).adders == p.adders[j := a'];
    if p.adders[j] == Owing(true) {
      WakeAllLeft(p.workers);
    } else if p.adders[j] == Owing(false) && Idle(p.workers, woken) {
      TotalSet(p.workers, WorkLeft, woken, Locking);
    }
  }

  lemma CloseShrinks(p: Pool)
    requires Enabled(p, Close)
    ensures Left(CloseStep(p)) < Left(p)
  {
    if p.closer.Notifying? {
      WakeAllLeft(p.workers);
    }
  }

  lemma OwnShrinks(p: Pool, l: Label)
    requires Enabled(p, l) && Own(l)
    ensures Left(Step(p, l)) < Left(p)
  {
    match l
    case Work(i) => WorkShrinks(p, i);
    case Add(j, woken) => AddShrinks(p, j, woken);
    case Close => CloseShrinks(p);
  }

  /** However the threads are interleaved, without new calls and spurious wakeups a run ends within `Left(p)` steps. */
  lemma {:induction false} RunsEnd(p: Pool, ls: seq<Label>)
    requires Runs(p, ls) && forall k :: 0 <= k < |ls| ==> Own(ls[k])
    ensures |ls| + Left(Run(p, ls)) <= Left(p)
    decreases |ls|
  {
    if ls != [] {
      OwnShrinks(p, ls[0]);
      RunsEnd(Step(p, ls[0]), ls[1..]);
    }
  }

  // ----- where a run can end

  /** No thread can go on, except that the pool may be about to be closed. */
  ghost predicate Stuck(p: Pool) {
    forall l: Label :: Own(l) && Enabled(p, l) ==> l.Close? && p.closer.Unclosed?
  }

  lemma StuckNot(p: Pool, l: Label)
    requires Stuck(p) && Own(l) && !(l.Close? && p.closer.Unclosed?)
    ensures !Enabled(p, l)
  {
  }

  lemma StuckIsUnlocked(p: Pool)
    requires Safe(p) && Stuck(p)
    ensures p.owner == Nobody
  {
    match p.owner
    case OfWorker(i) =>
      assert WorkerOk(p, i);
      StuckNot(p, Work(i));
    case OfAdder(j) =>
      StuckNot(p, Add(j, 0));
    case OfCloser =>
      StuckNot(p, Close);
    case Nobody =>
  }

  lemma StuckAdder(p: Pool, j: nat)
    requires Safe(p) && Stuck(p) && j < |p.adders|
    ensures p.adders[j].Returned?
  {
    StuckIsUnlocked(p);
    if !p.adders[j].Returned? {
      var woken: nat := if w :| 0 <= w < |p.workers| && p.workers[w].Blocked? then w else 0;
      StuckNot(p, Add(j, woken));
    }
  }

  lemma StuckWorker(p: Pool, i: nat)
    requires Safe(p) && Stuck(p) && i < |p.workers|
    ensures p.workers[i].Blocked? || p.workers[i].Exited?
  {
    StuckIsUnlocked(p);
    assert WorkerOk(p, i);
    StuckNot(p, Work(i));
  }

  lemma StuckCloser(p: Pool)
    requires Safe(p) && Stuck(p)
    ensures p.closer.Unclosed? || p.closer.Closed?
  {
    StuckIsUnlocked(p);
    if p.closer.Joining? && p.closer.k < |p.workers| {
      StuckWorker(p, p.closer.k);
      assert WorkerOk(p, p.closer.k);
    }
    if !p.closer.Unclosed? && !p.closer.Closed? {
      StuckNot(p, Close);
    }
  }

  lemma {:induction false} TotalZero<T(!new)>(s: seq<T>, f: T -> nat)
    requires forall i :: 0 <= i < |s| ==> f(s[i]) == 0
    ensures Total(s, f) == 0
  {
    if s != [] {
      assert forall i :: 0 <= i < |s[1..]| ==> s[1..][i] == s[i + 1];
      TotalZero(s[1..], f);
    }
  }

  lemma StuckIsEmpty(p: Pool)
    requires Safe(p) && Stuck(p) && p.workers != [] && p.closer.Unclosed?
    ensures p.tasks == []
  {
    forall i | 0 <= i < |p.workers|
      ensures p.workers[i].Blocked? && Ready(p.workers[i]) == 0
    {
      StuckWorker(p, i);
      assert WorkerOk(p, i);
    }
    assert Idle(p.workers, 0);
    forall j | 0 <= j < |p.adders|
      ensures OwesOne(p.adders[j]) == 0 && !OwesAll(p.adders[j])
    {
      StuckAdder(p, j);
    }
    TotalZero(p.workers, Ready);
    TotalZero(p.adders, OwesOne);
  }

  lemma StuckIsFinished(p: Pool, t: Task)
    requires Safe(p) && Stuck(p)
    ensures p.past.finished[t] == multiset(p.past.started)[t]
  {
    forall i | 0 <= i < |p.workers|
      ensures InHand(t)(p.workers[i]) == 0
    {
      StuckWorker(p, i);
    }
    TotalZero(p.workers, InHand(t));
    assert AccountedFor(p, t);
  }

  // ----- the two promises

  /** Every task is run: a pool with workers that nobody closes comes to rest only when every task ever pushed has been
      started, in the order of pushing, and has finished, and every worker waits for more. */
  lemma EveryTaskIsRun(n: nat, ls: seq<Label>)
    requires n > 0 && Runs(Start(n), ls)
    requires var p := Run(Start(n), ls); Stuck(p) && p.closer.Unclosed?
    ensures var p := Run(Start(n), ls);
            && p.tasks == [] && p.past.started == p.past.pushed && p.past.finished == multiset(p.past.pushed)
            && (forall i :: 0 <= i < |p.workers| ==> p.workers[i].Blocked?)
            && (forall j :: 0 <= j < |p.adders| ==> p.adders[j].Returned?)
  {
    StartSafe(n);
    RunSafe(Start(n), ls);
    SameWorkers(Start(n), ls);
    StartedInOrder(n, ls);
    var p := Run(Start(n), ls);
    StuckIsEmpty(p);
    forall t: Task
      ensures p.past.finished[t] == multiset(p.past.started)[t]
    {
      StuckIsFinished(p, t);
    }
    forall i | 0 <= i < |p.workers|
      ensures p.workers[i].Blocked?
    {
      StuckWorker(p, i);
      assert WorkerOk(p, i);
    }
    forall j | 0 <= j < |p.adders|
      ensures p.adders[j].Returned?
    {
      StuckAdder(p, j);
    }
  }

  /** Once `close` has notified, no worker is ever blocked again, so none can be woken either. */
  lemma {:induction false} NoneBlocksAgain(p: Pool, ls: seq<Label>)
    requires Safe(p) && Told(p.closer) && Runs(p, ls)
    ensures Told(Run(p, ls).closer) && NoneIdle(Run(p, ls).workers)
    ensures forall k :: 0 <= k < |ls| ==> !ls[k].Wake?
    decreases |ls|
  {
    forall i | 0 <= i < |p.workers|
      ensures !p.workers[i].Blocked?
    {
      assert WorkerOk(p, i);
    }
    if ls != [] {
      StepSafe(p, ls[0]);
      NoneBlocksAgain(Step(p, ls[0]), ls[1..]);
    }
  }

  /** The joins return: once `close` has notified, a run in which nobody calls `addTask` again ends within `Left(p)` steps,
      and where it can go no further `close` has returned, every worker has exited and every task started has finished. */
  lemma ClosingEnds(p: Pool, ls: seq<Label>)
    requires Safe(p) && Told(p.closer) && Runs(p, ls)
    requires forall k :: 0 <= k < |ls| ==> !ls[k].AddOne? && !ls[k].AddMany?
    ensures |ls| <= Left(p)
    ensures var e := Run(p, ls);
            Stuck(e) ==>
              && e.closer.Closed?
              && (forall i :: 0 <= i < |e.workers| ==> e.workers[i].Exited?)
              && e.past.finished == multiset(e.past.started)
  {
    NoneBlocksAgain(p, ls);
    RunSafe(p, ls);
    assert forall k :: 0 <= k < |ls| ==> !ls[k].Wake? ==> Own(ls[k]);
    RunsEnd(p, ls);
    var e := Run(p, ls);
    if Stuck(e) {
      StuckCloser(e);
      forall i | 0 <= i < |e.workers|
        ensures e.workers[i].Exited?
      {
        StuckWorker(e, i);
      }
      forall t: Task
        ensures e.past.finished[t] == multiset(e.past.started)[t]
      {
        StuckIsFinished(e, t);
      }
    }
  }
}
