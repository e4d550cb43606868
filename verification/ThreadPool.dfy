/** The thread pool as an interleaving of its threads.

    One mutex, one condition variable, a FIFO queue and a flag are shared by any number of workers (`ThreadWork::doRun`),
    any number of `addTask` calls, and the one `close` of the destructor. A step is what one thread does between two points
    at which another may be scheduled: taking the mutex, one access to the shared state under it, releasing it, a
    notification. Waiting releases the mutex and blocks in one step, as the condition variable guarantees. */
module Threads {
  /** A `TaskPtr`; only its identity matters. */
  type Task = nat

  /** Where a worker is in `doRun`. */
  datatype Worker =
    | Locking               // about to take the mutex: at the head of the loop, or woken up
    | Testing               // has the mutex, about to evaluate the predicate of `wait`
    | Taking                // has the mutex, past the wait
    | Blocked               // waiting on the condition variable
    | Running(task: Task)
    | Exited
    | Broken                // has asked an empty queue for its front, which the library leaves undefined

  /** Where a call of `addTask` is; `all` distinguishes the overload that takes a vector. */
  datatype Adder =
    | Wanting(todo: seq<Task>, all: bool)
    | Pushing(todo: seq<Task>, all: bool)  // has the mutex
    | Owing(all: bool)                     // has released the mutex and not yet notified
    | Returned

  /** Where `close` is. */
  datatype Closer =
    | Unclosed | Entering
    | Clearing | Flagging | Notifying | Unlocking   // has the mutex
    | Joining(k: nat)                               // has joined `k` workers
    | Closed

  datatype Owner = Nobody | OfWorker(i: nat) | OfAdder(j: nat) | OfCloser

  /** What has happened so far: nothing a thread can see. `cut` is how many tasks had been started when the queue was
      cleared. */
  datatype History = History(pushed: seq<Task>, started: seq<Task>, finished: multiset<Task>, dropped: seq<Task>, cut: nat)

  datatype Pool = Pool(tasks: seq<Task>, flag: bool, owner: Owner,
                       workers: seq<Worker>, adders: seq<Adder>, closer: Closer, past: History)

  datatype Label =
    | Work(i: nat)               // the next step of worker i
    | Wake(i: nat)               // a spurious wakeup
    | AddOne(task: Task) | AddMany(batch: seq<Task>)   // some thread calls `addTask`
    | Add(j: nat, woken: nat)    // the next step of that call; `notify_one` wakes `woken`
    | Close                      // the next step of `close`

  function Start(n: nat): Pool {
    Pool([], false, Nobody, seq(n, _ => Locking), [], Unclosed, History([], [], multiset{}, [], 0))
  }

  // ----- the steps

  predicate Idle(ws: seq<Worker>, i: nat) {
    i < |ws| && ws[i].Blocked?
  }

  predicate NoneIdle(ws: seq<Worker>) {
    forall i :: 0 <= i < |ws| ==> !ws[i].Blocked?
  }

  predicate Enabled(p: Pool, l: Label) {
    match l
    case Work(i) =>
      && i < |p.workers| && !p.workers[i].Blocked? && !p.workers[i].Exited? && !p.workers[i].Broken?
      && (p.workers[i].Locking? ==> p.owner == Nobody)
    case Wake(i) => Idle(p.workers, i)
    case AddOne(_) => true
    case AddMany(_) => true
    case Add(j, woken) =>
      && j < |p.adders| && !p.adders[j].Returned? && (p.adders[j].Wanting? ==> p.owner == Nobody)
      && (p.adders[j] == Owing(false) ==> Idle(p.workers, woken) || NoneIdle(p.workers))
    case Close =>
      && p.closer != Closed && (p.closer == Entering ==> p.owner == Nobody)
      && (p.closer.Joining? && p.closer.k < |p.workers| ==> p.workers[p.closer.k].Exited?)
  }

  function Woken(w: Worker): Worker {
    if w.Blocked? then Locking else w
  }

  function WakeAll(ws: seq<Worker>): (r: seq<Worker>)
    ensures |r| == |ws| && forall i :: 0 <= i < |ws| ==> r[i] == Woken(ws[i])
  {
    seq(|ws|, i requires 0 <= i < |ws| => Woken(ws[i]))
  }

  /** The predicate of the wait. */
  predicate MayGo(tasks: seq<Task>, flag: bool) {
    tasks != [] || flag
  }

  function WorkStep(p: Pool, i: nat): Pool
    requires i < |p.workers|
  {
    match p.workers[i]
    case Locking => p.(owner := OfWorker(i), workers := p.workers[i := Testing])
    case Testing =>
      if MayGo(p.tasks, p.flag) then p.(workers := p.workers[i := Taking])
      else p.(owner := Nobody, workers := p.workers[i := Blocked])
    case Taking =>
      if p.tasks == [] && p.flag then p.(owner := Nobody, workers := p.workers[i := Exited])
      else if p.tasks == [] then p.(workers := p.workers[i := Broken])
      else p.(owner := Nobody, workers := p.workers[i := Running(p.tasks[0])], tasks := p.tasks[1..],
              past := p.past.(started := p.past.started + [p.tasks[0]]))
    case Running(t) =>
      p.(workers := p.workers[i := Locking], past := p.past.(finished := p.past.finished + multiset{t}))
    case _ => p
  }

  function AddStep(p: Pool, j: nat, woken: nat): Pool
    requires j < |p.adders|
  {
    match p.adders[j]
    case Wanting(todo, all) => p.(owner := OfAdder(j), adders := p.adders[j := Pushing(todo, all)])
    case Pushing(todo, all) =>
      if todo == [] then p.(owner := Nobody, adders := p.adders[j := Owing(all)])
      else p.(tasks := p.tasks + [todo[0]], adders := p.adders[j := Pushing(todo[1..], all)],
              past := p.past.(pushed := p.past.pushed + [todo[0]]))
    case Owing(all) =>
      p.(adders := p.adders[j := Returned],
         workers := if all then WakeAll(p.workers)
                    else if Idle(p.workers, woken) then p.workers[woken := Locking] else p.workers)
    case Returned => p
  }

  function CloseStep(p: Pool): Pool {
    match p.closer
    case Unclosed => p.(closer := Entering)
    case Entering => p.(closer := Clearing, owner := OfCloser)
    case Clearing =>
      p.(closer := Flagging, tasks := [], past := p.past.(dropped := p.tasks, cut := |p.past.started|))
    case Flagging => p.(closer := Notifying, flag := true)
    case Notifying => p.(closer := Unlocking, workers := WakeAll(p.workers))
    case Unlocking => p.(closer := Joining(0), owner := Nobody)
    case Joining(k) => p.(closer := if k < |p.workers| then Joining(k + 1) else Closed)
    case Closed => p
  }

  function Step(p: Pool, l: Label): Pool
    requires Enabled(p, l)
  {
    match l
    case Work(i) => WorkStep(p, i)
    case Wake(i) => p.(workers := p.workers[i := Locking])
    case AddOne(t) => p.(adders := p.adders + [Wanting([t], false)])
    case AddMany(ts) => p.(adders := p.adders + [Wanting(ts, true)])
    case Add(j, woken) => AddStep(p, j, woken)
    case Close => CloseStep(p)
  }

  predicate Runs(p: Pool, ls: seq<Label>)
    decreases |ls|
  {
    ls == [] || (Enabled(p, ls[0]) && Runs(Step(p, ls[0]), ls[1..]))
  }

  function Run(p: Pool, ls: seq<Label>): Pool
    requires Runs(p, ls)
    decreases |ls|
  {
    if ls == [] then p else Run(Step(p, ls[0]), ls[1..])
  }

  // ----- sums over the threads

  function Total<T(!new)>(s: seq<T>, f: T -> nat): nat {
    if s == [] then 0 else f(s[0]) + Total(s[1..], f)
  }

  lemma {:induction false} TotalSet<T(!new)>(s: seq<T>, f: T -> nat, i: nat, x: T)
    requires i < |s|
    ensures Total(s[i := x], f) + f(s[i]) == Total(s, f) + f(x)
  {
    if i > 0 {
      assert s[i := x][1..] == s[1..][i - 1 := x];
      TotalSet(s[1..], f, i - 1, x);
    } else {
      assert s[0 := x][1..] == s[1..];
    }
  }

  lemma {:induction false} TotalSnoc<T(!new)>(s: seq<T>, f: T -> nat, x: T)
    ensures Total(s + [x], f) == Total(s, f) + f(x)
  {
    if s != [] {
      assert (s + [x])[1..] == s[1..] + [x];
      TotalSnoc(s[1..], f, x);
    } else {
      assert Total([x], f) == f(x) + Total([], f);
    }
  }
}
