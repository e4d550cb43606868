/** The code between taking and releasing the mutex, as methods that update the shared queue and flag, each proved to do
    what a series of steps of one thread does in `Threads`. */
module PoolMonitor {
  import opened Threads

  datatype Next = Exit | Go(task: Task) | NoFront

  /** The steps of call `j` while it still has something to push. */
  function Pushed(p: Pool, j: nat): Pool
    requires j < |p.adders|
    decreases if p.adders[j].Pushing? then |p.adders[j].todo| else 0
  {
    if p.adders[j].Pushing? && p.adders[j].todo != [] then Pushed(AddStep(p, j, 0), j) else p
  }

  function Append(p: Pool, j: nat, todo: seq<Task>): Pool
    requires j < |p.adders| && p.adders[j].Pushing?
  {
    p.(tasks := p.tasks + todo, adders := p.adders[j := Pushing([], p.adders[j].all)],
       past := p.past.(pushed := p.past.pushed + todo))
  }

  lemma SplitFirst<T>(s: seq<T>, t: seq<T>)
    requires t != []
    ensures (s + [t[0]]) + t[1..] == s + t
  {
  }

  lemma AppendFirst(p: Pool, j: nat)
    requires j < |p.adders| && p.adders[j].Pushing? && p.adders[j].todo != []
    ensures var todo := p.adders[j].todo; Append(AddStep(p, j, 0), j, todo[1..]) == Append(p, j, todo)
  {
    var todo, all := p.adders[j].todo, p.adders[j].all;
    SplitFirst(p.tasks, todo);
    SplitFirst(p.past.pushed, todo);
    assert p.adders[j := Pushing(todo[1..], all)][j := Pushing([], all)] == p.adders[j := Pushing([], all)];
  }

  lemma AppendNothing(p: Pool, j: nat)
    requires j < |p.adders| && p.adders[j].Pushing? && p.adders[j].todo == []
    ensures Append(p, j, []) == p
  {
    assert p.adders[j := Pushing([], p.adders[j].all)] == p.adders;
    assert p.tasks + [] == p.tasks && p.past.pushed + [] == p.past.pushed;
  }

  /** These steps can be taken by the call that has the mutex, and together they append its batch to the queue. */
  lemma {:induction false} PushedIsRun(p: Pool, j: nat) returns (ls: seq<Label>)
    requires j < |p.adders| && p.adders[j].Pushing?
    ensures Runs(p, ls) && Run(p, ls) == Pushed(p, j) == Append(p, j, p.adders[j].todo)
    decreases |p.adders[j].todo|
  {
    if p.adders[j].todo == [] {
      ls := [];
      AppendNothing(p, j);
    } else {
      var rest := PushedIsRun(Step(p, Add(j, 0)), j);
      ls := [Add(j, 0)] + rest;
      assert ls[1..] == rest;
      AppendFirst(p, j);
    }
  }

  class Shared {
    var tasks: seq<Task>
    var flag: bool

    ghost predicate Shows(p: Pool)
      reads this
    {
      tasks == p.tasks && flag == p.flag
    }

    constructor (ghost n: nat)
      ensures Shows(Start(n))
    {
      tasks, flag := [], false;
    }

    /** `addTask` of one task, under the mutex. */
    method AddTask(task: Task, ghost p: Pool, ghost j: nat)
      requires Shows(p) && j < |p.adders| && p.adders[j] == Pushing([task], false)
      modifies this
      ensures Shows(Pushed(p, j)) && tasks == old(tasks) + [task] && flag == old(flag)
    {
      tasks := tasks + [task];
      assert Pushed(AddStep(p, j, 0), j) == AddStep(p, j, 0);
    }

    /** `addTask` of a vector, under the mutex. */
    method AddTasks(batch: seq<Task>, ghost p: Pool, ghost j: nat)
      requires Shows(p) && j < |p.adders| && p.adders[j] == Pushing(batch, true)
      modifies this
      ensures Shows(Pushed(p, j)) && tasks == old(tasks) + batch && flag == old(flag)
    {
      ghost var q := p;
      var i := 0;
      assert batch[0..] == batch;
      while i < |batch|
        invariant i <= |batch| && Shows(q) && j < |q.adders| && q.adders[j] == Pushing(batch[i..], true)
        invariant Pushed(q, j) == Pushed(p, j)
        invariant tasks == old(tasks) + batch[..i] && flag == old(flag)
      {
        tasks := tasks + [batch[i]];
        q := AddStep(q, j, 0);
        i := i + 1;
        assert batch[..i] == batch[..i - 1] + [batch[i - 1]];
      }
    }

    /** `close`, from taking the mutex to setting the flag. */
    method Clear(ghost p: Pool)
      requires Shows(p) && p.closer == Clearing
      modifies this
      ensures Shows(CloseStep(CloseStep(p))) && tasks == [] && flag
    {
      tasks := [];
      flag := true;
    }

    /** The predicate of the wait. */
    method MayProceed(ghost p: Pool, ghost i: nat) returns (go: bool)
      requires Shows(p) && i < |p.workers| && p.workers[i].Testing?
      ensures WorkStep(p, i).workers[i] == if go then Taking else Blocked
      ensures Shows(WorkStep(p, i)) && (go <==> tasks != [] || flag)
    {
      go := tasks != [] || flag;
    }

    /** `doRun`, from the end of the wait to releasing the mutex. */
    method TakeNext(ghost p: Pool, ghost i: nat) returns (next: Next)
      requires Shows(p) && i < |p.workers| && p.workers[i].Taking?
      modifies this
      ensures Shows(WorkStep(p, i))
      ensures WorkStep(p, i).workers[i] == match next case Exit => Exited case Go(t) => Running(t) case NoFront => Broken
      ensures next == NoFront <==> !MayGo(p.tasks, p.flag)
      ensures next == Exit <==> old(tasks) == [] && old(flag)
      ensures if next.Go? then old(tasks) == [next.task] + tasks else tasks == old(tasks)
    {
      if tasks == [] && flag {
        return Exit;
      }
      if tasks == [] {
        return NoFront;
      }
      next := Go(tasks[0]);
      tasks := tasks[1..];
    }
  }
}
