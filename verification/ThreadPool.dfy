/**
 The thread pool (hw4/ThreadPool.cc) as a system of steps.  Everything a thread does
 between taking the lock and giving it up again, by unlocking or by waiting on the
 condition variable, is one step.  Threads take steps in any order; a waiting
 worker may wake up for no reason, and a signal wakes at least one waiting worker.
 */
module ThreadPool {
  import opened Common

  // Where a worker is: about to start, waiting on q_cond_, awake but not yet holding
  // the lock again, running a task with the lock released, or gone.
  datatype Worker<+T> = Starting | Waiting | Woken | Running(task: T) | Exited

  // Where the owner of the pool is: waiting in the constructor for the workers to be
  // born, using the pool, joining worker i of numThreads in the destructor, running
  // what is left of the queue, or done.
  datatype Owner = Constructing | Open | Joining(i: nat, numThreads: int) | Draining | Done

  datatype Pool<+T> = Pool(
    workers: seq<Worker<T>>, queue: seq<T>, terminate: bool, numRunning: int, owner: Owner,
    dispatched: seq<T>, started: seq<T>, finished: seq<T>)

  datatype Step<+T> =
    | Start(w: nat)                     // ThreadLoop up to the first wait
    | WakeUp(w: nat)                    // a spurious wakeup
    | Resume(w: nat)                    // from the return of the wait to the next wait, task or exit
    | Finish(w: nat)                    // from the return of a task to the next wait, task or exit
    | Opened                            // the constructor sees that all workers were born
    | Dispatch(t: T, woken: set<nat>)
    | Destroy                           // the destructor up to the first join
    | Join                              // one join, up to the next one or the end of the loop
    | Drain                             // the destructor runs a task that is left
    | Finished                          // no task is left

  // ----- the steps -----

  // The constructor has created the threads and released the lock.
  function Created<T>(n: nat): Pool<T>
  {
    Pool(seq(n, _ => Starting), [], false, 0, Constructing, [], [], [])
  }

  predicate Enabled<T>(s: Pool<T>, step: Step<T>)
  {
    match step
    case Start(w) => w < |s.workers| && s.workers[w].Starting?
    case WakeUp(w) => w < |s.workers| && s.workers[w].Waiting?
    case Resume(w) => w < |s.workers| && s.workers[w].Woken?
    case Finish(w) => w < |s.workers| && s.workers[w].Running?
    case Opened => s.owner == Constructing && s.numRunning == |s.workers|
    case Dispatch(_, woken) => s.owner == Open && IsSignal(s.workers, woken)
    case Destroy => s.owner == Open
    case Join => s.owner.Joining? && s.owner.i < |s.workers| && s.workers[s.owner.i].Exited?
    case Drain => s.owner == Draining && s.queue != []
    case Finished => s.owner == Draining && s.queue == []
  }

  // pthread_cond_signal unblocks at least one of the waiting threads, if there are any.
  predicate IsSignal<T>(workers: seq<Worker<T>>, woken: set<nat>)
  {
    && (forall w :: w in woken ==> w < |workers| && workers[w].Waiting?)
    && ((exists w :: 0 <= w < |workers| && workers[w].Waiting?) ==> woken != {})
  }

  function Wake<T>(workers: seq<Worker<T>>, woken: set<nat>): (r: seq<Worker<T>>)
    ensures |r| == |workers|
    ensures forall w :: 0 <= w < |workers| ==> r[w] == if w in woken then Woken else workers[w]
  {
    seq(|workers|, w requires 0 <= w < |workers| => if w in woken then Woken else workers[w])
  }

  function AllWaiting<T>(workers: seq<Worker<T>>): (r: set<nat>)
    ensures forall w :: w in r <==> 0 <= w < |workers| && workers[w].Waiting?
  {
    set w | 0 <= w < |workers| && workers[w].Waiting?
  }

  // The two nested loops of ThreadLoop, from a point where worker w holds the lock
  // with the queue to look at, to where it lets go of the lock.
  function LookForWork<T>(s: Pool<T>, w: nat): Pool<T>
    requires w < |s.workers|
  {
    if s.queue != [] && !s.terminate then
      s.(workers := s.workers[w := Running(s.queue[0])], queue := s.queue[1..], started := s.started + [s.queue[0]])
    else LoopOrExit(s, w)
  }

  // The test of the outer loop.
  function LoopOrExit<T>(s: Pool<T>, w: nat): Pool<T>
    requires w < |s.workers|
  {
    if s.terminate then s.(workers := s.workers[w := Exited], numRunning := s.numRunning - 1)
    else s.(workers := s.workers[w := Waiting])
  }

  // The destructor's loop at worker i: broadcast and unlock, or leave the loop.
  function JoinFrom<T>(s: Pool<T>, i: nat, numThreads: int): Pool<T>
  {
    if i < numThreads then s.(workers := Wake(s.workers, AllWaiting(s.workers)), owner := Joining(i, numThreads))
    else s.(owner := Draining)
  }

  function Next<T>(s: Pool<T>, step: Step<T>): Pool<T>
    requires Enabled(s, step)
  {
    match step
    case Start(w) => LoopOrExit(s.(numRunning := s.numRunning + 1), w)
    case WakeUp(w) => s.(workers := s.workers[w := Woken])
    case Resume(w) => LookForWork(s, w)
    case Finish(w) => LookForWork(s.(finished := s.finished + [s.workers[w].task]), w)
    case Opened => s.(owner := Open)
    case Dispatch(t, woken) =>
      s.(queue := s.queue + [t], dispatched := s.dispatched + [t], workers := Wake(s.workers, woken))
    case Destroy => JoinFrom(s.(terminate := true), 0, s.numRunning)
    case Join => JoinFrom(s, s.owner.i + 1, s.owner.numThreads)
    case Drain =>
      s.(queue := s.queue[1..], started := s.started + [s.queue[0]], finished := s.finished + [s.queue[0]])
    case Finished => s.(owner := Done)
  }

  // The state after a sequence of steps, if each of them was possible.
  function RunFrom<T>(s: Pool<T>, steps: seq<Step<T>>): Option<Pool<T>>
  {
    if steps == [] then Some(s)
    else
      match RunFrom(s, Init(steps))
      case None => None
      case Some(now) => if Enabled(now, Last(steps)) then Some(Next(now, Last(steps))) else None
  }

  function After<T>(n: nat, steps: seq<Step<T>>): Option<Pool<T>>
  {
    RunFrom(Created(n), steps)
  }

  // ----- counting workers -----

  predicate IsLive<T>(w: Worker<T>)
  {
    !w.Starting? && !w.Exited?
  }

  // Workers that have been born and have not exited.
  function Live<T>(ws: seq<Worker<T>>): nat
  {
    if ws == [] then 0 else Live(Init(ws)) + if IsLive(Last(ws)) then 1 else 0
  }

  // Workers that are not blocked in the wait.
  function Awake<T>(ws: seq<Worker<T>>): (r: nat)
    ensures r <= |ws|
  {
    if ws == [] then 0 else Awake(Init(ws)) + if Last(ws).Waiting? then 0 else 1
  }

  // The tasks that are being run.
  function Tasks<T>(ws: seq<Worker<T>>): multiset<T>
  {
    if ws == [] then multiset{}
    else Tasks(Init(ws)) + TasksOf(Last(ws))
  }

  function TasksOf<T>(w: Worker<T>): multiset<T>
  {
    if w.Running? then multiset{w.task} else multiset{}
  }

  lemma InitMoved<T>(ws: seq<Worker<T>>, w: nat, x: Worker<T>)
    requires w < |ws|
    ensures if w < |ws| - 1 then
              Init(ws[w := x]) == Init(ws)[w := x] && Last(ws[w := x]) == Last(ws) && ws[w] == Init(ws)[w]
            else Init(ws[w := x]) == Init(ws) && Last(ws[w := x]) == x && ws[w] == Last(ws)
  {
  }

  lemma {:induction false} LiveMoved<T>(ws: seq<Worker<T>>, w: nat, x: Worker<T>)
    requires w < |ws|
    ensures Live(ws[w := x]) + (if IsLive(ws[w]) then 1 else 0) == Live(ws) + if IsLive(x) then 1 else 0
  {
    InitMoved(ws, w, x);
    if w < |ws| - 1 {
      LiveMoved(Init(ws), w, x);
    }
  }

  lemma {:induction false} AwakeMoved<T>(ws: seq<Worker<T>>, w: nat, x: Worker<T>)
    requires w < |ws|
    ensures Awake(ws[w := x]) + (if ws[w].Waiting? then 0 else 1) == Awake(ws) + if x.Waiting? then 0 else 1
  {
    InitMoved(ws, w, x);
    if w < |ws| - 1 {
      AwakeMoved(Init(ws), w, x);
    }
  }

  lemma {:induction false} TasksMoved<T>(ws: seq<Worker<T>>, w: nat, x: Worker<T>)
    requires w < |ws|
    ensures Tasks(ws[w := x]) + TasksOf(ws[w]) == Tasks(ws) + TasksOf(x)
  {
    hide TasksOf;
    InitMoved(ws, w, x);
    if w < |ws| - 1 {
      TasksMoved(Init(ws), w, x);
      var a, a', b, c, d := Tasks(Init(ws)), Tasks(Init(ws)[w := x]), TasksOf(Last(ws)), TasksOf(ws[w]), TasksOf(x);
      assert a' + b + c == (a' + c) + b && a + b + d == (a + d) + b;
    }
  }

  lemma {:induction false} Woke<T>(ws: seq<Worker<T>>, woken: set<nat>)
    requires forall w :: 0 <= w < |ws| && w in woken ==> ws[w].Waiting?
    ensures Live(Wake(ws, woken)) == Live(ws) && Tasks(Wake(ws, woken)) == Tasks(ws)
    ensures Awake(Wake(ws, woken)) >= Awake(ws)
    ensures (exists w :: 0 <= w < |ws| && w in woken) ==> Awake(Wake(ws, woken)) > Awake(ws)
  {
    if ws != [] {
      assert Init(Wake(ws, woken)) == Wake(Init(ws), woken);
      Woke(Init(ws), woken);
      if w :| 0 <= w < |ws| && w in woken {
        assert w < |ws| - 1 ==> w < |Init(ws)|;
      }
    }
  }

  lemma {:induction false} AllAwake<T>(ws: seq<Worker<T>>)
    ensures Awake(ws) == |ws| <==> forall w :: 0 <= w < |ws| ==> !ws[w].Waiting?
  {
    if ws != [] {
      AllAwake(Init(ws));
      assert forall w :: 0 <= w < |ws| - 1 ==> Init(ws)[w] == ws[w];
      assert ws[|ws| - 1] == Last(ws);
    }
  }

  lemma {:induction false} AllLive<T>(ws: seq<Worker<T>>)
    ensures Live(ws) <= |ws|
    ensures Live(ws) == |ws| <==> forall w :: 0 <= w < |ws| ==> IsLive(ws[w])
    ensures Live(ws) == 0 <==> forall w :: 0 <= w < |ws| ==> !IsLive(ws[w])
    ensures (forall w :: 0 <= w < |ws| ==> !IsLive(ws[w])) ==> Tasks(ws) == multiset{}
  {
    if ws != [] {
      AllLive(Init(ws));
      assert forall w :: 0 <= w < |ws| - 1 ==> Init(ws)[w] == ws[w];
      assert ws[|ws| - 1] == Last(ws);
    }
  }

  // ----- what every reachable state satisfies -----

  ghost predicate Conserved<T>(s: Pool<T>)
  {
    && s.started + s.queue == s.dispatched
    && multiset(s.started) == multiset(s.finished) + Tasks(s.workers)
  }

  ghost predicate NoneIn<T>(ws: seq<Worker<T>>, starting: bool, waiting: bool, exited: bool)
  {
    forall w :: 0 <= w < |ws| ==>
      && (starting ==> !ws[w].Starting?) && (waiting ==> !ws[w].Waiting?) && (exited ==> !ws[w].Exited?)
  }

  // The workers, by the place of the owner.
  ghost predicate Phase<T>(s: Pool<T>)
  {
    match s.owner
    case Constructing =>
      !s.terminate && s.queue == [] && s.dispatched == [] && NoneIn(s.workers, false, false, true)
    case Open =>
      && !s.terminate && NoneIn(s.workers, true, false, true)
      && (Awake(s.workers) >= |s.queue| || Awake(s.workers) == |s.workers|)
    case Joining(i, numThreads) =>
      && s.terminate && i < numThreads == |s.workers| && NoneIn(s.workers, true, true, false)
      && forall j :: 0 <= j < i ==> s.workers[j].Exited?
    case Draining => s.terminate && forall j :: 0 <= j < |s.workers| ==> s.workers[j].Exited?
    case Done => s.terminate && s.queue == [] && forall j :: 0 <= j < |s.workers| ==> s.workers[j].Exited?
  }

  ghost predicate Inv<T>(s: Pool<T>)
  {
    Conserved(s) && s.numRunning == Live(s.workers) && Phase(s)
  }

  lemma CreatedInv<T>(n: nat)
    ensures Inv(Created<T>(n))
  {
    AllLive(Created<T>(n).workers);
  }

  // The counts after worker w has moved, when it is neither waiting nor gone.
  lemma MovedFrom<T>(ws: seq<Worker<T>>, w: nat, x: Worker<T>)
    requires w < |ws|
    ensures Tasks(ws[w := x]) + TasksOf(ws[w]) == Tasks(ws) + TasksOf(x)
    ensures !ws[w].Running? && !x.Running? ==> Tasks(ws[w := x]) == Tasks(ws)
    ensures Live(ws[w := x]) + (if IsLive(ws[w]) then 1 else 0) == Live(ws) + if IsLive(x) then 1 else 0
    ensures Awake(ws[w := x]) + (if ws[w].Waiting? then 0 else 1) == Awake(ws) + if x.Waiting? then 0 else 1
  {
    LiveMoved(ws, w, x);
    AwakeMoved(ws, w, x);
    TasksMoved(ws, w, x);
    assert Tasks(ws) + multiset{} == Tasks(ws) && Tasks(ws[w := x]) + multiset{} == Tasks(ws[w := x]);
  }

  lemma StartInv<T>(s: Pool<T>, w: nat)
    requires Inv(s) && Enabled(s, Start(w))
    ensures Inv(Next(s, Start(w)))
  {
    hide Live, Awake, Tasks;
    MovedFrom(s.workers, w, Waiting);
  }

  lemma WakeUpInv<T>(s: Pool<T>, w: nat)
    requires Inv(s) && Enabled(s, WakeUp(w))
    ensures Inv(Next(s, WakeUp(w)))
  {
    hide Live, Awake, Tasks;
    MovedFrom(s.workers, w, Woken);
    AllAwake(s.workers);
  }

  lemma LookConserves<T>(s: Pool<T>, w: nat, done: seq<T>)
    requires Conserved(s) && w < |s.workers| && multiset(done) == TasksOf(s.workers[w])
    ensures Conserved(LookForWork(s.(finished := s.finished + done), w))
  {
    hide Live, Awake, Tasks;
    var now := LookForWork(s.(finished := s.finished + done), w);
    TasksMoved(s.workers, w, now.workers[w]);
    var f, k, k', o, added := multiset(s.finished), Tasks(s.workers), Tasks(now.workers),
                              TasksOf(s.workers[w]), TasksOf(now.workers[w]);
    assert multiset(now.finished) == f + o && (f + o) + k' == f + (k' + o) && f + (k + added) == (f + k) + added;
    if s.queue != [] && !s.terminate {
      assert s.queue == [s.queue[0]] + s.queue[1..];
      assert now.started + now.queue == s.started + s.queue;
      assert multiset(now.started) == multiset(s.started) + added;
    } else {
      assert multiset(now.started) + added == multiset(s.started);
    }
  }

  // Worker w has just finished the given tasks, at most one, and looks for work.
  lemma LookInv<T>(s: Pool<T>, w: nat, done: seq<T>)
    requires Inv(s) && w < |s.workers| && (s.workers[w].Woken? || s.workers[w].Running?)
    requires multiset(done) == TasksOf(s.workers[w])
    ensures Inv(LookForWork(s.(finished := s.finished + done), w))
  {
    hide Live, Awake, Tasks, TasksOf, Conserved;
    LookConserves(s, w, done);
    var now := LookForWork(s.(finished := s.finished + done), w);
    LiveMoved(s.workers, w, now.workers[w]);
    AwakeMoved(s.workers, w, now.workers[w]);
  }

  lemma ResumeInv<T>(s: Pool<T>, w: nat)
    requires Inv(s) && Enabled(s, Resume(w))
    ensures Inv(Next(s, Resume(w)))
  {
    hide Inv, LookForWork;
    assert s.(finished := s.finished + []) == s;
    LookInv(s, w, []);
  }

  lemma FinishInv<T>(s: Pool<T>, w: nat)
    requires Inv(s) && Enabled(s, Finish(w))
    ensures Inv(Next(s, Finish(w)))
  {
    hide Inv, LookForWork;
    LookInv(s, w, [s.workers[w].task]);
  }

  lemma OpenedInv<T>(s: Pool<T>)
    requires Inv(s) && Enabled(s, Opened)
    ensures Inv(Next(s, Opened))
  {
    hide Live, Awake, Tasks;
    AllLive(s.workers);
  }

  lemma DispatchInv<T>(s: Pool<T>, t: T, woken: set<nat>)
    requires Inv(s) && Enabled(s, Dispatch(t, woken))
    ensures Inv(Next(s, Dispatch(t, woken)))
  {
    hide Live, Awake, Tasks;
    Woke(s.workers, woken);
    AllAwake(s.workers);
    var now := Next(s, Dispatch(t, woken));
    AllAwake(now.workers);
    assert now.started + now.queue == s.started + s.queue + [t];
  }

  lemma JoinFromInv<T>(s: Pool<T>, i: nat)
    requires Conserved(s) && s.numRunning == Live(s.workers) && s.terminate && i <= |s.workers|
    requires NoneIn(s.workers, true, false, false) && forall j :: 0 <= j < i ==> s.workers[j].Exited?
    ensures Inv(JoinFrom(s, i, |s.workers|))
  {
    hide Live, Awake, Tasks;
    Woke(s.workers, AllWaiting(s.workers));
  }

  lemma DrainInv<T>(s: Pool<T>)
    requires Inv(s) && Enabled(s, Drain)
    ensures Inv(Next(s, Drain))
  {
    hide Live, Awake, Tasks;
    assert s.queue == [s.queue[0]] + s.queue[1..];
    var now := Next(s, Drain);
    assert now.started + now.queue == s.started + s.queue;
  }

  lemma DestroyInv<T>(s: Pool<T>)
    requires Inv(s) && Enabled(s, Destroy)
    ensures Inv(Next(s, Destroy))
  {
    hide Live, Awake, Tasks, JoinFrom;
    AllLive(s.workers);
    JoinFromInv(s.(terminate := true), 0);
  }

  lemma JoinInv<T>(s: Pool<T>)
    requires Inv(s) && Enabled(s, Join)
    ensures Inv(Next(s, Join))
  {
    hide Live, Awake, Tasks, JoinFrom;
    JoinFromInv(s, s.owner.i + 1);
  }

  lemma FinishedInv<T>(s: Pool<T>)
    requires Inv(s) && Enabled(s, Finished)
    ensures Inv(Next(s, Finished))
  {
    hide Live, Awake, Tasks;
  }

  // Every step keeps the invariant.
  lemma NextInv<T>(s: Pool<T>, step: Step<T>)
    requires Inv(s) && Enabled(s, step)
    ensures Inv(Next(s, step))
  {
    hide *;
    match step
    case Start(w) => StartInv(s, w);
    case WakeUp(w) => WakeUpInv(s, w);
    case Resume(w) => ResumeInv(s, w);
    case Finish(w) => FinishInv(s, w);
    case Opened => OpenedInv(s);
    case Dispatch(t, woken) => DispatchInv(s, t, woken);
    case Destroy => DestroyInv(s);
    case Join => JoinInv(s);
    case Drain => DrainInv(s);
    case Finished => FinishedInv(s);
  }

  lemma SameWorkers<T>(s: Pool<T>, step: Step<T>)
    requires Enabled(s, step)
    ensures |Next(s, step).workers| == |s.workers|
  {
  }

  lemma {:induction false} AlwaysInv<T>(n: nat, steps: seq<Step<T>>)
    ensures var s := After(n, steps); s.Some? ==> Inv(s.value) && |s.value.workers| == n
  {
    hide Inv, Enabled;
    if steps == [] {
      CreatedInv<T>(n);
    } else {
      AlwaysInv(n, Init(steps));
      var s := After(n, Init(steps));
      if s.Some? && Enabled(s.value, Last(steps)) {
        NextInv(s.value, Last(steps));
        SameWorkers(s.value, Last(steps));
      }
    }
  }

  // ----- conservation and order -----

  // At any moment of any run, the tasks started so far, followed by the queue, are the
  // tasks dispatched, in dispatch order.
  lemma StartedInOrder<T>(n: nat, steps: seq<Step<T>>)
    requires After(n, steps).Some?
    ensures var s := After(n, steps).value; s.started + s.queue == s.dispatched
  {
    AlwaysInv(n, steps);
  }

  // When the destructor is done, every dispatched task has been started, in order, and
  // has finished: each was run exactly once.
  lemma AllRunOnce<T>(n: nat, steps: seq<Step<T>>)
    requires After(n, steps).Some? && After(n, steps).value.owner == Done
    ensures var s := After(n, steps).value;
            s.queue == [] && s.started == s.dispatched && multiset(s.finished) == multiset(s.dispatched)
  {
    AlwaysInv(n, steps);
    var s := After(n, steps).value;
    AllLive(s.workers);
    assert s.started + [] == s.started;
  }

  // ----- no lost wakeup -----

  // While the pool is open, either every worker is out of the wait or at least as many
  // are as there are tasks in the queue.
  lemma NoLostWakeup<T>(n: nat, steps: seq<Step<T>>)
    requires After(n, steps).Some? && After(n, steps).value.owner == Open
    ensures var s := After(n, steps).value;
            && |s.workers| == n && (Awake(s.workers) == n || Awake(s.workers) >= |s.queue|)
            && (n > 0 && s.queue != [] ==> exists w :: 0 <= w < n && !s.workers[w].Waiting?)
  {
    AlwaysInv(n, steps);
    var s := After(n, steps).value;
    if n > 0 && s.queue != [] && forall w :: 0 <= w < n ==> s.workers[w].Waiting? {
      NobodyAwake(s.workers);
      assert false;
    }
  }

  lemma {:induction false} NobodyAwake<T>(ws: seq<Worker<T>>)
    requires forall w :: 0 <= w < |ws| ==> ws[w].Waiting?
    ensures Awake(ws) == 0
  {
    if ws != [] {
      NobodyAwake(Init(ws));
    }
  }

  // A worker returns from the wait or from a task and looks at the queue.
  predicate Looks<T>(step: Step<T>)
  {
    step.Resume? || step.Finish?
  }

  // So the task at the head of the queue can always be started next: some worker can
  // look at the queue, and whichever does takes just that task.
  lemma HeadCanStart<T>(n: nat, steps: seq<Step<T>>)
    requires n > 0 && After(n, steps).Some?
    requires After(n, steps).value.owner == Open && After(n, steps).value.queue != []
    ensures var s := After(n, steps).value;
            && (exists step :: Looks(step) && Enabled(s, step))
            && forall step :: Looks(step) && Enabled(s, step) ==>
                 && Next(s, step).started == s.started + [s.queue[0]]
                 && Next(s, step).queue == s.queue[1..] && Next(s, step).owner == Open
  {
    NoLostWakeup(n, steps);
    AlwaysInv(n, steps);
    var s := After(n, steps).value;
    var w :| 0 <= w < n && !s.workers[w].Waiting?;
    assert !s.workers[w].Starting? && !s.workers[w].Exited?;
    var step: Step<T> := if s.workers[w].Woken? then Resume(w) else Finish(w);
    assert Looks(step) && Enabled(s, step);
  }

  // ----- an open pool does its work -----

  // Steps of workers that have been born; the owner dispatches nothing.
  ghost predicate OnlyWork<T>(steps: seq<Step<T>>)
  {
    forall k :: 0 <= k < |steps| ==> Looks(steps[k]) || steps[k].WakeUp?
  }

  function LooksIn<T>(steps: seq<Step<T>>): (n: nat)
    ensures n <= |steps|
  {
    if steps == [] then 0 else LooksIn(Init(steps)) + if Looks(Last(steps)) then 1 else 0
  }

  // What an open pool has left to do.
  function WorkLeft<T>(s: Pool<T>): nat
  {
    |s.queue| + Awake(s.workers)
  }

  // Whenever a worker looks at the queue there is less left to do; a spurious wakeup adds
  // one look.
  lemma WorkShrinks<T>(s: Pool<T>, step: Step<T>)
    requires Inv(s) && s.owner == Open && Enabled(s, step) && (Looks(step) || step.WakeUp?)
    ensures Next(s, step).owner == Open
    ensures WorkLeft(Next(s, step)) == if Looks(step) then WorkLeft(s) - 1 else WorkLeft(s) + 1
  {
    hide Live, Awake, Tasks, Conserved;
    AwakeMoved(s.workers, step.w, Next(s, step).workers[step.w]);
  }

  // So workers look at the queue at most as often as there is work left and spurious
  // wakeups happen, in whatever order they take their steps.
  lemma {:induction false} WorkIsShort<T>(s: Pool<T>, more: seq<Step<T>>)
    requires Inv(s) && s.owner == Open && OnlyWork(more) && RunFrom(s, more).Some?
    ensures var now := RunFrom(s, more).value;
            && Inv(now) && now.owner == Open && |now.workers| == |s.workers| && now.dispatched == s.dispatched
            && LooksIn(more) + WorkLeft(now) == WorkLeft(s) + (|more| - LooksIn(more))
  {
    hide Inv, WorkLeft, Enabled;
    if more != [] {
      WorkIsShort(s, Init(more));
      var before := RunFrom(s, Init(more)).value;
      NextInv(before, Last(more));
      WorkShrinks(before, Last(more));
      SameWorkers(before, Last(more));
    }
  }

  // And when no worker can look any more, every dispatched task has been run.
  lemma WorkEnds<T>(n: nat, steps: seq<Step<T>>, more: seq<Step<T>>)
    requires n > 0 && After(n, steps).Some? && After(n, steps).value.owner == Open
    requires var s := After(n, steps).value;
             && OnlyWork(more) && RunFrom(s, more).Some?
             && forall step :: Looks(step) ==> !Enabled(RunFrom(s, more).value, step)
    ensures var s := After(n, steps).value; var now := RunFrom(s, more).value;
            && now.queue == [] && now.started == now.dispatched == s.dispatched
            && multiset(now.finished) == multiset(s.dispatched)
  {
    AlwaysInv(n, steps);
    var s := After(n, steps).value;
    WorkIsShort(s, more);
    AllWait(RunFrom(s, more).value);
  }

  // An open pool in which no worker can look has all workers waiting and nothing to do.
  lemma AllWait<T>(s: Pool<T>)
    requires Inv(s) && s.owner == Open && s.workers != [] && forall step :: Looks(step) ==> !Enabled(s, step)
    ensures s.queue == [] && s.started == s.dispatched && multiset(s.finished) == multiset(s.dispatched)
  {
    hide Live, Awake, Tasks;
    forall w | 0 <= w < |s.workers|
      ensures s.workers[w].Waiting?
    {
      assert Looks<T>(Resume(w)) && Looks<T>(Finish(w));
      assert !Enabled(s, Resume(w)) && !Enabled(s, Finish(w));
    }
    NobodyAwake(s.workers);
    NobodyRuns(s.workers);
    assert s.started + [] == s.started;
  }

  lemma {:induction false} NobodyRuns<T>(ws: seq<Worker<T>>)
    requires forall w :: 0 <= w < |ws| ==> ws[w].Waiting?
    ensures Tasks(ws) == multiset{}
  {
    if ws != [] {
      NobodyRuns(Init(ws));
    }
  }

  // ----- shutdown -----

  // Once the destructor has begun, no worker waits; the count of running threads is the
  // number of live workers, and it is 0 when the last worker has been joined.
  lemma NobodyWaits<T>(n: nat, steps: seq<Step<T>>)
    requires After(n, steps).Some?
    ensures var s := After(n, steps).value;
            && |s.workers| == n && s.numRunning == Live(s.workers)
            && (s.terminate ==> forall w :: 0 <= w < n ==> !s.workers[w].Waiting?)
            && (s.owner == Draining || s.owner == Done ==> s.numRunning == 0)
  {
    AlwaysInv(n, steps);
    AllLive(After(n, steps).value.workers);
  }

  // What is left to do after the destructor has begun.
  function LeftToDo<T>(s: Pool<T>): nat
  {
    Live(s.workers) +
    match s.owner
    case Joining(i, numThreads) => |s.queue| + 2 + if i < numThreads then numThreads - i else 0
    case Draining => |s.queue| + 1
    case _ => 0
  }

  // Every step after the destructor has begun brings its end nearer; only the owner and
  // workers that are leaving can still take steps.
  lemma StepsRunOut<T>(s: Pool<T>, step: Step<T>)
    requires Inv(s) && s.terminate && Enabled(s, step)
    ensures Next(s, step).terminate && LeftToDo(Next(s, step)) < LeftToDo(s)
  {
    hide Live, Awake, Tasks, Conserved;
    match step
    case Resume(w) => LiveMoved(s.workers, w, Exited);
    case Finish(w) => LiveMoved(s.workers, w, Exited);
    case Join => Woke(s.workers, AllWaiting(s.workers));
    case _ =>
  }

  // And until it is done, some step is possible, given that tasks return.
  lemma NeverStuck<T>(s: Pool<T>)
    requires Inv(s) && s.terminate && s.owner != Done
    ensures exists step :: Enabled(s, step)
  {
    match s.owner
    case Joining(i, _) =>
      var w := s.workers[i];
      assert w.Woken? ==> Enabled(s, Resume(i));
      assert w.Running? ==> Enabled(s, Finish(i));
      assert w.Exited? ==> Enabled(s, Join);
    case Draining =>
      assert s.queue != [] ==> Enabled(s, Drain);
      assert s.queue == [] ==> Enabled(s, Finished);
    case _ =>
  }

  // So from wherever the destructor has begun, a run takes at most LeftToDo steps, in
  // whatever order they come.
  lemma {:induction false} ShutdownIsShort<T>(s: Pool<T>, more: seq<Step<T>>)
    requires Inv(s) && s.terminate && RunFrom(s, more).Some?
    ensures var now := RunFrom(s, more).value;
            Inv(now) && now.terminate && |more| + LeftToDo(now) <= LeftToDo(s)
  {
    hide Inv, LeftToDo, Next, Enabled;
    if more != [] {
      ShutdownIsShort(s, Init(more));
      var before := RunFrom(s, Init(more)).value;
      NextInv(before, Last(more));
      StepsRunOut(before, Last(more));
    }
  }

  // Once the destructor has begun no worker starts a task any more: what is left of the queue
  // is run by the owner.
  lemma OnlyOwnerStarts<T>(s: Pool<T>, step: Step<T>)
    requires Inv(s) && s.terminate && Enabled(s, step)
    ensures var now := Next(s, step);
            && (step.Resume? || step.Finish? ==> now.workers == s.workers[step.w := Exited])
            && now.started == s.started + s.queue[..if step.Drain? then 1 else 0]
            && now.queue == s.queue[if step.Drain? then 1 else 0..]
            && (step.Drain? ==> forall w :: 0 <= w < |s.workers| ==> s.workers[w].Exited?)
  {
    hide Live, Awake, Tasks, Conserved;
    assert s.started + [] == s.started;
  }

  function DrainsIn<T>(steps: seq<Step<T>>): (n: nat)
    ensures n <= |steps|
  {
    if steps == [] then 0 else DrainsIn(Init(steps)) + if Last(steps).Drain? then 1 else 0
  }

  // Over any run, the tasks started after the destructor has begun are those that the
  // owner has drained: none before all workers have been joined.
  lemma {:induction false} StartsAreDrains<T>(s: Pool<T>, more: seq<Step<T>>)
    requires Inv(s) && s.terminate && RunFrom(s, more).Some?
    ensures var now, k := RunFrom(s, more).value, DrainsIn(more);
            && k <= |s.queue| && now.started == s.started + s.queue[..k] && now.queue == s.queue[k..]
            && (now.owner.Joining? ==> k == 0)
  {
    hide Inv, Next, Enabled;
    if more == [] {
      assert s.started + [] == s.started;
    } else {
      var before, k := RunFrom(s, Init(more)).value, DrainsIn(Init(more));
      StartsAreDrains(s, Init(more));
      ShutdownIsShort(s, Init(more));
      OnlyOwnerStarts(before, Last(more));
      OwnerJoins(before, Last(more));
      assert before.queue != [] ==> s.queue[..k] + before.queue[..1] == s.queue[..k + 1];
    }
  }

  lemma OwnerJoins<T>(s: Pool<T>, step: Step<T>)
    requires Inv(s) && s.terminate && Enabled(s, step)
    ensures Next(s, step).owner.Joining? ==> s.owner.Joining? && !step.Drain?
    ensures step.Drain? ==> s.queue != []
  {
  }

  // A run that cannot go on has reached the end of the destructor.
  lemma ShutdownEnds<T>(n: nat, steps: seq<Step<T>>, more: seq<Step<T>>)
    requires After(n, steps).Some? && After(n, steps).value.terminate
    requires var s := After(n, steps).value;
             RunFrom(s, more).Some? && forall step :: !Enabled(RunFrom(s, more).value, step)
    ensures RunFrom(After(n, steps).value, more).value.owner == Done
  {
    hide Inv, Enabled, RunFrom;
    AlwaysInv(n, steps);
    var s := After(n, steps).value;
    ShutdownIsShort(s, more);
    var last := RunFrom(s, more).value;
    if last.owner != Done {
      NeverStuck(last);
    }
  }

  lemma InvParts<T>(s: Pool<T>)
    ensures Inv(s) ==> s.started + s.queue == s.dispatched && s.numRunning == Live(s.workers)
    ensures Inv(s) && s.owner == Open && s.workers != [] && s.queue != [] ==>
              exists w :: 0 <= w < |s.workers| && (s.workers[w].Woken? || s.workers[w].Running?)
    ensures Inv(s) && s.terminate ==> forall w :: 0 <= w < |s.workers| ==> !s.workers[w].Waiting?
    ensures Inv(s) && s.owner == Done ==> s.queue == [] && multiset(s.finished) == multiset(s.dispatched)
  {
    hide Live, Awake, Tasks;
    AllLive(s.workers);
    if Inv(s) && s.owner == Open && s.workers != [] && s.queue != [] {
      if w :| 0 <= w < |s.workers| && !s.workers[w].Waiting? {
        assert s.workers[w].Woken? || s.workers[w].Running?;
      } else {
        NobodyAwake(s.workers);
      }
    }
    if Inv(s) && s.owner == Done {
      assert s.started + [] == s.started;
    }
  }

  // ----- the critical sections -----

  class ThreadPool<T> {
    var threads: seq<Worker<T>>
    var workQueue: seq<T>
    var terminateThreads: bool
    var numThreadsRunning: int
    var owner: Owner
    ghost var dispatched: seq<T>
    ghost var started: seq<T>
    ghost var finished: seq<T>

    ghost function State(): Pool<T>
      reads this
    {
      Pool(threads, workQueue, terminateThreads, numThreadsRunning, owner, dispatched, started, finished)
    }

    // Holds whenever the lock is free.
    ghost predicate Valid()
      reads this
      ensures Valid() ==> started + workQueue == dispatched && numThreadsRunning == Live(threads)
      ensures Valid() && owner == Open && threads != [] && workQueue != [] ==>
                exists w :: 0 <= w < |threads| && (threads[w].Woken? || threads[w].Running?)
      ensures Valid() && terminateThreads ==> forall w :: 0 <= w < |threads| ==> !threads[w].Waiting?
      ensures Valid() && owner == Done ==> workQueue == [] && multiset(finished) == multiset(dispatched)
    {
      InvParts(State());
      Inv(State())
    }

    // The constructor up to where it first releases the lock.
    constructor (numThreads: nat)
      ensures State() == Created(numThreads) && Valid()
    {
      threads, workQueue, terminateThreads, numThreadsRunning, owner := [], [], false, 0, Constructing;
      dispatched, started, finished := [], [], [];
      new;
      for i := 0 to numThreads
        modifies this`threads
        invariant threads == seq(i, _ => Starting)
      {
        threads := threads + [Starting];
      }
      CreatedInv<T>(numThreads);
    }

    // A wait may return for no reason.
    method WakeUpWorker(w: nat)
      requires Valid() && Enabled(State(), WakeUp(w))
      modifies this
      ensures Valid() && State() == Next(old(State()), WakeUp(w))
    {
      hide Inv, Live, Awake, Tasks;
      NextInv(State(), WakeUp(w));
      threads := threads[w := Woken];
    }

    // The constructor finds that all workers have been born.
    method OpenPool()
      requires Valid() && Enabled(State(), Opened)
      modifies this
      ensures Valid() && State() == Next(old(State()), Opened)
    {
      hide Inv, Live, Awake, Tasks;
      NextInv(State(), Opened);
      owner := Open;
    }

    // The start of ThreadLoop: be counted, then wait.
    method StartWorker(w: nat)
      requires Valid() && Enabled(State(), Start(w))
      modifies this
      ensures Valid() && State() == Next(old(State()), Start(w))
    {
      hide Inv, Live, Awake, Tasks;
      NextInv(State(), Start(w));
      numThreadsRunning := numThreadsRunning + 1;
      WaitOrExit(w);
    }

    method WaitOrExit(w: nat)
      requires w < |threads|
      modifies this
      ensures State() == LoopOrExit(old(State()), w)
    {
      if !terminateThreads {
        threads := threads[w := Waiting];
      } else {
        numThreadsRunning := numThreadsRunning - 1;
        threads := threads[w := Exited];
      }
    }

    // The worker has the lock after a wait.
    method ResumeWorker(w: nat)
      requires Valid() && Enabled(State(), Resume(w))
      modifies this
      ensures Valid() && State() == Next(old(State()), Resume(w))
      ensures old(terminateThreads) ==>
                threads == old(threads)[w := Exited] && workQueue == old(workQueue) && started == old(started)
    {
      hide Inv, Live, Awake, Tasks;
      NextInv(State(), Resume(w));
      TakeTask(w);
    }

    // The worker has the lock after a task.
    method FinishTask(w: nat)
      requires Valid() && Enabled(State(), Finish(w))
      modifies this
      ensures Valid() && State() == Next(old(State()), Finish(w))
      ensures old(terminateThreads) ==>
                threads == old(threads)[w := Exited] && workQueue == old(workQueue) && started == old(started)
    {
      hide Inv, Live, Awake, Tasks;
      NextInv(State(), Finish(w));
      finished := finished + [threads[w].task];
      TakeTask(w);
    }

    method TakeTask(w: nat)
      requires w < |threads|
      modifies this
      ensures State() == LookForWork(old(State()), w)
      ensures old(terminateThreads) ==>
                threads == old(threads)[w := Exited] && workQueue == old(workQueue) && started == old(started)
      ensures !old(terminateThreads) && old(workQueue) != [] ==>
                && threads == old(threads)[w := Running(old(workQueue)[0])]
                && [old(workQueue)[0]] + workQueue == old(workQueue) && started == old(started) + [old(workQueue)[0]]
      ensures !old(terminateThreads) && old(workQueue) == [] ==>
                threads == old(threads)[w := Waiting] && workQueue == [] && started == old(started)
    {
      if workQueue != [] && !terminateThreads {
        var nextTask := workQueue[0];
        workQueue := workQueue[1..];
        threads := threads[w := Running(nextTask)];
        started := started + [nextTask];
      } else {
        WaitOrExit(w);
      }
    }

    method DispatchTask(t: T, woken: set<nat>)
      requires Valid() && Enabled(State(), Dispatch(t, woken))
      modifies this
      ensures Valid() && State() == Next(old(State()), Dispatch(t, woken))
    {
      hide Inv, Live, Awake, Tasks;
      NextInv(State(), Dispatch(t, woken));
      workQueue := workQueue + [t];
      dispatched := dispatched + [t];
      threads := Wake(threads, woken);
    }

    method BeginDestroy()
      requires Valid() && Enabled(State(), Destroy)
      modifies this
      ensures Valid() && State() == Next(old(State()), Destroy)
    {
      hide Inv, Live, Awake, Tasks;
      NextInv(State(), Destroy);
      var numThreads := numThreadsRunning;
      terminateThreads := true;
      BroadcastFor(0, numThreads);
    }

    method JoinOne()
      requires Valid() && Enabled(State(), Join)
      modifies this
      ensures Valid() && State() == Next(old(State()), Join)
    {
      hide Inv, Live, Awake, Tasks;
      NextInv(State(), Join);
      BroadcastFor(owner.i + 1, owner.numThreads);
    }

    method BroadcastFor(i: nat, numThreads: int)
      modifies this
      ensures State() == JoinFrom(old(State()), i, numThreads)
    {
      if i < numThreads {
        threads := Wake(threads, AllWaiting(threads));
        owner := Joining(i, numThreads);
      } else {
        owner := Draining;
      }
    }

    // The last loop of the destructor, which runs without the lock.
    method DrainQueue()
      requires Valid() && owner == Draining
      modifies this
      ensures Valid() && owner == Done && workQueue == [] && started == old(started) + old(workQueue)
      ensures finished == old(finished) + old(workQueue) && threads == old(threads)
      ensures exists steps :: RunFrom(old(State()), steps) == Some(State())
    {
      hide *;
      ghost var steps: seq<Step<T>> := [];
      NoSteps(State());
      while workQueue != []
        invariant Valid() && owner == Draining && threads == old(threads)
        invariant started + workQueue == old(started) + old(workQueue)
        invariant finished + workQueue == old(finished) + old(workQueue)
        invariant RunFrom(old(State()), steps) == Some(State())
        decreases |workQueue|
      {
        OneMore(old(State()), steps, State(), Drain);
        RunNextTask();
        steps := steps + [Drain];
      }
      OneMore(old(State()), steps, State(), Finished);
      StateFields();
      DrainStep(State());
      ValidIsInv();
      NextInv(State(), Finished);
      owner := Done;
      StateFields();
      ValidIsInv();
      steps := steps + [Finished];
      assert RunFrom(old(State()), steps) == Some(State());
    }

    // The body of the loop.
    method RunNextTask()
      requires Valid() && owner == Draining && workQueue != []
      modifies this
      ensures Valid() && old(Enabled(State(), Drain)) && State() == Next(old(State()), Drain)
      ensures owner == Draining && threads == old(threads) && |workQueue| == |old(workQueue)| - 1
      ensures started + workQueue == old(started) + old(workQueue)
      ensures finished + workQueue == old(finished) + old(workQueue)
    {
      hide *;
      StateFields();
      DrainStep(State());
      ValidIsInv();
      NextInv(State(), Drain);
      assert workQueue == [workQueue[0]] + workQueue[1..];
      var nextTask := workQueue[0];
      workQueue := workQueue[1..];
      started := started + [nextTask];
      finished := finished + [nextTask];
      StateFields();
      ValidIsInv();
    }

    lemma ValidIsInv()
      ensures Valid() <==> Inv(State())
    {
    }

    lemma StateFields()
      ensures State() == Pool(threads, workQueue, terminateThreads, numThreadsRunning, owner,
                              dispatched, started, finished)
    {
    }
  }

  lemma NoSteps<T>(s: Pool<T>)
    ensures RunFrom(s, []) == Some(s)
  {
  }

  lemma OneMore<T>(s: Pool<T>, steps: seq<Step<T>>, now: Pool<T>, step: Step<T>)
    requires RunFrom(s, steps) == Some(now)
    ensures Enabled(now, step) ==> RunFrom(s, steps + [step]) == Some(Next(now, step))
  {
    hide Enabled, Next;
    assert Init(steps + [step]) == steps;
  }

  lemma DrainStep<T>(s: Pool<T>)
    requires s.owner == Draining
    ensures if s.queue != [] then
              && Enabled(s, Drain)
              && Next(s, Drain)
                 == s.(queue := s.queue[1..], started := s.started + [s.queue[0]],
                       finished := s.finished + [s.queue[0]])
            else Enabled(s, Finished) && Next(s, Finished) == s.(owner := Done)
  {
  }
}
