/**
  The server's thread pool: a queue of jobs behind a mutex, workers that wait on a
  condition variable, and a shutdown that waits until every worker has left.  A job is
  its serial number among the accepted ones.  Every locked section is one step; the
  notifications come after the lock is released, as steps of their own.
 */
module ThreadPool {
  import opened Text

  type Job = nat

  // ----- the locked sections -----

  datatype Queue = Queue(jobs: seq<Job>, shutdown: bool, maxQueued: nat)

  predicate Full(q: Queue) { q.maxQueued > 0 && |q.jobs| >= q.maxQueued }

  /** What a worker does when it has the lock. */
  datatype Turn = Wait | Leave | Take(job: Job)

  function TurnOf(q: Queue): Turn {
    if q.jobs != [] then Take(q.jobs[0]) else if q.shutdown then Leave else Wait
  }

  function AfterTurn(q: Queue): Queue { if q.jobs != [] then q.(jobs := q.jobs[1..]) else q }

  class Pool {
    var jobs: seq<Job>
    var stopping: bool
    const maxQueued: nat

    ghost function View(): Queue
      reads this
    {
      Queue(jobs, stopping, maxQueued)
    }

    constructor (mqr: nat)
      ensures View() == Queue([], false, mqr)
    {
      jobs, stopping, maxQueued := [], false, mqr;
    }

    method Enqueue(fn: Job) returns (accepted: bool)
      modifies this
      ensures accepted == !Full(old(View()))
      ensures View() == if accepted then old(View()).(jobs := old(jobs) + [fn]) else old(View())
    {
      if maxQueued > 0 && |jobs| >= maxQueued { return false; }
      jobs := jobs + [fn];
      return true;
    }

    method Shutdown()
      modifies this
      ensures View() == old(View()).(shutdown := true)
    {
      stopping := true;
    }

    method WorkerTurn() returns (turn: Turn)
      modifies this
      ensures turn == TurnOf(old(View())) && View() == AfterTurn(old(View()))
    {
      if !(jobs != [] || stopping) { return Wait; }
      if stopping && jobs == [] { return Leave; }
      turn := Take(jobs[0]);
      jobs := jobs[1..];
    }
  }

  // ----- all threads together -----

  datatype Worker = Checking | Waiting | Running(job: Job) | Exited

  /**
    notices and closing: notifications of one and of all that are still to be given.
    accepted, taken and finished record the history; lost, that a job was accepted when
    every worker had already left.
   */
  datatype System = System(
    queue: Queue,
    workers: seq<Worker>,
    notices: nat,
    closing: bool,
    accepted: nat,
    taken: seq<Job>,
    finished: seq<Job>,
    lost: bool
  )

  predicate Initial(s: System) {
    s.queue.jobs == [] && !s.queue.shutdown && (forall i :: 0 <= i < |s.workers| ==> s.workers[i] == Checking) &&
    s.notices == 0 && !s.closing && s.accepted == 0 && s.taken == [] && s.finished == [] && !s.lost
  }

  datatype Action =
    | Enqueue
    | NotifyOne(woken: Option<nat>)
    | Shutdown
    | NotifyAll
    | Turns(w: nat)
    | Spurious(w: nat)
    | Finish(w: nat)

  predicate Gone(ws: seq<Worker>) { forall i :: 0 <= i < |ws| ==> ws[i] == Exited }

  predicate AllExited(s: System) { Gone(s.workers) }

  predicate Is(s: System, w: nat, k: Worker) { w < |s.workers| && s.workers[w] == k }

  predicate Enabled(s: System, a: Action) {
    match a
    case Enqueue => true
    case NotifyOne(None) => s.notices > 0 && Waiting !in s.workers
    case NotifyOne(Some(w)) => s.notices > 0 && Is(s, w, Waiting)
    case Shutdown => true
    case NotifyAll => s.closing
    case Turns(w) => Is(s, w, Checking)
    case Spurious(w) => Is(s, w, Waiting)
    case Finish(w) => w < |s.workers| && s.workers[w].Running?
  }

  function Awake(k: Worker): Worker { if k.Waiting? then Checking else k }

  function WakeAll(ws: seq<Worker>): (r: seq<Worker>)
    ensures |r| == |ws| && forall i :: 0 <= i < |ws| ==> r[i] == Awake(ws[i])
  {
    if ws == [] then [] else WakeAll(ws[..|ws| - 1]) + [Awake(ws[|ws| - 1])]
  }

  function TurnResult(t: Turn): Worker {
    match t
    case Wait => Waiting
    case Leave => Exited
    case Take(j) => Running(j)
  }

  function Next(s: System, a: Action): System
    requires Enabled(s, a)
  {
    match a
    case Enqueue =>
      if Full(s.queue) then s
      else s.(queue := s.queue.(jobs := s.queue.jobs + [s.accepted]), accepted := s.accepted + 1,
              notices := s.notices + 1, lost := s.lost || AllExited(s))
    case NotifyOne(None) => s.(notices := s.notices - 1)
    case NotifyOne(Some(w)) => s.(notices := s.notices - 1, workers := s.workers[w := Checking])
    case Shutdown => s.(queue := s.queue.(shutdown := true), closing := true)
    case NotifyAll => s.(closing := false, workers := WakeAll(s.workers))
    case Turns(w) =>
      var t := TurnOf(s.queue);
      s.(queue := AfterTurn(s.queue), workers := s.workers[w := TurnResult(t)],
         taken := if t.Take? then s.taken + [t.job] else s.taken)
    case Spurious(w) => s.(workers := s.workers[w := Checking])
    case Finish(w) => s.(workers := s.workers[w := Checking], finished := s.finished + [s.workers[w].job])
  }

  // ----- the invariant -----

  /** The first n jobs in the order of their acceptance. */
  function Serial(n: nat): seq<Job> { if n == 0 then [] else Serial(n - 1) + [n - 1] }

  function Held(k: Worker): multiset<Job> { if k.Running? then multiset{k.job} else multiset{} }

  function Busy(ws: seq<Worker>): multiset<Job> {
    if ws == [] then multiset{} else Busy(ws[..|ws| - 1]) + Held(ws[|ws| - 1])
  }

  /** Taken in the order of acceptance; each taken job is running or finished, and that once. */
  ghost predicate Accounted(s: System) {
    s.taken + s.queue.jobs == Serial(s.accepted) &&
    multiset(s.taken) == Busy(s.workers) + multiset(s.finished)
  }

  /** Workers leave after shutdown only, the last one with nothing queued; a lost job stays queued. */
  ghost predicate Orderly(s: System) {
    (Exited in s.workers ==> s.queue.shutdown) &&
    (AllExited(s) && s.workers != [] && !s.lost ==> s.queue.jobs == []) &&
    (s.lost ==> AllExited(s) && s.queue.jobs != []) &&
    (s.closing ==> s.queue.shutdown) &&
    (s.queue.shutdown && !s.closing ==> Waiting !in s.workers)
  }

  predicate Up(k: Worker) { k.Checking? || k.Running? }

  predicate SomeUp(ws: seq<Worker>) { exists i :: 0 <= i < |ws| && Up(ws[i]) }

  /** No lost wakeup: while jobs are queued somebody is awake or about to be woken. */
  ghost predicate Attended(s: System) {
    s.queue.jobs != [] && !s.lost && s.workers != [] ==> s.notices > 0 || s.closing || SomeUp(s.workers)
  }

  ghost predicate Invariant(s: System) { Accounted(s) && Orderly(s) && Attended(s) }

  /** Workers one after the other: the first n of b put behind a. */
  lemma {:induction false} BusyConcat(a: seq<Worker>, b: seq<Worker>, n: nat)
    requires n <= |b|
    ensures Busy(a + b[..n]) == Busy(a) + Busy(b[..n])
    decreases n
  {
    if n == 0 {
      BusyNil(a, b[..n]);
    } else {
      BusyConcat(a, b, n - 1);
      BusyLonger(a, b[..n - 1], b[n - 1], b[..n]);
    }
  }

  lemma BusyNil(a: seq<Worker>, none: seq<Worker>)
    requires none == []
    ensures Busy(a + none) == Busy(a) + Busy(none)
  {
    assert a + none == a && Busy(none) == multiset{};
  }

  lemma BusyLonger(a: seq<Worker>, b: seq<Worker>, k: Worker, c: seq<Worker>)
    requires Busy(a + b) == Busy(a) + Busy(b) && c == b + [k]
    ensures Busy(a + c) == Busy(a) + Busy(c)
  {
    BusyOneMore(a + b, k, a + c);
    BusyOneMore(b, k, c);
    Moved(Busy(a), Busy(b), Busy(a + b), Held(k), Busy(c), Busy(a + c));
  }

  lemma BusyOneMore(b: seq<Worker>, k: Worker, c: seq<Worker>)
    requires c == b + [k]
    ensures Busy(c) == Busy(b) + Held(k)
  {
    BusySnoc(b, k);
  }

  lemma Moved(a: multiset<Job>, b: multiset<Job>, ab: multiset<Job>, h: multiset<Job>, c: multiset<Job>,
              ac: multiset<Job>)
    requires ab == a + b && c == b + h && ac == ab + h
    ensures ac == a + c
  {
    SumAssoc(a, b, h);
  }

  lemma BusySplit(a: seq<Worker>, x: Worker, b: seq<Worker>)
    ensures Busy((a + [x]) + b) == (Busy(a) + Busy(b)) + Held(x)
  {
    BusyConcat(a + [x], b, |b|);
    assert b[..|b|] == b;
    BusySnoc(a, x);
    Swap(Busy(a), Held(x), Busy(b));
  }

  lemma BusySet(ws: seq<Worker>, i: nat, k: Worker)
    requires i < |ws|
    ensures Busy(ws[i := k]) + Held(ws[i]) == Busy(ws) + Held(k)
  {
    var a, b := ws[..i], ws[i + 1..];
    assert ws == (a + [ws[i]]) + b;
    assert ws[i := k] == (a + [k]) + b;
    BusySplit(a, ws[i], b);
    BusySplit(a, k, b);
    Swap(Busy(a) + Busy(b), Held(ws[i]), Held(k));
  }

  lemma BusySnoc(ws: seq<Worker>, k: Worker)
    ensures Busy(ws + [k]) == Busy(ws) + Held(k)
  {
    assert (ws + [k])[..|ws|] == ws;
  }

  lemma Swap(a: multiset<Job>, b: multiset<Job>, c: multiset<Job>)
    ensures (a + b) + c == (a + c) + b
  {
  }

  /** A worker that held no job and gets none. */
  lemma BusySame(ws: seq<Worker>, i: nat, k: Worker)
    requires i < |ws| && !ws[i].Running? && !k.Running?
    ensures Busy(ws[i := k]) == Busy(ws)
  {
    BusySet(ws, i, k);
    assert Busy(ws[i := k]) + multiset{} == Busy(ws[i := k]);
    assert Busy(ws) + multiset{} == Busy(ws);
  }

  lemma BusyTakes(ws: seq<Worker>, i: nat, j: Job)
    requires i < |ws| && !ws[i].Running?
    ensures Busy(ws[i := Running(j)]) == Busy(ws) + multiset{j}
  {
    BusySet(ws, i, Running(j));
    var after := Busy(ws[i := Running(j)]);
    assert after + multiset{} == after;
  }

  lemma BusyDrops(ws: seq<Worker>, i: nat)
    requires i < |ws| && ws[i].Running?
    ensures Busy(ws) == Busy(ws[i := Checking]) + multiset{ws[i].job}
  {
    BusySet(ws, i, Checking);
    assert Busy(ws) + multiset{} == Busy(ws);
  }

  /** The other workers stay as they are. */
  lemma SetKinds(ws: seq<Worker>, i: nat, k: Worker)
    requires i < |ws|
    ensures k in ws[i := k] && forall x :: x in ws[i := k] ==> x == k || x in ws
  {
    assert ws[i := k][i] == k;
  }

  lemma {:induction false} BusyWoken(ws: seq<Worker>)
    ensures Busy(WakeAll(ws)) == Busy(ws)
  {
    if ws != [] {
      BusyWoken(ws[..|ws| - 1]);
      assert WakeAll(ws)[..|ws| - 1] == WakeAll(ws[..|ws| - 1]);
    }
  }

  lemma {:induction false} BusyNone(ws: seq<Worker>)
    requires forall i :: 0 <= i < |ws| ==> !ws[i].Running?
    ensures Busy(ws) == multiset{}
  {
    if ws != [] {
      BusyNone(ws[..|ws| - 1]);
    }
  }

  lemma EnqueueKeeps(s: System)
    requires Invariant(s)
    ensures Invariant(Next(s, Enqueue))
  {
    var s' := Next(s, Enqueue);
    if !Full(s.queue) {
      assert s'.taken + s'.queue.jobs == (s.taken + s.queue.jobs) + [s.accepted];
    }
  }

  lemma UpSet(ws: seq<Worker>, i: nat, k: Worker)
    requires i < |ws| && Up(k)
    ensures SomeUp(ws[i := k])
  {
    assert Up(ws[i := k][i]);
  }

  lemma WakeKeeps(s: System, w: nat, notices: nat)
    requires Invariant(s) && Is(s, w, Waiting)
    ensures Invariant(s.(notices := notices, workers := s.workers[w := Checking]))
  {
    BusySame(s.workers, w, Checking);
    UpSet(s.workers, w, Checking);
    SetKinds(s.workers, w, Checking);
  }

  lemma NotifyNoneKeeps(s: System)
    requires Invariant(s) && Enabled(s, NotifyOne(None))
    ensures Invariant(Next(s, NotifyOne(None)))
  {
    if s.workers != [] && s.queue.jobs != [] && !s.lost {
      var w :| 0 <= w < |s.workers| && s.workers[w] != Exited;
      assert s.workers[w] in s.workers;
      assert Up(s.workers[w]);
    }
  }

  lemma NotifyAllKeeps(s: System)
    requires Invariant(s) && Enabled(s, NotifyAll)
    ensures Invariant(Next(s, NotifyAll))
  {
    BusyWoken(s.workers);
    WokenFrom(s.workers);
  }

  lemma WokenFrom(ws: seq<Worker>)
    ensures var r := WakeAll(ws);
            Waiting !in r && (Exited in r ==> Exited in ws) && (Gone(r) <==> Gone(ws)) && (SomeUp(r) <==> !Gone(ws))
  {
    var r := WakeAll(ws);
    assert forall i :: 0 <= i < |r| ==> r[i] != Waiting && (r[i] == Exited <==> ws[i] == Exited);
    if !Gone(ws) {
      var w :| 0 <= w < |ws| && ws[w] != Exited;
      assert Up(r[w]);
    }
  }

  lemma TakeKeeps(s: System, w: nat)
    requires Invariant(s) && Enabled(s, Turns(w)) && s.queue.jobs != []
    ensures Invariant(Next(s, Turns(w)))
  {
    var j := s.queue.jobs[0];
    TakeAccounted(s, w);
    UpSet(s.workers, w, Running(j));
    SetKinds(s.workers, w, Running(j));
  }

  lemma TakeAccounted(s: System, w: nat)
    requires Accounted(s) && Enabled(s, Turns(w)) && s.queue.jobs != []
    ensures Accounted(Next(s, Turns(w)))
  {
    OneMoves(s.taken, s.queue.jobs);
    BusyTakes(s.workers, w, s.queue.jobs[0]);
    TakenAdds(multiset(s.taken), Busy(s.workers), multiset(s.finished), s.queue.jobs[0]);
  }

  lemma TakenAdds(taken: multiset<Job>, busy: multiset<Job>, finished: multiset<Job>, j: Job)
    requires taken == busy + finished
    ensures taken + multiset{j} == (busy + multiset{j}) + finished
  {
    Swap(busy, finished, multiset{j});
  }

  lemma OneMoves(taken: seq<Job>, jobs: seq<Job>)
    requires jobs != []
    ensures (taken + [jobs[0]]) + jobs[1..] == taken + jobs
    ensures multiset(taken + [jobs[0]]) == multiset(taken) + multiset{jobs[0]}
  {
  }

  lemma RestKeeps(s: System, w: nat)
    requires Invariant(s) && Enabled(s, Turns(w)) && s.queue.jobs == []
    ensures Invariant(Next(s, Turns(w)))
  {
    var k := TurnResult(TurnOf(s.queue));
    BusySame(s.workers, w, k);
    SetKinds(s.workers, w, k);
  }

  lemma FinishKeeps(s: System, w: nat)
    requires Invariant(s) && Enabled(s, Finish(w))
    ensures Invariant(Next(s, Finish(w)))
  {
    var s', j := Next(s, Finish(w)), s.workers[w].job;
    BusyDrops(s.workers, w);
    Swap(Busy(s'.workers), multiset{j}, multiset(s.finished));
    assert multiset(s'.finished) == multiset(s.finished) + multiset{j};
    SumAssoc(Busy(s'.workers), multiset(s.finished), multiset{j});
    UpSet(s.workers, w, Checking);
    SetKinds(s.workers, w, Checking);
  }

  lemma SumAssoc(a: multiset<Job>, b: multiset<Job>, c: multiset<Job>)
    ensures (a + b) + c == a + (b + c)
  {
  }

  /** Every step keeps the invariant. */
  lemma StepKeeps(s: System, a: Action)
    requires Invariant(s) && Enabled(s, a)
    ensures Invariant(Next(s, a))
  {
    match a
    case Enqueue => EnqueueKeeps(s);
    case NotifyOne(None) => NotifyNoneKeeps(s);
    case NotifyOne(Some(w)) => WakeKeeps(s, w, s.notices - 1);
    case Shutdown =>
    case NotifyAll => NotifyAllKeeps(s);
    case Turns(w) => if s.queue.jobs != [] { TakeKeeps(s, w); } else { RestKeeps(s, w); }
    case Spurious(w) => WakeKeeps(s, w, s.notices);
    case Finish(w) => FinishKeeps(s, w);
  }

  // ----- whole runs -----

  ghost predicate Legal(s: System, run: seq<Action>)
    decreases |run|
  {
    run == [] || (Enabled(s, run[0]) && Legal(Next(s, run[0]), run[1..]))
  }

  ghost function After(s: System, run: seq<Action>): System
    requires Legal(s, run)
    decreases |run|
  {
    if run == [] then s else After(Next(s, run[0]), run[1..])
  }

  lemma {:induction false} RunKeeps(s: System, run: seq<Action>)
    requires Invariant(s) && Legal(s, run)
    ensures Invariant(After(s, run))
    decreases |run|
  {
    if run != [] {
      StepKeeps(s, run[0]);
      RunKeeps(Next(s, run[0]), run[1..]);
    }
  }

  lemma {:induction false} SerialDistinct(n: nat)
    ensures |Serial(n)| == n && forall i :: 0 <= i < n ==> Serial(n)[i] == i
  {
    if n > 0 {
      SerialDistinct(n - 1);
    }
  }

  /** In every run jobs are taken in the order of acceptance, and each taken job is running or finished. */
  lemma EveryRunExact(s: System, run: seq<Action>)
    requires Initial(s) && Legal(s, run)
    ensures var e := After(s, run);
            e.taken + e.queue.jobs == Serial(e.accepted) &&
            multiset(e.taken) == Busy(e.workers) + multiset(e.finished)
  {
    BusyNone(s.workers);
    RunKeeps(s, run);
  }

  /** The same job is never run twice. */
  lemma OnceOnly(s: System, run: seq<Action>, j: Job)
    requires Initial(s) && Legal(s, run)
    ensures var e := After(s, run); (Busy(e.workers) + multiset(e.finished))[j] <= 1
  {
    EveryRunExact(s, run);
    var e := After(s, run);
    SerialDistinct(e.accepted);
    assert forall i :: 0 <= i < |e.taken| ==> e.taken[i] == (e.taken + e.queue.jobs)[i];
    DistinctOnce(e.taken, j);
  }

  lemma {:induction false} DistinctOnce(xs: seq<Job>, j: Job)
    requires forall i :: 0 <= i < |xs| ==> xs[i] == i
    ensures multiset(xs)[j] <= 1 && (j >= |xs| ==> multiset(xs)[j] == 0)
  {
    if xs != [] {
      var init := xs[..|xs| - 1];
      DistinctOnce(init, j);
      assert xs == init + [xs[|xs| - 1]];
    }
  }

  // ----- no deadlock, and shutdown comes to an end -----

  /** Everything but new jobs and new shutdowns. */
  predicate Internal(a: Action) { !a.Enqueue? && !a.Shutdown? }

  ghost predicate CanMove(s: System) { exists a :: Internal(a) && Enabled(s, a) }

  lemma UpMoves(s: System, w: nat)
    requires w < |s.workers| && Up(s.workers[w])
    ensures CanMove(s)
  {
    var a := if s.workers[w].Checking? then Turns(w) else Finish(w);
    assert Internal(a) && Enabled(s, a);
  }

  lemma NoticeMoves(s: System)
    requires s.notices > 0
    ensures CanMove(s)
  {
    if Waiting in s.workers {
      var w :| 0 <= w < |s.workers| && s.workers[w] == Waiting;
      assert Internal(NotifyOne(Some(w))) && Enabled(s, NotifyOne(Some(w)));
    } else {
      assert Internal(NotifyOne(None)) && Enabled(s, NotifyOne(None));
    }
  }

  lemma ClosingMoves(s: System)
    requires s.closing
    ensures CanMove(s)
  {
    assert Internal(NotifyAll) && Enabled(s, NotifyAll);
  }

  /** While there is a job to do, or a worker still to leave, some thread can move. */
  lemma NoDeadlock(s: System)
    requires Invariant(s)
    requires (s.queue.jobs != [] && !s.lost && s.workers != []) || (s.queue.shutdown && !AllExited(s))
    ensures CanMove(s)
  {
    if s.closing {
      ClosingMoves(s);
    } else if s.notices > 0 {
      NoticeMoves(s);
    } else if s.queue.shutdown && !AllExited(s) {
      var w :| 0 <= w < |s.workers| && s.workers[w] != Exited;
      assert s.workers[w] in s.workers;
      UpMoves(s, w);
    } else {
      var w :| 0 <= w < |s.workers| && Up(s.workers[w]);
      UpMoves(s, w);
    }
  }

  function Weight(k: Worker): nat {
    match k
    case Checking => 1
    case Waiting => 2
    case Running(_) => 2
    case Exited => 0
  }

  function Weights(ws: seq<Worker>): nat {
    if ws == [] then 0 else Weights(ws[..|ws| - 1]) + Weight(ws[|ws| - 1])
  }

  /** Steps that can still be made after shutdown. */
  function Work(s: System): nat {
    3 * |s.queue.jobs| + Weights(s.workers) + s.notices + if s.closing then 1 else 0
  }

  lemma {:induction false} WeightsSet(ws: seq<Worker>, i: nat, k: Worker)
    requires i < |ws|
    ensures Weights(ws[i := k]) + Weight(ws[i]) == Weights(ws) + Weight(k)
    decreases |ws|
  {
    var init := ws[..|ws| - 1];
    if i == |ws| - 1 {
      assert ws[i := k][..i] == init;
    } else {
      WeightsSet(init, i, k);
      assert ws[i := k][..|ws| - 1] == init[i := k];
    }
  }

  lemma {:induction false} WeightsWoken(ws: seq<Worker>)
    ensures Weights(WakeAll(ws)) <= Weights(ws)
  {
    if ws != [] {
      WeightsWoken(ws[..|ws| - 1]);
      assert WakeAll(ws)[..|ws| - 1] == WakeAll(ws[..|ws| - 1]);
    }
  }

  lemma StepWorks(s: System, a: Action)
    requires s.queue.shutdown && Internal(a) && Enabled(s, a)
    ensures Work(Next(s, a)) < Work(s)
    ensures Next(s, a).queue.shutdown && Next(s, a).lost == s.lost && Next(s, a).accepted == s.accepted
  {
    match a
    case NotifyOne(None) =>
    case NotifyOne(Some(w)) => WeightsSet(s.workers, w, Checking);
    case NotifyAll => WeightsWoken(s.workers);
    case Turns(w) => WeightsSet(s.workers, w, TurnResult(TurnOf(s.queue)));
    case Spurious(w) => WeightsSet(s.workers, w, Checking);
    case Finish(w) => WeightsSet(s.workers, w, Checking);
  }

  lemma {:induction false} DrainBounded(s: System, run: seq<Action>)
    requires s.queue.shutdown && Legal(s, run) && forall a :: a in run ==> Internal(a)
    ensures |run| + Work(After(s, run)) <= Work(s)
    ensures var e := After(s, run); e.queue.shutdown && e.lost == s.lost && e.accepted == s.accepted
    decreases |run|
  {
    if run != [] {
      assert run[0] in run && forall a :: a in run[1..] ==> a in run;
      StepWorks(s, run[0]);
      DrainBounded(Next(s, run[0]), run[1..]);
    }
  }

  /** All workers gone: every accepted job has finished exactly if none was accepted after they had gone. */
  lemma JoinedCompleteIff(s: System)
    requires Invariant(s) && AllExited(s) && s.workers != []
    ensures multiset(s.finished) == multiset(Serial(s.accepted)) <==> !s.lost
    ensures !s.lost ==> s.queue.jobs == []
  {
    BusyNone(s.workers);
    assert multiset{} + multiset(s.finished) == multiset(s.finished);
    if s.lost {
      assert |multiset(s.finished)| == |s.taken| < |s.taken + s.queue.jobs| == |multiset(Serial(s.accepted))|;
    } else {
      assert s.taken + [] == s.taken;
    }
  }

  /**
    In every run that ends with all workers gone, all accepted jobs have been run, once
    each, if and only if no job was accepted in a state where all workers had left.
   */
  lemma CompleteIff(s: System, run: seq<Action>)
    requires Initial(s) && s.workers != [] && Legal(s, run) && AllExited(After(s, run))
    ensures var e := After(s, run);
            multiset(e.finished) == multiset(Serial(e.accepted)) <==> !AcceptsTooLate(s, run)
  {
    BusyNone(s.workers);
    RunKeeps(s, run);
    WorkersStay(s, run);
    LostIff(s, run);
    JoinedCompleteIff(After(s, run));
  }

  /** Somewhere in the run a job is accepted although every worker has left. */
  ghost predicate AcceptsTooLate(s: System, run: seq<Action>)
    requires Legal(s, run)
    decreases |run|
  {
    run != [] &&
    ((run[0].Enqueue? && !Full(s.queue) && AllExited(s)) || AcceptsTooLate(Next(s, run[0]), run[1..]))
  }

  lemma {:induction false} LostIff(s: System, run: seq<Action>)
    requires Legal(s, run)
    ensures After(s, run).lost <==> s.lost || AcceptsTooLate(s, run)
    decreases |run|
  {
    if run != [] {
      LostIff(Next(s, run[0]), run[1..]);
    }
  }

  /**
    In every run that shuts down and has accepted no job after the last worker left: what
    is left takes at most Work steps, it cannot get stuck before every worker has left,
    and then every accepted job has finished.
   */
  lemma ShutdownCompletes(s: System, run: seq<Action>, more: seq<Action>)
    requires Initial(s) && s.workers != [] && Legal(s, run)
    requires After(s, run).queue.shutdown && !AcceptsTooLate(s, run)
    requires Legal(After(s, run), more) && forall a :: a in more ==> Internal(a)
    ensures |more| <= Work(After(s, run))
    ensures var e := After(After(s, run), more);
            !CanMove(e) ==> AllExited(e) && e.queue.jobs == [] && multiset(e.finished) == multiset(Serial(e.accepted))
  {
    BusyNone(s.workers);
    RunKeeps(s, run);
    WorkersStay(s, run);
    LostIff(s, run);
    var m := After(s, run);
    RunKeeps(m, more);
    WorkersStay(m, more);
    DrainBounded(m, more);
    var e := After(m, more);
    if !CanMove(e) {
      if !AllExited(e) {
        NoDeadlock(e);
      }
      JoinedCompleteIff(e);
    }
  }

  lemma {:induction false} WorkersStay(s: System, run: seq<Action>)
    requires Legal(s, run)
    ensures |After(s, run).workers| == |s.workers|
    decreases |run|
  {
    if run != [] {
      WorkersStay(Next(s, run[0]), run[1..]);
    }
  }

  // ----- accepting and notifying -----

  /** A job is accepted exactly if there is no limit or fewer jobs than the limit are queued. */
  lemma AcceptedIff(s: System)
    ensures var s' := Next(s, Enqueue);
            if s.queue.maxQueued == 0 || |s.queue.jobs| < s.queue.maxQueued then
              s'.accepted == s.accepted + 1 && s'.queue.jobs == s.queue.jobs + [s.accepted]
            else s' == s
  {
  }

  ghost predicate InBounds(q: Queue) { q.maxQueued > 0 ==> |q.jobs| <= q.maxQueued }

  /** Over every run the queue stays within its limit. */
  lemma {:induction false} QueueBounded(s: System, run: seq<Action>)
    requires Legal(s, run) && InBounds(s.queue)
    ensures InBounds(After(s, run).queue) && After(s, run).queue.maxQueued == s.queue.maxQueued
    decreases |run|
  {
    if run != [] {
      QueueBounded(Next(s, run[0]), run[1..]);
    }
  }

  /** How many notifications of one worker the run gives. */
  function Notified(run: seq<Action>): nat {
    if run == [] then 0 else (if run[0].NotifyOne? then 1 else 0) + Notified(run[1..])
  }

  /** Every accepted job is followed by exactly one notification: those given and those still due add up. */
  lemma {:induction false} OneNoticeAJob(s: System, run: seq<Action>)
    requires Legal(s, run)
    ensures var e := After(s, run);
            e.accepted >= s.accepted && e.notices + Notified(run) == s.notices + (e.accepted - s.accepted)
    decreases |run|
  {
    if run != [] {
      OneNoticeAJob(Next(s, run[0]), run[1..]);
    }
  }

  lemma OneNoticeAJobFromStart(s: System, run: seq<Action>)
    requires Initial(s) && Legal(s, run)
    ensures var e := After(s, run); e.notices + Notified(run) == e.accepted
  {
    OneNoticeAJob(s, run);
  }

  // ----- jobs that come too late -----

  /** Once every worker has left, a queued job stays queued for good. */
  lemma {:induction false} LeftForever(s: System, run: seq<Action>)
    requires AllExited(s) && Legal(s, run)
    ensures var e := After(s, run); AllExited(e) && s.queue.jobs <= e.queue.jobs && e.finished == s.finished
    decreases |run|
  {
    if run != [] {
      var s' := Next(s, run[0]);
      assert AllExited(s') && s.queue.jobs <= s'.queue.jobs && s'.finished == s.finished;
      LeftForever(s', run[1..]);
    }
  }

  function Start(n: nat, mqr: nat): (s: System)
    ensures Initial(s)
  {
    System(Queue([], false, mqr), seq(n, _ => Checking), 0, false, 0, [], [], false)
  }

  /** The pool does accept such a job: shutdown does not close the queue. */
  lemma LateJobIsLost(mqr: nat)
    ensures var run := [Shutdown, Turns(0), Enqueue];
            Legal(Start(1, mqr), run) &&
            var e := After(Start(1, mqr), run);
            AllExited(e) && e.accepted == 1 && e.queue.jobs == [0] && e.finished == []
  {
    var s0 := Start(1, mqr);
    var s1 := Next(s0, Shutdown);
    var s2 := Next(s1, Turns(0));
    var s3 := Next(s2, Enqueue);
    var run := [Shutdown, Turns(0), Enqueue];
    assert run[1..] == [Turns(0), Enqueue] && run[1..][1..] == [Enqueue] && run[1..][1..][1..] == [];
    assert After(s3, []) == s3;
    assert After(s2, [Enqueue]) == s3;
    assert After(s1, [Turns(0), Enqueue]) == s3;
  }
}
