/** What every step of the worker pool keeps, and what follows over whole runs. */
module PoolSafety {
  import opened ThreadPoolModule

  /** The mutex passes only between free and the thread that moves, as its program counter says. */
  ghost predicate Passes(before: Owner, after: Owner, me: Owner, held: bool, holds: bool) {
    && (before.Free? || before == me || after == before)
    && (held <==> before == me) && (holds <==> after == me)
    && (after == before || after == me || after.Free?)
  }

  /** A client moves: the other clients keep their place; workers are only created or woken. */
  ghost predicate ClientMoves(p: Pool, q: Pool, j: nat) {
    && j < |p.clients| == |q.clients|
    && (forall l: nat :: l < |p.clients| && l != j ==> q.clients[l] == p.clients[l])
    && |p.workers| <= |q.workers|
    && (forall i: nat :: i < |q.workers| ==>
          if i < |p.workers| then q.workers[i] == p.workers[i] || (p.workers[i].Parked? && q.workers[i].Woken?)
          else q.workers[i].Wanting?)
    && Passes(p.owner, q.owner, ByClient(j), ClientHolds(p.clients[j]), ClientHolds(q.clients[j]))
  }

  /** A worker moves: everyone else keeps their place. */
  ghost predicate WorkerMoves(p: Pool, q: Pool, i: nat) {
    && i < |p.workers| == |q.workers| && q.clients == p.clients
    && (forall l: nat :: l < |p.workers| && l != i ==> q.workers[l] == p.workers[l])
    && Passes(p.owner, q.owner, ByWorker(i), WorkerHolds(p.workers[i]), WorkerHolds(q.workers[i]))
  }

  lemma WorkerStepMoves(p: Pool, i: nat, a: WorkerAct)
    requires LockOK(p) && i < |p.workers| && WorkerCan(p, p.workers[i], a)
    ensures WorkerMoves(p, WorkerDo(p, i, a), i)
  {
    assert WorkerHolds(p.workers[i]) <==> p.owner == ByWorker(i);
  }

  lemma ClientStepMoves(p: Pool, j: nat, a: ClientAct)
    requires LockOK(p) && j < |p.clients| && ClientCan(p, j, p.clients[j], a)
    ensures ClientMoves(p, ClientDo(p, j, a), j)
  {
    assert ClientHolds(p.clients[j]) <==> p.owner == ByClient(j);
  }

  lemma LockKeptByWorker(p: Pool, q: Pool, i: nat)
    requires LockOK(p) && WorkerMoves(p, q, i)
    ensures LockOK(q)
  {
  }

  lemma LockKeptByClient(p: Pool, q: Pool, j: nat)
    requires LockOK(p) && ClientMoves(p, q, j)
    ensures LockOK(q)
  {
  }

  lemma MainKeptByWorker(p: Pool, i: nat, a: WorkerAct)
    requires MainOK(p) && i < |p.workers| && WorkerCan(p, p.workers[i], a)
    ensures MainOK(WorkerDo(p, i, a))
  {
  }

  lemma MainKeptByClient(p: Pool, j: nat, a: ClientAct)
    requires MainOK(p) && j < |p.clients| && ClientCan(p, j, p.clients[j], a)
    ensures MainOK(ClientDo(p, j, a))
  {
    assert j > 0 ==> Adder(p.clients[j]);
  }

  lemma StopKeptByWorker(p: Pool, i: nat, a: WorkerAct)
    requires MainOK(p) && StopOK(p) && i < |p.workers| && WorkerCan(p, p.workers[i], a)
    ensures StopOK(WorkerDo(p, i, a))
  {
    var q := WorkerDo(p, i, a);
    assert forall l :: 0 <= l < |p.workers| && p.workers[l].Exited? ==> q.workers[l].Exited?;
  }

  lemma StopKeptByClient(p: Pool, j: nat, a: ClientAct)
    requires MainOK(p) && StopOK(p) && j < |p.clients| && ClientCan(p, j, p.clients[j], a)
    ensures StopOK(ClientDo(p, j, a))
  {
    if j > 0 {
      StopKeptByAdder(p, j, a);
    } else if Past(p.clients[0]) || a.Broadcast? {
      StopKeptByDestroyer(p, a);
    } else {
      assert !Past(ClientDo(p, 0, a).clients[0]);
    }
  }

  lemma StopKeptByAdder(p: Pool, j: nat, a: ClientAct)
    requires 0 < j < |p.clients| && StopOK(p) && Adder(p.clients[j]) && ClientCan(p, j, p.clients[j], a)
    ensures StopOK(ClientDo(p, j, a))
  {
    var q := ClientDo(p, j, a);
    assert forall l :: 0 <= l < |p.workers| && !p.workers[l].Parked? ==> q.workers[l] == p.workers[l];
  }

  lemma StopKeptByDestroyer(p: Pool, a: ClientAct)
    requires MainOK(p) && StopOK(p) && ClientCan(p, 0, p.clients[0], a) && (Past(p.clients[0]) || a.Broadcast?)
    ensures StopOK(ClientDo(p, 0, a))
  {
    var q := ClientDo(p, 0, a);
    assert forall l :: 0 <= l < |p.workers| && p.workers[l].Exited? ==> q.workers[l].Exited?;
  }

  lemma WakeKeptByWorker(p: Pool, i: nat, a: WorkerAct)
    requires LockOK(p) && WakeOK(p) && i < |p.workers| && WorkerCan(p, p.workers[i], a)
    ensures WakeOK(WorkerDo(p, i, a))
  {
    var q := WorkerDo(p, i, a);
    SumUpdate(p.workers, i, q.workers[i], IdleWeight);
  }

  lemma WakeKeptByClient(p: Pool, j: nat, a: ClientAct)
    requires LockOK(p) && MainOK(p) && WakeOK(p) && j < |p.clients| && ClientCan(p, j, p.clients[j], a)
    ensures WakeOK(ClientDo(p, j, a))
  {
    assert ClientHolds(p.clients[j]) <==> p.owner == ByClient(j);
    match a
    case Create => SumSnoc(p.workers, Wanting, IdleWeight);
    case Signal(woken) => WakeKeptBySignal(p, j, woken);
    case Broadcast =>
    case Rebroadcast =>
    case _ => WakeKeptInPlace(p, j, a);
  }

  /** A signal wakes some parked worker, if there is one. */
  lemma WakeKeptBySignal(p: Pool, j: nat, woken: set<nat>)
    requires p.owner == ByClient(j) && WakeOK(p) && j < |p.clients| && ClientCan(p, j, p.clients[j], Signal(woken))
    ensures WakeOK(ClientDo(p, j, Signal(woken)))
  {
    var ws := Wake(p.workers, woken);
    SumGrows(p.workers, ws, IdleWeight);
    if SomeParked(p.workers) {
      var i :| i in woken;
      assert IdleWeight(p.workers[i]) < IdleWeight(ws[i]);
    }
  }

  /** The other steps leave the workers where they are. */
  lemma WakeKeptInPlace(p: Pool, j: nat, a: ClientAct)
    requires LockOK(p) && MainOK(p) && WakeOK(p) && j < |p.clients| && ClientCan(p, j, p.clients[j], a)
    requires ClientHolds(p.clients[j]) <==> p.owner == ByClient(j)
    requires !a.Create? && !a.Signal? && !a.Broadcast? && !a.Rebroadcast?
    ensures WakeOK(ClientDo(p, j, a))
  {
    assert ClientDo(p, j, a).workers == p.workers;
  }

  lemma TasksKeptByWorker(p: Pool, i: nat, a: WorkerAct)
    requires TasksOK(p) && i < |p.workers| && WorkerCan(p, p.workers[i], a)
    ensures TasksOK(WorkerDo(p, i, a))
  {
    if a.Test? && p.started && p.queue != [] {
      TasksKeptByPop(p, i);
    } else if InHand(p.workers[i]) {
      TasksKeptInHand(p, i, a);
    } else {
      TasksKeptEmptyHanded(p, i, a);
    }
  }

  /** The first task of the queue gets the next ticket. */
  lemma TasksKeptByPop(p: Pool, i: nat)
    requires TasksOK(p) && i < |p.workers| && WorkerCan(p, p.workers[i], Test) && p.started && p.queue != []
    ensures TasksOK(WorkerDo(p, i, Test))
  {
    var q := WorkerDo(p, i, Test);
    forall l: nat | l < |q.workers| ensures HandOK(q, l) {
      assert HandOK(p, l);
    }
    forall k: nat | k < |q.takers| ensures TicketOK(q, k) {
      if k < |p.takers| { assert TicketOK(p, k); }
    }
  }

  /** A worker begins or ends the task it has in hand. */
  lemma TasksKeptInHand(p: Pool, i: nat, a: WorkerAct)
    requires TasksOK(p) && i < |p.workers| && WorkerCan(p, p.workers[i], a) && InHand(p.workers[i])
    ensures TasksOK(WorkerDo(p, i, a))
  {
    var q := WorkerDo(p, i, a);
    assert HandOK(p, i) && TicketOK(p, p.workers[i].ticket);
    forall l: nat | l < |q.workers| ensures HandOK(q, l) {
      assert HandOK(p, l);
    }
    forall k: nat | k < |q.takers| ensures TicketOK(q, k) {
      assert TicketOK(p, k);
    }
  }

  lemma TasksKeptEmptyHanded(p: Pool, i: nat, a: WorkerAct)
    requires TasksOK(p) && i < |p.workers| && WorkerCan(p, p.workers[i], a) && !InHand(p.workers[i])
    requires !(a.Test? && p.started && p.queue != [])
    ensures TasksOK(WorkerDo(p, i, a))
  {
    var q := WorkerDo(p, i, a);
    assert q.queue == p.queue && q.takers == p.takers && q.begun == p.begun && q.ended == p.ended;
    forall l: nat | l < |q.workers| ensures HandOK(q, l) {
      assert HandOK(p, l);
    }
    forall k: nat | k < |q.takers| ensures TicketOK(q, k) {
      assert TicketOK(p, k);
    }
  }

  lemma TasksKeptByClient(p: Pool, j: nat, a: ClientAct)
    requires TasksOK(p) && j < |p.clients| && ClientCan(p, j, p.clients[j], a)
    ensures TasksOK(ClientDo(p, j, a))
  {
    var q := ClientDo(p, j, a);
    assert forall l :: 0 <= l < |p.workers| && InHand(p.workers[l]) ==> q.workers[l] == p.workers[l];
    forall l: nat | l < |q.workers| ensures HandOK(q, l) {
      if l < |p.workers| { assert HandOK(p, l); }
    }
    forall k: nat | k < |q.takers| ensures TicketOK(q, k) {
      assert TicketOK(p, k);
    }
  }

  // ----- over whole runs -----

  lemma InvKept(p: Pool, s: Step)
    requires Inv(p) && Can(p, s)
    ensures Inv(Do(p, s))
  {
    match s
    case OfWorker(i, a) =>
      WorkerStepMoves(p, i, a);
      LockKeptByWorker(p, Do(p, s), i);
      MainKeptByWorker(p, i, a);
      StopKeptByWorker(p, i, a);
      WakeKeptByWorker(p, i, a);
      TasksKeptByWorker(p, i, a);
    case OfClient(j, a) =>
      ClientStepMoves(p, j, a);
      LockKeptByClient(p, Do(p, s), j);
      MainKeptByClient(p, j, a);
      StopKeptByClient(p, j, a);
      WakeKeptByClient(p, j, a);
      TasksKeptByClient(p, j, a);
  }

  lemma {:induction false} InvAlongRun(p: Pool, run: seq<Step>, q: Pool)
    requires Inv(p) && Leads(p, run, q)
    ensures Inv(q)
    decreases run
  {
    if run == [] {
    } else {
      InvKept(p, run[0]);
      InvAlongRun(Do(p, run[0]), run[1..], q);
    }
  }

  lemma ReachableInv(q: Pool)
    requires Reachable(q)
    ensures Inv(q)
  {
    var size: nat, nClients: nat, run: seq<Step> :| Leads(Init(size, nClients), run, q);
    InvAlongRun(Init(size, nClients), run, q);
  }

  lemma {:induction false} RunFromReachable(p: Pool, run: seq<Step>, q: Pool)
    requires Reachable(p) && Leads(p, run, q)
    ensures Reachable(q)
  {
    var size: nat, nClients: nat, before: seq<Step> :| Leads(Init(size, nClients), before, p);
    LeadsTwice(Init(size, nClients), before, p, run, q);
  }

  lemma {:induction false} LeadsTwice(p: Pool, a: seq<Step>, q: Pool, b: seq<Step>, r: Pool)
    requires Leads(p, a, q) && Leads(q, b, r)
    ensures Leads(p, a + b, r)
    decreases a
  {
    if a == [] {
      assert a + b == b;
    } else {
      assert (a + b)[0] == a[0] && (a + b)[1..] == a[1..] + b;
      assert Leads(Do(p, a[0]), a[1..] + b, r) by { LeadsTwice(Do(p, a[0]), a[1..], q, b, r); }
    }
  }

  /** In a started pool a parked worker means that every queued task has an awake idle worker of its
      own, up to the one whose signal is still to be sent. */
  lemma NoLostWakeup(p: Pool)
    requires Reachable(p) && p.started && SomeParked(p.workers)
    ensures |p.queue| <= Idle(p.workers) + if Pushing(p) then 1 else 0
    ensures !p.owner.ByClient? ==> |p.queue| <= Idle(p.workers)
  {
    ReachableInv(p);
  }

  /** So with no client inside `add_task`, tasks stay queued only while every worker is at work. */
  lemma QueuedMeansBusy(p: Pool)
    requires Reachable(p) && p.started && !p.owner.ByClient? && p.queue != []
    requires forall i :: 0 <= i < |p.workers| ==> IdleWeight(p.workers[i]) == 0
    ensures forall i :: 0 <= i < |p.workers| ==> InHand(p.workers[i])
  {
    ReachableInv(p);
    NoIdle(p.workers);
  }

  lemma {:induction false} NoIdle(ws: seq<Worker>)
    requires forall i :: 0 <= i < |ws| ==> IdleWeight(ws[i]) == 0
    ensures Idle(ws) == 0
  {
    if ws == [] {
    } else {
      NoIdle(ws[..|ws| - 1]);
    }
  }

  /** At most one thread is inside a locked section. */
  lemma MutualExclusion(p: Pool, i: nat, k: nat, j: nat, l: nat)
    requires Reachable(p)
    requires i < |p.workers| && k < |p.workers| && j < |p.clients| && l < |p.clients|
    ensures WorkerHolds(p.workers[i]) && WorkerHolds(p.workers[k]) ==> i == k
    ensures ClientHolds(p.clients[j]) && ClientHolds(p.clients[l]) ==> j == l
    ensures !(WorkerHolds(p.workers[i]) && ClientHolds(p.clients[j]))
  {
    ReachableInv(p);
  }

  // ----- tasks -----

  predicate NoPush(run: seq<Step>) {
    forall k :: 0 <= k < |run| ==> !(run[k].OfClient? && run[k].act.Push?)
  }

  lemma WorkerExtends(p: Pool, i: nat, a: WorkerAct)
    requires i < |p.workers| && WorkerCan(p, p.workers[i], a)
    ensures var q := WorkerDo(p, i, a); p.takers <= q.takers && q.added == p.added
  {
  }

  lemma ClientExtends(p: Pool, j: nat, a: ClientAct)
    requires j < |p.clients| && ClientCan(p, j, p.clients[j], a)
    ensures var q := ClientDo(p, j, a); q.takers == p.takers && p.added <= q.added && (!a.Push? ==> q.added == p.added)
  {
  }

  lemma {:induction false} RunExtends(p: Pool, run: seq<Step>, q: Pool)
    requires Leads(p, run, q)
    ensures p.takers <= q.takers && p.added <= q.added
    ensures NoPush(run) ==> q.added == p.added
    decreases run
  {
    if run == [] {
    } else {
      if run[0].OfWorker? { WorkerExtends(p, run[0].i, run[0].work); } else { ClientExtends(p, run[0].j, run[0].act); }
      RunExtends(Do(p, run[0]), run[1..], q);
      assert NoPush(run) ==> NoPush(run[1..]);
    }
  }

  /** The tasks popped are the first added, in order; each went to one worker, was begun and ended at
      most once, and ended only after it was begun. */
  lemma PoppedPrefix(p: Pool, k: nat)
    requires Reachable(p) && k < |p.takers|
    ensures |p.takers| <= |p.added| && p.added[..|p.takers|] + p.queue == p.added
    ensures p.takers[k] < |p.workers| && k < |p.begun| && k < |p.ended| && p.ended[k] <= p.begun[k] <= 1
    ensures forall i :: 0 <= i < |p.workers| && InHand(p.workers[i]) && p.workers[i].ticket == k
                        ==> i == p.takers[k] && p.workers[i].task == p.added[k]
  {
    ReachableInv(p);
    assert TicketOK(p, k);
    forall i: nat | i < |p.workers| && InHand(p.workers[i]) && p.workers[i].ticket == k
      ensures i == p.takers[k] && p.workers[i].task == p.added[k]
    {
      assert HandOK(p, i);
    }
  }

  /** When destroy has joined every worker, exactly the tasks that had been popped have run, once each;
      those still queued are dropped. */
  lemma DestroyOutcome(p: Pool)
    requires Inv(p) && p.clients[0].Done?
    ensures |p.takers| == |p.begun| == |p.ended| <= |p.added|
    ensures forall k :: 0 <= k < |p.takers| ==> p.begun[k] == p.ended[k] == 1
    ensures p.queue == p.added[|p.takers|..]
  {
    forall k: nat | k < |p.takers| ensures p.begun[k] == p.ended[k] == 1 {
      assert TicketOK(p, k);
      assert p.workers[p.takers[k]].Exited?;
    }
  }

  /** If no client pushes any more once the queue has been seen empty, every added task has run
      exactly once when destroy returns. */
  lemma EveryTaskRunsOnce(p: Pool, run: seq<Step>, q: Pool)
    requires Inv(p) && p.queue == [] && Leads(p, run, q) && NoPush(run) && q.clients != [] && q.clients[0].Done?
    ensures q.added == p.added && AllRan(q)
  {
    InvAlongRun(p, run, q);
    RunExtends(p, run, q);
    DestroyOutcome(q);
    assert |p.takers| <= |q.takers|;
  }

  /** Every added task has been begun and ended once. */
  ghost predicate AllRan(p: Pool) {
    |p.begun| == |p.ended| == |p.added| && forall k :: 0 <= k < |p.added| ==> p.begun[k] == p.ended[k] == 1
  }

  // ----- shutdown -----

  function Rank(w: Worker): nat {
    match w
    case Exited => 0
    case Leaving => 1
    case Checking => 2
    case Wanting => 3
    case Woken => 3
    case Running(_, _) => 4
    case Holding(_, _) => 5
    case Parked => 6
  }

  function Remaining(p: Pool): nat { Sum(p.workers, Rank) }

  /** Once the pool is set to stopped it stays so, and no task is popped any more. */
  lemma StoppedPopsNothing(p: Pool, s: Step)
    requires Inv(p) && Down(p.clients[0]) && Can(p, s)
    ensures var q := Do(p, s);
            |q.clients| > 0 && Down(q.clients[0]) && q.takers == p.takers && (Past(p.clients[0]) ==> Past(q.clients[0]))
  {
    assert s.OfClient? && s.j > 0 ==> Adder(p.clients[s.j]);
  }

  lemma {:induction false} StoppedRun(p: Pool, run: seq<Step>, q: Pool)
    requires Inv(p) && Down(p.clients[0]) && Leads(p, run, q)
    ensures q.takers == p.takers
    decreases run
  {
    if run == [] {
    } else {
      StoppedPopsNothing(p, run[0]);
      InvKept(p, run[0]);
      StoppedRun(Do(p, run[0]), run[1..], q);
    }
  }

  /** From the moment the pool is set to stopped: however the run goes on, when destroy returns every
      added task has run exactly when the queue was empty at that moment and nothing was pushed since. */
  lemma StopOutcome(p: Pool, run: seq<Step>, q: Pool)
    requires Inv(p) && Down(p.clients[0]) && Leads(p, run, q) && q.clients != [] && q.clients[0].Done?
    ensures AllRan(q) <==> p.queue == [] && q.added == p.added
  {
    InvAlongRun(p, run, q);
    StoppedRun(p, run, q);
    RunExtends(p, run, q);
    DestroyOutcome(q);
  }

  /** After the broadcast each worker step brings the workers closer to exit, and no client step
      takes them away from it. */
  lemma RankFalls(p: Pool, s: Step)
    requires Inv(p) && Past(p.clients[0]) && Can(p, s)
    ensures if s.OfWorker? then Remaining(Do(p, s)) < Remaining(p) else Remaining(Do(p, s)) == Remaining(p)
  {
    match s
    case OfWorker(i, a) =>
      SumUpdate(p.workers, i, Do(p, s).workers[i], Rank);
    case OfClient(j, a) =>
      assert j > 0 ==> Adder(p.clients[j]);
      assert Do(p, s).workers == p.workers;
  }

  function WorkerSteps(run: seq<Step>): nat {
    if run == [] then 0 else (if run[0].OfWorker? then 1 else 0) + WorkerSteps(run[1..])
  }

  /** However the run goes on after the broadcast, nobody parks, nothing is popped, and the workers
      together take at most five steps each. */
  lemma {:induction false} ShutdownBounded(p: Pool, run: seq<Step>, q: Pool)
    requires Inv(p) && Past(p.clients[0]) && Leads(p, run, q)
    ensures WorkerSteps(run) + Remaining(q) <= Remaining(p) <= 5 * |p.workers|
    ensures |q.clients| > 0 && Past(q.clients[0]) && !SomeParked(q.workers) && q.takers == p.takers
    decreases run
  {
    RankBound(p.workers);
    if run != [] {
      InvKept(p, run[0]);
      RankFalls(p, run[0]);
      StoppedPopsNothing(p, run[0]);
      ShutdownBounded(Do(p, run[0]), run[1..], q);
    }
  }

  lemma {:induction false} RankBound(ws: seq<Worker>)
    requires forall i :: 0 <= i < |ws| ==> !ws[i].Parked?
    ensures Sum(ws, Rank) <= 5 * |ws|
  {
    if ws == [] {
    } else {
      RankBound(ws[..|ws| - 1]);
    }
  }

  /** After the broadcast, while some worker has not exited, some worker can move, or a client inside
      `add_task` holds the mutex and can move. */
  lemma ShutdownProgress(p: Pool)
    requires Inv(p) && Past(p.clients[0]) && !AllExited(p.workers)
    ensures exists s :: Can(p, s) && (s.OfWorker? || (p.owner.ByClient? && s.j == p.owner.client))
  {
    var i: nat :| i < |p.workers| && !p.workers[i].Exited?;
    match p.owner
    case Free =>
      assert !WorkerHolds(p.workers[i]);
      WorkerCanMove(p, i, if p.workers[i].Running? then EndTask else Lock);
    case ByWorker(k) =>
      assert WorkerHolds(p.workers[k]);
      WorkerCanMove(p, k, if p.workers[k].Checking? then Test else Unlock);
    case ByClient(j) =>
      assert ClientHolds(p.clients[j]);
      ClientCanMove(p, j);
  }

  lemma WorkerCanMove(p: Pool, i: nat, a: WorkerAct)
    requires TasksOK(p) && i < |p.workers|
    requires match a case Lock => (p.workers[i].Wanting? || p.workers[i].Woken?) && p.owner.Free?
                     case Test => p.workers[i].Checking?
                     case Unlock => p.workers[i].Leaving? || p.workers[i].Holding?
                     case EndTask => p.workers[i].Running?
                     case Spurious => p.workers[i].Parked?
    ensures Can(p, OfWorker(i, a))
  {
    assert HandOK(p, i);
  }

  lemma ClientCanMove(p: Pool, j: nat)
    requires j < |p.clients| && ClientHolds(p.clients[j])
    ensures exists a :: Can(p, OfClient(j, a))
  {
    var parked := set i | 0 <= i < |p.workers| && p.workers[i].Parked?;
    if SomeParked(p.workers) {
      var i :| 0 <= i < |p.workers| && p.workers[i].Parked?;
      assert i in parked;
    }
    var a := match p.clients[j]
      case Adding(_) => Push
      case Pushed => Signal(parked)
      case Signalled => UnlockAdd
      case Stopping => SetStopped
      case _ => UnlockStop;
    assert Can(p, OfClient(j, a));
  }

  /** When all have exited, the joins of destroy go through one by one. */
  lemma DestroyCanMove(p: Pool)
    requires Inv(p) && Past(p.clients[0]) && AllExited(p.workers) && !p.clients[0].Done?
    ensures exists a :: Can(p, OfClient(0, a))
  {
    var c := p.clients[0];
    assert Can(p, OfClient(0, if c.Joined? then Rebroadcast else if c.next < p.size then Join else Return));
  }

  lemma StepFromReachable(p: Pool, s: Step, q: Pool)
    requires Reachable(p) && Can(p, s) && q == Do(p, s)
    ensures Reachable(q)
  {
    assert Leads(p, [s], q) by { assert [s][1..] == []; }
    RunFromReachable(p, [s], q);
  }

  lemma ClientNext(p: Pool, a: ClientAct, q: Pool)
    requires Reachable(p) && p.clients != [] && ClientCan(p, 0, p.clients[0], a) && q == ClientDo(p, 0, a)
    ensures Reachable(q)
  {
    StepFromReachable(p, OfClient(0, a), q);
  }

  /** Without waiting for the queue to drain, destroy drops tasks: one worker, one task added and never
      begun, and destroy returns. */
  lemma TaskDropped(t: Task)
    ensures exists p :: Reachable(p) && p.size == 1 && p.clients == [Done] && p.added == p.queue == [t] && p.begun == []
  {
    var p := Pool(1, true, Free, [], [Wanting], [Outside], [], [], [], []);
    StartOne(p);
    var q := p.(queue := [t], added := [t]);
    AddOne(p, t, q);
    var r := q.(started := false, clients := [Joining(0)]);
    StopNow(q, r);
    LeaveNow(r, r.(workers := [Exited]));
    JoinNow(r.(workers := [Exited]), r.(workers := [Exited], clients := [Done]));
  }

  lemma StartOne(q: Pool)
    requires q == Pool(1, true, Free, [], [Wanting], [Outside], [], [], [], [])
    ensures Reachable(q)
  {
    var p := Init(1, 0);
    assert Leads(p, [], p);
    assert p.clients == [Starting];
    var a := p.(clients := [Creating], started := true);
    ClientNext(p, Start, a);
    var b := a.(workers := [Wanting]);
    ClientNext(a, Create, b);
    ClientNext(b, Created, q);
  }

  lemma JoinNow(p: Pool, q: Pool)
    requires Reachable(p) && p.workers == [Exited] && p.clients == [Joining(0)] && p.size == 1 && q == p.(clients := [Done])
    ensures Reachable(q)
  {
    var a := p.(clients := [Joined(0)]);
    ClientNext(p, Join, a);
    var b := p.(clients := [Joining(1)]);
    ClientNext(a, Rebroadcast, b);
    ClientNext(b, Return, q);
  }

  lemma AddOne(p: Pool, t: Task, q: Pool)
    requires Reachable(p) && p.clients == [Outside] && p.workers == [Wanting] && p.owner.Free?
    requires q == p.(queue := p.queue + [t], added := p.added + [t])
    ensures Reachable(q)
  {
    var a := p.(clients := [WantAdd(t)]);
    ClientNext(p, CallAdd(t), a);
    var b := a.(clients := [Adding(t)], owner := ByClient(0));
    ClientNext(a, LockAdd, b);
    PushOne(b, t, q);
  }

  lemma PushOne(p: Pool, t: Task, q: Pool)
    requires Reachable(p) && p.clients == [Adding(t)] && p.workers == [Wanting]
    requires q == p.(queue := p.queue + [t], added := p.added + [t], clients := [Outside], owner := Free)
    ensures Reachable(q)
  {
    var a := q.(clients := [Pushed], owner := p.owner);
    ClientNext(p, Push, a);
    var b := a.(clients := [Signalled]);
    ClientNext(a, Signal({}), b);
    ClientNext(b, UnlockAdd, q);
  }

  lemma StopNow(p: Pool, q: Pool)
    requires Reachable(p) && p.clients == [Outside] && p.workers == [Wanting] && p.owner.Free?
    requires q == p.(started := false, clients := [Joining(0)])
    ensures Reachable(q)
  {
    var a := p.(clients := [WantStop]);
    ClientNext(p, CallStop, a);
    var b := p.(clients := [Stopping], owner := ByClient(0));
    ClientNext(a, LockStop, b);
    BroadcastNow(b, q);
  }

  lemma BroadcastNow(p: Pool, q: Pool)
    requires Reachable(p) && p.clients == [Stopping] && p.workers == [Wanting]
    requires q == p.(started := false, clients := [Joining(0)], owner := Free)
    ensures Reachable(q)
  {
    var a := p.(clients := [StopSet], started := false);
    ClientNext(p, SetStopped, a);
    var b := a.(clients := [StopUnlocked], owner := Free);
    ClientNext(a, UnlockStop, b);
    ClientNext(b, Broadcast, q);
  }

  lemma LeaveNow(p: Pool, q: Pool)
    requires Reachable(p) && p.workers == [Wanting] && p.owner.Free? && !p.started && q == p.(workers := [Exited])
    ensures Reachable(q)
  {
    var a := p.(workers := [Checking], owner := ByWorker(0));
    StepFromReachable(p, OfWorker(0, Lock), a);
    var b := a.(workers := [Leaving]);
    StepFromReachable(a, OfWorker(0, Test), b);
    StepFromReachable(b, OfWorker(0, Unlock), q);
  }

  /** A started pool never gets stuck on queued tasks: some worker can move, other than by a spurious
      wakeup, or a client inside a locked section can. */
  lemma QueueProgress(p: Pool)
    requires Inv(p) && p.started && p.queue != [] && p.workers != []
    ensures exists s :: Can(p, s) && if s.OfWorker? then !s.work.Spurious? else p.owner == ByClient(s.j)
  {
    match p.owner
    case Free =>
      if i: nat :| i < |p.workers| && !p.workers[i].Parked? {
        assert !WorkerHolds(p.workers[i]);
        WorkerCanMove(p, i, if p.workers[i].Running? then EndTask else Lock);
      } else {
        assert p.workers[0].Parked?;
        NoIdle(p.workers);
        assert false;
      }
    case ByWorker(k) =>
      assert WorkerHolds(p.workers[k]);
      WorkerCanMove(p, k, if p.workers[k].Checking? then Test else Unlock);
    case ByClient(j) =>
      assert ClientHolds(p.clients[j]);
      ClientCanMove(p, j);
  }
}
