/** What the steps of a run alone tell: which tasks were asked for, in which order they were added, who
    ended one, and that workers left alone come to rest. */
module PoolHistory {
  import opened ThreadPoolModule
  import opened PoolSafety

  // ----- from the calls to the queue -----

  /** The task that step `s` asks the pool to run, if it is a call of client `j`. */
  function AskedOf(s: Step, j: nat): seq<Task> {
    if s.OfClient? && s.j == j && s.act.CallAdd? then [s.act.task] else []
  }

  /** The tasks given to `add_task` by client `j`, in order. */
  function AskedBy(run: seq<Step>, j: nat): seq<Task> {
    if run == [] then [] else AskedOf(run[0], j) + AskedBy(run[1..], j)
  }

  /** How often task `t` is given to `add_task`, by anyone. */
  function Asked(run: seq<Step>, t: Task): nat {
    if run == [] then 0
    else (if run[0].OfClient? && run[0].act == CallAdd(t) then 1 else 0) + Asked(run[1..], t)
  }

  /** Who pushed, push by push. */
  function Pushers(run: seq<Step>): seq<nat> {
    if run == [] then []
    else (if run[0].OfClient? && run[0].act.Push? then [run[0].j] else []) + Pushers(run[1..])
  }

  /** The task that a client has asked for and not pushed yet. */
  function Pending(c: Client): seq<Task> {
    if c.WantAdd? || c.Adding? then [c.task] else []
  }

  /** How many clients have asked for `t` and not pushed it yet. */
  function AllPending(cs: seq<Client>, t: Task): nat {
    if cs == [] then 0 else AllPending(cs[..|cs| - 1], t) + PendingFor(cs[|cs| - 1], t)
  }

  function PendingFor(c: Client, t: Task): nat {
    if (c.WantAdd? || c.Adding?) && c.task == t then 1 else 0
  }

  /** Of `tasks`, those that `who` attributes to `j`. */
  function Of(tasks: seq<Task>, who: seq<nat>, j: nat): seq<Task>
    requires |tasks| == |who|
  {
    if tasks == [] then [] else (if who[0] == j then [tasks[0]] else []) + Of(tasks[1..], who[1..], j)
  }

  lemma PushersOne(s: Step)
    ensures Pushers([s]) == if s.OfClient? && s.act.Push? then [s.j] else []
  {
    assert [s][1..] == [];
  }

  lemma OneOf(x: Task, i: nat, j: nat)
    ensures Of([x], [i], j) == if i == j then [x] else []
  {
    assert [x][1..] == [] && [i][1..] == [];
  }

  /** What client `j` has pending and asks for in a step of client `i` is what it pushes and has pending then. */
  lemma ClientPending(p: Pool, i: nat, a: ClientAct, j: nat)
    requires i < |p.clients| && j < |p.clients| && ClientCan(p, i, p.clients[i], a)
    ensures Pending(p.clients[j]) + AskedOf(OfClient(i, a), j) ==
            (if a.Push? && i == j then [p.clients[i].task] else []) + Pending(ClientDo(p, i, a).clients[j])
  {
  }

  lemma ClientAdds(p: Pool, i: nat, a: ClientAct)
    requires i < |p.clients| && ClientCan(p, i, p.clients[i], a)
    ensures ClientDo(p, i, a).added == p.added + if a.Push? then [p.clients[i].task] else []
  {
  }

  /** The tasks added from `p` to `q` are those pushed, by whom the run says; client `j` pushed the tasks it
      had pending and asked for, in order, save what it has pending at the end. */
  ghost predicate Attributed(p: Pool, run: seq<Step>, q: Pool, j: nat) {
    && j < |p.clients| && j < |q.clients| && p.added <= q.added
    && var more := q.added[|p.added|..];
       && |more| == |Pushers(run)|
       && Pending(p.clients[j]) + AskedBy(run, j) == Of(more, Pushers(run), j) + Pending(q.clients[j])
  }

  lemma ClientMore(p: Pool, i: nat, a: ClientAct, j: nat) returns (more: seq<Task>)
    requires i < |p.clients| && ClientCan(p, i, p.clients[i], a)
    ensures ClientDo(p, i, a).added == p.added + more && |more| == |if a.Push? then [i] else []|
    ensures Of(more, if a.Push? then [i] else [], j) == if a.Push? && i == j then [p.clients[i].task] else []
  {
    ClientAdds(p, i, a);
    more := [];
    if a.Push? {
      more := [p.clients[i].task];
      OneOf(p.clients[i].task, i, j);
    }
  }

  lemma AttributedStep(p: Pool, s: Step, j: nat)
    requires Can(p, s) && j < |p.clients|
    ensures Attributed(p, [s], Do(p, s), j)
  {
    PushersOne(s);
    assert AskedBy([s], j) == AskedOf(s, j) by { assert [s][1..] == []; }
    match s
    case OfClient(i, a) =>
      var more := ClientMore(p, i, a, j);
      assert Do(p, s).added[|p.added|..] == more;
      ClientPending(p, i, a, j);
    case OfWorker(i, a) =>
      assert Do(p, s).clients == p.clients && Do(p, s).added == p.added;
  }

  /** Over every run, each client's tasks are added in the order in which it asked for them; at the end
      at most the last is still pending. Nothing else is added. */
  lemma {:induction false} AddedInOrder(p: Pool, run: seq<Step>, q: Pool, j: nat)
    requires Leads(p, run, q) && j < |p.clients|
    ensures Attributed(p, run, q, j)
    decreases run
  {
    if run == [] {
      assert q.added[|p.added|..] == [];
    } else {
      var r := Do(p, run[0]);
      AttributedStep(p, run[0], j);
      AddedInOrder(r, run[1..], q, j);
      AttributedJoin(p, run[0], r, run[1..], q, j);
      assert run == [run[0]] + run[1..];
    }
  }

  lemma RunSplit(s: Step, rest: seq<Step>, j: nat)
    ensures Pushers([s] + rest) == Pushers([s]) + Pushers(rest)
    ensures AskedBy([s] + rest, j) == AskedBy([s], j) + AskedBy(rest, j)
  {
    assert ([s] + rest)[1..] == rest && [s][1..] == [];
  }

  lemma AttributedJoin(p: Pool, s: Step, r: Pool, rest: seq<Step>, q: Pool, j: nat)
    requires Attributed(p, [s], r, j) && Attributed(r, rest, q, j)
    ensures Attributed(p, [s] + rest, q, j)
  {
    RunSplit(s, rest, j);
    Spliced(p.added, r.added, q.added, Pushers([s]), Pushers(rest), j,
            Pending(p.clients[j]), Pending(r.clients[j]), Pending(q.clients[j]), AskedBy([s], j), AskedBy(rest, j));
  }

  lemma Spliced(added: seq<Task>, added': seq<Task>, added'': seq<Task>, who: seq<nat>, who': seq<nat>, j: nat,
                before: seq<Task>, between: seq<Task>, after: seq<Task>, asked: seq<Task>, later: seq<Task>)
    requires added <= added' <= added'' && |added'| == |added| + |who| && |added''| == |added'| + |who'|
    requires before + asked == Of(added'[|added|..], who, j) + between
    requires between + later == Of(added''[|added'|..], who', j) + after
    ensures before + (asked + later) == Of(added''[|added|..], who + who', j) + after
  {
    var a, b := added'[|added|..], added''[|added'|..];
    assert Of(added''[|added|..], who + who', j) == Of(a, who, j) + Of(b, who', j) by {
      assert added''[|added|..] == a + b;
      OfConcat(a, b, who, who', j);
    }
    ChainPending(before, asked, later, Of(a, who, j), between, Of(b, who', j), after);
  }

  lemma ChainPending(before: seq<Task>, asked: seq<Task>, later: seq<Task>, pushed: seq<Task>, between: seq<Task>,
                     pushed': seq<Task>, after: seq<Task>)
    requires before + asked == pushed + between && between + later == pushed' + after
    ensures before + (asked + later) == (pushed + pushed') + after
  {
    Associates(before, asked, later);
    Associates(pushed, between, later);
    Associates(pushed, pushed', after);
  }

  lemma Associates(a: seq<Task>, b: seq<Task>, c: seq<Task>)
    ensures (a + b) + c == a + (b + c)
  {
  }

  lemma {:induction false} OfConcat(a: seq<Task>, b: seq<Task>, x: seq<nat>, y: seq<nat>, j: nat)
    requires |a| == |x| && |b| == |y|
    ensures Of(a + b, x + y, j) == Of(a, x, j) + Of(b, y, j)
    decreases a
  {
    if a == [] {
      assert a + b == b && x + y == y;
    } else {
      var head := if x[0] == j then [a[0]] else [];
      assert Of(a + b, x + y, j) == head + Of(a[1..] + b, x[1..] + y, j) by {
        assert (a + b)[1..] == a[1..] + b && (x + y)[1..] == x[1..] + y;
      }
      OfConcat(a[1..], b, x[1..], y, j);
      Associates(head, Of(a[1..], x[1..], j), Of(b, y, j));
    }
  }

  lemma {:induction false} PendingUpdate(cs: seq<Client>, j: nat, c: Client, t: Task)
    requires j < |cs|
    ensures AllPending(cs[j := c], t) + PendingFor(cs[j], t) == AllPending(cs, t) + PendingFor(c, t)
  {
    var n := |cs| - 1;
    if j == n {
      assert cs[j := c][..n] == cs[..n];
    } else {
      PendingUpdate(cs[..n], j, c, t);
      assert cs[j := c][..n] == cs[..n][j := c];
    }
  }

  lemma CountSnoc(s: seq<Task>, x: Task, t: Task)
    ensures multiset(s + [x])[t] == multiset(s)[t] + if x == t then 1 else 0
  {
  }

  lemma AddedBalance(p: Pool, j: nat, a: ClientAct, t: Task)
    requires j < |p.clients| && ClientCan(p, j, p.clients[j], a)
    ensures multiset(ClientDo(p, j, a).added)[t] == multiset(p.added)[t] + if a.Push? && p.clients[j].task == t then 1 else 0
  {
    ClientAdds(p, j, a);
    if a.Push? { CountSnoc(p.added, p.clients[j].task, t); } else { assert ClientDo(p, j, a).added == p.added; }
  }

  lemma PendingBalance(p: Pool, j: nat, a: ClientAct, t: Task)
    requires j < |p.clients| && ClientCan(p, j, p.clients[j], a)
    ensures PendingFor(p.clients[j], t) + (if a == CallAdd(t) then 1 else 0)
            == PendingFor(ClientDo(p, j, a).clients[j], t) + if a.Push? && p.clients[j].task == t then 1 else 0
  {
  }

  lemma ClientBalance(p: Pool, j: nat, a: ClientAct, t: Task)
    requires j < |p.clients| && ClientCan(p, j, p.clients[j], a)
    ensures var q := ClientDo(p, j, a);
            multiset(p.added)[t] + PendingFor(p.clients[j], t) + (if a == CallAdd(t) then 1 else 0)
            == multiset(q.added)[t] + PendingFor(q.clients[j], t)
  {
    PendingBalance(p, j, a, t);
    AddedBalance(p, j, a, t);
  }

  /** Task `t` as often as it is added, pending and asked for. */
  lemma AskedStep(p: Pool, s: Step, t: Task)
    requires Can(p, s)
    ensures var q := Do(p, s);
            multiset(p.added)[t] + AllPending(p.clients, t) + (if s.OfClient? && s.act == CallAdd(t) then 1 else 0)
            == multiset(q.added)[t] + AllPending(q.clients, t)
  {
    match s
    case OfClient(j, a) =>
      var c := ClientDo(p, j, a).clients[j];
      assert ClientDo(p, j, a).clients == p.clients[j := c];
      assert AllPending(Do(p, s).clients, t) + PendingFor(p.clients[j], t) == AllPending(p.clients, t) + PendingFor(c, t) by {
        PendingUpdate(p.clients, j, c, t);
      }
      ClientBalance(p, j, a, t);
    case OfWorker(i, a) =>
      assert Do(p, s).clients == p.clients && Do(p, s).added == p.added;
  }

  lemma {:induction false} AskedAlongRun(p: Pool, run: seq<Step>, q: Pool, t: Task)
    requires Leads(p, run, q)
    ensures multiset(p.added)[t] + AllPending(p.clients, t) + Asked(run, t) == multiset(q.added)[t] + AllPending(q.clients, t)
    decreases run
  {
    if run == [] {
    } else {
      AskedStep(p, run[0], t);
      AskedAlongRun(Do(p, run[0]), run[1..], q, t);
    }
  }

  /** Over every run from the start: a task is added as often as it is given to `add_task`, up to the
      callers who have not pushed yet. */
  lemma AskedIsAdded(size: nat, nClients: nat, run: seq<Step>, q: Pool, t: Task)
    requires Leads(Init(size, nClients), run, q)
    ensures Asked(run, t) == multiset(q.added)[t] + AllPending(q.clients, t)
  {
    var p := Init(size, nClients);
    NonePending(p.clients, t);
    AskedAlongRun(p, run, q, t);
  }

  lemma {:induction false} NonePending(cs: seq<Client>, t: Task)
    requires forall j :: 0 <= j < |cs| ==> Pending(cs[j]) == []
    ensures AllPending(cs, t) == 0
  {
    if cs == [] {
    } else {
      NonePending(cs[..|cs| - 1], t);
    }
  }

  /** So when the queue was seen empty with nothing pushed since, and no call is pending as destroy
      returns, every task ever given to `add_task` has run exactly as often as it was given. */
  lemma AskedRunOnce(size: nat, nClients: nat, before: seq<Step>, p: Pool, run: seq<Step>, q: Pool, t: Task)
    requires Leads(Init(size, nClients), before, p) && Leads(p, run, q) && p.queue == [] && NoPush(run)
    requires q.clients != [] && q.clients[0].Done? && forall j :: 0 <= j < |q.clients| ==> Pending(q.clients[j]) == []
    ensures Asked(before + run, t) == multiset(q.added)[t] && AllRan(q)
  {
    assert Reachable(p);
    ReachableInv(p);
    EveryTaskRunsOnce(p, run, q);
    LeadsTwice(Init(size, nClients), before, p, run, q);
    AskedIsAdded(size, nClients, before + run, q, t);
    NonePending(q.clients, t);
  }

  // ----- one call, uninterrupted -----

  /** `initialize_threadpool` from any point of its loop: it creates the workers still missing and returns,
      whatever the other threads have left the pool in. */
  lemma {:induction false} StartFinishes(p: Pool, k: nat, q: Pool)
    requires p.clients != [] && p.clients[0].Creating? && |p.workers| + k == p.size
    requires q == p.(workers := p.workers + seq(k, _ => Wanting), clients := p.clients[0 := Outside])
    ensures Leads(p, seq(k, _ => OfClient(0, Create)) + [OfClient(0, Created)], q)
    decreases k
  {
    var creates: seq<Step> := seq(k, _ => OfClient(0, Create));
    if k == 0 {
      assert p.workers + seq(k, _ => Wanting) == p.workers;
      LeadsStep(p, OfClient(0, Created), [], q, q);
      assert creates + [OfClient(0, Created)] == [OfClient(0, Created)] + [];
    } else {
      var r := p.(workers := p.workers + [Wanting]);
      var rest: seq<Step> := seq(k - 1, _ => OfClient(0, Create));
      assert r.workers + seq(k - 1, _ => Wanting) == q.workers;
      StartFinishes(r, k - 1, q);
      LeadsStep(p, OfClient(0, Create), rest + [OfClient(0, Created)], r, q);
      assert creates + [OfClient(0, Created)] == [OfClient(0, Create)] + (rest + [OfClient(0, Created)]);
    }
  }

  /** The first half of `destroy_threadpool` called while the mutex is free and run through: the pool is
      stopped, the mutex free, every parked worker awake, and the joins begin. */
  lemma StopBroadcasts(p: Pool, q: Pool)
    requires p.owner.Free? && p.clients != [] && p.clients[0].Outside?
    requires q == p.(started := false, clients := p.clients[0 := Joining(0)],
                     workers := seq(|p.workers|, i requires 0 <= i < |p.workers| =>
                                      if p.workers[i].Parked? then Woken else p.workers[i]))
    ensures Leads(p, [OfClient(0, CallStop), OfClient(0, LockStop), OfClient(0, SetStopped), OfClient(0, UnlockStop),
                      OfClient(0, Broadcast)], q)
  {
    var r := p.(clients := p.clients[0 := WantStop]);
    LockStopLeads(r, q);
    LeadsStep(p, OfClient(0, CallStop),
              [OfClient(0, LockStop), OfClient(0, SetStopped), OfClient(0, UnlockStop), OfClient(0, Broadcast)], r, q);
  }

  lemma LockStopLeads(p: Pool, q: Pool)
    requires p.owner.Free? && p.clients != [] && p.clients[0].WantStop?
    requires q == p.(started := false, clients := p.clients[0 := Joining(0)], workers := WakeAll(p.workers))
    ensures Leads(p, [OfClient(0, LockStop), OfClient(0, SetStopped), OfClient(0, UnlockStop), OfClient(0, Broadcast)], q)
  {
    var r := p.(clients := p.clients[0 := Stopping], owner := ByClient(0));
    SetStoppedLeads(r, q);
    LeadsStep(p, OfClient(0, LockStop), [OfClient(0, SetStopped), OfClient(0, UnlockStop), OfClient(0, Broadcast)], r, q);
  }

  lemma SetStoppedLeads(p: Pool, q: Pool)
    requires p.clients != [] && p.clients[0].Stopping?
    requires q == p.(started := false, owner := Free, clients := p.clients[0 := Joining(0)], workers := WakeAll(p.workers))
    ensures Leads(p, [OfClient(0, SetStopped), OfClient(0, UnlockStop), OfClient(0, Broadcast)], q)
  {
    var r := p.(clients := p.clients[0 := StopSet], started := false);
    UnlockStopLeads(r, q);
    LeadsStep(p, OfClient(0, SetStopped), [OfClient(0, UnlockStop), OfClient(0, Broadcast)], r, q);
  }

  lemma UnlockStopLeads(p: Pool, q: Pool)
    requires p.clients != [] && p.clients[0].StopSet?
    requires q == p.(owner := Free, clients := p.clients[0 := Joining(0)], workers := WakeAll(p.workers))
    ensures Leads(p, [OfClient(0, UnlockStop), OfClient(0, Broadcast)], q)
  {
    var r := p.(clients := p.clients[0 := StopUnlocked], owner := Free);
    assert Leads(r, [OfClient(0, Broadcast)], q) by { LeadsStep(r, OfClient(0, Broadcast), [], q, q); }
    LeadsStep(p, OfClient(0, UnlockStop), [OfClient(0, Broadcast)], r, q);
  }

  /** The workers after a signal that unblocks `woken`. */
  function Awoken(ws: seq<Worker>, woken: set<nat>): seq<Worker> {
    seq(|ws|, i requires 0 <= i < |ws| => if i in woken then Woken else ws[i])
  }

  /** A signal unblocks parked workers only, at least one if there is any. */
  ghost predicate Signals(ws: seq<Worker>, woken: set<nat>) {
    (forall i :: i in woken ==> i < |ws| && ws[i].Parked?) && (SomeParked(ws) ==> woken != {})
  }

  /** `add_task` called while the mutex is free and run through: its task is at the end of the queue, the
      mutex is free again and the caller is back; of the parked workers those signalled are awake. */
  lemma AddTaskAppends(p: Pool, j: nat, t: Task, woken: set<nat>, q: Pool)
    requires p.owner.Free? && j < |p.clients| && p.clients[j].Outside? && Signals(p.workers, woken)
    requires q == p.(queue := p.queue + [t], added := p.added + [t], workers := Awoken(p.workers, woken))
    ensures Leads(p, [OfClient(j, CallAdd(t)), OfClient(j, LockAdd), OfClient(j, Push), OfClient(j, Signal(woken)),
                      OfClient(j, UnlockAdd)], q)
  {
    var r := p.(clients := p.clients[j := WantAdd(t)]);
    LockLeads(r, j, t, woken, q);
    LeadsStep(p, OfClient(j, CallAdd(t)),
              [OfClient(j, LockAdd), OfClient(j, Push), OfClient(j, Signal(woken)), OfClient(j, UnlockAdd)], r, q);
  }

  lemma LockLeads(p: Pool, j: nat, t: Task, woken: set<nat>, q: Pool)
    requires p.owner.Free? && j < |p.clients| && p.clients[j] == WantAdd(t) && Signals(p.workers, woken)
    requires q == p.(clients := p.clients[j := Outside], queue := p.queue + [t], added := p.added + [t],
                     workers := Awoken(p.workers, woken))
    ensures Leads(p, [OfClient(j, LockAdd), OfClient(j, Push), OfClient(j, Signal(woken)), OfClient(j, UnlockAdd)], q)
  {
    var r := p.(clients := p.clients[j := Adding(t)], owner := ByClient(j));
    PushLeads(r, j, t, woken, q);
    LeadsStep(p, OfClient(j, LockAdd), [OfClient(j, Push), OfClient(j, Signal(woken)), OfClient(j, UnlockAdd)], r, q);
  }

  lemma PushLeads(p: Pool, j: nat, t: Task, woken: set<nat>, q: Pool)
    requires j < |p.clients| && p.clients[j] == Adding(t) && Signals(p.workers, woken)
    requires q == p.(clients := p.clients[j := Outside], owner := Free, queue := p.queue + [t], added := p.added + [t],
                     workers := Awoken(p.workers, woken))
    ensures Leads(p, [OfClient(j, Push), OfClient(j, Signal(woken)), OfClient(j, UnlockAdd)], q)
  {
    var r := p.(clients := p.clients[j := Pushed], queue := p.queue + [t], added := p.added + [t]);
    SignalLeads(r, j, woken, q);
    LeadsStep(p, OfClient(j, Push), [OfClient(j, Signal(woken)), OfClient(j, UnlockAdd)], r, q);
  }

  lemma SignalLeads(p: Pool, j: nat, woken: set<nat>, q: Pool)
    requires j < |p.clients| && p.clients[j].Pushed? && Signals(p.workers, woken)
    requires q == p.(clients := p.clients[j := Outside], owner := Free, workers := Awoken(p.workers, woken))
    ensures Leads(p, [OfClient(j, Signal(woken)), OfClient(j, UnlockAdd)], q)
  {
    var r := p.(clients := p.clients[j := Signalled], workers := Awoken(p.workers, woken));
    assert Wake(p.workers, woken) == Awoken(p.workers, woken);
    assert Leads(r, [OfClient(j, UnlockAdd)], q) by { LeadsStep(r, OfClient(j, UnlockAdd), [], q, q); }
    LeadsStep(p, OfClient(j, Signal(woken)), [OfClient(j, UnlockAdd)], r, q);
  }

  lemma LeadsStep(p: Pool, s: Step, rest: seq<Step>, r: Pool, q: Pool)
    requires Can(p, s) && Do(p, s) == r && Leads(r, rest, q)
    ensures Leads(p, [s] + rest, q)
  {
    assert ([s] + rest)[0] == s && ([s] + rest)[1..] == rest;
  }

  /** The broadcasts between the joins find nobody parked. */
  lemma RebroadcastWakesNobody(p: Pool)
    requires Reachable(p) && p.clients != [] && Past(p.clients[0])
    ensures WakeAll(p.workers) == p.workers
  {
    ReachableInv(p);
  }

  /** A worker woken spuriously with nothing to do goes back to waiting: the pool is as before. */
  lemma SpuriousReparks(p: Pool, i: nat)
    requires p.started && p.queue == [] && p.owner.Free? && i < |p.workers| && p.workers[i].Parked?
    ensures Leads(p, [OfWorker(i, Spurious), OfWorker(i, Lock), OfWorker(i, Test)], p)
  {
    var a := p.(workers := p.workers[i := Woken]);
    var b := p.(workers := p.workers[i := Checking], owner := ByWorker(i));
    assert Leads(b, [OfWorker(i, Test)], p) by { LeadsStep(b, OfWorker(i, Test), [], p, p); }
    assert Leads(a, [OfWorker(i, Lock), OfWorker(i, Test)], p) by { LeadsStep(a, OfWorker(i, Lock), [OfWorker(i, Test)], b, p); }
    LeadsStep(p, OfWorker(i, Spurious), [OfWorker(i, Lock), OfWorker(i, Test)], a, p);
  }

  // ----- from the workers' steps to the tasks ended -----

  /** How often worker `i` ends a task. */
  function EndsBy(run: seq<Step>, i: nat): nat {
    if run == [] then 0 else (if run[0] == OfWorker(i, EndTask) then 1 else 0) + EndsBy(run[1..], i)
  }

  /** The tickets worker `i` took whose task has ended. */
  ghost function EndedOf(takers: seq<nat>, ended: seq<nat>, i: nat): set<nat> {
    set k: nat | k < |takers| && k < |ended| && takers[k] == i && ended[k] == 1
  }

  lemma EndsStep(p: Pool, s: Step, i: nat)
    requires TasksOK(p) && Can(p, s)
    ensures var q := Do(p, s);
            |EndedOf(q.takers, q.ended, i)| == |EndedOf(p.takers, p.ended, i)| + if s == OfWorker(i, EndTask) then 1 else 0
  {
    var q := Do(p, s);
    if s.OfWorker? && s.work.EndTask? {
      var k := p.workers[s.i].ticket;
      assert k < |p.takers| == |p.ended| && p.takers[k] == s.i && p.ended[k] == 0 by {
        assert HandOK(p, s.i) && TicketOK(p, k);
      }
      EndOne(p.takers, p.ended, i, k);
    } else if s.OfWorker? && s.work.Test? && p.started && p.queue != [] {
      TakeOne(p.takers, p.ended, i, s.i);
    } else {
      assert q.takers == p.takers && q.ended == p.ended;
    }
  }

  lemma EndOne(takers: seq<nat>, ended: seq<nat>, i: nat, k: nat)
    requires k < |takers| == |ended| && ended[k] == 0
    ensures |EndedOf(takers, ended[k := 1], i)| == |EndedOf(takers, ended, i)| + if takers[k] == i then 1 else 0
  {
    if takers[k] == i {
      assert EndedOf(takers, ended[k := 1], i) == EndedOf(takers, ended, i) + {k};
    } else {
      assert EndedOf(takers, ended[k := 1], i) == EndedOf(takers, ended, i);
    }
  }

  lemma TakeOne(takers: seq<nat>, ended: seq<nat>, i: nat, taker: nat)
    requires |takers| == |ended|
    ensures EndedOf(takers + [taker], ended + [0], i) == EndedOf(takers, ended, i)
  {
  }

  lemma {:induction false} EndsAlongRun(p: Pool, run: seq<Step>, q: Pool, i: nat)
    requires Inv(p) && Leads(p, run, q)
    ensures |EndedOf(q.takers, q.ended, i)| == |EndedOf(p.takers, p.ended, i)| + EndsBy(run, i)
    decreases run
  {
    if run == [] {
    } else {
      EndsStep(p, run[0], i);
      InvKept(p, run[0]);
      EndsAlongRun(Do(p, run[0]), run[1..], q, i);
    }
  }

  /** Over every run from the start, worker `i` has ended a task once for each ticket it took whose task
      is recorded as ended. */
  lemma EndsMatch(size: nat, nClients: nat, run: seq<Step>, q: Pool, i: nat)
    requires Leads(Init(size, nClients), run, q)
    ensures |EndedOf(q.takers, q.ended, i)| == EndsBy(run, i)
  {
    EndsAlongRun(Init(size, nClients), run, q, i);
    assert EndedOf([], [], i) == {};
  }

  // ----- workers left alone -----

  /** The steps worker `w` still takes before it parks, if it pops nothing more. */
  function Work(w: Worker): nat {
    match w
    case Parked => 0
    case Checking => 1
    case Wanting => 2
    case Woken => 2
    case Running(_, _) => 3
    case Holding(_, _) => 4
    case Leaving => 0
    case Exited => 0
  }

  /** The steps all workers still take, four of them for each queued task. */
  function Load(p: Pool): nat { 4 * |p.queue| + Sum(p.workers, Work) }

  /** Only workers step, and none wakes spuriously. */
  predicate WorkersOnly(run: seq<Step>) {
    forall k :: 0 <= k < |run| ==> run[k].OfWorker? && !run[k].work.Spurious?
  }

  lemma LoadFalls(p: Pool, i: nat, a: WorkerAct)
    requires Inv(p) && p.started && i < |p.workers| && WorkerCan(p, p.workers[i], a) && !a.Spurious?
    ensures Load(WorkerDo(p, i, a)) == Load(p) - 1
  {
    SumUpdate(p.workers, i, WorkerDo(p, i, a).workers[i], Work);
  }

  /** While clients stand still outside the locked sections of a started pool, the workers take exactly
      `Load` steps: as long as some are left one of them can be taken, and then every worker is parked,
      the queue is empty and every added task has run. */
  lemma {:induction false} WorkersSettle(p: Pool, run: seq<Step>, q: Pool)
    requires Inv(p) && p.started && p.workers != [] && !p.owner.ByClient? && Leads(p, run, q) && WorkersOnly(run)
    ensures |run| + Load(q) == Load(p)
    ensures Load(q) > 0 ==> exists s :: Can(q, s) && s.OfWorker? && !s.work.Spurious?
    ensures Load(q) == 0 ==> q.queue == [] && (forall i :: 0 <= i < |q.workers| ==> q.workers[i].Parked?) && AllRan(q)
    ensures q.clients == p.clients && q.added == p.added
    decreases run
  {
    if run == [] {
      if Load(q) > 0 { SomeWork(q); } else { AtRest(q); }
    } else {
      assert run[0].OfWorker? && !run[0].work.Spurious?;
      LoadFalls(p, run[0].i, run[0].work);
      InvKept(p, run[0]);
      WorkersSettle(Do(p, run[0]), run[1..], q);
    }
  }

  lemma {:induction false} NoWork(ws: seq<Worker>)
    ensures Sum(ws, Work) == 0 <==> forall i :: 0 <= i < |ws| ==> Work(ws[i]) == 0
  {
    if ws == [] {
    } else {
      NoWork(ws[..|ws| - 1]);
      assert ws == ws[..|ws| - 1] + [ws[|ws| - 1]];
    }
  }

  lemma SomeWork(p: Pool)
    requires Inv(p) && p.started && p.workers != [] && !p.owner.ByClient? && Load(p) > 0
    ensures exists s :: Can(p, s) && s.OfWorker? && !s.work.Spurious?
  {
    if p.owner.ByWorker? {
      var k := p.owner.worker;
      assert WorkerHolds(p.workers[k]);
      WorkerCanWork(p, k, if p.workers[k].Checking? then Test else Unlock);
    } else {
      var i := SomeAwake(p);
      assert !WorkerHolds(p.workers[i]);
      WorkerCanWork(p, i, if p.workers[i].Running? then EndTask else Lock);
    }
  }

  lemma WorkerCanWork(p: Pool, i: nat, a: WorkerAct)
    requires TasksOK(p) && i < |p.workers|
    requires match a case Lock => (p.workers[i].Wanting? || p.workers[i].Woken?) && p.owner.Free?
                     case Test => p.workers[i].Checking?
                     case Unlock => p.workers[i].Leaving? || p.workers[i].Holding?
                     case EndTask => p.workers[i].Running?
                     case Spurious => false
    ensures exists s :: Can(p, s) && s.OfWorker? && !s.work.Spurious?
  {
    WorkerCanMove(p, i, a);
    assert Can(p, OfWorker(i, a));
  }

  lemma SomeAwake(p: Pool) returns (i: nat)
    requires Inv(p) && p.started && p.workers != [] && !p.owner.ByClient? && Load(p) > 0
    ensures i < |p.workers| && !p.workers[i].Parked?
  {
    if forall i :: 0 <= i < |p.workers| ==> p.workers[i].Parked? {
      NoWork(p.workers);
      NoIdle(p.workers);
    }
    i :| i < |p.workers| && !p.workers[i].Parked?;
  }

  lemma AtRest(p: Pool)
    requires Inv(p) && p.started && Load(p) == 0
    ensures p.queue == [] && (forall i :: 0 <= i < |p.workers| ==> p.workers[i].Parked?) && AllRan(p)
  {
    NoWork(p.workers);
    forall k: nat | k < |p.takers| ensures p.begun[k] == p.ended[k] == 1 {
      assert TicketOK(p, k);
    }
  }
}
