/** The worker pool as a transition system. Every step is one atomic action of one thread; the
    condition variable follows IEEE Std 1003.1-2017, pthread_cond_wait: waiting releases the mutex
    atomically, a waiter re-acquires it before it goes on, spurious wakeups happen at any time, and a
    signal unblocks at least one waiter if there is one. */
module ThreadPoolModule {
  type Task = nat

  /** Where a worker stands in `execute_thread`. A ticket numbers the pops. */
  datatype Worker =
    | Wanting
    | Checking
    | Parked
    | Woken
    | Holding(ticket: nat, task: Task)
    | Running(ticket: nat, task: Task)
    | Leaving
    | Exited

  /** Where a client stands in `add_task` or, for client 0, in starting and destroying the pool. */
  datatype Client =
    | Outside
    | WantAdd(task: Task)
    | Adding(task: Task)
    | Pushed
    | Signalled
    | Starting
    | Creating
    | WantStop
    | Stopping
    | StopSet
    | StopUnlocked
    | Joining(next: nat)
    | Joined(last: nat)
    | Done

  datatype Owner = Free | ByWorker(worker: nat) | ByClient(client: nat)

  /** The pool, and its history: the tasks added, who popped each ticket, and how often the task of
      each ticket was begun and ended. */
  datatype Pool = Pool(size: nat, started: bool, owner: Owner, queue: seq<Task>,
                       workers: seq<Worker>, clients: seq<Client>,
                       added: seq<Task>, takers: seq<nat>, begun: seq<nat>, ended: seq<nat>)

  datatype WorkerAct = Lock | Test | Unlock | EndTask | Spurious

  datatype ClientAct =
    | Start
    | Create
    | Created
    | CallAdd(task: Task)
    | LockAdd
    | Push
    | Signal(woken: set<nat>)
    | UnlockAdd
    | CallStop
    | LockStop
    | SetStopped
    | UnlockStop
    | Broadcast
    | Join
    | Rebroadcast
    | Return

  datatype Step = OfWorker(i: nat, work: WorkerAct) | OfClient(j: nat, act: ClientAct)

  function Init(size: nat, nClients: nat): Pool {
    Pool(size, false, Free, [], [], [Starting] + seq(nClients, _ => Outside), [], [], [], [])
  }

  ghost predicate SomeParked(ws: seq<Worker>) {
    exists i :: 0 <= i < |ws| && ws[i].Parked?
  }

  function Wake(ws: seq<Worker>, woken: set<nat>): (r: seq<Worker>)
    ensures |r| == |ws|
  {
    seq(|ws|, i requires 0 <= i < |ws| => if i in woken && ws[i].Parked? then Woken else ws[i])
  }

  function WakeAll(ws: seq<Worker>): (r: seq<Worker>)
    ensures |r| == |ws|
  {
    seq(|ws|, i requires 0 <= i < |ws| => if ws[i].Parked? then Woken else ws[i])
  }

  ghost predicate Can(p: Pool, s: Step) {
    match s
    case OfWorker(i, a) => i < |p.workers| && WorkerCan(p, p.workers[i], a)
    case OfClient(j, a) => j < |p.clients| && ClientCan(p, j, p.clients[j], a)
  }

  ghost predicate WorkerCan(p: Pool, w: Worker, a: WorkerAct) {
    match a
    case Lock => (w.Wanting? || w.Woken?) && p.owner.Free?
    case Test => w.Checking?
    case Unlock => w.Leaving? || (w.Holding? && w.ticket < |p.begun|)
    case EndTask => w.Running? && w.ticket < |p.ended|
    case Spurious => w.Parked?
  }

  ghost predicate ClientCan(p: Pool, j: nat, c: Client, a: ClientAct) {
    match a
    case Start => c.Starting?
    case Create => c.Creating? && |p.workers| < p.size
    case Created => c.Creating? && |p.workers| == p.size
    case CallAdd(_) => c.Outside?
    case LockAdd => c.WantAdd? && p.owner.Free?
    case Push => c.Adding?
    case Signal(woken) => c.Pushed? && (forall i :: i in woken ==> i < |p.workers| && p.workers[i].Parked?)
                          && (SomeParked(p.workers) ==> woken != {})
    case UnlockAdd => c.Signalled?
    case CallStop => j == 0 && c.Outside?
    case LockStop => c.WantStop? && p.owner.Free?
    case SetStopped => c.Stopping?
    case UnlockStop => c.StopSet?
    case Broadcast => c.StopUnlocked?
    case Join => c.Joining? && c.next < |p.workers| && p.workers[c.next].Exited?
    case Rebroadcast => c.Joined?
    case Return => c.Joining? && c.next == p.size
  }

  ghost function Do(p: Pool, s: Step): Pool
    requires Can(p, s)
  {
    match s
    case OfWorker(i, a) => WorkerDo(p, i, a)
    case OfClient(j, a) => ClientDo(p, j, a)
  }

  function WorkerAt(p: Pool, i: nat, w: Worker, owner: Owner): Pool
    requires i < |p.workers|
  {
    p.(workers := p.workers[i := w], owner := owner)
  }

  /** `execute_thread`. Under the mutex: park on an empty queue, leave a stopped pool, else pop. */
  ghost function WorkerDo(p: Pool, i: nat, a: WorkerAct): Pool
    requires i < |p.workers| && WorkerCan(p, p.workers[i], a)
  {
    var w := p.workers[i];
    match a
    case Lock => WorkerAt(p, i, Checking, ByWorker(i))
    case Test =>
      if p.started && p.queue == [] then WorkerAt(p, i, Parked, Free)
      else if !p.started then WorkerAt(p, i, Leaving, p.owner)
      else WorkerAt(p, i, Holding(|p.takers|, p.queue[0]), p.owner).(
             queue := p.queue[1..], takers := p.takers + [i], begun := p.begun + [0], ended := p.ended + [0])
    case Unlock =>
      if w.Leaving? then WorkerAt(p, i, Exited, Free)
      else WorkerAt(p, i, Running(w.ticket, w.task), Free).(begun := p.begun[w.ticket := p.begun[w.ticket] + 1])
    case EndTask => WorkerAt(p, i, Wanting, p.owner).(ended := p.ended[w.ticket := p.ended[w.ticket] + 1])
    case Spurious => WorkerAt(p, i, Woken, p.owner)
  }

  function ClientAt(p: Pool, j: nat, c: Client, owner: Owner): Pool
    requires j < |p.clients|
  {
    p.(clients := p.clients[j := c], owner := owner)
  }

  /** `initialize_threadpool`, `add_task` and `destroy_threadpool`. */
  ghost function ClientDo(p: Pool, j: nat, a: ClientAct): (q: Pool)
    requires j < |p.clients| && ClientCan(p, j, p.clients[j], a)
    ensures |q.clients| == |p.clients|
  {
    var c := p.clients[j];
    match a
    case Start => ClientAt(p, j, Creating, p.owner).(started := true)
    case Create => p.(workers := p.workers + [Wanting])
    case Created => ClientAt(p, j, Outside, p.owner)
    case CallAdd(t) => ClientAt(p, j, WantAdd(t), p.owner)
    case LockAdd => ClientAt(p, j, Adding(c.task), ByClient(j))
    case Push => ClientAt(p, j, Pushed, p.owner).(queue := p.queue + [c.task], added := p.added + [c.task])
    case Signal(woken) => ClientAt(p, j, Signalled, p.owner).(workers := Wake(p.workers, woken))
    case UnlockAdd => ClientAt(p, j, Outside, Free)
    case CallStop => ClientAt(p, j, WantStop, p.owner)
    case LockStop => ClientAt(p, j, Stopping, ByClient(j))
    case SetStopped => ClientAt(p, j, StopSet, p.owner).(started := false)
    case UnlockStop => ClientAt(p, j, StopUnlocked, Free)
    case Broadcast => ClientAt(p, j, Joining(0), p.owner).(workers := WakeAll(p.workers))
    case Join => ClientAt(p, j, Joined(c.next), p.owner)
    case Rebroadcast => ClientAt(p, j, Joining(c.last + 1), p.owner).(workers := WakeAll(p.workers))
    case Return => ClientAt(p, j, Done, p.owner)
  }

  // ----- runs -----

  ghost predicate Leads(p: Pool, run: seq<Step>, q: Pool)
    decreases run
  {
    if run == [] then p == q
    else Can(p, run[0]) && Leads(Do(p, run[0]), run[1..], q)
  }

  ghost predicate Reachable(q: Pool) {
    exists size: nat, nClients: nat, run: seq<Step> :: Leads(Init(size, nClients), run, q)
  }

  // ----- the invariant -----

  predicate WorkerHolds(w: Worker) { w.Checking? || w.Holding? || w.Leaving? }

  predicate ClientHolds(c: Client) { c.Adding? || c.Pushed? || c.Signalled? || c.Stopping? || c.StopSet? }

  /** The mutex is held by exactly the thread whose program counter says so. */
  ghost predicate LockOK(p: Pool) {
    && (forall i: nat :: i < |p.workers| ==> (WorkerHolds(p.workers[i]) <==> p.owner == ByWorker(i)))
    && (forall j: nat :: j < |p.clients| ==> (ClientHolds(p.clients[j]) <==> p.owner == ByClient(j)))
    && (p.owner.ByWorker? ==> p.owner.worker < |p.workers|)
    && (p.owner.ByClient? ==> p.owner.client < |p.clients|)
  }

  predicate Adder(c: Client) { c.Outside? || c.WantAdd? || c.Adding? || c.Pushed? || c.Signalled? }

  /** The broadcast of `destroy_threadpool` has been sent. */
  predicate Past(c: Client) { c.Joining? || c.Joined? || c.Done? }

  /** The pool state says stopped for good. */
  predicate Down(c: Client) { c.StopSet? || c.StopUnlocked? || Past(c) }

  /** The pool state and the number of workers follow client 0; only client 0 starts and stops. */
  ghost predicate MainOK(p: Pool) {
    && |p.clients| > 0
    && (forall j :: 0 < j < |p.clients| ==> Adder(p.clients[j]))
    && (p.started <==> !p.clients[0].Starting? && !Down(p.clients[0]))
    && (p.clients[0].Starting? ==> p.workers == [])
    && (if p.clients[0].Starting? || p.clients[0].Creating? then |p.workers| <= p.size else |p.workers| == p.size)
  }

  /** The popped tasks are the first added, the queue the rest. */
  ghost predicate QueueOK(p: Pool) {
    && |p.takers| == |p.begun| == |p.ended| <= |p.added|
    && p.queue == p.added[|p.takers|..]
  }

  predicate InHand(w: Worker) { w.Holding? || w.Running? }

  /** Worker i has in hand only a ticket it took, with the task added at that place. */
  ghost predicate HandOK(p: Pool, i: nat)
    requires i < |p.workers| && |p.takers| <= |p.added|
  {
    var w := p.workers[i];
    InHand(w) ==> w.ticket < |p.takers| && p.takers[w.ticket] == i && w.task == p.added[w.ticket]
  }

  /** Ticket k has been begun once, save while its taker still holds the mutex with it, and ended
      once, save while its taker has it in hand. */
  ghost predicate TicketOK(p: Pool, k: nat)
    requires k < |p.takers| == |p.begun| == |p.ended|
  {
    && p.takers[k] < |p.workers|
    && var w := p.workers[p.takers[k]];
    && p.begun[k] == (if w.Holding? && w.ticket == k then 0 else 1)
    && p.ended[k] == (if InHand(w) && w.ticket == k then 0 else 1)
  }

  ghost predicate TasksOK(p: Pool) {
    && QueueOK(p)
    && (forall i: nat :: i < |p.workers| ==> HandOK(p, i))
    && (forall k: nat :: k < |p.takers| ==> TicketOK(p, k))
  }

  function Sum(ws: seq<Worker>, weight: Worker -> nat): nat {
    if ws == [] then 0 else Sum(ws[..|ws| - 1], weight) + weight(ws[|ws| - 1])
  }

  function IdleWeight(w: Worker): nat { if w.Wanting? || w.Woken? || w.Checking? then 1 else 0 }

  /** The idle workers that are not parked: each will look at the queue before it parks. */
  function Idle(ws: seq<Worker>): nat { Sum(ws, IdleWeight) }

  /** A client is between its push and its signal. */
  predicate Pushing(p: Pool) {
    p.owner.ByClient? && p.owner.client < |p.clients| && p.clients[p.owner.client].Pushed?
  }

  /** No wakeup is lost: while a worker is parked, every queued task has an idle worker awake for it,
      or the signal for it is about to be sent. */
  ghost predicate WakeOK(p: Pool) {
    p.started && SomeParked(p.workers) ==> |p.queue| <= Idle(p.workers) + if Pushing(p) then 1 else 0
  }

  ghost predicate AllExited(ws: seq<Worker>) {
    forall i :: 0 <= i < |ws| ==> ws[i].Exited?
  }

  /** Workers leave only a stopped pool; after the broadcast none is parked; joined workers have exited. */
  ghost predicate StopOK(p: Pool)
    requires |p.clients| > 0
  {
    var c := p.clients[0];
    && (p.started ==> forall i :: 0 <= i < |p.workers| ==> !p.workers[i].Leaving? && !p.workers[i].Exited?)
    && (Past(c) ==> !SomeParked(p.workers))
    && (c.Joining? ==> c.next <= |p.workers| && AllExited(p.workers[..c.next]))
    && (c.Joined? ==> c.last < |p.workers| && AllExited(p.workers[..c.last + 1]))
    && (c.Done? ==> AllExited(p.workers))
  }

  ghost predicate Inv(p: Pool) {
    LockOK(p) && MainOK(p) && TasksOK(p) && WakeOK(p) && StopOK(p)
  }

  // ----- sums over the workers -----

  lemma {:induction false} SumUpdate(ws: seq<Worker>, i: nat, w: Worker, weight: Worker -> nat)
    requires i < |ws|
    ensures Sum(ws[i := w], weight) + weight(ws[i]) == Sum(ws, weight) + weight(w)
  {
    var n := |ws| - 1;
    if i == n {
      assert ws[i := w][..n] == ws[..n];
    } else {
      SumUpdate(ws[..n], i, w, weight);
      assert ws[i := w][..n] == ws[..n][i := w];
    }
  }

  lemma SumSnoc(ws: seq<Worker>, w: Worker, weight: Worker -> nat)
    ensures Sum(ws + [w], weight) == Sum(ws, weight) + weight(w)
  {
    assert (ws + [w])[..|ws|] == ws;
  }

  lemma {:induction false} SumGrows(a: seq<Worker>, b: seq<Worker>, weight: Worker -> nat)
    requires |a| == |b| && forall i :: 0 <= i < |a| ==> weight(a[i]) <= weight(b[i])
    ensures Sum(a, weight) <= Sum(b, weight)
    ensures (exists i :: 0 <= i < |a| && weight(a[i]) < weight(b[i])) ==> Sum(a, weight) < Sum(b, weight)
  {
    if a == [] {
    } else {
      SumGrows(a[..|a| - 1], b[..|b| - 1], weight);
    }
  }
}
