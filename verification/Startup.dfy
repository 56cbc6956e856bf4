/** The start of the controller process. One thread fills the store, rebuilds the snapshots and closes the ready
    channel; any number of reconcile calls may have begun meanwhile, and each first receives on the channel.
    Every thread is described by its own program counter and what it asks of the channel. */
module Startup {
  import opened Basics
  import opened StoreModel
  import opened BulkLoad
  import VS = VirtualServices
  import DI = DomainIndex

  /** Where the startup thread is. */
  datatype Starter = Filling | Rebuilding | Closing | Serving

  /** Where a reconcile call is: before or after the receive it begins with. */
  datatype Worker = Receiving | Reconciling

  /** `closed` is the ready channel: nothing is ever sent on it, so a receive returns only once it is closed. */
  datatype Process = Process(starter: Starter, workers: map<nat, Worker>, closed: bool, store: State)

  const INITIAL := Process(Filling, map[], false, EMPTY)

  datatype Event =
    | FillStore(lists: Lists)  // the lists have arrived and are written under the lock
    | RebuildWrite(op: Op)  // RebuildSnapshots stores a status or the node-domain index
    | RebuildDone
    | CloseReady
    | Begin(id: nat)
    | Receive(id: nat)
    | Reconcile(id: nat, op: Op)
    | Finish(id: nat)

  /** The API server lists each key once. */
  ghost predicate KeyUnique(lists: Lists) {
    FreshServices(EMPTY.services, lists.services) && FreshClusters(EMPTY.clusters, lists.clusters)
  }

  /** What each thread may do, by its own program counter and the channel. */
  ghost predicate Enabled(p: Process, e: Event) {
    match e
    case FillStore(lists) => p.starter.Filling? && KeyUnique(lists)
    case RebuildWrite(op) => p.starter.Rebuilding? && (op.SetStatus? || op.ReplaceNodeDomains?)
    case RebuildDone => p.starter.Rebuilding?
    case CloseReady => p.starter.Closing?
    case Begin(id) => id !in p.workers
    case Receive(id) => id in p.workers && p.workers[id].Receiving? && p.closed
    case Reconcile(id, _) => id in p.workers && p.workers[id].Reconciling?
    case Finish(id) => id in p.workers && p.workers[id].Reconciling?
  }

  function Happen(p: Process, e: Event): Process {
    match e
    case FillStore(lists) => p.(starter := Rebuilding, store := Fill(p.store, lists))
    case RebuildWrite(op) => p.(store := Apply(p.store, op))
    case RebuildDone => p.(starter := Closing)
    case CloseReady => p.(starter := Serving, closed := true)
    case Begin(id) => p.(workers := p.workers[id := Receiving])
    case Receive(id) => p.(workers := p.workers[id := Reconciling])
    case Reconcile(_, op) => p.(store := Apply(p.store, op))
    case Finish(id) => p.(workers := p.workers - {id})
  }

  /** The process after the events, if each was enabled when it happened. */
  ghost function ProcessRun(events: seq<Event>): Option<Process> {
    if events == [] then Some(INITIAL)
    else match ProcessRun(events[..|events| - 1])
      case None => None
      case Some(p) => if Enabled(p, events[|events| - 1]) then Some(Happen(p, events[|events| - 1])) else None
  }

  // ----- What the channel guarantees -----

  /** The channel is closed exactly once the startup thread is past closing it; nobody reconciles before; and
      until the store is filled nobody has touched it. */
  ghost predicate GateInv(p: Process) {
    && (p.closed <==> p.starter.Serving?)
    && (forall id | id in p.workers :: p.workers[id].Reconciling? ==> p.closed)
    && (p.starter.Filling? ==> p.store == EMPTY)
  }

  lemma GateStep(p: Process, e: Event)
    requires GateInv(p) && Enabled(p, e)
    ensures GateInv(Happen(p, e))
  {}

  lemma EmptyInv()
    ensures Inv(EMPTY)
  {
    assert DI.AllDomains(map[]) == {};
  }

  /** In every interleaving of the startup thread and the reconcile calls: the bulk load meets an empty store,
      the channel is not closed twice, nobody reconciles before it is closed, and in every reachable state all
      indexes are sound and the domain index is exact. */
  lemma {:induction false} ProcessInv(events: seq<Event>)
    requires ProcessRun(events).Some?
    ensures var p := ProcessRun(events).value;
      && Inv(p.store)
      && (p.starter.Filling? ==> p.store == EMPTY)
      && (p.starter.Closing? ==> !p.closed)
      && (forall id | id in p.workers :: p.workers[id].Reconciling? ==> p.closed)
    ensures GateInv(ProcessRun(events).value)
  {
    if events == [] {
      EmptyInv();
    } else {
      ProcessInv(events[..|events| - 1]);
      var p, e := ProcessRun(events[..|events| - 1]).value, events[|events| - 1];
      GateStep(p, e);
      match e
      case FillStore(lists) => FillIsReplay(p.store, lists);
      case RebuildWrite(op) => StepInv(p.store, op);
      case Reconcile(_, op) => StepInv(p.store, op);
      case _ =>
    }
  }

  /** The operations an event amounts to, the bulk load as setting every listed item in turn. */
  function OpsOf(e: Event): seq<Op> {
    match e
    case FillStore(lists) => Replay(lists)
    case RebuildWrite(op) => [op]
    case Reconcile(_, op) => [op]
    case _ => []
  }

  function History(events: seq<Event>): seq<Op> {
    if events == [] then [] else History(events[..|events| - 1]) + OpsOf(events[|events| - 1])
  }

  /** Every reachable store is what the ordinary operations of the history, one after the other, make of an
      empty store: neither the bulk load nor the concurrent start leaves a trace. */
  lemma {:induction false} StoreIsHistory(events: seq<Event>)
    requires ProcessRun(events).Some?
    ensures ProcessRun(events).value.store == Run(EMPTY, History(events))
  {
    if events != [] {
      var init, e := events[..|events| - 1], events[|events| - 1];
      StoreIsHistory(init);
      ProcessInv(init);
      var p := ProcessRun(init).value;
      RunConcat(EMPTY, History(init), OpsOf(e));
      match e
      case FillStore(lists) => FillIsReplay(p.store, lists);
      case RebuildWrite(op) => OneOp(p.store, op);
      case Reconcile(_, op) => OneOp(p.store, op);
      case _ =>
    }
  }

  lemma OneOp(s: State, op: Op)
    ensures Run(s, [op]) == Apply(s, op)
  {
    assert [op] == [] + [op];
    RunAppend(s, [], op);
  }

  /** Why the gate matters: had a service been set before the bulk load and been recreated since, the load would
      leave the old UID pointing at a service that is not stored. */
  lemma UngatedFillBreaksIndex(v: VS.VirtualService, w: VS.VirtualService)
    requires v.Key() == w.Key() && v.uid != w.uid
    ensures !Inv(Fill(Apply(EMPTY, SetVirtualService(v)), Lists([w], [], [])))
  {
    var s := Apply(EMPTY, SetVirtualService(v));
    var t := Fill(s, Lists([w], [], []));
    assert [w][..0] == [];
    assert LoadServices(s.services, []) == s.services;
    assert t.services == LoadService(s.services, w.Normalize());
    assert w.Normalize().uid == w.uid && w.Normalize().Key() == w.Key();
    assert v.uid in t.services.byUid && t.services.byUid[v.uid] == v;
    assert t.services.stored[v.Key()] == w.Normalize() != v;
  }
}
