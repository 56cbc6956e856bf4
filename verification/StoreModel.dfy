/** The store on values: every operation as a function of the whole state, and what holds in every run. */
module StoreModel {
  import opened Basics
  import KeyedIndex
  import VS = VirtualServices
  import CL = Clusters
  import DI = DomainIndex
  import NodeDomains
  import Secrets

  datatype State = State(services: VS.ServiceState, clusters: CL.ClusterState, secrets: DI.SecretState, nodes: NodeDomains.Domains)

  const EMPTY := State(VS.ServiceState(map[], map[], map[], map[]), CL.ClusterState(map[], map[], map[]),
                       DI.SecretState(map[], map[]), map[])

  datatype Op =
    | SetVirtualService(v: VS.VirtualService)
    | DeleteVirtualService(nn: NamespacedName)
    | SetStatus(nn: NamespacedName, status: VS.Status)
    | DeleteStatus(nn: NamespacedName)
    | SetCluster(c: CL.Cluster)
    | DeleteCluster(nn: NamespacedName)
    | SetSecret(secret: Secrets.Secret)
    | DeleteSecret(nn: NamespacedName)
    | ReplaceNodeDomains(idx: NodeDomains.Domains)

  function Apply(s: State, op: Op): State {
    match op
    case SetVirtualService(v) => s.(services := VS.SetService(s.services, v))
    case DeleteVirtualService(nn) => s.(services := VS.DeleteService(s.services, nn))
    case SetStatus(nn, status) => s.(services := s.services.(statuses := s.services.statuses[nn := status]))
    case DeleteStatus(nn) => s.(services := s.services.(statuses := s.services.statuses - {nn}))
    case SetCluster(c) => s.(clusters := CL.SetCluster(s.clusters, c))
    case DeleteCluster(nn) => s.(clusters := CL.DeleteCluster(s.clusters, nn))
    case SetSecret(secret) => s.(secrets := DI.SetSecret(s.secrets, secret))
    case DeleteSecret(nn) => s.(secrets := DI.DeleteSecret(s.secrets, nn))
    case ReplaceNodeDomains(idx) => s.(nodes := idx)
  }

  function Run(s: State, ops: seq<Op>): State {
    if ops == [] then s else Apply(Run(s, ops[..|ops| - 1]), ops[|ops| - 1])
  }

  // ----- Invariants of every run -----

  /** All indexes are sound, and the domain index is the one rebuilt from the stored secrets. */
  ghost predicate Inv(s: State) {
    VS.ServicesSound(s.services) && CL.ClustersSound(s.clusters) && DI.SecretsExact(s.secrets)
  }

  lemma StepInv(s: State, op: Op)
    requires Inv(s)
    ensures Inv(Apply(s, op))
  {
    match op
    case SetVirtualService(v) => VS.ServiceStepsSound(s.services, v, v.Key());
    case DeleteVirtualService(nn) => VS.ServiceStepsSound(s.services, VS.VirtualService("", "", "", None, None, ""), nn);
    case SetCluster(c) => CL.ClusterStepsSound(s.clusters, c, c.Key());
    case DeleteCluster(nn) => CL.ClusterStepsSound(s.clusters, CL.Cluster("", "", "", None, false), nn);
    case SetSecret(secret) => DI.SecretStepsExact(s.secrets, secret, secret.Key());
    case DeleteSecret(nn) => DI.SecretStepsExact(s.secrets, Secrets.Secret("", "", None, None, ""), nn);
    case _ =>
  }

  /** In every run all indexes stay sound and the incrementally kept domain index equals the one
      rebuilt from scratch. */
  lemma {:induction false} RunInv(s: State, ops: seq<Op>)
    requires Inv(s)
    ensures Inv(Run(s, ops))
  {
    if ops != [] {
      RunInv(s, ops[..|ops| - 1]);
      StepInv(Run(s, ops[..|ops| - 1]), ops[|ops| - 1]);
    }
  }

  // ----- Completeness -----

  datatype Which = ServiceUid | ServiceTemplate | ClusterUid | ClusterSpec

  /** The named index finds everything a scan of the primary map finds. */
  ghost predicate IsComplete(which: Which, s: State) {
    match which
    case ServiceUid => KeyedIndex.Complete(s.services.UidIndex(), VS.UID_KEYS)
    case ServiceTemplate => VS.ListsComplete(s.services.byTemplate, s.services.stored)
    case ClusterUid => KeyedIndex.Complete(s.clusters.UidIndex(), CL.UID_KEYS)
    case ClusterSpec => KeyedIndex.Complete(s.clusters.SpecIndex(), CL.SPEC_KEYS)
  }

  /** The operation sets no resource whose secondary key another stored resource already holds. */
  ghost predicate IsFree(which: Which, s: State, op: Op) {
    match (which, op)
    case (ServiceUid, SetVirtualService(v)) => KeyedIndex.Free(s.services.stored, v, VS.UID_KEYS)
    case (ServiceTemplate, SetVirtualService(v)) => VS.TemplateFree(s.services.stored, v)
    case (ClusterUid, SetCluster(c)) => KeyedIndex.Free(s.clusters.stored, c, CL.UID_KEYS)
    case (ClusterSpec, SetCluster(c)) => KeyedIndex.Free(s.clusters.stored, c, CL.SPEC_KEYS)
    case _ => true
  }

  lemma StepCompleteIffFree(which: Which, s: State, op: Op)
    requires Inv(s) && IsComplete(which, s)
    ensures IsComplete(which, Apply(s, op)) <==> IsFree(which, s, op)
  {
    var v := if op.SetVirtualService? then op.v else VS.VirtualService("", "", "", None, None, "");
    var c := if op.SetCluster? then op.c else CL.Cluster("", "", "", None, false);
    var nn := if op.DeleteVirtualService? || op.DeleteCluster? then op.nn else NamespacedName("", "");
    match which
    case ServiceUid => VS.UidStepComplete(s.services, v, nn);
    case ServiceTemplate => VS.TemplateStepComplete(s.services, v, nn);
    case ClusterUid => CL.UidStepComplete(s.clusters, c, nn);
    case ClusterSpec => CL.SpecStepComplete(s.clusters, c, nn);
  }

  ghost predicate AlwaysComplete(which: Which, s: State, ops: seq<Op>) {
    IsComplete(which, Run(s, ops)) && (ops != [] ==> AlwaysComplete(which, s, ops[..|ops| - 1]))
  }

  ghost predicate AlwaysFree(which: Which, s: State, ops: seq<Op>) {
    ops == [] ||
    var init, last := ops[..|ops| - 1], ops[|ops| - 1];
    AlwaysFree(which, s, init) && IsFree(which, Run(s, init), last)
  }

  /** An index stays complete through a run exactly when no operation of the run sets a resource whose
      secondary key another stored resource holds at that moment. */
  lemma {:induction false} RunCompleteIffFree(which: Which, s: State, ops: seq<Op>)
    requires Inv(s) && IsComplete(which, s)
    ensures AlwaysComplete(which, s, ops) <==> AlwaysFree(which, s, ops)
  {
    if ops != [] {
      var init, last := ops[..|ops| - 1], ops[|ops| - 1];
      RunCompleteIffFree(which, s, init);
      RunInv(s, init);
      if IsComplete(which, Run(s, init)) {
        StepCompleteIffFree(which, Run(s, init), last);
      }
    }
  }

  /** Two services that share a UID: deleting the later one leaves the earlier one stored but not found. */
  lemma SharedUidLosesService(v: VS.VirtualService, w: VS.VirtualService)
    requires v.uid == w.uid && v.Key() != w.Key()
    ensures var s := Apply(Apply(Apply(EMPTY, SetVirtualService(v)), SetVirtualService(w)), DeleteVirtualService(w.Key()));
      v.Key() in s.services.stored && v.uid !in s.services.byUid
  {}

  lemma RunAppend(s: State, ops: seq<Op>, op: Op)
    ensures Run(s, ops + [op]) == Apply(Run(s, ops), op)
  {
    assert (ops + [op])[..|ops|] == ops;
  }

  lemma {:induction false} RunConcat(s: State, ops: seq<Op>, more: seq<Op>)
    ensures Run(s, ops + more) == Run(Run(s, ops), more)
  {
    if more == [] {
      assert ops + more == ops;
    } else {
      var init, last := more[..|more| - 1], more[|more| - 1];
      RunConcat(s, ops, init);
      assert ops + more == (ops + init) + [last];
      RunAppend(s, ops + init, last);
    }
  }

  // ----- Statuses -----

  /** Deleting a service resets its status exactly when the service is stored (or had none). */
  lemma DeleteResetsStatus(s: State, nn: NamespacedName)
    ensures Apply(s, DeleteVirtualService(nn)).services.GetStatus(nn) == VS.NO_STATUS <==>
      nn in s.services.stored || s.services.GetStatus(nn) == VS.NO_STATUS
  {}

  /** A status written for a name that is not stored survives the deletion of that name. */
  lemma DeleteKeepsOrphanStatus(nn: NamespacedName, status: VS.Status)
    requires status != VS.NO_STATUS
    ensures Apply(Apply(EMPTY, SetStatus(nn, status)), DeleteVirtualService(nn)).services.GetStatus(nn) == status
  {}

  lemma StatusStep(s: State, nn: NamespacedName, op: Op)
    requires s.services.GetStatus(nn) == VS.NO_STATUS && !(op.SetStatus? && op.nn == nn)
    ensures Apply(s, op).services.GetStatus(nn) == VS.NO_STATUS
  {}

  /** A name without a status keeps none until one is written, whatever else happens: in particular a
      service deleted and set again starts without a status. */
  lemma {:induction false} StatusOnlyWritten(s: State, nn: NamespacedName, ops: seq<Op>)
    requires s.services.GetStatus(nn) == VS.NO_STATUS
    requires forall i | 0 <= i < |ops| :: !(ops[i].SetStatus? && ops[i].nn == nn)
    ensures Run(s, ops).services.GetStatus(nn) == VS.NO_STATUS
  {
    if ops != [] {
      StatusOnlyWritten(s, nn, ops[..|ops| - 1]);
      StatusStep(Run(s, ops[..|ops| - 1]), nn, ops[|ops| - 1]);
    }
  }

  // ----- The store as its history -----

  /** What an operation of a run is about. */
  datatype About = Setting | Deleting | Writing | Erasing | SettingCluster | DeletingCluster | SettingSecret | DeletingSecret

  predicate IsAbout(op: Op, nn: NamespacedName, about: About) {
    match about
    case Setting => op.SetVirtualService? && op.v.namespace == nn.namespace && op.v.name == nn.name
    case Deleting => op.DeleteVirtualService? && op.nn == nn
    case Writing => op.SetStatus? && op.nn == nn
    case Erasing => op.DeleteStatus? && op.nn == nn
    case SettingCluster => op.SetCluster? && op.c.namespace == nn.namespace && op.c.name == nn.name
    case DeletingCluster => op.DeleteCluster? && op.nn == nn
    case SettingSecret => op.SetSecret? && op.secret.namespace == nn.namespace && op.secret.name == nn.name
    case DeletingSecret => op.DeleteSecret? && op.nn == nn
  }

  /** The last moment such an operation happened, or -1. */
  function Last(ops: seq<Op>, nn: NamespacedName, about: About): (n: int)
    ensures -1 <= n < |ops| && (n >= 0 ==> IsAbout(ops[n], nn, about))
    ensures forall i | n < i < |ops| :: !IsAbout(ops[i], nn, about)
  {
    if ops == [] then -1
    else if IsAbout(ops[|ops| - 1], nn, about) then |ops| - 1
    else Last(ops[..|ops| - 1], nn, about)
  }

  /** Operation i takes the status of nn away: it erases it, or deletes the service while it is stored, that is
      while its last setting is later than its last deletion. */
  predicate Resets(ops: seq<Op>, nn: NamespacedName, i: nat)
    requires i < |ops|
  {
    || IsAbout(ops[i], nn, Erasing)
    || (IsAbout(ops[i], nn, Deleting) && Last(ops[..i], nn, Setting) > Last(ops[..i], nn, Deleting))
  }

  lemma StatusEffect(s: State, op: Op, nn: NamespacedName)
    ensures Apply(s, op).services.GetStatus(nn) ==
      if IsAbout(op, nn, Writing) then op.status
      else if IsAbout(op, nn, Erasing) || (IsAbout(op, nn, Deleting) && nn in s.services.stored) then VS.NO_STATUS
      else s.services.GetStatus(nn)
  {}

  lemma ServiceEffect(s: State, op: Op, nn: NamespacedName)
    ensures var m, n := s.services.stored, Apply(s, op).services.stored;
      if IsAbout(op, nn, Setting) then nn in n && n[nn] == op.v
      else if IsAbout(op, nn, Deleting) then nn !in n
      else (nn in n <==> nn in m) && (nn in m ==> n[nn] == m[nn])
  {}

  lemma ClusterEffect(s: State, op: Op, nn: NamespacedName)
    ensures var m, n := s.clusters.stored, Apply(s, op).clusters.stored;
      if IsAbout(op, nn, SettingCluster) then nn in n && n[nn] == op.c
      else if IsAbout(op, nn, DeletingCluster) then nn !in n
      else (nn in n <==> nn in m) && (nn in m ==> n[nn] == m[nn])
  {}

  lemma SecretEffect(s: State, op: Op, nn: NamespacedName)
    ensures var m, n := s.secrets.stored, Apply(s, op).secrets.stored;
      if IsAbout(op, nn, SettingSecret) then nn in n && n[nn] == op.secret
      else if IsAbout(op, nn, DeletingSecret) then nn !in n
      else (nn in n <==> nn in m) && (nn in m ==> n[nn] == m[nn])
  {}

  /** After any run of a new store a service is stored exactly when its last setting is later than its last
      deletion, and then it is the one last set. */
  lemma {:induction false} StoredIsHistory(ops: seq<Op>, nn: NamespacedName)
    ensures var stored, n := Run(EMPTY, ops).services.stored, Last(ops, nn, Setting);
      (nn in stored <==> n > Last(ops, nn, Deleting)) && (nn in stored ==> stored[nn] == ops[n].v)
  {
    if ops != [] {
      StoredIsHistory(ops[..|ops| - 1], nn);
      ServiceEffect(Run(EMPTY, ops[..|ops| - 1]), ops[|ops| - 1], nn);
    }
  }

  /** So for clusters. */
  lemma {:induction false} ClusterIsHistory(ops: seq<Op>, nn: NamespacedName)
    ensures var stored, n := Run(EMPTY, ops).clusters.stored, Last(ops, nn, SettingCluster);
      (nn in stored <==> n > Last(ops, nn, DeletingCluster)) && (nn in stored ==> stored[nn] == ops[n].c)
  {
    if ops != [] {
      ClusterIsHistory(ops[..|ops| - 1], nn);
      ClusterEffect(Run(EMPTY, ops[..|ops| - 1]), ops[|ops| - 1], nn);
    }
  }

  /** And for secrets. */
  lemma {:induction false} SecretIsHistory(ops: seq<Op>, nn: NamespacedName)
    ensures var stored, n := Run(EMPTY, ops).secrets.stored, Last(ops, nn, SettingSecret);
      (nn in stored <==> n > Last(ops, nn, DeletingSecret)) && (nn in stored ==> stored[nn] == ops[n].secret)
  {
    if ops != [] {
      SecretIsHistory(ops[..|ops| - 1], nn);
      SecretEffect(Run(EMPTY, ops[..|ops| - 1]), ops[|ops| - 1], nn);
    }
  }

  /** The node-domain index is the one of the last replacement, if there was one. */
  lemma {:induction false} NodesAreHistory(ops: seq<Op>, n: nat)
    requires n < |ops| && ops[n].ReplaceNodeDomains? && forall i | n < i < |ops| :: !ops[i].ReplaceNodeDomains?
    ensures Run(EMPTY, ops).nodes == ops[n].idx
  {
    if n < |ops| - 1 {
      NodesAreHistory(ops[..|ops| - 1], n);
    }
  }

  lemma {:induction false} NodesUnreplaced(ops: seq<Op>)
    requires forall i | 0 <= i < |ops| :: !ops[i].ReplaceNodeDomains?
    ensures Run(EMPTY, ops).nodes == map[]
  {
    if ops != [] {
      NodesUnreplaced(ops[..|ops| - 1]);
    }
  }

  /** The last status written for a name, unless an operation after that took it away. */
  function Surviving(ops: seq<Op>, nn: NamespacedName): VS.Status {
    var w := Last(ops, nn, Writing);
    if w >= 0 && (forall i | w < i < |ops| :: !Resets(ops, nn, i)) then ops[w].status else VS.NO_STATUS
  }

  lemma SurvivingStep(ops: seq<Op>, nn: NamespacedName)
    requires ops != []
    ensures Surviving(ops, nn) ==
      if IsAbout(ops[|ops| - 1], nn, Writing) then ops[|ops| - 1].status
      else if Resets(ops, nn, |ops| - 1) then VS.NO_STATUS
      else Surviving(ops[..|ops| - 1], nn)
  {
    var init := ops[..|ops| - 1];
    forall i | 0 <= i < |init| ensures Resets(ops, nn, i) <==> Resets(init, nn, i) { assert init[..i] == ops[..i]; }
  }

  /** The status of a name after any run of a new store: the last one written for it, unless an operation after
      that erased it or deleted the service while it was stored. A deletion that met no service resets nothing. */
  lemma {:induction false} StatusIsHistory(ops: seq<Op>, nn: NamespacedName)
    ensures Run(EMPTY, ops).services.GetStatus(nn) == Surviving(ops, nn)
  {
    if ops != [] {
      var init, last := ops[..|ops| - 1], ops[|ops| - 1];
      StatusIsHistory(init, nn);
      StoredIsHistory(init, nn);
      StatusEffect(Run(EMPTY, init), last, nn);
      SurvivingStep(ops, nn);
    }
  }
}
