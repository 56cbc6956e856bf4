/** The initial bulk load, and the run of ordinary operations it amounts to. */
module BulkLoad {
  import opened Basics
  import opened StoreModel
  import VS = VirtualServices
  import CL = Clusters
  import DI = DomainIndex
  import Secrets

  /** What FillFromKubernetes reads: one list per kind. */
  datatype Lists = Lists(services: seq<VS.VirtualService>, clusters: seq<CL.Cluster>, secrets: seq<Secrets.Secret>)

  /** Loading one service: no old entry is looked for. */
  function LoadService(s: VS.ServiceState, v: VS.VirtualService): VS.ServiceState {
    s.(stored := s.stored[v.Key() := v], byUid := s.byUid[v.uid := v], byTemplate := VS.AddToTemplate(s.byTemplate, v))
  }

  function LoadCluster(s: CL.ClusterState, c: CL.Cluster): CL.ClusterState {
    CL.ClusterState(s.stored[c.Key() := c], s.byUid[c.uid := c], CL.Named(s.bySpec, c))
  }

  function LoadServices(s: VS.ServiceState, items: seq<VS.VirtualService>): VS.ServiceState {
    if items == [] then s else LoadService(LoadServices(s, items[..|items| - 1]), items[|items| - 1].Normalize())
  }

  function LoadClusters(s: CL.ClusterState, items: seq<CL.Cluster>): CL.ClusterState {
    if items == [] then s else LoadCluster(LoadClusters(s, items[..|items| - 1]), items[|items| - 1])
  }

  function LoadSecrets(stored: DI.SecretMap, items: seq<Secrets.Secret>): DI.SecretMap {
    if items == [] then stored
    else LoadSecrets(stored, items[..|items| - 1])[items[|items| - 1].Key() := items[|items| - 1]]
  }

  /** FillFromKubernetes after the lists have arrived; the domain index is rebuilt at the end. */
  function Fill(s: State, lists: Lists): State {
    var secrets := LoadSecrets(s.secrets.stored, lists.secrets);
    s.(services := LoadServices(s.services, lists.services),
       clusters := LoadClusters(s.clusters, lists.clusters),
       secrets := DI.SecretState(secrets, DI.Rebuilt(secrets)))
  }

  function ServiceOps(items: seq<VS.VirtualService>): seq<Op> {
    if items == [] then [] else ServiceOps(items[..|items| - 1]) + [SetVirtualService(items[|items| - 1].Normalize())]
  }

  function ClusterOps(items: seq<CL.Cluster>): seq<Op> {
    if items == [] then [] else ClusterOps(items[..|items| - 1]) + [SetCluster(items[|items| - 1])]
  }

  function SecretOps(items: seq<Secrets.Secret>): seq<Op> {
    if items == [] then [] else SecretOps(items[..|items| - 1]) + [SetSecret(items[|items| - 1])]
  }

  /** Setting every listed resource one at a time. */
  function Replay(lists: Lists): seq<Op> {
    ServiceOps(lists.services) + ClusterOps(lists.clusters) + SecretOps(lists.secrets)
  }

  /** The services have one item per key, none of them stored yet. */
  ghost predicate FreshServices(s: VS.ServiceState, items: seq<VS.VirtualService>) {
    && (forall i | 0 <= i < |items| :: items[i].Key() !in s.stored)
    && (forall i, j | 0 <= i < j < |items| :: items[i].Key() != items[j].Key())
  }

  ghost predicate FreshClusters(s: CL.ClusterState, items: seq<CL.Cluster>) {
    && (forall i | 0 <= i < |items| :: items[i].Key() !in s.stored)
    && (forall i, j | 0 <= i < j < |items| :: items[i].Key() != items[j].Key())
  }

  lemma {:induction false} LoadServicesFrame(s: VS.ServiceState, items: seq<VS.VirtualService>, nn: NamespacedName)
    requires nn !in s.stored && forall i | 0 <= i < |items| :: items[i].Key() != nn
    ensures nn !in LoadServices(s, items).stored
  {
    if items != [] {
      LoadServicesFrame(s, items[..|items| - 1], nn);
      assert items[|items| - 1].Normalize().Key() == items[|items| - 1].Key();
    }
  }

  lemma {:induction false} LoadClustersFrame(s: CL.ClusterState, items: seq<CL.Cluster>, nn: NamespacedName)
    requires nn !in s.stored && forall i | 0 <= i < |items| :: items[i].Key() != nn
    ensures nn !in LoadClusters(s, items).stored
  {
    if items != [] { LoadClustersFrame(s, items[..|items| - 1], nn); }
  }

  lemma {:induction false} LoadServicesIsRun(s: State, items: seq<VS.VirtualService>)
    requires FreshServices(s.services, items)
    ensures Run(s, ServiceOps(items)) == s.(services := LoadServices(s.services, items))
  {
    if items != [] {
      var init, last := items[..|items| - 1], items[|items| - 1];
      LoadServicesIsRun(s, init);
      LoadServicesFrame(s.services, init, last.Key());
      assert last.Normalize().Key() == last.Key();
      RunAppend(s, ServiceOps(init), SetVirtualService(last.Normalize()));
    }
  }

  lemma {:induction false} LoadClustersIsRun(s: State, items: seq<CL.Cluster>)
    requires FreshClusters(s.clusters, items)
    ensures Run(s, ClusterOps(items)) == s.(clusters := LoadClusters(s.clusters, items))
  {
    if items != [] {
      var init, last := items[..|items| - 1], items[|items| - 1];
      LoadClustersIsRun(s, init);
      LoadClustersFrame(s.clusters, init, last.Key());
      RunAppend(s, ClusterOps(init), SetCluster(last));
    }
  }

  lemma SecretStep(s: State, secret: Secrets.Secret)
    requires DI.SecretsExact(s.secrets)
    ensures var t, stored := Apply(s, SetSecret(secret)), s.secrets.stored[secret.Key() := secret];
      t == s.(secrets := DI.SecretState(stored, DI.Rebuilt(stored))) && DI.SecretsExact(t.secrets)
  {
    DI.SecretStepsExact(s.secrets, secret, secret.Key());
  }

  /** Secrets need no freshness: setting finds and withdraws old entries, and rebuilding forgets them. */
  lemma {:induction false} LoadSecretsIsRun(s: State, items: seq<Secrets.Secret>)
    requires DI.SecretsExact(s.secrets)
    ensures var stored := LoadSecrets(s.secrets.stored, items);
      && Run(s, SecretOps(items)) == s.(secrets := DI.SecretState(stored, DI.Rebuilt(stored)))
      && DI.SecretsExact(Run(s, SecretOps(items)).secrets)
  {
    if items != [] {
      var init, last := items[..|items| - 1], items[|items| - 1];
      LoadSecretsIsRun(s, init);
      SecretStep(Run(s, SecretOps(init)), last);
      RunAppend(s, SecretOps(init), SetSecret(last));
    }
  }

  /** Bulk load gives the same maps and indexes as setting every (normalised) item in turn. */
  lemma FillIsReplay(s: State, lists: Lists)
    requires Inv(s) && FreshServices(s.services, lists.services) && FreshClusters(s.clusters, lists.clusters)
    ensures Fill(s, lists) == Run(s, Replay(lists))
    ensures Inv(Fill(s, lists))
  {
    var a := Run(s, ServiceOps(lists.services));
    var b := Run(a, ClusterOps(lists.clusters));
    LoadServicesIsRun(s, lists.services);
    LoadClustersIsRun(a, lists.clusters);
    LoadSecretsIsRun(b, lists.secrets);
    RunConcat(s, ServiceOps(lists.services), ClusterOps(lists.clusters));
    RunConcat(s, ServiceOps(lists.services) + ClusterOps(lists.clusters), SecretOps(lists.secrets));
    RunInv(s, Replay(lists));
  }

  // ----- What the store holds after the load -----

  /** No later item of a list of keys has the key of item i. */
  ghost predicate LastOfKey(keys: seq<NamespacedName>, i: nat) {
    i < |keys| && forall j | i < j < |keys| :: keys[j] != keys[i]
  }

  function ServiceKeys(items: seq<VS.VirtualService>): seq<NamespacedName> {
    seq(|items|, i requires 0 <= i < |items| => NamespacedName(items[i].namespace, items[i].name))
  }

  function ClusterKeys(items: seq<CL.Cluster>): seq<NamespacedName> {
    seq(|items|, i requires 0 <= i < |items| => NamespacedName(items[i].namespace, items[i].name))
  }

  function SecretKeys(items: seq<Secrets.Secret>): seq<NamespacedName> {
    seq(|items|, i requires 0 <= i < |items| => NamespacedName(items[i].namespace, items[i].name))
  }

  lemma {:induction false} LoadedService(s: VS.ServiceState, items: seq<VS.VirtualService>, i: nat)
    requires LastOfKey(ServiceKeys(items), i)
    ensures var nn := ServiceKeys(items)[i];
      nn in LoadServices(s, items).stored && LoadServices(s, items).stored[nn] == items[i].Normalize()
  {
    var init := items[..|items| - 1];
    VS.NormalizeKeeps(items[|items| - 1]);
    if i < |init| {
      forall j | i <= j < |init| ensures ServiceKeys(init)[j] == ServiceKeys(items)[j] {}
      LoadedService(s, init, i);
      assert ServiceKeys(items)[|init|] != ServiceKeys(items)[i];
    }
  }

  lemma {:induction false} LoadedCluster(s: CL.ClusterState, items: seq<CL.Cluster>, i: nat)
    requires LastOfKey(ClusterKeys(items), i)
    ensures var nn := ClusterKeys(items)[i];
      nn in LoadClusters(s, items).stored && LoadClusters(s, items).stored[nn] == items[i]
  {
    var init := items[..|items| - 1];
    if i < |init| {
      forall j | i <= j < |init| ensures ClusterKeys(init)[j] == ClusterKeys(items)[j] {}
      LoadedCluster(s, init, i);
      assert ClusterKeys(items)[|init|] != ClusterKeys(items)[i];
    }
  }

  lemma {:induction false} LoadedSecret(stored: DI.SecretMap, items: seq<Secrets.Secret>, i: nat)
    requires LastOfKey(SecretKeys(items), i)
    ensures var nn := SecretKeys(items)[i];
      nn in LoadSecrets(stored, items) && LoadSecrets(stored, items)[nn] == items[i]
  {
    var init := items[..|items| - 1];
    if i < |init| {
      forall j | i <= j < |init| ensures SecretKeys(init)[j] == SecretKeys(items)[j] {}
      LoadedSecret(stored, init, i);
      assert SecretKeys(items)[|init|] != SecretKeys(items)[i];
    }
  }

  /** Every listed service is stored, as the last one listed under its name, with the same contents and the
      namespaces of its references spelled out; it is among the users of its template, and on complete lists
      the template's list has it. */
  lemma FillStoresService(s: State, lists: Lists, i: nat)
    requires LastOfKey(ServiceKeys(lists.services), i)
    ensures var v, t := lists.services[i], Fill(s, lists).services;
      var nn := NamespacedName(v.namespace, v.name);
      && nn in t.stored
      && var w := t.stored[nn];
      && w.namespace == v.namespace && w.name == v.name && w.uid == v.uid && w.spec == v.spec
      && VS.SameTarget(v.template, w.template, v.namespace) && VS.SameTarget(v.tracing, w.tracing, v.namespace)
      && forall template | v.template.Some? && VS.RefersTo(v.template.value, v.namespace, template) ::
           && w in VS.UsersOf(t.stored, template)
           && (VS.ListsComplete(t.byTemplate, t.stored) ==> w in VS.ListAt(t.byTemplate, template))
  {
    var v := lists.services[i];
    LoadedService(s.services, lists.services, i);
    VS.NormalizeKeeps(v);
    forall template | v.template.Some? && VS.RefersTo(v.template.value, v.namespace, template)
      ensures v.Normalize().TemplateKey() == Some(template)
    {
      VS.TemplateKeyIs(v, template);
    }
  }

  /** Every listed cluster and secret is stored as the last one listed under its name. */
  lemma FillStoresRest(s: State, lists: Lists, i: nat)
    ensures LastOfKey(ClusterKeys(lists.clusters), i) ==>
      var c, stored := lists.clusters[i], Fill(s, lists).clusters.stored;
      var nn := NamespacedName(c.namespace, c.name);
      nn in stored && stored[nn] == c
    ensures LastOfKey(SecretKeys(lists.secrets), i) ==>
      var secret, stored := lists.secrets[i], Fill(s, lists).secrets.stored;
      var nn := NamespacedName(secret.namespace, secret.name);
      nn in stored && stored[nn] == secret
  {
    if LastOfKey(ClusterKeys(lists.clusters), i) { LoadedCluster(s.clusters, lists.clusters, i); }
    if LastOfKey(SecretKeys(lists.secrets), i) { LoadedSecret(s.secrets.stored, lists.secrets, i); }
  }

  lemma {:induction false} UnlistedService(s: VS.ServiceState, items: seq<VS.VirtualService>, nn: NamespacedName)
    requires nn !in ServiceKeys(items)
    ensures nn in LoadServices(s, items).stored <==> nn in s.stored
    ensures nn in s.stored ==> LoadServices(s, items).stored[nn] == s.stored[nn]
  {
    if items != [] {
      var init, last := items[..|items| - 1], items[|items| - 1];
      VS.NormalizeKeeps(last);
      assert ServiceKeys(items)[|init|] != nn;
      assert ServiceKeys(init) == ServiceKeys(items)[..|init|];
      UnlistedService(s, init, nn);
    }
  }

  lemma {:induction false} UnlistedCluster(s: CL.ClusterState, items: seq<CL.Cluster>, nn: NamespacedName)
    requires nn !in ClusterKeys(items)
    ensures nn in LoadClusters(s, items).stored <==> nn in s.stored
    ensures nn in s.stored ==> LoadClusters(s, items).stored[nn] == s.stored[nn]
  {
    if items != [] {
      var init := items[..|items| - 1];
      assert ClusterKeys(items)[|init|] != nn;
      assert ClusterKeys(init) == ClusterKeys(items)[..|init|];
      UnlistedCluster(s, init, nn);
    }
  }

  lemma {:induction false} UnlistedSecret(stored: DI.SecretMap, items: seq<Secrets.Secret>, nn: NamespacedName)
    requires nn !in SecretKeys(items)
    ensures nn in LoadSecrets(stored, items) <==> nn in stored
    ensures nn in stored ==> LoadSecrets(stored, items)[nn] == stored[nn]
  {
    if items != [] {
      var init := items[..|items| - 1];
      assert SecretKeys(items)[|init|] != nn;
      assert SecretKeys(init) == SecretKeys(items)[..|init|];
      UnlistedSecret(stored, init, nn);
    }
  }

  ghost predicate SameAt<V(!new)>(m: map<NamespacedName, V>, n: map<NamespacedName, V>, nn: NamespacedName) {
    (nn in m <==> nn in n) && (nn in m ==> m[nn] == n[nn])
  }

  /** What is not listed stays as it was. */
  lemma FillKeepsUnlisted(s: State, lists: Lists, nn: NamespacedName)
    ensures var t := Fill(s, lists);
      && (nn !in ServiceKeys(lists.services) ==> SameAt(s.services.stored, t.services.stored, nn))
      && (nn !in ClusterKeys(lists.clusters) ==> SameAt(s.clusters.stored, t.clusters.stored, nn))
      && (nn !in SecretKeys(lists.secrets) ==> SameAt(s.secrets.stored, t.secrets.stored, nn))
  {
    if nn !in ServiceKeys(lists.services) { UnlistedService(s.services, lists.services, nn); }
    if nn !in ClusterKeys(lists.clusters) { UnlistedCluster(s.clusters, lists.clusters, nn); }
    if nn !in SecretKeys(lists.secrets) { UnlistedSecret(s.secrets.stored, lists.secrets, nn); }
  }

  /** The load touches neither statuses nor the node-domain index. */
  lemma {:induction false} FillKeepsStatuses(s: State, lists: Lists)
    ensures Fill(s, lists).services.statuses == s.services.statuses && Fill(s, lists).nodes == s.nodes
    decreases |lists.services|
  {
    if lists.services != [] {
      FillKeepsStatuses(s, lists.(services := lists.services[..|lists.services| - 1]));
    }
  }
}
