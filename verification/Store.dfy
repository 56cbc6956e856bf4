/** The store in memory: the maps and indexes of OptimizedStore, each operation proved to do to the
    abstract state exactly what the model says, and to touch only what the store owns. */
module Store {
  import opened Basics
  import opened GoMaps
  import opened StoreModel
  import opened BulkLoad
  import opened NodeDomains
  import opened SecretLookup
  import KeyedIndex
  import VS = VirtualServices
  import CL = Clusters
  import DI = DomainIndex
  import Secrets
  import ServiceMaps
  import ClusterMaps
  import SecretMaps

  /** The parts are well formed and share no memory. */
  ghost predicate Separate(services: ServiceMaps.ServiceMaps, clusters: ClusterMaps.ClusterMaps,
                           secrets: SecretMaps.SecretMaps, nodes: NodeDomainIndex, memory: set<object>)
    reads memory
  {
    && services in memory && clusters in memory && secrets in memory && nodes in memory
    && services.Repr <= memory && clusters.Repr <= memory && secrets.Repr <= memory && nodes.Repr <= memory
    && services.Repr !! clusters.Repr && services.Repr !! secrets.Repr && services.Repr !! nodes.Repr
    && clusters.Repr !! secrets.Repr && clusters.Repr !! nodes.Repr && secrets.Repr !! nodes.Repr
    && services.Valid() && clusters.Valid() && secrets.Valid() && nodes.Readable()
  }

  /** The maps of the Go struct, grouped by what they are about. */
  class OptimizedStore {
    const services: ServiceMaps.ServiceMaps
    const clusters: ClusterMaps.ClusterMaps
    const secrets: SecretMaps.SecretMaps
    var nodeDomains: NodeDomainIndex

    ghost var Repr: set<object>  // this object and all memory below it

    ghost function View(): State
      reads this, services, clusters, secrets, nodeDomains
    {
      State(services.View, clusters.View, secrets.View, nodeDomains.View)
    }

    ghost predicate Valid()
      reads this, Repr
      ensures Valid() ==> this in Repr && services in Repr && clusters in Repr && secrets in Repr && nodeDomains in Repr
    {
      this in Repr && Separate(services, clusters, secrets, nodeDomains, Repr - {this})
    }

    /** A store made of parts nobody else uses. */
    constructor FromParts(services: ServiceMaps.ServiceMaps, clusters: ClusterMaps.ClusterMaps,
                          secrets: SecretMaps.SecretMaps, nodeDomains: NodeDomainIndex, ghost memory: set<object>)
      requires Separate(services, clusters, secrets, nodeDomains, memory)
      ensures Valid() && Repr == memory + {this}
      ensures View() == State(services.View, clusters.View, secrets.View, nodeDomains.View)
    {
      this.services, this.clusters, this.secrets, this.nodeDomains := services, clusters, secrets, nodeDomains;
      Repr := memory + {this};
      new;
      assert Repr - {this} == memory;
    }

    method SetVirtualService(v: VS.VirtualService)
      requires Valid()
      modifies Repr
      ensures Valid() && fresh(Repr - old(Repr))
      ensures View() == old(View()).(services := VS.SetService(old(View()).services, v))
    {
      services.SetVirtualService(v);
      Repr := Repr + services.Repr;
    }

    method DeleteVirtualService(nn: NamespacedName)
      requires Valid()
      modifies Repr
      ensures Valid() && fresh(Repr - old(Repr))
      ensures View() == old(View()).(services := VS.DeleteService(old(View()).services, nn))
    {
      services.DeleteVirtualService(nn);
      Repr := Repr + services.Repr;
    }

    method SetVirtualServiceStatus(nn: NamespacedName, invalid: bool, message: string)
      requires Valid()
      modifies Repr
      ensures Valid() && Repr == old(Repr)
      ensures View() == Apply(old(View()), Op.SetStatus(nn, VS.Status(invalid, message)))
    {
      services.SetStatus(nn, invalid, message);
    }

    method DeleteVirtualServiceStatus(nn: NamespacedName)
      requires Valid()
      modifies Repr
      ensures Valid() && Repr == old(Repr)
      ensures View() == Apply(old(View()), Op.DeleteStatus(nn))
    {
      services.DeleteStatus(nn);
    }

    method SetCluster(c: CL.Cluster)
      requires Valid()
      modifies Repr
      ensures Valid() && Repr == old(Repr)
      ensures View() == old(View()).(clusters := CL.SetCluster(old(View()).clusters, c))
    {
      clusters.SetCluster(c);
    }

    method DeleteCluster(nn: NamespacedName)
      requires Valid()
      modifies Repr
      ensures Valid() && Repr == old(Repr)
      ensures View() == old(View()).(clusters := CL.DeleteCluster(old(View()).clusters, nn))
    {
      clusters.DeleteCluster(nn);
    }

    method SetSecret(secret: Secrets.Secret)
      requires Valid()
      modifies Repr
      ensures Valid() && fresh(Repr - old(Repr))
      ensures View() == old(View()).(secrets := DI.SetSecret(old(View()).secrets, secret))
    {
      secrets.SetSecret(secret);
      Repr := Repr + secrets.Repr;
    }

    method DeleteSecret(nn: NamespacedName)
      requires Valid()
      modifies Repr
      ensures Valid() && fresh(Repr - old(Repr))
      ensures View() == old(View()).(secrets := DI.DeleteSecret(old(View()).secrets, nn))
    {
      secrets.DeleteSecret(nn);
      Repr := Repr + secrets.Repr;
    }

    /** Takes over the contents of the caller's index, whatever it shares, and none of its memory. */
    method ReplaceNodeDomainsIndex(idx: NodeDomainIndex)
      requires Valid() && idx.Readable()
      modifies this
      ensures Valid() && fresh(Repr - old(Repr)) && fresh(nodeDomains.Repr)
      ensures View() == old(View()).(nodes := old(idx.View))
    {
      nodeDomains := idx.Copy();
      Repr := Repr + nodeDomains.Repr;
    }

    method CopyResources() returns (newServices: ServiceMaps.ServiceMaps, newClusters: ClusterMaps.ClusterMaps, ghost memory: set<object>)
      requires Valid()
      ensures newServices.Valid() && newServices.View == services.View
      ensures newClusters.Valid() && newClusters.View == clusters.View
      ensures newServices.Repr <= memory && newClusters.Repr <= memory && newServices.Repr !! newClusters.Repr
      ensures fresh(memory)
    {
      newServices := services.Copy();
      newClusters := clusters.Copy();
      memory := newServices.Repr + newClusters.Repr;
    }

    method CopyRest() returns (newSecrets: SecretMaps.SecretMaps, newNodes: NodeDomainIndex, ghost memory: set<object>)
      requires Valid()
      ensures newSecrets.Valid() && newSecrets.View == secrets.View
      ensures newNodes.Readable() && newNodes.View == nodeDomains.View
      ensures newSecrets.Repr <= memory && newNodes.Repr <= memory && newSecrets.Repr !! newNodes.Repr
      ensures fresh(memory)
    {
      newSecrets := secrets.Copy();
      newNodes := nodeDomains.Copy();
      memory := newSecrets.Repr + newNodes.Repr;
    }

    method Copy() returns (c: OptimizedStore)
      requires Valid()
      ensures c.Valid() && fresh(c.Repr) && c.View() == View()
    {
      ghost var first, second: set<object>;
      var newServices, newClusters, newSecrets, newNodes;
      newServices, newClusters, first := CopyResources();
      newSecrets, newNodes, second := CopyRest();
      ghost var memory := first + second;
      assert first !! second && fresh(memory);
      c := new OptimizedStore.FromParts(newServices, newClusters, newSecrets, newNodes, memory);
      ghost var all := c.Repr;
      assert all == memory + {c};
      assert fresh(all);
    }

    // ----- Lookups -----

    /** Hands out a map of its own. */
    method MapSpecClusters() returns (r: GoMap<string, CL.Cluster>)
      requires Valid()
      ensures fresh(r) && r.m == View().clusters.bySpec
    {
      r := clusters.specClusters.Copy();
    }

    /** Hands out an index of its own, inner sets included. */
    method GetNodeDomainsIndex() returns (r: NodeDomainIndex)
      requires Valid()
      ensures r.Readable() && fresh(r.Repr) && r.View == View().nodes
    {
      r := nodeDomains.Copy();
    }

    method GetNodeDomainsForNodes(nodeIDs: seq<string>) returns (found: NodeDomainIndex, missing: seq<string>)
      requires Valid()
      ensures found.Readable() && fresh(found.Repr)
      ensures found.View.Keys == set n | n in View().nodes && n in nodeIDs
      ensures forall n | n in found.View :: found.View[n] == View().nodes[n]
      ensures missing == Without(nodeIDs, View().nodes.Keys)
    {
      found, missing := nodeDomains.ForNodes(nodeIDs);
    }

    /** With unique UIDs the lookup finds exactly the stored service that carries the UID. */
    method GetVirtualServiceByUID(uid: string) returns (r: Option<VS.VirtualService>)
      requires Valid()
      ensures Inv(View()) && r.Some? ==>
        var stored := View().services.stored;
        r.value.uid == uid && r.value.Key() in stored && stored[r.value.Key()] == r.value
      ensures Inv(View()) && IsComplete(ServiceUid, View()) ==>
        var stored := View().services.stored;
        (r.None? <==> forall nn | nn in stored :: stored[nn].uid != uid)
    {
      r := if uid in services.uidToVS.m then Some(services.uidToVS.m[uid]) else None;
      if Inv(View()) && IsComplete(ServiceUid, View()) {
        KeyedIndex.LookupIsScan(View().services.UidIndex(), VS.UID_KEYS, uid);
      }
    }

    method GetSpecCluster(name: string) returns (r: Option<CL.Cluster>)
      requires Valid()
      ensures Inv(View()) && r.Some? ==>
        var stored := View().clusters.stored;
        r.value.v3Name == Some(name) && r.value.Key() in stored && stored[r.value.Key()] == r.value
      ensures Inv(View()) && IsComplete(ClusterSpec, View()) ==>
        var stored := View().clusters.stored;
        (r.None? <==> forall nn | nn in stored :: stored[nn].v3Name != Some(name))
    {
      r := if name in clusters.specClusters.m then Some(clusters.specClusters.m[name]) else None;
      if Inv(View()) && IsComplete(ClusterSpec, View()) {
        KeyedIndex.LookupIsScan(View().clusters.SpecIndex(), CL.SPEC_KEYS, name);
      }
    }

    /** Hands out a list of its own: exactly the stored services using the template, each once. */
    method GetVirtualServicesByTemplate(t: NamespacedName) returns (r: Option<array<VS.VirtualService>>)
      requires Valid()
      ensures r.Some? ==> fresh(r.value)
      ensures (match r case Some(a) => a[..] case None => []) == VS.ListAt(View().services.byTemplate, t)
      ensures Inv(View()) && IsComplete(ServiceTemplate, View()) ==>
        var list := match r case Some(a) => a[..] case None => [];
        && (set v | v in list) == VS.UsersOf(View().services.stored, t)
        && forall i, j | 0 <= i < j < |list| :: list[i] != list[j]
    {
      r := services.templateToVS.Get(t);
      if Inv(View()) && IsComplete(ServiceTemplate, View()) {
        VS.ListIsScan(View().services.byTemplate, View().services.stored, t);
      }
    }

    /** GetDomainSecretForNamespace with the validity: the winner of a scan of all stored secrets. */
    method BestFor(domain: string, preferredNamespace: string, now: Secrets.Time)
      returns (secret: Option<Secrets.Secret>, validity: Secrets.Validity)
      requires Valid()
      ensures DI.SecretsExact(View().secrets) ==>
        var w := Winner(View().secrets.stored, domain, preferredNamespace, now);
        secret == SecretOf(View().secrets.stored, w) && validity == ValidityOf(w)
    {
      if DI.SecretsExact(View().secrets) {
        IndexOffersScan(View().secrets.stored, domain, preferredNamespace, now);
      }
      secret, validity := secrets.domainSecretsIndex.GetBest(domain, preferredNamespace, secrets.secrets.m, now);
    }

    /** The two lookups read the clock one after the other: at now and at now'. */
    method LookUpWithFallback(domain: string, preferredNamespace: string, now: Secrets.Time, now': Secrets.Time)
      returns (r: SecretLookupResult)
      requires Valid()
      ensures DI.SecretsExact(View().secrets) ==> Decides(r, View().secrets.stored,
        Winner(View().secrets.stored, domain, preferredNamespace, now),
        Winner(View().secrets.stored, WildcardOf(domain), preferredNamespace, now'))
    {
      ghost var stored := View().secrets.stored;
      var exactSecret, exactValidity := BestFor(domain, preferredNamespace, now);
      r := SecretLookupResult(None, false, "", SecretName(exactSecret), ValidityToString(exactValidity), "",
                              ValidityToString(Secrets.NotFound));
      if exactSecret.Some? && exactValidity.Valid? {
        r := r.(secret := exactSecret);
        return;
      }
      var wildcardDomain := GetWildcardDomain(domain);
      if wildcardDomain == "" {
        NoEmptyDomain(stored, preferredNamespace, now');
        r := r.(secret := exactSecret);
        return;
      }
      var wildcardSecret, wildcardValidity := BestFor(wildcardDomain, preferredNamespace, now');
      r := r.(wildcardSecretName := SecretName(wildcardSecret), wildcardValidity := ValidityToString(wildcardValidity));
      if exactSecret.None? {
        r := r.(secret := wildcardSecret, usedWildcard := wildcardSecret.Some?);
      } else if wildcardSecret.Some? && wildcardValidity.Valid? {
        r := r.(secret := wildcardSecret, usedWildcard := true, fallbackReason := ValidityToString(exactValidity));
      } else {
        r := r.(secret := exactSecret);
      }
    }

    /** In every good state the answer keeps what the fallback promises about the stored secrets. */
    method GetDomainSecretWithWildcardFallbackInfo(domain: string, preferredNamespace: string, now: Secrets.Time, now': Secrets.Time)
      returns (r: SecretLookupResult)
      requires Valid()
      ensures Inv(View()) ==>
        && FallbackGuarantee(r, View().secrets.stored, domain, WildcardOf(domain), now, now')
        && Decides(r, View().secrets.stored, Winner(View().secrets.stored, domain, preferredNamespace, now),
                   Winner(View().secrets.stored, WildcardOf(domain), preferredNamespace, now'))
    {
      r := LookUpWithFallback(domain, preferredNamespace, now, now');
      FallbackMeaning(r, View().secrets.stored, domain, preferredNamespace, now, now');
    }

    // ----- Bulk load -----

    method FillServices(items: seq<VS.VirtualService>)
      requires Valid()
      modifies Repr
      ensures Valid() && fresh(Repr - old(Repr))
      ensures View() == old(View()).(services := LoadServices(old(View()).services, items))
    {
      services.FillAll(items);
      Repr := Repr + services.Repr;
    }

    method FillClusters(items: seq<CL.Cluster>)
      requires Valid()
      modifies Repr
      ensures Valid() && Repr == old(Repr)
      ensures View() == old(View()).(clusters := LoadClusters(old(View()).clusters, items))
    {
      clusters.FillAll(items);
    }

    method FillSecrets(items: seq<Secrets.Secret>)
      requires Valid()
      modifies Repr
      ensures Valid() && Repr == old(Repr)
      ensures View() == old(View()).(secrets := DI.SecretState(LoadSecrets(old(View()).secrets.stored, items), old(View()).secrets.domains))
    {
      secrets.FillAll(items);
    }

    /** FillFromKubernetes once the lists have arrived. */
    method FillFromKubernetes(lists: BulkLoad.Lists)
      requires Valid()
      modifies Repr
      ensures Valid() && fresh(Repr - old(Repr))
      ensures View() == Fill(old(View()), lists)
    {
      FillServices(lists.services);
      FillClusters(lists.clusters);
      FillSecrets(lists.secrets);
      UpdateDomainSecretsMap();
    }

    method UpdateDomainSecretsMap()
      requires Valid()
      modifies Repr
      ensures Valid() && fresh(Repr - old(Repr))
      ensures View() == old(View()).(secrets := DI.SecretState(old(View()).secrets.stored, DI.Rebuilt(old(View()).secrets.stored)))
    {
      secrets.UpdateDomainSecretsMap();
      Repr := Repr + secrets.Repr;
    }

    // ----- Any operation -----

    method Perform(op: Op)
      requires Valid()
      modifies Repr
      ensures Valid() && fresh(Repr - old(Repr))
      ensures View() == Apply(old(View()), op)
    {
      match op
      case SetVirtualService(v) => SetVirtualService(v);
      case DeleteVirtualService(nn) => DeleteVirtualService(nn);
      case SetStatus(nn, status) => SetVirtualServiceStatus(nn, status.invalid, status.message);
      case DeleteStatus(nn) => DeleteVirtualServiceStatus(nn);
      case SetCluster(c) => SetCluster(c);
      case DeleteCluster(nn) => DeleteCluster(nn);
      case SetSecret(secret) => SetSecret(secret);
      case DeleteSecret(nn) => DeleteSecret(nn);
      case ReplaceNodeDomains(idx) =>
        var given := NewNodeDomainIndex(idx);
        ReplaceNodeDomainsIndex(given);
    }
  }

  method NewResources() returns (services: ServiceMaps.ServiceMaps, clusters: ClusterMaps.ClusterMaps, ghost memory: set<object>)
    ensures services.Valid() && services.View == EMPTY.services && clusters.Valid() && clusters.View == EMPTY.clusters
    ensures services.Repr <= memory && clusters.Repr <= memory && services.Repr !! clusters.Repr && fresh(memory)
  {
    services := ServiceMaps.NewServiceMaps();
    clusters := ClusterMaps.NewClusterMaps();
    memory := services.Repr + clusters.Repr;
  }

  method NewRest() returns (secrets: SecretMaps.SecretMaps, nodes: NodeDomainIndex, ghost memory: set<object>)
    ensures secrets.Valid() && secrets.View == EMPTY.secrets && nodes.Readable() && nodes.View == EMPTY.nodes
    ensures secrets.Repr <= memory && nodes.Repr <= memory && secrets.Repr !! nodes.Repr && fresh(memory)
  {
    secrets := SecretMaps.NewSecretMaps();
    nodes := new NodeDomainIndex();
    memory := secrets.Repr + nodes.Repr;
  }

  method NewOptimizedStore() returns (s: OptimizedStore)
    ensures s.Valid() && fresh(s.Repr) && s.View() == EMPTY
  {
    ghost var first, second: set<object>;
    var services, clusters, secrets, nodes;
    services, clusters, first := NewResources();
    secrets, nodes, second := NewRest();
    ghost var memory := first + second;
    assert first !! second && fresh(memory);
    s := new OptimizedStore.FromParts(services, clusters, secrets, nodes, memory);
    ghost var all := s.Repr;
    assert all == memory + {s};
    assert fresh(all);
  }
}
