/** The part of the store in memory that deals with virtual services: the primary map, the UID index, the
    template lists and the status storage. */
module ServiceMaps {
  import opened Basics
  import opened GoMaps
  import opened Templates
  import opened VirtualServices
  import BulkLoad

  class StatusStorage {
    const statuses: GoMap<NamespacedName, Status>

    constructor (statuses: GoMap<NamespacedName, Status>)
      ensures this.statuses == statuses
    {
      this.statuses := statuses;
    }

    method SetStatus(nn: NamespacedName, invalid: bool, message: string)
      modifies statuses
      ensures statuses.m == old(statuses.m)[nn := Status(invalid, message)]
    {
      statuses.m := statuses.m[nn := Status(invalid, message)];
    }

    method DeleteStatus(nn: NamespacedName)
      modifies statuses
      ensures statuses.m == old(statuses.m) - {nn}
    {
      statuses.m := statuses.m - {nn};
    }

    method Copy() returns (c: StatusStorage)
      ensures fresh(c) && fresh(c.statuses) && c.statuses.m == statuses.m
    {
      var copy := statuses.Copy();
      c := new StatusStorage(copy);
    }
  }

  class ServiceMaps {
    const virtualServices: GoMap<NamespacedName, VirtualService>
    const uidToVS: GoMap<string, VirtualService>
    const templateToVS: TemplateIndex
    const vsStatusStorage: StatusStorage

    ghost var View: ServiceState  // what the maps hold
    ghost var Repr: set<object>  // this object and all memory below it

    /** The maps are four pieces of memory that share nothing. */
    ghost predicate Valid()
      reads this, Repr
      ensures Valid() ==> this in Repr
    {
      && this in Repr && virtualServices in Repr && uidToVS in Repr && vsStatusStorage.statuses in Repr
      && templateToVS in Repr && templateToVS.Repr <= Repr
      && this !in templateToVS.Repr && virtualServices !in templateToVS.Repr
      && uidToVS !in templateToVS.Repr && vsStatusStorage.statuses !in templateToVS.Repr
      && templateToVS.Valid()
      && View == ServiceState(virtualServices.m, uidToVS.m, templateToVS.View, vsStatusStorage.statuses.m)
    }

    constructor (services: GoMap<NamespacedName, VirtualService>, uids: GoMap<string, VirtualService>,
                 templates: TemplateIndex, statuses: StatusStorage)
      requires templates.Valid()
      requires services !in templates.Repr && uids !in templates.Repr && statuses.statuses !in templates.Repr
      ensures Valid() && View == ServiceState(services.m, uids.m, templates.View, statuses.statuses.m)
      ensures Repr == {this, services, uids, statuses.statuses} + templates.Repr
    {
      virtualServices, uidToVS, templateToVS, vsStatusStorage := services, uids, templates, statuses;
      View := ServiceState(services.m, uids.m, templates.View, statuses.statuses.m);
      Repr := {this, services, uids, statuses.statuses} + templates.Repr;
    }

    method SetVirtualService(v: VirtualService)
      requires Valid()
      modifies Repr
      ensures Valid() && fresh(Repr - old(Repr))
      ensures View == SetService(old(View), v)
    {
      var key := v.Key();
      var prev := if key in virtualServices.m then Some(virtualServices.m[key]) else None;
      if prev.Some? {
        uidToVS.m := uidToVS.m - {prev.value.uid};
      }
      virtualServices.m := virtualServices.m[key := v];
      uidToVS.m := uidToVS.m[v.uid := v];
      assert templateToVS.Valid();
      templateToVS.Replace(prev, v);
      Repr := Repr + templateToVS.Repr;
      View := SetService(View, v);
    }

    method DeleteVirtualService(nn: NamespacedName)
      requires Valid()
      modifies Repr
      ensures Valid() && fresh(Repr - old(Repr))
      ensures View == DeleteService(old(View), nn)
    {
      if nn in virtualServices.m {
        var vs := virtualServices.m[nn];
        virtualServices.m := virtualServices.m - {nn};
        uidToVS.m := uidToVS.m - {vs.uid};
        assert templateToVS.Valid();
        templateToVS.Remove(vs);
        vsStatusStorage.DeleteStatus(nn);
        Repr := Repr + templateToVS.Repr;
        View := DeleteService(View, nn);
      }
    }

    method SetStatus(nn: NamespacedName, invalid: bool, message: string)
      requires Valid()
      modifies Repr
      ensures Valid() && Repr == old(Repr)
      ensures View == old(View).(statuses := old(View).statuses[nn := Status(invalid, message)])
    {
      vsStatusStorage.SetStatus(nn, invalid, message);
      View := View.(statuses := vsStatusStorage.statuses.m);
    }

    method DeleteStatus(nn: NamespacedName)
      requires Valid()
      modifies Repr
      ensures Valid() && Repr == old(Repr)
      ensures View == old(View).(statuses := old(View).statuses - {nn})
    {
      vsStatusStorage.DeleteStatus(nn);
      View := View.(statuses := vsStatusStorage.statuses.m);
    }

    /** One round of the bulk load. */
    method Fill(v: VirtualService)
      requires Valid()
      modifies Repr
      ensures Valid() && fresh(Repr - old(Repr))
      ensures View == BulkLoad.LoadService(old(View), v)
    {
      virtualServices.m := virtualServices.m[v.Key() := v];
      uidToVS.m := uidToVS.m[v.uid := v];
      templateToVS.Update(v);
      Repr := Repr + templateToVS.Repr;
      View := BulkLoad.LoadService(View, v);
    }

    method FillAll(items: seq<VirtualService>)
      requires Valid()
      modifies Repr
      ensures Valid() && fresh(Repr - old(Repr))
      ensures View == BulkLoad.LoadServices(old(View), items)
    {
      for i := 0 to |items|
        invariant Valid() && fresh(Repr - old(Repr))
        invariant View == BulkLoad.LoadServices(old(View), items[..i])
      {
        assert items[..i + 1][..i] == items[..i];
        Fill(items[i].Normalize());
      }
      assert items[..|items|] == items;
    }

    method Copy() returns (c: ServiceMaps)
      requires Valid()
      ensures c.Valid() && fresh(c.Repr) && c.View == View
    {
      var services := virtualServices.Copy();
      var uids := uidToVS.Copy();
      var templates := templateToVS.Copy();
      var statuses := vsStatusStorage.Copy();
      c := new ServiceMaps(services, uids, templates, statuses);
    }
  }

  /** A part of a new store. */
  method NewServiceMaps() returns (c: ServiceMaps)
    ensures c.Valid() && fresh(c.Repr) && c.View == ServiceState(map[], map[], map[], map[])
  {
    var services := new GoMap();
    var uids := new GoMap();
    var templates := new TemplateIndex();
    var cell := new GoMap();
    var statuses := new StatusStorage(cell);
    c := new ServiceMaps(services, uids, templates, statuses);
  }
}
