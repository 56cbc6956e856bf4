/** VirtualServices on values: the primary map, the UID index and the template index. */
module VirtualServices {
  import opened Basics
  import KeyedIndex

  /** A reference to another resource; a missing namespace stands for the referrer's own. */
  datatype ResourceRef = ResourceRef(namespace: Option<string>, name: string)

  /** The reference with its namespace spelled out. */
  function SpelledOut(ref: Option<ResourceRef>, own: string): Option<ResourceRef> {
    match ref
    case Some(ResourceRef(None, n)) => Some(ResourceRef(Some(own), n))
    case _ => ref
  }

  /** A VirtualService as the store sees it; `spec` stands for everything the store does not touch. */
  datatype VirtualService = VirtualService(namespace: string, name: string, uid: string,
                                           template: Option<ResourceRef>, tracing: Option<ResourceRef>, spec: string)
  {
    function Key(): NamespacedName { NamespacedName(namespace, name) }

    /** The template a service resolves to; the namespace defaults to the service's own. */
    function TemplateKey(): Option<NamespacedName> {
      match template
      case None => None
      case Some(ref) =>
        Some(NamespacedName(match ref.namespace case Some(ns) => ns case None => namespace, ref.name))
    }

    /** NormalizeSpec: spells out the default namespaces of the template and of the tracing reference. */
    function Normalize(): VirtualService {
      this.(template := SpelledOut(template, namespace), tracing := SpelledOut(tracing, namespace))
    }
  }

  /** A reference resolves to a name: its own, in the namespace it gives or else in that of the referrer. */
  ghost predicate RefersTo(ref: ResourceRef, own: string, t: NamespacedName) {
    && t.name == ref.name
    && (forall ns :: ref.namespace == Some(ns) ==> t.namespace == ns)
    && (ref.namespace == None ==> t.namespace == own)
  }

  /** A service resolves to a template exactly when it has a reference to it. */
  lemma TemplateKeyIs(v: VirtualService, t: NamespacedName)
    ensures v.TemplateKey() == Some(t) <==> v.template.Some? && RefersTo(v.template.value, v.namespace, t)
  {}

  /** A reference after normalising: there if it was, to the same resource, with the namespace given. */
  ghost predicate SameTarget(before: Option<ResourceRef>, after: Option<ResourceRef>, own: string) {
    && (before.None? <==> after.None?)
    && (before.Some? ==>
          && after.value.namespace.Some?
          && RefersTo(before.value, own, NamespacedName(after.value.namespace.value, after.value.name)))
  }

  /** Normalising changes the spelling of the two references and nothing else. */
  lemma NormalizeKeeps(v: VirtualService)
    ensures var w := v.Normalize();
      && w.namespace == v.namespace && w.name == v.name && w.uid == v.uid && w.spec == v.spec
      && SameTarget(v.template, w.template, v.namespace) && SameTarget(v.tracing, w.tracing, v.namespace)
      && w.TemplateKey() == v.TemplateKey() && w.Normalize() == w
  {}

  type Services = map<NamespacedName, VirtualService>
  type Lists = map<NamespacedName, seq<VirtualService>>

  const UID_KEYS: KeyedIndex.Keys<VirtualService> :=
    KeyedIndex.Keys((v: VirtualService) => v.Key(), (v: VirtualService) => Some(v.uid))

  // ----- The template index -----

  function ListAt(lists: Lists, t: NamespacedName): seq<VirtualService> {
    if t in lists then lists[t] else []
  }

  /** The position of the first service with this UID, or the length of the list. */
  function FindUid(list: seq<VirtualService>, uid: string): (i: nat)
    ensures i <= |list|
    ensures i < |list| ==> list[i].uid == uid
    ensures forall j | 0 <= j < i :: list[j].uid != uid
  {
    if list == [] || list[0].uid == uid then 0 else 1 + FindUid(list[1..], uid)
  }

  /** updateTemplateIndex: appends, unless the list already has the UID. */
  function AddToTemplate(lists: Lists, v: VirtualService): Lists {
    match v.TemplateKey()
    case None => lists
    case Some(t) =>
      var list := ListAt(lists, t);
      if FindUid(list, v.uid) < |list| then lists else lists[t := list + [v]]
  }

  /** removeFromTemplateIndex: takes out the first service with the UID. */
  function RemoveFromTemplate(lists: Lists, v: VirtualService): Lists {
    match v.TemplateKey()
    case None => lists
    case Some(t) =>
      var list := ListAt(lists, t);
      var i := FindUid(list, v.uid);
      if i < |list| then lists[t := list[..i] + list[i + 1..]] else lists
  }

  /** What a template's list becomes, complete or not: a service is appended to the list of its template unless its
      UID is listed there already, and no other list changes. */
  lemma AddToTemplateLists(lists: Lists, v: VirtualService, t: NamespacedName)
    ensures var before, after := ListAt(lists, t), ListAt(AddToTemplate(lists, v), t);
      if v.TemplateKey() == Some(t) && forall i | 0 <= i < |before| :: before[i].uid != v.uid then after == before + [v]
      else after == before
  {}

  /** The first service with the UID, at position i, is taken out of the list of the template, the order of the
      others kept; nothing else changes. */
  lemma RemoveFromTemplateLists(lists: Lists, v: VirtualService, t: NamespacedName, i: nat)
    requires i <= |ListAt(lists, t)| && (i < |ListAt(lists, t)| ==> ListAt(lists, t)[i].uid == v.uid)
    requires forall j | 0 <= j < i :: ListAt(lists, t)[j].uid != v.uid
    ensures var before, after := ListAt(lists, t), ListAt(RemoveFromTemplate(lists, v), t);
      if v.TemplateKey() == Some(t) && i < |before| then after == before[..i] + before[i + 1..] else after == before
  {}

  /** Each listed service is stored and resolves to the template, and no list repeats a UID. */
  ghost predicate ListsSound(lists: Lists, stored: Services) {
    && (forall nn | nn in stored :: stored[nn].Key() == nn)
    && (forall t, i | t in lists && 0 <= i < |lists[t]| ::
          var v := lists[t][i];
          v.TemplateKey() == Some(t) && v.Key() in stored && stored[v.Key()] == v)
    && (forall t | t in lists :: DistinctUids(lists[t]))
  }

  /** Each stored service with a template is in that template's list. */
  ghost predicate ListsComplete(lists: Lists, stored: Services) {
    forall nn | nn in stored && stored[nn].TemplateKey().Some? :: stored[nn] in ListAt(lists, stored[nn].TemplateKey().value)
  }

  /** What a scan of all stored services finds for a template. */
  function UsersOf(stored: Services, t: NamespacedName): set<VirtualService> {
    set nn | nn in stored && stored[nn].TemplateKey() == Some(t) :: stored[nn]
  }

  /** No other stored service resolving to v's template carries v's UID. */
  predicate TemplateFree(stored: Services, v: VirtualService) {
    v.TemplateKey().None? ||
    forall m | m in stored && m != v.Key() && stored[m].TemplateKey() == v.TemplateKey() :: stored[m].uid != v.uid
  }

  /** A sound and complete index lists, without repeats, exactly the services a scan finds. */
  lemma ListIsScan(lists: Lists, stored: Services, t: NamespacedName)
    requires ListsSound(lists, stored) && ListsComplete(lists, stored)
    ensures (set v | v in ListAt(lists, t)) == UsersOf(stored, t)
    ensures forall i, j | 0 <= i < j < |ListAt(lists, t)| :: ListAt(lists, t)[i] != ListAt(lists, t)[j]
  {
    forall v | v in ListAt(lists, t) ensures v in UsersOf(stored, t) {
      var i :| 0 <= i < |lists[t]| && lists[t][i] == v;
      assert stored[v.Key()] == v;
    }
  }

  ghost predicate DistinctUids(list: seq<VirtualService>) {
    forall i, j | 0 <= i < j < |list| :: list[i].uid != list[j].uid
  }

  lemma WithoutAt(list: seq<VirtualService>, i: nat)
    requires i < |list| && DistinctUids(list)
    ensures var rest := list[..i] + list[i + 1..];
      DistinctUids(rest) && forall w :: w in rest <==> w in list && w.uid != list[i].uid
  {
    var rest := list[..i] + list[i + 1..];
    forall j | 0 <= j < |rest| ensures rest[j] == list[if j < i then j else j + 1] {}
    forall w | w in list && w.uid != list[i].uid ensures w in rest {
      var j :| 0 <= j < |list| && list[j] == w;
      assert rest[if j < i then j else j - 1] == w;
    }
  }

  /** Removing a stored service takes it, and nothing else, out of the lists. */
  lemma RemoveTakesOut(lists: Lists, stored: Services, nn: NamespacedName, t: NamespacedName)
    requires ListsSound(lists, stored) && nn in stored
    ensures var list, list' := ListAt(lists, t), ListAt(RemoveFromTemplate(lists, stored[nn]), t);
      && DistinctUids(list')
      && (forall w | w in list' :: w in list && w.Key() != nn)
      && (forall w | w in list && (stored[nn].TemplateKey() != Some(t) || w.uid != stored[nn].uid) :: w in list')
  {
    var v, list := stored[nn], ListAt(lists, t);
    forall w | w in list ensures w.Key() in stored && stored[w.Key()] == w && w.TemplateKey() == Some(t) {
      var j :| 0 <= j < |list| && list[j] == w;
    }
    var i := FindUid(list, v.uid);
    if i < |list| {
      WithoutAt(list, i);
    } else {
      forall w | w in list ensures w.uid != v.uid {
        var j :| 0 <= j < |list| && list[j] == w;
      }
    }
  }

  lemma RemoveSound(lists: Lists, stored: Services, nn: NamespacedName)
    requires ListsSound(lists, stored) && nn in stored
    ensures ListsSound(RemoveFromTemplate(lists, stored[nn]), stored - {nn})
    ensures ListsComplete(lists, stored) ==> ListsComplete(RemoveFromTemplate(lists, stored[nn]), stored - {nn})
  {
    var lists', stored': Services := RemoveFromTemplate(lists, stored[nn]), stored - {nn};
    forall t, i | t in lists' && 0 <= i < |lists'[t]|
      ensures var v: VirtualService := lists'[t][i]; v.TemplateKey() == Some(t) && v.Key() in stored' && stored'[v.Key()] == v
    {
      RemoveTakesOut(lists, stored, nn, t);
      var v := lists'[t][i];
      var j :| 0 <= j < |lists[t]| && lists[t][j] == v;
    }
    forall t | t in lists' ensures DistinctUids(lists'[t]) {
      RemoveTakesOut(lists, stored, nn, t);
    }
    if ListsComplete(lists, stored) {
      forall m | m in stored' && stored'[m].TemplateKey().Some?
        ensures stored'[m] in ListAt(lists', stored'[m].TemplateKey().value)
      {
        var t := stored[m].TemplateKey().value;
        RemoveTakesOut(lists, stored, nn, t);
        if stored[nn].TemplateKey() == Some(t) {
          SameListSameUid(lists[t], stored[m], stored[nn]);
        }
      }
    }
  }

  lemma SameListSameUid(list: seq<VirtualService>, v: VirtualService, w: VirtualService)
    requires DistinctUids(list) && v in list && w in list && v != w
    ensures v.uid != w.uid
  {
    var i, j :| 0 <= i < |list| && list[i] == v && 0 <= j < |list| && list[j] == w;
  }

  lemma AddSound(lists: Lists, stored: Services, v: VirtualService)
    requires ListsSound(lists, stored) && v.Key() !in stored
    ensures ListsSound(AddToTemplate(lists, v), stored[v.Key() := v])
    ensures ListsComplete(lists, stored) ==>
      (ListsComplete(AddToTemplate(lists, v), stored[v.Key() := v]) <==> TemplateFree(stored, v))
  {
    var stored' := stored[v.Key() := v];
    var lists' := AddToTemplate(lists, v);
    if v.TemplateKey().Some? {
      var t := v.TemplateKey().value;
      var list := ListAt(lists, t);
      var i := FindUid(list, v.uid);
      if i < |list| {
        assert list[i].Key() != v.Key();
        assert forall j | 0 <= j < |list| :: list[j].Key() in stored;
        assert stored'[v.Key()] == v && v !in ListAt(lists', t);
        assert !TemplateFree(stored, v);
      } else if ListsComplete(lists, stored) {
        forall m | m in stored && stored[m].TemplateKey() == Some(t) ensures stored[m].uid != v.uid {
          var j :| 0 <= j < |list| && list[j] == stored[m];
        }
      }
    }
  }

  // ----- The whole part of the store that deals with services -----

  datatype Status = Status(invalid: bool, message: string)
  const NO_STATUS := Status(false, "")

  datatype ServiceState = ServiceState(
    stored: Services, byUid: map<string, VirtualService>, byTemplate: Lists, statuses: map<NamespacedName, Status>)
  {
    function UidIndex(): KeyedIndex.Keyed<VirtualService> { KeyedIndex.Keyed(stored, byUid) }

    function GetStatus(nn: NamespacedName): Status {
      if nn in statuses then statuses[nn] else NO_STATUS
    }
  }

  function SetService(s: ServiceState, v: VirtualService): ServiceState {
    var nn := v.Key();
    var known := nn in s.stored;
    var uids := if known then s.byUid - {s.stored[nn].uid} else s.byUid;
    var lists := if known then RemoveFromTemplate(s.byTemplate, s.stored[nn]) else s.byTemplate;
    s.(stored := s.stored[nn := v], byUid := uids[v.uid := v], byTemplate := AddToTemplate(lists, v))
  }

  function DeleteService(s: ServiceState, nn: NamespacedName): ServiceState {
    if nn !in s.stored then s
    else ServiceState(s.stored - {nn}, s.byUid - {s.stored[nn].uid}, RemoveFromTemplate(s.byTemplate, s.stored[nn]),
                      s.statuses - {nn})
  }

  /** Both indexes are sound. */
  ghost predicate ServicesSound(s: ServiceState) {
    KeyedIndex.Sound(s.UidIndex(), UID_KEYS) && ListsSound(s.byTemplate, s.stored)
  }

  lemma ServicesAreKeyed(s: ServiceState, v: VirtualService, nn: NamespacedName)
    ensures SetService(s, v).UidIndex() == KeyedIndex.Put(s.UidIndex(), v, UID_KEYS)
    ensures DeleteService(s, nn).UidIndex() == KeyedIndex.Drop(s.UidIndex(), nn, UID_KEYS)
  {}

  lemma SetServiceLists(s: ServiceState, v: VirtualService)
    requires ListsSound(s.byTemplate, s.stored)
    ensures var t := SetService(s, v);
      && ListsSound(t.byTemplate, t.stored)
      && (ListsComplete(s.byTemplate, s.stored) ==>
            (ListsComplete(t.byTemplate, t.stored) <==> TemplateFree(s.stored, v)))
  {
    var nn := v.Key();
    if nn in s.stored {
      var rest := s.stored - {nn};
      RemoveSound(s.byTemplate, s.stored, nn);
      AddSound(RemoveFromTemplate(s.byTemplate, s.stored[nn]), rest, v);
      assert rest[nn := v] == s.stored[nn := v];
      assert forall m | m in s.stored && m != nn :: m in rest && rest[m] == s.stored[m];
      assert TemplateFree(rest, v) <==> TemplateFree(s.stored, v);
    } else {
      AddSound(s.byTemplate, s.stored, v);
    }
  }

  /** Setting and deleting services keeps both indexes sound, from any state. */
  lemma ServiceStepsSound(s: ServiceState, v: VirtualService, nn: NamespacedName)
    requires ServicesSound(s)
    ensures ServicesSound(SetService(s, v)) && ServicesSound(DeleteService(s, nn))
  {
    ServicesAreKeyed(s, v, nn);
    KeyedIndex.PutSound(s.UidIndex(), v, UID_KEYS);
    KeyedIndex.DropSound(s.UidIndex(), nn, UID_KEYS);
    SetServiceLists(s, v);
    if nn in s.stored { RemoveSound(s.byTemplate, s.stored, nn); }
  }

  /** A complete UID index stays complete exactly when no other stored service has the new UID. */
  lemma UidStepComplete(s: ServiceState, v: VirtualService, nn: NamespacedName)
    requires ServicesSound(s) && KeyedIndex.Complete(s.UidIndex(), UID_KEYS)
    ensures KeyedIndex.Complete(SetService(s, v).UidIndex(), UID_KEYS) <==> KeyedIndex.Free(s.stored, v, UID_KEYS)
    ensures KeyedIndex.Complete(DeleteService(s, nn).UidIndex(), UID_KEYS)
  {
    ServicesAreKeyed(s, v, nn);
    KeyedIndex.PutCompleteIffFree(s.UidIndex(), v, UID_KEYS);
    KeyedIndex.DropSound(s.UidIndex(), nn, UID_KEYS);
  }

  lemma TemplateStepComplete(s: ServiceState, v: VirtualService, nn: NamespacedName)
    requires ServicesSound(s) && ListsComplete(s.byTemplate, s.stored)
    ensures ListsComplete(SetService(s, v).byTemplate, SetService(s, v).stored) <==> TemplateFree(s.stored, v)
    ensures ListsComplete(DeleteService(s, nn).byTemplate, DeleteService(s, nn).stored)
  {
    SetServiceLists(s, v);
    if nn in s.stored { RemoveSound(s.byTemplate, s.stored, nn); }
  }
}
