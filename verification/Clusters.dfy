/** Clusters on values: the primary map, the UID index and the index by the name inside the spec. */
module Clusters {
  import opened Basics
  import opened KeyedIndex

  /** A Cluster: `v3Name` is the name UnmarshalV3 finds in the spec, None when it does not unmarshal;
      `v3Valid` is whether the unmarshalled spec also validates. */
  datatype Cluster = Cluster(namespace: string, name: string, uid: string, v3Name: Option<string>, v3Valid: bool)
  {
    function Key(): NamespacedName { NamespacedName(namespace, name) }
  }

  const UID_KEYS: Keys<Cluster> := Keys((c: Cluster) => c.Key(), (c: Cluster) => Some(c.uid))
  const SPEC_KEYS: Keys<Cluster> := Keys((c: Cluster) => c.Key(), (c: Cluster) => c.v3Name)

  datatype ClusterState = ClusterState(
    stored: map<NamespacedName, Cluster>, byUid: map<string, Cluster>, bySpec: map<string, Cluster>)
  {
    function UidIndex(): Keyed<Cluster> { Keyed(stored, byUid) }
    function SpecIndex(): Keyed<Cluster> { Keyed(stored, bySpec) }
  }

  function Unnamed(bySpec: map<string, Cluster>, c: Cluster): map<string, Cluster> {
    match c.v3Name case Some(name) => bySpec - {name} case None => bySpec
  }

  function Named(bySpec: map<string, Cluster>, c: Cluster): map<string, Cluster> {
    match c.v3Name case Some(name) => bySpec[name := c] case None => bySpec
  }

  function SetCluster(s: ClusterState, c: Cluster): ClusterState {
    var nn := c.Key();
    var known := nn in s.stored;
    var uids := if known then s.byUid - {s.stored[nn].uid} else s.byUid;
    var names := if known then Unnamed(s.bySpec, s.stored[nn]) else s.bySpec;
    ClusterState(s.stored[nn := c], uids[c.uid := c], Named(names, c))
  }

  function DeleteCluster(s: ClusterState, nn: NamespacedName): ClusterState {
    if nn !in s.stored then s
    else ClusterState(s.stored - {nn}, s.byUid - {s.stored[nn].uid}, Unnamed(s.bySpec, s.stored[nn]))
  }

  ghost predicate ClustersSound(s: ClusterState) {
    Sound(s.UidIndex(), UID_KEYS) && Sound(s.SpecIndex(), SPEC_KEYS)
  }

  lemma UidsAreKeyed(s: ClusterState, c: Cluster, nn: NamespacedName)
    ensures SetCluster(s, c).UidIndex() == Put(s.UidIndex(), c, UID_KEYS)
    ensures DeleteCluster(s, nn).UidIndex() == Drop(s.UidIndex(), nn, UID_KEYS)
  {}

  lemma SpecsAreKeyed(s: ClusterState, c: Cluster, nn: NamespacedName)
    ensures SetCluster(s, c).SpecIndex() == Put(s.SpecIndex(), c, SPEC_KEYS)
    ensures DeleteCluster(s, nn).SpecIndex() == Drop(s.SpecIndex(), nn, SPEC_KEYS)
  {}

  /** Setting and deleting clusters keeps both indexes sound, from any state. */
  lemma ClusterStepsSound(s: ClusterState, c: Cluster, nn: NamespacedName)
    requires ClustersSound(s)
    ensures ClustersSound(SetCluster(s, c)) && ClustersSound(DeleteCluster(s, nn))
  {
    UidsAreKeyed(s, c, nn);
    PutSound(s.UidIndex(), c, UID_KEYS);
    DropSound(s.UidIndex(), nn, UID_KEYS);
    SpecsAreKeyed(s, c, nn);
    PutSound(s.SpecIndex(), c, SPEC_KEYS);
    DropSound(s.SpecIndex(), nn, SPEC_KEYS);
  }

  lemma UidStepComplete(s: ClusterState, c: Cluster, nn: NamespacedName)
    requires ClustersSound(s) && Complete(s.UidIndex(), UID_KEYS)
    ensures Complete(SetCluster(s, c).UidIndex(), UID_KEYS) <==> Free(s.stored, c, UID_KEYS)
    ensures Complete(DeleteCluster(s, nn).UidIndex(), UID_KEYS)
  {
    UidsAreKeyed(s, c, nn);
    PutCompleteIffFree(s.UidIndex(), c, UID_KEYS);
    DropSound(s.UidIndex(), nn, UID_KEYS);
  }

  /** A complete spec-name index stays complete exactly when no other stored cluster has the new name. */
  lemma SpecStepComplete(s: ClusterState, c: Cluster, nn: NamespacedName)
    requires ClustersSound(s) && Complete(s.SpecIndex(), SPEC_KEYS)
    ensures Complete(SetCluster(s, c).SpecIndex(), SPEC_KEYS) <==> Free(s.stored, c, SPEC_KEYS)
    ensures Complete(DeleteCluster(s, nn).SpecIndex(), SPEC_KEYS)
  {
    SpecsAreKeyed(s, c, nn);
    PutCompleteIffFree(s.SpecIndex(), c, SPEC_KEYS);
    DropSound(s.SpecIndex(), nn, SPEC_KEYS);
  }

  // ----- Admission -----

  /** ValidateCreate: the spec unmarshals and validates, and the index names no other cluster for it. */
  predicate AdmitsCreate(s: ClusterState, c: Cluster) {
    && c.v3Name.Some? && c.v3Valid
    && (c.v3Name.value in s.bySpec ==> s.bySpec[c.v3Name.value].Key() == c.Key())
  }

  /** ValidateUpdate: only the spec itself is checked. */
  predicate AdmitsUpdate(c: Cluster) {
    c.v3Name.Some? && c.v3Valid
  }

  /** All that admission relies on: sound indexes and a complete spec-name index. */
  ghost predicate Admissible(s: ClusterState) {
    ClustersSound(s) && Complete(s.SpecIndex(), SPEC_KEYS)
  }

  /** With the spec-name index complete, the create check decides what a scan of all clusters would. */
  lemma AdmissionIsScan(s: ClusterState, c: Cluster)
    requires Admissible(s)
    ensures AdmitsCreate(s, c) <==> c.v3Name.Some? && c.v3Valid && Free(s.stored, c, SPEC_KEYS)
  {
    if c.v3Name.Some? {
      LookupIsScan(s.SpecIndex(), SPEC_KEYS, c.v3Name.value);
    }
  }

  datatype Request = Create(c: Cluster) | Update(c: Cluster) | Remove(nn: NamespacedName)

  /** An update that leaves the spec name of the stored cluster alone. */
  predicate KeepsName(s: ClusterState, c: Cluster) {
    c.Key() in s.stored && s.stored[c.Key()].v3Name == c.v3Name
  }

  /** The check and, if it passes, the change, as one step. */
  function Admit(s: ClusterState, r: Request): ClusterState {
    match r
    case Create(c) => if AdmitsCreate(s, c) then SetCluster(s, c) else s
    case Update(c) => if AdmitsUpdate(c) then SetCluster(s, c) else s
    case Remove(nn) => DeleteCluster(s, nn)
  }

  function AdmitAll(s: ClusterState, rs: seq<Request>): ClusterState {
    if rs == [] then s else Admit(AdmitAll(s, rs[..|rs| - 1]), rs[|rs| - 1])
  }

  lemma KeptNameIsFree(s: ClusterState, c: Cluster)
    requires Admissible(s) && KeepsName(s, c)
    ensures Free(s.stored, c, SPEC_KEYS)
  {
    CompleteIsUnique(s.SpecIndex(), SPEC_KEYS);
  }

  /** One request keeps the index complete exactly when it is not an admitted update to a name another
      cluster holds. */
  lemma AdmitKeepsUniqueIff(s: ClusterState, r: Request)
    requires Admissible(s)
    ensures ClustersSound(Admit(s, r))
    ensures Admissible(Admit(s, r)) <==> (r.Update? && AdmitsUpdate(r.c) ==> Free(s.stored, r.c, SPEC_KEYS))
  {
    match r
    case Create(c) =>
      AdmissionIsScan(s, c);
      ClusterStepsSound(s, c, c.Key());
      SpecStepComplete(s, c, c.Key());
    case Update(c) =>
      ClusterStepsSound(s, c, c.Key());
      SpecStepComplete(s, c, c.Key());
    case Remove(nn) =>
      ClusterStepsSound(s, Cluster("", "", "", None, false), nn);
      SpecStepComplete(s, Cluster("", "", "", None, false), nn);
  }

  /** The same said of the names themselves: one request keeps them unique exactly when it is not an admitted
      update to a name another cluster holds. */
  lemma AdmitKeepsNamesUniqueIff(s: ClusterState, r: Request)
    requires Admissible(s)
    ensures Unique(Admit(s, r).stored, SPEC_KEYS) <==> (r.Update? && AdmitsUpdate(r.c) ==> Free(s.stored, r.c, SPEC_KEYS))
  {
    AdmitKeepsUniqueIff(s, r);
    if Admissible(Admit(s, r)) {
      CompleteIsUnique(Admit(s, r).SpecIndex(), SPEC_KEYS);
    } else {
      var m :| m in s.stored && m != r.c.Key() && s.stored[m].v3Name == r.c.v3Name;
      var t := SetCluster(s, r.c);
      assert t.stored[m] == s.stored[m] && t.stored[r.c.Key()] == r.c;
    }
  }

  ghost predicate AlwaysAdmissible(s: ClusterState, rs: seq<Request>) {
    Admissible(AdmitAll(s, rs)) && (rs != [] ==> AlwaysAdmissible(s, rs[..|rs| - 1]))
  }

  /** No update of the history is admitted with a spec name another cluster holds at that moment. */
  ghost predicate NoUpdateCollides(s: ClusterState, rs: seq<Request>) {
    rs == [] ||
    var init, last := rs[..|rs| - 1], rs[|rs| - 1];
    && NoUpdateCollides(s, init)
    && (last.Update? && AdmitsUpdate(last.c) ==> Free(AdmitAll(s, init).stored, last.c, SPEC_KEYS))
  }

  /** Over any history the index stays complete exactly when no update collides. */
  lemma {:induction false} AdmissionUniqueIff(s: ClusterState, rs: seq<Request>)
    requires Admissible(s)
    ensures AlwaysAdmissible(s, rs) <==> NoUpdateCollides(s, rs)
    ensures AlwaysAdmissible(s, rs) ==> Unique(AdmitAll(s, rs).stored, SPEC_KEYS)
  {
    if rs != [] {
      var init, last := rs[..|rs| - 1], rs[|rs| - 1];
      AdmissionUniqueIff(s, init);
      if Admissible(AdmitAll(s, init)) {
        AdmitKeepsUniqueIff(AdmitAll(s, init), last);
      }
    }
    if AlwaysAdmissible(s, rs) {
      CompleteIsUnique(AdmitAll(s, rs).SpecIndex(), SPEC_KEYS);
    }
  }

  ghost predicate AlwaysUnique(s: ClusterState, rs: seq<Request>) {
    Unique(AdmitAll(s, rs).stored, SPEC_KEYS) && (rs != [] ==> AlwaysUnique(s, rs[..|rs| - 1]))
  }

  /** Over any history no two stored clusters ever share a spec name exactly when no update collides. */
  lemma {:induction false} NamesUniqueIff(s: ClusterState, rs: seq<Request>)
    requires Admissible(s)
    ensures AlwaysUnique(s, rs) <==> NoUpdateCollides(s, rs)
  {
    AdmissionUniqueIff(s, rs);
    if rs != [] {
      var init, last := rs[..|rs| - 1], rs[|rs| - 1];
      NamesUniqueIff(s, init);
      AdmissionUniqueIff(s, init);
      if NoUpdateCollides(s, init) {
        AdmitKeepsNamesUniqueIff(AdmitAll(s, init), last);
      }
    }
  }

  /** Every update of the history keeps the spec name. */
  ghost predicate UpdatesKeepNames(s: ClusterState, rs: seq<Request>) {
    rs == [] ||
    var init, last := rs[..|rs| - 1], rs[|rs| - 1];
    UpdatesKeepNames(s, init) && (last.Update? ==> KeepsName(AdmitAll(s, init), last.c))
  }

  /** Through any history of creates, deletes and name-keeping updates no two stored clusters ever share
      a spec name, and the index stays complete. */
  lemma {:induction false} AdmissionKeepsNamesUnique(s: ClusterState, rs: seq<Request>)
    requires Admissible(s) && UpdatesKeepNames(s, rs)
    ensures Admissible(AdmitAll(s, rs)) && Unique(AdmitAll(s, rs).stored, SPEC_KEYS)
  {
    if rs != [] {
      var init, last := rs[..|rs| - 1], rs[|rs| - 1];
      AdmissionKeepsNamesUnique(s, init);
      AdmitKeepsUniqueIff(AdmitAll(s, init), last);
      if last.Update? { KeptNameIsFree(AdmitAll(s, init), last.c); }
    }
    CompleteIsUnique(AdmitAll(s, rs).SpecIndex(), SPEC_KEYS);
  }

  /** Whatever is stored came through a check: its spec unmarshals and validates. */
  ghost predicate AllChecked(s: ClusterState) {
    forall nn | nn in s.stored :: s.stored[nn].v3Name.Some? && s.stored[nn].v3Valid
  }

  /** Through any history of requests every stored cluster has a spec that unmarshals and validates. */
  lemma {:induction false} AdmissionChecksAll(s: ClusterState, rs: seq<Request>)
    requires AllChecked(s)
    ensures AllChecked(AdmitAll(s, rs))
  {
    if rs != [] {
      AdmissionChecksAll(s, rs[..|rs| - 1]);
    }
  }

  /** An update passes exactly when its spec unmarshals and validates, and then it is stored. */
  lemma UpdateTakesEffect(s: ClusterState, c: Cluster)
    ensures var t, nn := Admit(s, Update(c)), NamespacedName(c.namespace, c.name);
      if c.v3Name.Some? && c.v3Valid then nn in t.stored && t.stored[nn] == c else t == s
  {}

  /** A create passes, on a complete index, exactly when the spec is fine and no other cluster holds the name, and
      then it is stored. */
  lemma CreateTakesEffect(s: ClusterState, c: Cluster)
    requires Admissible(s)
    ensures var t, nn := Admit(s, Create(c)), NamespacedName(c.namespace, c.name);
      if c.v3Name.Some? && c.v3Valid && (forall m | m in s.stored && m != nn :: s.stored[m].v3Name != c.v3Name)
      then nn in t.stored && t.stored[nn] == c else t == s
  {
    AdmissionIsScan(s, c);
  }

  /** Where it fails: once an update renames b to the spec name a holds and b is deleted, the create
      check passes any third cluster with that name although a is still stored. */
  lemma RenamingUpdateBreaksUniqueness(s: ClusterState, a: Cluster, b: Cluster, c: Cluster)
    requires Admissible(s)
    requires a.Key() in s.stored && s.stored[a.Key()] == a && a.v3Name.Some?
    requires b.Key() in s.stored && b.Key() != a.Key()
    requires b.v3Name == c.v3Name == a.v3Name && b.v3Valid && c.v3Valid && c.Key() != a.Key()
    ensures var t := Admit(Admit(s, Update(b)), Remove(b.Key()));
      && a.Key() in t.stored && t.stored[a.Key()] == a
      && AdmitsCreate(t, c) && !Free(t.stored, c, SPEC_KEYS)
  {
    var u := SetCluster(s, b);
    var t := DeleteCluster(u, b.Key());
    assert b.v3Name.value !in t.bySpec;
    assert t.stored[a.Key()] == a;
  }

  /** Five admitted requests to an empty store that end with two clusters of one spec name. */
  lemma TwoClustersOneName(a: Cluster, b: Cluster, c: Cluster)
    requires a == Cluster("ns", "a", "1", Some("x"), true) && c == Cluster("ns", "c", "3", Some("x"), true)
    requires b == Cluster("ns", "b", "2", Some("y"), true)
    ensures var s := Admit(Admit(ClusterState(map[], map[], map[]), Create(a)), Create(b));
      var t := Admit(Admit(Admit(s, Update(b.(v3Name := a.v3Name))), Remove(b.Key())), Create(c));
      && a.Key() in t.stored && c.Key() in t.stored && t.stored[a.Key()] == a && t.stored[c.Key()] == c
      && !Unique(t.stored, SPEC_KEYS)
  {
    assert a.name[0] != b.name[0] && a.name[0] != c.name[0] && b.name[0] != c.name[0];
    assert a.v3Name.value[0] != b.v3Name.value[0];
    var none := ClusterState(map[], map[], map[]);
    var s := Admit(Admit(none, Create(a)), Create(b));
    assert Admissible(s) by {
      AdmitKeepsUniqueIff(none, Create(a));
      AdmitKeepsUniqueIff(Admit(none, Create(a)), Create(b));
    }
    RenamingUpdateBreaksUniqueness(s, a, b.(v3Name := a.v3Name), c);
    var u := Admit(Admit(s, Update(b.(v3Name := a.v3Name))), Remove(b.Key()));
    var t := SetCluster(u, c);
    assert t.stored[a.Key()] == a && t.stored[c.Key()] == c;
  }
}
