/** The registry of connected xDS clients and the stream events that drive it. */
module Registry {
  import opened Basics

  /** A client as List reports it. */
  datatype ClientInfo = ClientInfo(id: int, nodeId: string, address: string, version: string)

  /** A registered client in memory; requests change it in place. */
  class Info {
    const id: int
    var nodeId: string
    var address: string
    var version: string

    constructor (id: int, nodeId: string, address: string, version: string)
      ensures this.id == id && this.nodeId == nodeId && this.address == address && this.version == version
    {
      this.id, this.nodeId, this.address, this.version := id, nodeId, address, version;
    }

    function Value(): ClientInfo
      reads this
    {
      ClientInfo(id, nodeId, address, version)
    }
  }

  datatype Event =
    | StreamOpen(id: int)
    | DeltaStreamOpen(id: int, peer: Option<string>)
    | Request(id: int, nodeId: string, version: string)
    | StreamClosed(id: int)

  type Clients = map<int, ClientInfo>

  function AfterUpdate(cs: Clients, id: int, ci: ClientInfo): Clients {
    cs[id := if id in cs then cs[id].(nodeId := ci.nodeId, version := ci.version) else ci]
  }

  function AddressOf(peer: Option<string>): string {
    match peer case Some(a) => a case None => ""
  }

  /** What one event does to the registered clients. */
  function After(cs: Clients, e: Event): Clients {
    match e
    case StreamOpen(_) => cs
    case DeltaStreamOpen(id, peer) => cs[id := ClientInfo(id, "", AddressOf(peer), "")]
    case Request(id, nodeId, version) => AfterUpdate(cs, id, ClientInfo(id, nodeId, "", version))
    case StreamClosed(id) => cs - {id}
  }

  function AfterAll(events: seq<Event>): Clients {
    if events == [] then map[] else After(AfterAll(events[..|events| - 1]), events[|events| - 1])
  }

  class Registry {
    var data: map<int, Info>

    ghost var View: Clients  // the registered clients as values
    ghost var Repr: set<object>

    ghost predicate Valid()
      reads this, Repr
      ensures Valid() ==> this in Repr
    {
      && this in Repr
      && View.Keys == data.Keys
      && (forall i | i in data :: data[i] in Repr && data[i].Value() == View[i])
    }

    /** No Info is registered under two ids. */
    ghost predicate Unshared()
      reads this
    {
      forall i, j | i in data && j in data && i != j :: data[i] != data[j]
    }

    constructor ()
      ensures Valid() && Unshared() && View == map[] && fresh(Repr)
    {
      data := map[];
      View := map[];
      Repr := {this};
    }

    method Set(id: int, ci: Info)
      requires Valid()
      modifies this
      ensures Valid() && Repr == old(Repr) + {ci} && data == old(data)[id := ci]
      ensures View == old(View)[id := ci.Value()]
    {
      data := data[id := ci];
      View := View[id := ci.Value()];
      Repr := Repr + {ci};
    }

    /** Writes into the registered Info, and so to every id it is registered under. */
    method Update(id: int, ci: Info)
      requires Valid()
      modifies Repr
      ensures Valid() && Repr <= old(Repr) + {ci}
      ensures data == if id in old(data) then old(data) else old(data)[id := ci]
      ensures id !in old(data) ==> View == old(View)[id := old(ci.Value())]
      ensures id in old(data) ==> View.Keys == old(View).Keys && forall i | i in View ::
        View[i] ==
        if old(data)[i] == old(data)[id] then old(View)[i].(nodeId := old(ci.nodeId), version := old(ci.version)) else old(View)[i]
      ensures old(Unshared()) ==> View == AfterUpdate(old(View), id, old(ci.Value()))
    {
      if id !in data {
        Set(id, ci);
        return;
      }
      var prev := data[id];
      var version, nodeId := ci.version, ci.nodeId;
      prev.version := version;
      prev.nodeId := nodeId;
      View := map i | i in data :: data[i].Value();
      if old(Unshared()) {
        forall i | i in data && i != id ensures View[i] == old(View)[i] { assert data[i] != prev; }
        assert View == AfterUpdate(old(View), id, old(ci.Value()));
      }
    }

    method Delete(id: int)
      requires Valid()
      modifies this
      ensures Valid() && Repr == old(Repr) && data == old(data) - {id} && View == old(View) - {id}
    {
      data := data - {id};
      View := View - {id};
    }

    /** A snapshot: one value per registered id, in order of the ids inside the values; where clients lie under
        their own ids, every client once and in strictly increasing order. */
    method List() returns (result: seq<ClientInfo>)
      requires Valid()
      ensures forall c :: multiset(result)[c] == |Holders(View, View.Keys, c)|
      ensures forall i, j | 0 <= i < j < |result| :: result[i].id <= result[j].id
      ensures OwnIds(View) ==> forall i, j | 0 <= i < j < |result| :: result[i].id < result[j].id
      ensures OwnIds(View) ==> forall c :: c in result <==> c.id in View && View[c.id] == c
    {
      result := [];
      var todo := data.Keys;
      forall c ensures Holders(View, View.Keys - todo, c) == {} {}
      while todo != {}
        invariant todo <= data.Keys
        invariant forall c :: multiset(result)[c] == |Holders(View, View.Keys - todo, c)|
        decreases todo
      {
        SomeId(todo);
        var id :| id in todo;
        HoldersStep(View, View.Keys - todo, id);
        assert View.Keys - (todo - {id}) == View.Keys - todo + {id};
        result := result + [data[id].Value()];
        todo := todo - {id};
      }
      assert View.Keys - todo == View.Keys;
      SortSliceSorts(result, LessById);
      result := SortSlice(result, LessById);
      if OwnIds(View) {
        SortedListing(View, result);
      }
    }
  }

  lemma SomeId(ids: set<int>)
    requires ids != {}
    ensures exists id :: id in ids
  {
    assert (forall id :: id !in ids) ==> ids == {};
  }

  predicate LessById(c: ClientInfo, d: ClientInfo) {
    c.id < d.id
  }

  ghost predicate OwnIds(cs: Clients) {
    forall id | id in cs :: cs[id].id == id
  }

  /** The ids, of some, under which a value is registered. */
  function Holders(cs: Clients, ids: set<int>, c: ClientInfo): set<int>
    requires ids <= cs.Keys
  {
    set id | id in ids && cs[id] == c
  }

  lemma HoldersStep(cs: Clients, ids: set<int>, id: int)
    requires ids <= cs.Keys && id in cs && id !in ids
    ensures forall c :: |Holders(cs, ids + {id}, c)| == |Holders(cs, ids, c)| + if c == cs[id] then 1 else 0
  {
    forall c ensures Holders(cs, ids + {id}, c) == Holders(cs, ids, c) + if c == cs[id] then {id} else {} {}
  }

  lemma OneHolder(cs: Clients, c: ClientInfo)
    requires OwnIds(cs)
    ensures |Holders(cs, cs.Keys, c)| == if c.id in cs && cs[c.id] == c then 1 else 0
  {
    if c.id in cs && cs[c.id] == c {
      forall id | id in Holders(cs, cs.Keys, c) ensures id == c.id { assert cs[id].id == id; }
      assert c.id in Holders(cs, cs.Keys, c);
      assert Holders(cs, cs.Keys, c) == {c.id};
    } else {
      forall id | id in cs ensures cs[id] != c {}
      assert Holders(cs, cs.Keys, c) == {};
    }
  }

  lemma SortedListing(cs: Clients, result: seq<ClientInfo>)
    requires OwnIds(cs) && Sorted(result, LessById)
    requires forall c :: multiset(result)[c] == |Holders(cs, cs.Keys, c)|
    ensures forall i, j | 0 <= i < j < |result| :: result[i].id < result[j].id
    ensures forall c :: c in result <==> c.id in cs && cs[c.id] == c
  {
    forall c ensures c in result <==> c.id in cs && cs[c.id] == c {
      assert c in result <==> c in multiset(result);
      OneHolder(cs, c);
    }
    forall i, j | 0 <= i < j < |result| ensures result[i].id < result[j].id {
      assert result[i] in result && result[j] in result;
      OneHolder(cs, result[i]);
      if result[i] == result[j] {
        Repeated(result, i, j);
      }
    }
  }

  lemma Repeated<T>(s: seq<T>, i: nat, j: nat)
    requires i < j < |s| && s[i] == s[j]
    ensures multiset(s)[s[i]] >= 2
  {
    assert s == s[..j] + [s[j]] + s[j + 1..];
    assert s[i] in s[..j];
  }

  // ----- The callbacks -----

  class Callbacks {
    const connectedClients: Registry

    constructor (registry: Registry)
      ensures connectedClients == registry
    {
      connectedClients := registry;
    }

    /** One stream event; the two request callbacks and the two close callbacks do the same here. */
    method Handle(e: Event)
      requires connectedClients.Valid() && connectedClients.Unshared()
      modifies connectedClients.Repr
      ensures connectedClients.Valid() && connectedClients.Unshared()
      ensures fresh(connectedClients.Repr - old(connectedClients.Repr))
      ensures connectedClients.View == After(old(connectedClients.View), e)
    {
      match e
      case StreamOpen(_) =>
      case DeltaStreamOpen(id, peer) =>
        var info := new Info(id, "", AddressOf(peer), "");
        connectedClients.Set(id, info);
      case Request(id, nodeId, version) =>
        var info := new Info(id, nodeId, "", version);
        connectedClients.Update(id, info);
      case StreamClosed(id) =>
        connectedClients.Delete(id);
    }

    method HandleAll(events: seq<Event>)
      requires connectedClients.Valid() && connectedClients.Unshared() && connectedClients.View == map[]
      modifies connectedClients.Repr
      ensures connectedClients.Valid() && connectedClients.View == AfterAll(events)
    {
      for i := 0 to |events|
        invariant connectedClients.Valid() && connectedClients.Unshared()
        invariant fresh(connectedClients.Repr - old(connectedClients.Repr))
        invariant connectedClients.View == AfterAll(events[..i])
      {
        assert events[..i + 1][..i] == events[..i];
        Handle(events[i]);
      }
      assert events[..|events|] == events;
    }
  }

  // ----- What the registry says about the past -----

  datatype Kind = Opened | Requested | Closed

  predicate Is(e: Event, id: int, kind: Kind) {
    match kind
    case Opened => e.DeltaStreamOpen? && e.id == id
    case Requested => e.Request? && e.id == id
    case Closed => e.StreamClosed? && e.id == id
  }

  /** The last moment an event of the kind happened for the id, or -1. */
  function Last(events: seq<Event>, id: int, kind: Kind): (n: int)
    ensures -1 <= n < |events|
    ensures n >= 0 ==> Is(events[n], id, kind)
    ensures forall i | n < i < |events| :: !Is(events[i], id, kind)
  {
    if events == [] then -1
    else if Is(events[|events| - 1], id, kind) then |events| - 1
    else Last(events[..|events| - 1], id, kind)
  }

  /** After any sequence of events an id is registered exactly when a delta-open or a request came after
      its last close; the address is that of the last delta-open in that span, and node and version are
      those of the last request after that open or close. */
  lemma {:induction false} RegistryIsHistory(events: seq<Event>, id: int)
    ensures var cs := AfterAll(events);
      var open, req, close := Last(events, id, Opened), Last(events, id, Requested), Last(events, id, Closed);
      && (id in cs <==> open > close || req > close)
      && (id in cs ==>
            && cs[id].id == id
            && cs[id].address == (if open > close && events[open].peer.Some? then events[open].peer.value else "")
            && (if req > close && req > open
                then cs[id].nodeId == events[req].nodeId && cs[id].version == events[req].version
                else cs[id].nodeId == "" && cs[id].version == ""))
  {
    if events != [] {
      RegistryIsHistory(events[..|events| - 1], id);
    }
  }
}
