/** The node-domain index in memory: an outer map from node IDs to inner sets of domains. */
module NodeDomains {
  import opened Basics
  import opened GoMaps

  /** What the index says: the domains of every node. */
  type Domains = map<string, set<string>>

  /** map[string]struct{}: a set of domains. */
  type DomainSet = GoMap<string, ()>

  class NodeDomainIndex {
    var inner: map<string, DomainSet>

    ghost var View: Domains  // what the index holds
    ghost var Repr: set<object>  // this object and its inner sets

    /** Inner sets may be shared between nodes, as in an index somebody else has built. */
    ghost predicate Readable()
      reads this, Repr
      ensures Readable() ==> this in Repr
    {
      && this in Repr
      && View.Keys == inner.Keys
      && (forall n | n in inner :: inner[n] in Repr && inner[n].m.Keys == View[n])
    }

    constructor ()
      ensures Readable() && View == map[] && Repr == {this}
    {
      inner := map[];
      View := map[];
      Repr := {this};
    }

    method PutInner(node: string, domains: DomainSet)
      requires Readable()
      modifies this
      ensures Readable() && View == old(View)[node := domains.m.Keys] && Repr == old(Repr) + {domains}
    {
      inner := inner[node := domains];
      View := View[node := domains.m.Keys];
      Repr := Repr + {domains};
    }

    /** The two nested loops of every deep copy. */
    method Copy() returns (c: NodeDomainIndex)
      requires Readable()
      ensures c.Readable() && fresh(c.Repr) && c.View == View
    {
      c := new NodeDomainIndex();
      var todo := inner.Keys;
      while todo != {}
        invariant todo <= inner.Keys
        invariant c.Readable() && fresh(c.Repr)
        invariant c.View == View - todo
        decreases todo
      {
        var n :| n in todo;
        CopyEntry(View, todo, n);
        var domains := inner[n].Copy();
        c.PutInner(n, domains);
        todo := todo - {n};
      }
    }

    /** Deep copies for the nodes asked for, and the nodes the index does not know, in the order asked. */
    method ForNodes(nodeIDs: seq<string>) returns (found: NodeDomainIndex, missing: seq<string>)
      requires Readable()
      ensures found.Readable() && fresh(found.Repr)
      ensures found.View == Among(View, nodeIDs)
      ensures missing == Without(nodeIDs, View.Keys)
    {
      found := new NodeDomainIndex();
      missing := [];
      for i := 0 to |nodeIDs|
        invariant found.Readable() && fresh(found.Repr)
        invariant found.View == Among(View, nodeIDs[..i])
        invariant missing == Without(nodeIDs[..i], View.Keys)
      {
        assert nodeIDs[..i + 1] == nodeIDs[..i] + [nodeIDs[i]];
        AmongStep(View, nodeIDs[..i], nodeIDs[i]);
        WithoutStep(nodeIDs[..i], nodeIDs[i], View.Keys);
        if nodeIDs[i] in inner {
          var domains := inner[nodeIDs[i]].Copy();
          found.PutInner(nodeIDs[i], domains);
        } else {
          missing := missing + [nodeIDs[i]];
        }
      }
      assert nodeIDs[..|nodeIDs|] == nodeIDs;
    }

    /** What somebody who holds the index may do to it: write into the set of a node. */
    method AddDomain(node: string, domain: string)
      requires Readable()
      modifies Repr
      ensures Readable() && Repr == old(Repr)
      ensures node in View <==> node in old(View)
      ensures node in View ==> View[node] == old(View)[node] + {domain}
    {
      if node in inner {
        var domains := inner[node];
        domains.m := domains.m[domain := ()];
        View := map n | n in inner :: inner[n].m.Keys;
      }
    }
  }

  /** Builds an index with given contents, as its users do. */
  method NewNodeDomainIndex(view: Domains) returns (c: NodeDomainIndex)
    ensures c.Readable() && fresh(c.Repr) && c.View == view
  {
    c := new NodeDomainIndex();
    var todo := view.Keys;
    while todo != {}
      invariant todo <= view.Keys
      invariant c.Readable() && fresh(c.Repr)
      invariant c.View == view - todo
      decreases todo
    {
      var n :| n in todo;
      CopyEntry(view, todo, n);
      var domains := new GoMap();
      domains.m := map d | d in view[n] :: ();
      assert domains.m.Keys == view[n];
      c.PutInner(n, domains);
      todo := todo - {n};
    }
  }

  /** The index cut down to some nodes. */
  function Among(view: Domains, nodes: seq<string>): Domains {
    map n | n in view && n in nodes :: view[n]
  }

  lemma AmongStep(view: Domains, nodes: seq<string>, n: string)
    ensures Among(view, nodes + [n]) == if n in view then Among(view, nodes)[n := view[n]] else Among(view, nodes)
  {}

  /** The entries of a list outside a set, in order. */
  function Without(xs: seq<string>, known: set<string>): seq<string> {
    if xs == [] then []
    else Without(xs[..|xs| - 1], known) + if xs[|xs| - 1] in known then [] else [xs[|xs| - 1]]
  }

  lemma WithoutStep(xs: seq<string>, x: string, known: set<string>)
    ensures Without(xs + [x], known) == Without(xs, known) + if x in known then [] else [x]
  {
    assert (xs + [x])[..|xs|] == xs;
  }

  /** What is left is every entry outside the set, as often as it occurs. */
  lemma {:induction false} WithoutCounts(xs: seq<string>, known: set<string>, x: string)
    ensures multiset(Without(xs, known))[x] == if x in known then 0 else multiset(xs)[x]
  {
    if xs != [] {
      var init, last := xs[..|xs| - 1], xs[|xs| - 1];
      assert xs == init + [last];
      WithoutCounts(init, known, x);
    }
  }

  /** And in its order. */
  lemma {:induction false} WithoutConcat(xs: seq<string>, ys: seq<string>, known: set<string>)
    ensures Without(xs + ys, known) == Without(xs, known) + Without(ys, known)
  {
    if ys == [] {
      assert xs + ys == xs;
    } else {
      var init, last := ys[..|ys| - 1], ys[|ys| - 1];
      assert xs + ys == (xs + init) + [last];
      WithoutConcat(xs, init, known);
      WithoutStep(xs + init, last, known);
    }
  }
}
