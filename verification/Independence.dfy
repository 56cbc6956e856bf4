/** A store, its copy, and what their users hold: who can see whose changes. */
module Independence {
  import opened Basics
  import opened GoMaps
  import opened StoreModel
  import opened NodeDomains
  import opened Store
  import VS = VirtualServices
  import CL = Clusters

  /** One step of a script: an operation on one of two stores, or a user writing into the node-domain index
      given to a store or into the one handed out by it. */
  datatype Turn =
    | OnFirst(op: Op)
    | OnSecond(op: Op)
    | OnGiven(node: string, domain: string)
    | OnHandedOut(node: string, domain: string)

  function FirstOps(script: seq<Turn>): seq<Op> {
    if script == [] then [] else (if script[0].OnFirst? then [script[0].op] else []) + FirstOps(script[1..])
  }

  function SecondOps(script: seq<Turn>): seq<Op> {
    if script == [] then [] else (if script[0].OnSecond? then [script[0].op] else []) + SecondOps(script[1..])
  }

  lemma RunCons(s: State, op: Op, rest: seq<Op>)
    ensures Run(s, [op] + rest) == Run(Apply(s, op), rest)
    ensures Run(s, [] + rest) == Run(s, rest)
  {
    RunConcat(s, [op], rest);
    assert [op] == [] + [op];
    RunAppend(s, [], op);
    assert [] + rest == rest;
  }

  /** Two stores and two indexes that share no memory. */
  ghost predicate Apart(s: OptimizedStore, c: OptimizedStore, x: NodeDomainIndex, y: NodeDomainIndex)
    reads s, s.Repr, c, c.Repr, x, x.Repr, y, y.Repr
  {
    && s.Valid() && c.Valid() && x.Readable() && y.Readable()
    && s.Repr !! c.Repr && s.Repr !! x.Repr && s.Repr !! y.Repr
    && c.Repr !! x.Repr && c.Repr !! y.Repr && x.Repr !! y.Repr
  }

  /** An operation on one store leaves everything else alone. */
  method PerformBeside(s: OptimizedStore, c: OptimizedStore, x: NodeDomainIndex, y: NodeDomainIndex, op: Op)
    requires Apart(s, c, x, y)
    modifies s.Repr
    ensures Apart(s, c, x, y) && fresh(s.Repr - old(s.Repr))
    ensures s.View() == Apply(old(s.View()), op) && c.View() == old(c.View())
  {
    s.Perform(op);
  }

  /** So does a user's write into an index it holds. */
  method WriteBeside(s: OptimizedStore, c: OptimizedStore, x: NodeDomainIndex, y: NodeDomainIndex, node: string, domain: string)
    requires Apart(s, c, x, y)
    modifies x.Repr
    ensures Apart(s, c, x, y) && x.Repr == old(x.Repr)
    ensures s.View() == old(s.View()) && c.View() == old(c.View())
  {
    x.AddDomain(node, domain);
  }

  /** Whatever is done to two stores and two indexes that share no memory, in any interleaving: each store ends
      up as if nothing else had been there, and an index changes only if its holder writes into it. */
  method Interleave(s: OptimizedStore, c: OptimizedStore, given: NodeDomainIndex, handedOut: NodeDomainIndex, script: seq<Turn>)
    requires Apart(s, c, given, handedOut)
    modifies s.Repr, c.Repr, given.Repr, handedOut.Repr
    decreases |script|
    ensures s.View() == Run(old(s.View()), FirstOps(script))
    ensures c.View() == Run(old(c.View()), SecondOps(script))
    ensures given.Readable() && ((forall turn | turn in script :: !turn.OnGiven?) ==> given.View == old(given.View))
    ensures handedOut.Readable() && ((forall turn | turn in script :: !turn.OnHandedOut?) ==> handedOut.View == old(handedOut.View))
  {
    if |script| > 0 {
      var turn, rest := script[0], script[1..];
      assert turn in script && forall t | t in rest :: t in script;
      if turn.OnFirst? || turn.OnSecond? {
        RunCons(s.View(), turn.op, FirstOps(rest));
        RunCons(c.View(), turn.op, SecondOps(rest));
      } else {
        assert [] + FirstOps(rest) == FirstOps(rest) && [] + SecondOps(rest) == SecondOps(rest);
      }
      match turn {
        case OnFirst(op) => PerformBeside(s, c, given, handedOut, op);
        case OnSecond(op) => PerformBeside(c, s, given, handedOut, op);
        case OnGiven(node, domain) => WriteBeside(s, c, given, handedOut, node, domain);
        case OnHandedOut(node, domain) => WriteBeside(s, c, handedOut, given, node, domain);
      }
      Interleave(s, c, given, handedOut, rest);
    }
  }

  /** What users hold of a store: an index, a template list and a map it handed out. */
  datatype Held = Held(nodes: NodeDomainIndex, list: array<VS.VirtualService>, specs: GoMap<string, CL.Cluster>)

  /** The list and the map lie outside a piece of memory. */
  predicate Outside(h: Held, memory: set<object>) {
    h.list !in memory && h.specs !in memory
  }

  /** The template list as its user sees it: none is as good as an empty one. */
  method HandOutList(s: OptimizedStore, t: NamespacedName) returns (list: array<VS.VirtualService>)
    requires s.Valid()
    ensures fresh(list) && list[..] == VS.ListAt(s.View().services.byTemplate, t)
  {
    var r := s.GetVirtualServicesByTemplate(t);
    match r
    case Some(a) => list := a;
    case None => list := new VS.VirtualService[0];
  }

  /** Everything held is memory of its own with the contents the store had. */
  method HandOut(s: OptimizedStore, t: NamespacedName) returns (h: Held)
    requires s.Valid()
    ensures h.nodes.Readable() && fresh(h.nodes.Repr) && h.nodes.View == s.View().nodes
    ensures fresh(h.list) && fresh(h.specs) && Outside(h, h.nodes.Repr)
    ensures h.list[..] == VS.ListAt(s.View().services.byTemplate, t) && h.specs.m == s.View().clusters.bySpec
  {
    var list := HandOutList(s, t);
    var specs := s.MapSpecClusters();
    var nodes := s.GetNodeDomainsIndex();
    h := Held(nodes, list, specs);
  }

  /** A store takes over an index, hands things out and is copied. */
  method Prepare(s: OptimizedStore, given: NodeDomainIndex, t: NamespacedName) returns (c: OptimizedStore, h: Held)
    requires s.Valid() && given.Readable() && s.Repr !! given.Repr
    modifies s
    ensures Apart(s, c, given, h.nodes)
    ensures fresh(s.Repr - old(s.Repr)) && fresh(c.Repr) && fresh(h.nodes.Repr) && given.Repr == old(given.Repr)
    ensures Outside(h, s.Repr) && Outside(h, c.Repr) && Outside(h, given.Repr) && Outside(h, h.nodes.Repr)
    ensures s.View() == c.View() == old(s.View()).(nodes := old(given.View))
    ensures h.nodes.View == given.View == old(given.View)
    ensures h.list[..] == VS.ListAt(s.View().services.byTemplate, t) && h.specs.m == s.View().clusters.bySpec
  {
    assert s !in given.Repr;
    s.ReplaceNodeDomainsIndex(given);
    assert given.Readable() && s.Repr !! given.Repr;
    h := HandOut(s, t);
    assert s.Repr !! h.nodes.Repr && given.Repr !! h.nodes.Repr;
    assert Outside(h, s.Repr) && Outside(h, given.Repr);
    c := s.Copy();
    assert s.Repr !! c.Repr && given.Repr !! c.Repr && h.nodes.Repr !! c.Repr;
  }

  /** A store that has taken over a node-domain index, and its copy: through any interleaving of operations on
      either and of writes by users into the index they gave and into the one they were handed, neither store
      sees anything but its own operations, and whatever users hold changes only by their own writes. */
  method CopyIsIndependent(s: OptimizedStore, given: NodeDomainIndex, t: NamespacedName, script: seq<Turn>)
    returns (c: OptimizedStore, h: Held)
    requires s.Valid() && given.Readable() && s.Repr !! given.Repr
    modifies s.Repr, given.Repr
    ensures var start := old(s.View()).(nodes := old(given.View));
      && s.View() == Run(start, FirstOps(script)) && c.View() == Run(start, SecondOps(script))
      && h.list[..] == VS.ListAt(start.services.byTemplate, t) && h.specs.m == start.clusters.bySpec
    ensures given.Readable() && h.nodes.Readable()
    ensures (forall turn | turn in script :: !turn.OnGiven?) ==> given.View == old(given.View)
    ensures (forall turn | turn in script :: !turn.OnHandedOut?) ==> h.nodes.View == old(given.View)
  {
    c, h := Prepare(s, given, t);
    ghost var contents := h.list[..];
    Interleave(s, c, given, h.nodes, script);
    assert h.list[..] == contents;
  }
}
