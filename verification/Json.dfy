/** JSON trees, the locations inside their objects, and pruning a set of locations. */
module Json {
  import opened Basics

  datatype Json =
    | Null
    | Bool(b: bool)
    | Num(n: real)
    | Str(s: string)
    | Arr(items: seq<Json>)
    | Obj(fields: Fields)

  type Fields = map<string, Json>

  /** A location: the object keys from the root down. Locations do not enter arrays. */
  type Path = seq<string>

  function Lookup(v: Json, p: Path): Option<Json> {
    if p == [] then Some(v)
    else if v.Obj? && p[0] in v.fields then Lookup(v.fields[p[0]], p[1..])
    else None
  }

  predicate Present(v: Json, p: Path) {
    Lookup(v, p).Some?
  }

  lemma LookupOne(v: Json, k: string)
    ensures Lookup(v, [k]) == if v.Obj? && k in v.fields then Some(v.fields[k]) else None
  {
    assert [k][1..] == [];
  }

  lemma {:induction false} LookupAppend(v: Json, p: Path, q: Path)
    ensures Lookup(v, p + q) == match Lookup(v, p) case Some(w) => Lookup(w, q) case None => None
  {
    if p == [] {
      assert p + q == q;
    } else {
      assert (p + q)[1..] == p[1..] + q;
      if v.Obj? && p[0] in v.fields {
        LookupAppend(v.fields[p[0]], p[1..], q);
      }
    }
  }

  // ----- Pruning -----

  /** What is left of the locations below key k. */
  function Below(ps: set<Path>, k: string): set<Path> {
    set p | p in ps && |p| > 1 && p[0] == k :: p[1..]
  }

  /** The tree without the locations in ps; a location through something that is no object removes nothing. */
  function Prune(v: Json, ps: set<Path>): (r: Json)
    ensures r.Obj? <==> v.Obj?
    ensures !v.Obj? ==> r == v
  {
    match v
    case Obj(fields) => Obj(map k | k in fields && [k] !in ps :: Prune(fields[k], Below(ps, k)))
    case _ => v
  }

  /** Some location in ps is p or lies above it. */
  predicate Covered(ps: set<Path>, p: Path) {
    exists i | 0 < i <= |p| :: p[..i] in ps
  }

  /** The locations of ps strictly below p, as seen from p. */
  function Under(ps: set<Path>, p: Path): set<Path> {
    set q | q in ps && |q| > |p| && q[..|p|] == p :: q[|p|..]
  }

  lemma {:induction false} PruneTwice(v: Json, ps: set<Path>, qs: set<Path>)
    ensures Prune(Prune(v, ps), qs) == Prune(v, ps + qs)
    decreases v
  {
    if v.Obj? {
      forall k | k in v.fields && [k] !in ps && [k] !in qs
        ensures Prune(Prune(v.fields[k], Below(ps, k)), Below(qs, k)) == Prune(v.fields[k], Below(ps + qs, k))
      {
        PruneTwice(v.fields[k], Below(ps, k), Below(qs, k));
        assert Below(ps, k) + Below(qs, k) == Below(ps + qs, k);
      }
      assert Prune(Prune(v, ps), qs).fields == Prune(v, ps + qs).fields;
    }
  }

  lemma {:induction false} BelowCovered(ps: set<Path>, p: Path)
    requires p != []
    ensures Covered(ps, p) <==> [p[0]] in ps || Covered(Below(ps, p[0]), p[1..])
  {
    assert p[..1] == [p[0]];
    forall i | 0 < i < |p| ensures p[..i + 1] in ps <==> p[1..][..i] in Below(ps, p[0]) {
      assert p[..i + 1][1..] == p[1..][..i];
      assert [p[0]] + p[1..][..i] == p[..i + 1];
      if p[1..][..i] in Below(ps, p[0]) {
        var q :| q in ps && |q| > 1 && q[0] == p[0] && q[1..] == p[1..][..i];
        assert q == [p[0]] + q[1..];
      }
    }
    if Covered(ps, p) && [p[0]] !in ps {
      var i :| 0 < i <= |p| && p[..i] in ps;
      assert p[..(i - 1) + 1] in ps;
      assert p[1..][..i - 1] in Below(ps, p[0]);
    }
    if Covered(Below(ps, p[0]), p[1..]) {
      var i :| 0 < i <= |p[1..]| && p[1..][..i] in Below(ps, p[0]);
      assert p[..i + 1] in ps;
    }
  }

  lemma BelowUnder(ps: set<Path>, p: Path)
    requires p != []
    ensures Under(Below(ps, p[0]), p[1..]) == Under(ps, p)
  {
    var lhs, rhs := Under(Below(ps, p[0]), p[1..]), Under(ps, p);
    forall t | t in lhs ensures t in rhs {
      var q :| q in Below(ps, p[0]) && |q| > |p[1..]| && q[..|p[1..]|] == p[1..] && q[|p[1..]|..] == t;
      var q0 :| q0 in ps && |q0| > 1 && q0[0] == p[0] && q0[1..] == q;
      assert q0[..|p|] == [q0[0]] + q0[1..][..|p| - 1];
      assert q0[|p|..] == t;
    }
    forall t | t in rhs ensures t in lhs {
      var q :| q in ps && |q| > |p| && q[..|p|] == p && q[|p|..] == t;
      assert q[0] == q[..|p|][0];
      assert q[1..] in Below(ps, p[0]);
      assert q[1..][..|p| - 1] == q[..|p|][1..];
      assert q[1..][|p| - 1..] == t;
    }
  }

  /** Exactly what pruning does to every location: it is gone if covered, otherwise it holds what it
      held, itself pruned of the locations below it. */
  lemma {:induction false} PruneLookup(v: Json, ps: set<Path>, p: Path)
    ensures Lookup(Prune(v, ps), p) ==
      if Covered(ps, p) then None
      else match Lookup(v, p) case Some(w) => Some(Prune(w, Under(ps, p))) case None => None
    decreases p
  {
    if p == [] {
      assert Under(ps, []) == set q | q in ps && |q| > 0 by { forall q: Path ensures q[..0] == [] && q[0..] == q {} }
      PruneIgnoresRoot(v, ps);
    } else {
      BelowCovered(ps, p);
      BelowUnder(ps, p);
      if v.Obj? && p[0] in v.fields && [p[0]] !in ps {
        PruneLookup(v.fields[p[0]], Below(ps, p[0]), p[1..]);
      }
    }
  }

  /** The empty location never removes anything. */
  lemma PruneIgnoresRoot(v: Json, ps: set<Path>)
    ensures Prune(v, ps) == Prune(v, set q | q in ps && |q| > 0)
  {
    var qs := set q | q in ps && |q| > 0;
    if v.Obj? {
      forall k ensures Below(ps, k) == Below(qs, k) {}
      assert Prune(v, ps).fields == Prune(v, qs).fields;
    }
  }

  /** Pruning changes nothing exactly when none of the (non-root) locations is there. */
  lemma {:induction false} PruneNothing(v: Json, ps: set<Path>)
    ensures Prune(v, ps) == v <==> forall p | p in ps && p != [] :: !Present(v, p)
    decreases v
  {
    if Prune(v, ps) == v {
      forall p | p in ps && p != [] ensures !Present(v, p) {
        PruneLookup(v, ps, p);
        assert p[..|p|] == p;
      }
    }
    if forall p | p in ps && p != [] :: !Present(v, p) {
      if v.Obj? {
        forall k | k in v.fields ensures [k] !in ps && Prune(v.fields[k], Below(ps, k)) == v.fields[k] {
          assert Present(v, [k]);
          PruneNothing(v.fields[k], Below(ps, k));
          forall q | q in Below(ps, k) && q != [] ensures !Present(v.fields[k], q) {
            var p :| p in ps && |p| > 1 && p[0] == k && p[1..] == q;
            assert !Present(v, p);
          }
        }
        assert Prune(v, ps).fields == v.fields;
      }
    }
  }

  /** Pruning more locations makes no difference exactly when each of them is missing or already covered. */
  lemma PruneMore(v: Json, ps: set<Path>, qs: set<Path>)
    ensures Prune(v, ps + qs) == Prune(v, ps) <==> forall q | q in qs && q != [] :: !Present(v, q) || Covered(ps, q)
  {
    PruneTwice(v, ps, qs);
    PruneNothing(Prune(v, ps), qs);
    forall q | q in qs && q != [] ensures Present(Prune(v, ps), q) <==> Present(v, q) && !Covered(ps, q) {
      PruneLookup(v, ps, q);
    }
  }
}
