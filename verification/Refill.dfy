/** Filling a document again from the template it was filled from. Without delete options nothing changes; with
    them, an object the document has only now may meet the template's and lose fields. */
module Refill {
  import opened Basics
  import opened Json
  import opened Merge

  // ----- What a refill restores is what was pruned -----

  lemma {:induction false} RefillRestores(a: Fields, x: Fields, replace: set<string>, at: string, ps: set<Path>)
    requires Plain(a, x, replace, at) == x
    ensures Prune(Obj(Plain(a, Prune(Obj(x), ps).fields, replace, at)), ps) == Prune(Obj(x), ps)
    decreases Obj(x), 1
  {
    var m := Prune(Obj(x), ps).fields;
    var y := Plain(a, m, replace, at);
    PlainFields(a, x, replace, at);
    PlainFields(a, m, replace, at);
    forall k | k in x && [k] !in ps ensures Prune(y[k], Below(ps, k)) == m[k] {
      RestoredEntry(a, x, replace, at, ps, k);
    }
    PruneIs(y, ps, m);
  }

  lemma PruneIs(y: Fields, ps: set<Path>, m: Fields)
    requires forall k :: k in m <==> k in y && [k] !in ps
    requires forall k | k in m :: Prune(y[k], Below(ps, k)) == m[k]
    ensures Prune(Obj(y), ps) == Obj(m)
  {
    assert Prune(Obj(y), ps).fields == m;
  }

  lemma {:induction false} RestoredEntry(a: Fields, x: Fields, replace: set<string>, at: string, ps: set<Path>, k: string)
    requires Plain(a, x, replace, at) == x && k in x && [k] !in ps
    ensures var v := Prune(x[k], Below(ps, k));
      Prune(if k in a then Combine(a[k], v, replace, {}, BuildPath(at, k)) else v, Below(ps, k)) == v
    decreases Obj(x), 0
  {
    var qs, path := Below(ps, k), BuildPath(at, k);
    PlainFields(a, x, replace, at);
    PruneTwice(x[k], qs, qs);
    assert qs + qs == qs;
    if k in a && Descends(a[k], x[k], replace, path) {
      assert Plain(a, x, replace, at)[k] == Entry(a, x, replace, {}, at, k) == Combine(a[k], x[k], replace, {}, path);
      assert Obj(Plain(a[k].fields, x[k].fields, replace, path)) == x[k];
      assert x[k] < Obj(x);
      RefillRestores(a[k].fields, x[k].fields, replace, path, qs);
    }
  }

  // ----- Levels of the refill -----

  lemma LevelIsObject(a: Fields, b: Fields, replace: set<string>, at: string, r: Path)
    requires r != [] && IsLevel(Obj(a), Obj(b), replace, at, r)
    ensures Lookup(Obj(Plain(a, b, replace, at)), r).Some? && Lookup(Obj(Plain(a, b, replace, at)), r).value.Obj?
  {
    var init, k := r[..|r| - 1], r[|r| - 1];
    assert r == init + [k] && r[..|r|] == r;
    forall i | 0 < i <= |init| ensures ObjectsMeetAt(Obj(a), Obj(b), replace, at, init[..i]) {
      assert init[..i] == r[..i];
    }
    PlainLocations(a, b, replace, at, init, k);
  }

  /** A merged level that no deletion removes is a merged level of the refill. */
  lemma LevelSurvives(a: Fields, b: Fields, replace: set<string>, at: string, ps: set<Path>, r: Path)
    requires IsLevel(Obj(a), Obj(b), replace, at, r) && !Covered(ps, r)
    ensures IsLevel(Obj(a), Prune(Obj(Plain(a, b, replace, at)), ps), replace, at, r)
  {
    var plain := Obj(Plain(a, b, replace, at));
    forall i | 0 < i <= |r| ensures ObjectsMeetAt(Obj(a), Prune(plain, ps), replace, at, r[..i]) {
      assert ObjectsMeetAt(Obj(a), Obj(b), replace, at, r[..i]);
      forall j | 0 < j <= i ensures r[..i][..j] == r[..j] {}
      LevelIsObject(a, b, replace, at, r[..i]);
      PruneLookup(plain, ps, r[..i]);
    }
  }

  /** Every location deleted by the first fill is deleted by the refill too. */
  lemma DeletedAgain(a: Fields, b: Fields, replace: set<string>, dels: set<Path>, at: string, q: Path)
    requires [] !in dels && q in Spread(Levels(a, b, replace, at), dels)
    ensures Covered(Spread(Levels(a, MergeObjects(a, b, replace, dels, at), replace, at), dels), q)
    decreases |q|
  {
    var ps, m := Spread(Levels(a, b, replace, at), dels), MergeObjects(a, b, replace, dels, at);
    var r, d :| r in Levels(a, b, replace, at) && d in dels && q == r + d;
    if Covered(ps, r) {
      var i :| 0 < i <= |r| && r[..i] in ps;
      DeletedAgain(a, b, replace, dels, at, r[..i]);
      var again := Spread(Levels(a, m, replace, at), dels);
      var j :| 0 < j <= i && r[..i][..j] in again;
      assert q[..j] == r[..i][..j];
    } else {
      LevelsAre(a, b, replace, at, r);
      MergeIsPlainThenPrune(a, b, replace, dels, at);
      LevelSurvives(a, b, replace, at, ps, r);
      LevelsAre(a, m, replace, at, r);
      assert q[..|q|] == q;
    }
  }

  // ----- When a refill changes nothing -----

  /** The template holds objects all the way down to r, and no replace option is on the way. */
  ghost predicate OpenIn(x: Json, replace: set<string>, at: string, r: Path) {
    forall i | 0 < i <= |r| ::
      Lookup(x, r[..i]).Some? && Lookup(x, r[..i]).value.Obj? && PathString(at, r[..i]) !in replace
  }

  /** Some delete path, seen from a merged level of the two documents, is p or lies above it. */
  ghost predicate Deleted(x: Json, y: Json, replace: set<string>, dels: set<Path>, at: string, p: Path) {
    exists r, d | IsLevel(x, y, replace, at, r) && d in dels :: r + d <= p
  }

  lemma DeletedIs(a: Fields, b: Fields, replace: set<string>, dels: set<Path>, at: string, p: Path)
    requires [] !in dels
    ensures Covered(Spread(Levels(a, b, replace, at), dels), p) <==> Deleted(Obj(a), Obj(b), replace, dels, at, p)
  {
    var ps := Spread(Levels(a, b, replace, at), dels);
    if Covered(ps, p) {
      var i :| 0 < i <= |p| && p[..i] in ps;
      var r, d :| r in Levels(a, b, replace, at) && d in dels && p[..i] == r + d;
      LevelsAre(a, b, replace, at, r);
      assert r + d <= p;
    }
    if r, d :| IsLevel(Obj(a), Obj(b), replace, at, r) && d in dels && r + d <= p {
      LevelsAre(a, b, replace, at, r);
      assert p[..|r + d|] == r + d;
    }
  }

  lemma {:induction false} AboveIsObject(v: Json, p: Path, i: nat)
    requires Present(v, p) && i < |p|
    ensures Lookup(v, p[..i]).Some? && Lookup(v, p[..i]).value.Obj?
    decreases i
  {
    if i > 0 {
      assert p[..i][1..] == p[1..][..i - 1];
      AboveIsObject(v.fields[p[0]], p[1..], i - 1);
    }
  }

  /** Above a location the filled document has, its merged levels with the template are the template's. */
  lemma RefillLevel(a: Fields, m: Fields, replace: set<string>, at: string, r: Path, d: Path)
    requires d != [] && Present(Obj(m), r + d)
    ensures IsLevel(Obj(a), Obj(m), replace, at, r) <==> OpenIn(Obj(a), replace, at, r)
  {
    forall i | 0 < i <= |r|
      ensures ObjectsMeetAt(Obj(a), Obj(m), replace, at, r[..i]) <==>
        Lookup(Obj(a), r[..i]).Some? && Lookup(Obj(a), r[..i]).value.Obj? && PathString(at, r[..i]) !in replace
    {
      assert (r + d)[..i] == r[..i];
      AboveIsObject(Obj(m), r + d, i);
    }
  }

  /** What the filled document has: what the delete-free merge shows and no delete option removes. */
  lemma FilledHas(a: Fields, b: Fields, replace: set<string>, dels: set<Path>, at: string, p: Path)
    requires [] !in dels && p != []
    ensures Present(Obj(MergeObjects(a, b, replace, dels, at)), p) <==>
      Shows(Obj(a), Obj(b), replace, at, p) && !Deleted(Obj(a), Obj(b), replace, dels, at, p)
  {
    DeletedLocations(a, b, replace, dels, at, p);
    DeletedIs(a, b, replace, dels, at, p);
    PlainShows(a, b, replace, at, p);
  }

  lemma PruneAgain(y: Json, ps: set<Path>, qs: set<Path>)
    requires forall q | q in ps :: Covered(qs, q)
    ensures Prune(y, qs) == Prune(y, ps) <==> forall q | q in qs && q != [] :: !Present(Prune(y, ps), q)
  {
    PruneMore(y, qs, ps);
    PruneMore(y, ps, qs);
    assert ps + qs == qs + ps;
    forall q | q in qs ensures Present(Prune(y, ps), q) <==> Present(y, q) && !Covered(ps, q) { PruneLookup(y, ps, q); }
  }

  lemma RefillPrunes(a: Fields, b: Fields, replace: set<string>, dels: set<Path>, at: string)
    requires [] !in dels
    ensures var m := MergeObjects(a, b, replace, dels, at);
      MergeObjects(a, m, replace, dels, at) == m <==>
      forall q | q in Spread(Levels(a, m, replace, at), dels) && q != [] :: !Present(Obj(m), q)
  {
    var m := MergeObjects(a, b, replace, dels, at);
    var ps, qs := Spread(Levels(a, b, replace, at), dels), Spread(Levels(a, m, replace, at), dels);
    RestoresFilled(a, b, replace, dels, at);
    MergeIsPlainThenPrune(a, m, replace, dels, at);
    forall q | q in ps ensures Covered(qs, q) { DeletedAgain(a, b, replace, dels, at, q); }
    PruneAgain(Obj(Plain(a, m, replace, at)), ps, qs);
  }

  lemma RestoresFilled(a: Fields, b: Fields, replace: set<string>, dels: set<Path>, at: string)
    requires [] !in dels
    ensures var m := MergeObjects(a, b, replace, dels, at);
      Prune(Obj(Plain(a, m, replace, at)), Spread(Levels(a, b, replace, at), dels)) == Obj(m)
  {
    MergeIsPlainThenPrune(a, b, replace, dels, at);
    PlainAbsorbs(a, b, replace, at);
    RefillRestores(a, Plain(a, b, replace, at), replace, at, Spread(Levels(a, b, replace, at), dels));
  }

  /** Filling a filled document again changes nothing exactly when every field the merge shows at a delete path
      below an object of the template, with no replace option on the way, was deleted by the first fill. */
  lemma RefillIsFixedPoint(a: Fields, b: Fields, replace: set<string>, dels: set<Path>, at: string)
    requires [] !in dels
    ensures var m := MergeObjects(a, b, replace, dels, at);
      MergeObjects(a, m, replace, dels, at) == m <==>
      forall r, d | d in dels && OpenIn(Obj(a), replace, at, r) && Shows(Obj(a), Obj(b), replace, at, r + d) ::
        Deleted(Obj(a), Obj(b), replace, dels, at, r + d)
  {
    var m := MergeObjects(a, b, replace, dels, at);
    var qs := Spread(Levels(a, m, replace, at), dels);
    RefillPrunes(a, b, replace, dels, at);
    forall r, d | d in dels
      ensures r + d in qs && Present(Obj(m), r + d) ==> r + d != []
      ensures IsLevel(Obj(a), Obj(m), replace, at, r) && Present(Obj(m), r + d) <==>
        && OpenIn(Obj(a), replace, at, r) && Shows(Obj(a), Obj(b), replace, at, r + d)
        && !Deleted(Obj(a), Obj(b), replace, dels, at, r + d)
    {
      FilledHas(a, b, replace, dels, at, r + d);
      if Present(Obj(m), r + d) { RefillLevel(a, m, replace, at, r, d); }
    }
    forall r ensures r in Levels(a, m, replace, at) <==> IsLevel(Obj(a), Obj(m), replace, at, r) {
      LevelsAre(a, m, replace, at, r);
    }
    SpreadPresent(Obj(m), Levels(a, m, replace, at), dels);
  }

  lemma SpreadPresent(v: Json, levels: set<Path>, dels: set<Path>)
    requires [] !in dels
    ensures (forall q | q in Spread(levels, dels) && q != [] :: !Present(v, q)) <==>
      forall r, d | r in levels && d in dels :: !Present(v, r + d)
  {
    forall r, d | r in levels && d in dels ensures r + d in Spread(levels, dels) && r + d != [] {}
    forall q | q in Spread(levels, dels) ensures exists r, d | r in levels && d in dels :: q == r + d {}
  }

  /** An input where it fails: the template {"h": {"k": null}} fills an empty document with itself, and deleting k
      takes h.k only when the result is filled again. */
  lemma RefillExample(t: Fields, h: string, k: string)
    requires h == "h" && k == "k" && t == map[h := Obj(map[k := Null])]
    ensures MergeObjects(t, map[], {}, {[k]}, "") == t && MergeObjects(t, t, {}, {[k]}, "") != t
  {
    assert h[0] != k[0];
    var m := MergeObjects(t, map[], {}, {[k]}, "");
    assert m == t by {
      assert MergeEntries(t, map[], {}, {[k]}, "") == t;
      PruneNothing(Obj(t), {[k]});
    }
    DeleteReachesDeeper(t, t, {}, "", h, k);
    assert Present(Obj(t), [h, k]) by {
      LookupOne(t[h], k);
      assert [h, k][1..] == [k];
    }
  }
}
