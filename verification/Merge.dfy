/** The template merge engine: a recursive union of two JSON objects, steered by options that name
    paths to replace or to delete. */
module Merge {
  import opened Basics
  import opened Json
  import Text

  datatype Operation = MergeOp | ReplaceOp | DeleteOp | UnknownOp(name: string)
  datatype Opt = Opt(path: string, operation: Operation)

  /** The parsed options: two sets of dotted path strings. */
  datatype ParsedOpts = ParsedOpts(replace: set<string>, delete: set<string>)

  /** The locations the delete options name. */
  function DeletePaths(keys: set<string>): (ps: set<Path>)
    ensures [] !in ps
  {
    set key | key in keys :: Text.Split(key, '.')
  }

  function BuildPath(currentPath: string, segment: string): string {
    if currentPath == "" then segment else currentPath + "." + segment
  }

  /** The path string the engine has built when it reaches location p from `at`. */
  function PathString(at: string, p: Path): string
    decreases p
  {
    if p == [] then at else PathString(BuildPath(at, p[0]), p[1..])
  }

  lemma {:induction false} PathStringFrom(at: string, p: Path)
    requires at != "" && p != []
    ensures PathString(at, p) == at + "." + Text.Join(p, '.')
    decreases p
  {
    var next := at + "." + p[0];
    if |p| > 1 {
      PathStringFrom(next, p[1..]);
      assert next + "." + Text.Join(p[1..], '.') == at + "." + (p[0] + "." + Text.Join(p[1..], '.'));
    }
  }

  lemma {:induction false} PathStringNoLonger(p: Path)
    ensures |PathString("", p)| <= |Text.Join(p, '.')|
    decreases p
  {
    if p != [] {
      if p[0] == "" {
        PathStringNoLonger(p[1..]);
      } else if |p| > 1 {
        PathStringFrom(p[0], p[1..]);
      }
    }
  }

  /** The path string of a location is its keys joined by dots, which is how a delete option names it,
      exactly unless further keys follow an empty first one: the engine then drops the empty key. */
  lemma PathStringIsJoin(p: Path)
    requires p != []
    ensures PathString("", p) == Text.Join(p, '.') <==> p[0] != "" || |p| == 1
  {
    if p[0] != "" && |p| > 1 {
      PathStringFrom(p[0], p[1..]);
    } else if |p| > 1 {
      PathStringNoLonger(p[1..]);
    }
  }

  // ----- What the engine computes -----

  /** The items of t that s does not hold, in order; repeats inside t are kept. */
  function NewItems(s: seq<Json>, t: seq<Json>): seq<Json> {
    if t == [] then []
    else
      var last := t[|t| - 1];
      NewItems(s, t[..|t| - 1]) + if last in s then [] else [last]
  }

  /** The value under a key both sides have. */
  function Combine(x: Json, y: Json, replace: set<string>, dels: set<Path>, path: string): Json
    decreases y, 3
  {
    if path in replace then y
    else match (x, y)
      case (Obj(f), Obj(g)) => Obj(MergeObjects(f, g, replace, dels, path))
      case (Arr(s), Arr(t)) => Arr(s + NewItems(s, t))
      case _ => y
  }

  /** The value under key k before any deletion at this level. */
  function Entry(a: Fields, b: Fields, replace: set<string>, dels: set<Path>, at: string, k: string): Json
    requires k in a || k in b
    decreases Obj(b), 0
  {
    if k !in b then a[k]
    else if k !in a then b[k]
    else Combine(a[k], b[k], replace, dels, BuildPath(at, k))
  }

  function MergeEntries(a: Fields, b: Fields, replace: set<string>, dels: set<Path>, at: string): Fields
    decreases Obj(b), 1
  {
    map k | k in a.Keys + b.Keys :: Entry(a, b, replace, dels, at, k)
  }

  /** The merge of two objects reached at path `at`; the delete options are applied at this level too. */
  function MergeObjects(a: Fields, b: Fields, replace: set<string>, dels: set<Path>, at: string): Fields
    decreases Obj(b), 2
  {
    Prune(Obj(MergeEntries(a, b, replace, dels, at)), dels).fields
  }

  /** The merge without delete options. */
  function Plain(a: Fields, b: Fields, replace: set<string>, at: string): Fields {
    MergeObjects(a, b, replace, {}, at)
  }

  lemma PlainFields(a: Fields, b: Fields, replace: set<string>, at: string)
    ensures Plain(a, b, replace, at) == MergeEntries(a, b, replace, {}, at)
    ensures Plain(a, b, replace, at).Keys == a.Keys + b.Keys
    ensures forall k | k in a.Keys + b.Keys :: Plain(a, b, replace, at)[k] == Entry(a, b, replace, {}, at, k)
  {
    PruneNothing(Obj(MergeEntries(a, b, replace, {}, at)), {});
  }

  // ----- Arrays: union -----

  lemma {:induction false} NewItemsConcat(s: seq<Json>, t: seq<Json>, u: seq<Json>)
    ensures NewItems(s, t + u) == NewItems(s, t) + NewItems(s, u)
  {
    if u == [] {
      assert t + u == t;
    } else {
      assert (t + u)[..|t + u| - 1] == t + u[..|u| - 1];
      NewItemsConcat(s, t, u[..|u| - 1]);
    }
  }

  lemma {:induction false} NewItemsMember(s: seq<Json>, t: seq<Json>, x: Json)
    ensures x in NewItems(s, t) <==> x in t && x !in s
  {
    if t != [] {
      NewItemsMember(s, t[..|t| - 1], x);
      assert t == t[..|t| - 1] + [t[|t| - 1]];
    }
  }

  lemma {:induction false} NothingNew(s: seq<Json>, t: seq<Json>)
    requires forall i | 0 <= i < |t| :: t[i] in s
    ensures NewItems(s, t) == []
  {
    if t != [] {
      NothingNew(s, t[..|t| - 1]);
      assert t[|t| - 1] in s;
    }
  }

  lemma {:induction false} AllNew(s: seq<Json>, t: seq<Json>)
    requires forall i | 0 <= i < |t| :: t[i] !in s
    ensures NewItems(s, t) == t
  {
    if t != [] {
      AllNew(s, t[..|t| - 1]);
      assert t == t[..|t| - 1] + [t[|t| - 1]];
    }
  }

  lemma UnionAbsorbs(s: seq<Json>, t: seq<Json>)
    ensures NewItems(s, s + NewItems(s, t)) == NewItems(s, t)
    ensures NewItems(s + NewItems(s, t), t) == []
  {
    var added := NewItems(s, t);
    NewItemsConcat(s, s, added);
    NothingNew(s, s);
    forall i | 0 <= i < |added| ensures added[i] !in s { NewItemsMember(s, t, added[i]); }
    AllNew(s, added);
    forall i | 0 <= i < |t| ensures t[i] in s + added { NewItemsMember(s, t, t[i]); }
    NothingNew(s + added, t);
  }

  // ----- Absorption -----

  lemma {:induction false} CombineSelf(y: Json, replace: set<string>, path: string)
    ensures Combine(y, y, replace, {}, path) == y
    decreases y, 2
  {
    match y
    case Obj(g) => PlainSelf(g, replace, path);
    case Arr(t) => NothingNew(t, t);
    case _ =>
  }

  lemma {:induction false} PlainSelf(g: Fields, replace: set<string>, at: string)
    ensures Plain(g, g, replace, at) == g
    decreases Obj(g), 1
  {
    PlainFields(g, g, replace, at);
    forall k | k in g ensures Entry(g, g, replace, {}, at, k) == g[k] {
      assert g[k] < Obj(g);
      CombineSelf(g[k], replace, BuildPath(at, k));
    }
  }

  lemma CombineObjects(f: Fields, g: Fields, replace: set<string>, path: string)
    requires path !in replace
    ensures Combine(Obj(f), Obj(g), replace, {}, path) == Obj(Plain(f, g, replace, path))
  {}

  lemma {:induction false} CombineAbsorbs(x: Json, y: Json, replace: set<string>, path: string)
    ensures var z := Combine(x, y, replace, {}, path);
      Combine(x, z, replace, {}, path) == z && Combine(z, y, replace, {}, path) == z
    decreases y, 2
  {
    if path in replace {
    } else if x.Obj? && y.Obj? {
      var m := Plain(x.fields, y.fields, replace, path);
      PlainAbsorbs(x.fields, y.fields, replace, path);
      CombineObjects(x.fields, y.fields, replace, path);
      CombineObjects(x.fields, m, replace, path);
      CombineObjects(m, y.fields, replace, path);
    } else if x.Arr? && y.Arr? {
      UnionAbsorbs(x.items, y.items);
    } else {
      CombineSelf(y, replace, path);
    }
  }

  lemma EntryAbsorbs(a: Fields, b: Fields, replace: set<string>, at: string, k: string)
    requires k in a || k in b
    ensures var e := Entry(a, b, replace, {}, at, k);
      (k in a ==> Combine(a[k], e, replace, {}, BuildPath(at, k)) == e) &&
      (k in b ==> Combine(e, b[k], replace, {}, BuildPath(at, k)) == e)
    decreases Obj(b), 0
  {
    var path := BuildPath(at, k);
    if k !in b {
      CombineSelf(a[k], replace, path);
    } else {
      assert b[k] < Obj(b);
      if k in a { CombineAbsorbs(a[k], b[k], replace, path); } else { CombineSelf(b[k], replace, path); }
    }
  }

  /** Filling an already filled document from the same template changes nothing, and neither does
      filling the filled document with the service's own settings again. */
  lemma {:induction false} PlainAbsorbs(a: Fields, b: Fields, replace: set<string>, at: string)
    ensures var m := Plain(a, b, replace, at);
      Plain(a, m, replace, at) == m && Plain(m, b, replace, at) == m
    decreases Obj(b), 1
  {
    var m := Plain(a, b, replace, at);
    PlainFields(a, b, replace, at);
    forall k | k in m
      ensures Entry(a, m, replace, {}, at, k) == m[k] && Entry(m, b, replace, {}, at, k) == m[k]
    {
      EntryAbsorbs(a, b, replace, at, k);
    }
    PlainFields(a, m, replace, at);
    PlainFields(m, b, replace, at);
  }

  // ----- Deletion -----

  /** Both values are objects and the path is not replaced: the engine descends and merges them. */
  predicate Descends(x: Json, y: Json, replace: set<string>, path: string) {
    x.Obj? && y.Obj? && path !in replace
  }

  /** The locations of all objects the engine merges recursively, the root included. */
  function Levels(a: Fields, b: Fields, replace: set<string>, at: string): set<Path>
    decreases Obj(b)
  {
    {[]} + set k, r | k in a.Keys * b.Keys && r in LevelsUnder(a, b, replace, at, k) :: [k] + r
  }

  function LevelsUnder(a: Fields, b: Fields, replace: set<string>, at: string, k: string): set<Path>
    requires k in a && k in b
    decreases Obj(b), 0
  {
    if Descends(a[k], b[k], replace, BuildPath(at, k))
    then Levels(a[k].fields, b[k].fields, replace, BuildPath(at, k))
    else {}
  }

  /** Every location r + d: d as seen from r. */
  function Spread(rs: set<Path>, ds: set<Path>): set<Path> {
    set r, d | r in rs && d in ds :: r + d
  }

  /** The levels inside key k, as seen from k. */
  function Inside(rs: set<Path>, k: string): set<Path> {
    set r | r in rs && |r| > 0 && r[0] == k :: r[1..]
  }

  lemma LevelsInside(a: Fields, b: Fields, replace: set<string>, at: string, k: string)
    ensures [] in Levels(a, b, replace, at)
    ensures Inside(Levels(a, b, replace, at), k) ==
      if k in a && k in b then LevelsUnder(a, b, replace, at, k) else {}
  {
    var levels := Levels(a, b, replace, at);
    forall r | r in Inside(levels, k) ensures k in a && k in b && r in LevelsUnder(a, b, replace, at, k) {
      assert exists q :: q in levels && |q| > 0 && q[0] == k && q[1..] == r;
    }
    if k in a && k in b {
      forall r | r in LevelsUnder(a, b, replace, at, k) ensures r in Inside(levels, k) {
        assert [k] + r in levels && ([k] + r)[1..] == r;
      }
    }
  }

  lemma SpreadIs(rs: set<Path>, ds: set<Path>, p: Path)
    ensures p in Spread(rs, ds) <==> exists i | 0 <= i <= |p| :: p[..i] in rs && p[i..] in ds
  {
    if p in Spread(rs, ds) {
      var r, d :| r in rs && d in ds && p == r + d;
      assert p[..|r|] == r && p[|r|..] == d;
    }
    if i :| 0 <= i <= |p| && p[..i] in rs && p[i..] in ds {
      assert p == p[..i] + p[i..];
    }
  }

  lemma BelowIs(ps: set<Path>, k: string, p: Path)
    ensures p in Below(ps, k) <==> p != [] && [k] + p in ps
  {
    if p in Below(ps, k) {
      var q :| q in ps && |q| > 1 && q[0] == k && q[1..] == p;
      assert q == [k] + p;
    }
    assert ([k] + p)[1..] == p;
  }

  lemma InsideIs(rs: set<Path>, k: string, p: Path)
    ensures p in Inside(rs, k) <==> [k] + p in rs
  {
    if p in Inside(rs, k) {
      var q :| q in rs && |q| > 0 && q[0] == k && q[1..] == p;
      assert q == [k] + p;
    }
    assert ([k] + p)[1..] == p;
  }

  lemma SpreadBelowAt(levels: set<Path>, dels: set<Path>, k: string, p: Path)
    requires [] in levels && [] !in dels
    ensures p in Below(Spread(levels, dels), k) <==> p in Below(dels, k) || p in Spread(Inside(levels, k), dels)
  {
    var q := [k] + p;
    BelowIs(Spread(levels, dels), k, p);
    BelowIs(dels, k, p);
    SpreadIs(levels, dels, q);
    SpreadIs(Inside(levels, k), dels, p);
    assert q[..0] == [] && q[0..] == q;
    forall i | 0 <= i <= |p|
      ensures q[..i + 1] in levels && q[i + 1..] in dels <==> p[..i] in Inside(levels, k) && p[i..] in dels
    {
      assert q[..i + 1] == [k] + p[..i] && q[i + 1..] == p[i..];
      InsideIs(levels, k, p[..i]);
    }
    if p in Below(Spread(levels, dels), k) && q !in dels {
      var i :| 0 <= i <= |q| && q[..i] in levels && q[i..] in dels;
      assert q[..(i - 1) + 1] in levels;
      assert p[..i - 1] in Inside(levels, k) && p[i - 1..] in dels;
    }
    if p in Spread(Inside(levels, k), dels) {
      var i :| 0 <= i <= |p| && p[..i] in Inside(levels, k) && p[i..] in dels;
      assert q[..i + 1] in levels && q[i + 1..] in dels;
    }
  }

  lemma SpreadBelow(levels: set<Path>, dels: set<Path>, k: string)
    requires [] in levels && [] !in dels
    ensures [k] in Spread(levels, dels) <==> [k] in dels
    ensures Below(Spread(levels, dels), k) == Below(dels, k) + Spread(Inside(levels, k), dels)
  {
    SpreadIs(levels, dels, [k]);
    assert [k][..0] == [] && [k][0..] == [k] && [k][1..] == [];
    forall p ensures p in Below(Spread(levels, dels), k) <==>
                     p in Below(dels, k) + Spread(Inside(levels, k), dels) {
      SpreadBelowAt(levels, dels, k, p);
    }
  }

  /** The delete paths as seen from the levels merged inside a pair of values. */
  function Inner(x: Json, y: Json, replace: set<string>, path: string, dels: set<Path>): set<Path> {
    if Descends(x, y, replace, path) then Spread(Levels(x.fields, y.fields, replace, path), dels) else {}
  }

  /** Where the delete paths, seen from every level, lie below key k. */
  lemma LevelsBelow(a: Fields, b: Fields, replace: set<string>, at: string, dels: set<Path>, k: string)
    requires [] !in dels
    ensures [k] in Spread(Levels(a, b, replace, at), dels) <==> [k] in dels
    ensures Below(Spread(Levels(a, b, replace, at), dels), k) ==
      Below(dels, k) + if k in a && k in b then Inner(a[k], b[k], replace, BuildPath(at, k), dels) else {}
  {
    LevelsInside(a, b, replace, at, k);
    SpreadBelow(Levels(a, b, replace, at), dels, k);
    assert Spread({}, dels) == {};
  }

  /** The value under a key both sides have, merged with and without delete options. */
  lemma CombineIsPlainThenPrune(x: Json, y: Json, replace: set<string>, dels: set<Path>, path: string, extra: set<Path>)
    requires [] !in dels
    ensures Prune(Combine(x, y, replace, dels, path), extra) ==
      Prune(Combine(x, y, replace, {}, path), extra + Inner(x, y, replace, path, dels))
    decreases y, 3
  {
    var inner := Inner(x, y, replace, path, dels);
    if Descends(x, y, replace, path) {
      MergeIsPlainThenPrune(x.fields, y.fields, replace, dels, path);
      PruneTwice(Obj(Plain(x.fields, y.fields, replace, path)), inner, extra);
      assert inner + extra == extra + inner;
    } else {
      assert extra + inner == extra;
    }
  }

  /** One key of the two merges agrees, once each is pruned of what lies below the key. */
  lemma EntryIsPlainThenPrune(a: Fields, b: Fields, replace: set<string>, dels: set<Path>, at: string, k: string,
                              all: set<Path>)
    requires [] !in dels && (k in a || k in b)
    requires all == Spread(Levels(a, b, replace, at), dels)
    ensures [k] in all <==> [k] in dels
    ensures Prune(Entry(a, b, replace, dels, at, k), Below(dels, k)) == Prune(Entry(a, b, replace, {}, at, k), Below(all, k))
    decreases Obj(b), 0
  {
    LevelsBelow(a, b, replace, at, dels, k);
    if k in a && k in b {
      assert b[k] < Obj(b);
      CombineIsPlainThenPrune(a[k], b[k], replace, dels, BuildPath(at, k), Below(dels, k));
    } else {
      assert Below(dels, k) + {} == Below(dels, k);
    }
  }

  /** Two objects prune alike when they do so key by key. */
  lemma PruneFieldwise(m: Fields, ps: set<Path>, n: Fields, qs: set<Path>)
    requires m.Keys == n.Keys
    requires forall k | k in m :: ([k] in ps <==> [k] in qs) && Prune(m[k], Below(ps, k)) == Prune(n[k], Below(qs, k))
    ensures Prune(Obj(m), ps) == Prune(Obj(n), qs)
  {
    assert Prune(Obj(m), ps).fields == Prune(Obj(n), qs).fields;
  }

  /** Merging with delete options is the delete-free merge followed by one pruning: every delete path,
      as seen from every recursively merged level. */
  lemma {:induction false} MergeIsPlainThenPrune(a: Fields, b: Fields, replace: set<string>, dels: set<Path>, at: string)
    requires [] !in dels
    ensures Obj(MergeObjects(a, b, replace, dels, at)) ==
      Prune(Obj(Plain(a, b, replace, at)), Spread(Levels(a, b, replace, at), dels))
    decreases Obj(b), 1
  {
    var all := Spread(Levels(a, b, replace, at), dels);
    var merged, plain := MergeEntries(a, b, replace, dels, at), MergeEntries(a, b, replace, {}, at);
    PlainFields(a, b, replace, at);
    forall k | k in merged
      ensures [k] in dels <==> [k] in all
      ensures Prune(merged[k], Below(dels, k)) == Prune(plain[k], Below(all, k))
    {
      EntryIsPlainThenPrune(a, b, replace, dels, at, k, all);
    }
    PruneFieldwise(merged, dels, plain, all);
  }

  /** At location q both sides hold an object, and q is not replaced. */
  predicate ObjectsMeetAt(x: Json, y: Json, replace: set<string>, at: string, q: Path) {
    match (Lookup(x, q), Lookup(y, q))
    case (Some(v), Some(w)) => Descends(v, w, replace, PathString(at, q))
    case _ => false
  }

  /** The merged levels said without recursion: objects meet at r and at every location on the way. */
  ghost predicate IsLevel(x: Json, y: Json, replace: set<string>, at: string, r: Path) {
    forall i | 0 < i <= |r| :: ObjectsMeetAt(x, y, replace, at, r[..i])
  }

  lemma IsLevelStep(x: Json, y: Json, replace: set<string>, at: string, r: Path)
    requires x.Obj? && y.Obj? && r != []
    ensures IsLevel(x, y, replace, at, r) <==>
      var k := r[0];
      && k in x.fields && k in y.fields && Descends(x.fields[k], y.fields[k], replace, BuildPath(at, k))
      && IsLevel(x.fields[k], y.fields[k], replace, BuildPath(at, k), r[1..])
  {
    var k := r[0];
    assert r[..1] == [k] && r[..1][1..] == [];
    assert PathString(at, r[..1]) == PathString(BuildPath(at, k), []) == BuildPath(at, k);
    LookupOne(x, k);
    LookupOne(y, k);
    assert ObjectsMeetAt(x, y, replace, at, r[..1]) <==>
      k in x.fields && k in y.fields && Descends(x.fields[k], y.fields[k], replace, BuildPath(at, k));
    if k in x.fields && k in y.fields {
      forall i | 0 < i <= |r[1..]|
        ensures ObjectsMeetAt(x, y, replace, at, r[..i + 1]) <==>
          ObjectsMeetAt(x.fields[k], y.fields[k], replace, BuildPath(at, k), r[1..][..i])
      {
        assert r[..i + 1][1..] == r[1..][..i];
      }
      if !IsLevel(x, y, replace, at, r) && ObjectsMeetAt(x, y, replace, at, r[..1]) {
        var i :| 0 < i <= |r| && !ObjectsMeetAt(x, y, replace, at, r[..i]);
        assert i != 1;
        assert r[..(i - 1) + 1] == r[..i];
        assert !ObjectsMeetAt(x.fields[k], y.fields[k], replace, BuildPath(at, k), r[1..][..i - 1]);
      }
    }
  }

  lemma {:induction false} LevelsAre(a: Fields, b: Fields, replace: set<string>, at: string, r: Path)
    ensures r in Levels(a, b, replace, at) <==> IsLevel(Obj(a), Obj(b), replace, at, r)
    decreases r
  {
    LevelsInside(a, b, replace, at, if r == [] then "" else r[0]);
    if r != [] {
      var k := r[0];
      assert r == [k] + r[1..];
      InsideIs(Levels(a, b, replace, at), k, r[1..]);
      IsLevelStep(Obj(a), Obj(b), replace, at, r);
      if k in a && k in b && Descends(a[k], b[k], replace, BuildPath(at, k)) {
        LevelsAre(a[k].fields, b[k].fields, replace, BuildPath(at, k), r[1..]);
      }
    }
  }

  /** What delete options do to every location of the merged document: a location is gone exactly when
      some delete path, seen from some merged level, is that location or lies above it; every other
      location is there exactly when the delete-free merge has it, with only deeper deletions applied.
      In particular no delete path itself survives. */
  lemma DeletedLocations(a: Fields, b: Fields, replace: set<string>, dels: set<Path>, at: string, p: Path)
    requires [] !in dels
    ensures var all := Spread(Levels(a, b, replace, at), dels);
      Lookup(Obj(MergeObjects(a, b, replace, dels, at)), p) ==
      if Covered(all, p) then None
      else match Lookup(Obj(Plain(a, b, replace, at)), p) case Some(w) => Some(Prune(w, Under(all, p))) case None => None
    ensures p in dels ==> !Present(Obj(MergeObjects(a, b, replace, dels, at)), p)
  {
    var all := Spread(Levels(a, b, replace, at), dels);
    MergeIsPlainThenPrune(a, b, replace, dels, at);
    PruneLookup(Obj(Plain(a, b, replace, at)), all, p);
    if p in dels {
      LevelsInside(a, b, replace, at, "");
      assert [] + p == p && p[..|p|] == p;
      assert p in all;
    }
  }

  lemma DeletesMoreAtLevels(a: Fields, b: Fields, replace: set<string>, dels: set<Path>, at: string)
    requires [] !in dels
    ensures Obj(MergeObjects(a, b, replace, dels, at)) == Prune(Obj(Plain(a, b, replace, at)), dels)
      <==> forall r, d | r in Levels(a, b, replace, at) && r != [] && d in dels ::
             !Present(Obj(Plain(a, b, replace, at)), r + d) || Covered(dels, r + d)
  {
    var plain := Obj(Plain(a, b, replace, at));
    var levels := Levels(a, b, replace, at);
    MergeIsPlainThenPrune(a, b, replace, dels, at);
    LevelsInside(a, b, replace, at, "");
    SpreadSplit(levels, dels);
    PruneMore(plain, dels, Spread(levels - {[]}, dels));
    SpreadNested(plain, levels, dels);
  }

  /** The documentation has a delete option remove the one field its path names. That holds exactly when
      below no location where both documents hold objects, and no replace option cuts the way, one of them
      shows a field at a delete path, unless that field is named as well. */
  lemma DeletesOnlyNamedPaths(a: Fields, b: Fields, replace: set<string>, dels: set<Path>, at: string)
    requires [] !in dels
    ensures Obj(MergeObjects(a, b, replace, dels, at)) == Prune(Obj(Plain(a, b, replace, at)), dels)
      <==> forall r, d | IsLevel(Obj(a), Obj(b), replace, at, r) && r != [] && d in dels &&
                         Shows(Obj(a), Obj(b), replace, at, r + d) :: Covered(dels, r + d)
  {
    DeletesMoreAtLevels(a, b, replace, dels, at);
    forall r ensures r in Levels(a, b, replace, at) <==> IsLevel(Obj(a), Obj(b), replace, at, r) {
      LevelsAre(a, b, replace, at, r);
    }
    forall r, d | r != [] && d in dels
      ensures Present(Obj(Plain(a, b, replace, at)), r + d) <==> Shows(Obj(a), Obj(b), replace, at, r + d)
    {
      PlainShows(a, b, replace, at, r + d);
    }
  }

  // ----- Which locations the delete-free merge has -----

  /** Wherever y has something on the way to p, the way leads through a merged level. */
  ghost predicate Reaches(x: Json, y: Json, replace: set<string>, at: string, p: Path) {
    forall i | 0 < i < |p| && Present(y, p[..i]) :: IsLevel(x, y, replace, at, p[..i])
  }

  /** Whether the delete-free merge has a location, read off the two documents: the second has it, or the
      first does and nothing in the second is in its way. */
  ghost predicate Shows(x: Json, y: Json, replace: set<string>, at: string, p: Path) {
    Present(y, p) || (Present(x, p) && Reaches(x, y, replace, at, p))
  }

  lemma ReachesStep(x: Json, y: Json, replace: set<string>, at: string, p: Path)
    requires x.Obj? && y.Obj? && |p| > 1 && p[0] in x.fields && p[0] in y.fields
    requires Descends(x.fields[p[0]], y.fields[p[0]], replace, BuildPath(at, p[0]))
    ensures Reaches(x, y, replace, at, p) <==>
      Reaches(x.fields[p[0]], y.fields[p[0]], replace, BuildPath(at, p[0]), p[1..])
  {
    var k, rest := p[0], p[1..];
    var v, w, path := x.fields[k], y.fields[k], BuildPath(at, k);
    forall i | 0 < i <= |rest|
      ensures Present(y, p[..i + 1]) <==> Present(w, rest[..i])
      ensures IsLevel(x, y, replace, at, p[..i + 1]) <==> IsLevel(v, w, replace, path, rest[..i])
    {
      assert p[..i + 1][1..] == rest[..i];
      IsLevelStep(x, y, replace, at, p[..i + 1]);
    }
    assert IsLevel(x, y, replace, at, p[..1]) by {
      assert p[..1] == [k] && [k][1..] == [];
      IsLevelStep(x, y, replace, at, [k]);
    }
    if Reaches(v, w, replace, path, rest) {
      forall i | 0 < i < |p| && Present(y, p[..i]) ensures IsLevel(x, y, replace, at, p[..i]) {
        if i > 1 {
          assert p[..(i - 1) + 1] == p[..i];
          assert Present(w, rest[..i - 1]);
        }
      }
    }
  }

  lemma {:induction false} PlainShows(a: Fields, b: Fields, replace: set<string>, at: string, p: Path)
    requires p != []
    ensures Present(Obj(Plain(a, b, replace, at)), p) <==> Shows(Obj(a), Obj(b), replace, at, p)
    decreases p
  {
    var k, rest, path := p[0], p[1..], BuildPath(at, p[0]);
    var plain := Obj(Plain(a, b, replace, at));
    PlainAt(a, b, replace, at, k);
    LookupOne(plain, k);
    if k !in b {
      forall i | 0 < i < |p| ensures !Present(Obj(b), p[..i]) { assert p[..i][0] == k; }
    } else if k in a && rest != [] {
      var merged := Combine(a[k], b[k], replace, {}, path);
      assert Present(plain, p) <==> Present(merged, rest);
      assert Present(Obj(b), p) <==> Present(b[k], rest);
      assert p[..1] == [k] && [k][1..] == [];
      LookupOne(Obj(b), k);
      IsLevelStep(Obj(a), Obj(b), replace, at, [k]);
      if Descends(a[k], b[k], replace, path) {
        ReachesStep(Obj(a), Obj(b), replace, at, p);
        PlainShows(a[k].fields, b[k].fields, replace, path, rest);
      } else {
        assert !Reaches(Obj(a), Obj(b), replace, at, p);
        assert merged == b[k] || (merged.Arr? && b[k].Arr?);
      }
    } else {
      assert k in plain.fields && (k !in a ==> plain.fields[k] == b[k]);
      assert Present(plain, p) <==> Present(plain.fields[k], rest);
      assert Present(Obj(b), p) <==> Present(b[k], rest);
    }
  }

  lemma SpreadNested(v: Json, levels: set<Path>, dels: set<Path>)
    ensures (forall q | q in Spread(levels - {[]}, dels) && q != [] :: !Present(v, q) || Covered(dels, q)) <==>
      forall r, d | r in levels && r != [] && d in dels :: !Present(v, r + d) || Covered(dels, r + d)
  {
    forall r, d | r in levels && r != [] && d in dels ensures r + d in Spread(levels - {[]}, dels) && r + d != [] {}
    forall q | q in Spread(levels - {[]}, dels) ensures exists r, d | r in levels && r != [] && d in dels :: q == r + d {}
  }

  lemma SpreadSplit(levels: set<Path>, dels: set<Path>)
    requires [] in levels
    ensures Spread(levels, dels) == dels + Spread(levels - {[]}, dels)
  {
    forall d | d in dels ensures d in Spread(levels, dels) { assert [] + d == d; }
    forall p | p in Spread(levels, dels) ensures p in dels + Spread(levels - {[]}, dels) {
      var r, d :| r in levels && d in dels && p == r + d;
      if r == [] { assert p == d; }
    }
  }

  /** The family on which it fails: deleting the one-key path k also removes h.k wherever both sides
      hold an object under h and either of them has k in it. */
  lemma DeleteReachesDeeper(a: Fields, b: Fields, replace: set<string>, at: string, h: string, k: string)
    requires h in a && h in b && h != k && Descends(a[h], b[h], replace, BuildPath(at, h))
    requires k in a[h].fields || k in b[h].fields
    ensures Present(Obj(Plain(a, b, replace, at)), [h, k])
    ensures !Present(Obj(MergeObjects(a, b, replace, {[k]}, at)), [h, k])
    ensures Obj(MergeObjects(a, b, replace, {[k]}, at)) != Prune(Obj(Plain(a, b, replace, at)), {[k]})
  {
    var p, plain := [h, k], Obj(Plain(a, b, replace, at));
    PresentDeeper(a, b, replace, at, h, k);
    assert p in Spread(Levels(a, b, replace, at), {[k]}) by {
      KeyLevel(a, b, replace, at, h);
      assert p == [h] + [k];
    }
    assert p[..1] == [h] && p[..2] == p;
    DeletedLocations(a, b, replace, {[k]}, at, p);
    PruneLookup(plain, {[k]}, p);
  }

  lemma PresentDeeper(a: Fields, b: Fields, replace: set<string>, at: string, h: string, k: string)
    requires h in a && h in b && Descends(a[h], b[h], replace, BuildPath(at, h))
    requires k in a[h].fields || k in b[h].fields
    ensures Present(Obj(Plain(a, b, replace, at)), [h, k])
  {
    var plain := Obj(Plain(a, b, replace, at));
    PlainAt(a, b, replace, at, h);
    PlainAt(a[h].fields, b[h].fields, replace, BuildPath(at, h), k);
    assert Lookup(plain, [h]) == Some(Obj(Plain(a[h].fields, b[h].fields, replace, BuildPath(at, h))));
    assert [h, k] == [h] + [k];
    LookupAppend(plain, [h], [k]);
  }

  lemma KeyLevel(a: Fields, b: Fields, replace: set<string>, at: string, h: string)
    requires h in a && h in b && Descends(a[h], b[h], replace, BuildPath(at, h))
    ensures [h] in Levels(a, b, replace, at)
  {
    LevelsInside(a, b, replace, at, h);
    LevelsInside(a[h].fields, b[h].fields, replace, BuildPath(at, h), "");
    InsideIs(Levels(a, b, replace, at), h, []);
    assert [h] + [] == [h];
  }

  // ----- Replacement and the shape of the merged document -----

  /** A location of the service document whose path is a replace option reads exactly as the service
      wrote it, whatever the template holds there or above. */
  lemma {:induction false} ReplacedReadsAsWritten(a: Fields, b: Fields, replace: set<string>, at: string, p: Path)
    requires p != [] && Present(Obj(b), p) && PathString(at, p) in replace
    ensures Lookup(Obj(Plain(a, b, replace, at)), p) == Lookup(Obj(b), p)
    decreases p
  {
    var k, path := p[0], BuildPath(at, p[0]);
    var plain := Obj(Plain(a, b, replace, at));
    PlainAt(a, b, replace, at, k);
    LookupOne(plain, k);
    assert Lookup(plain, p) == Lookup(plain.fields[k], p[1..]);
    if k in a && Descends(a[k], b[k], replace, path) {
      assert plain.fields[k] == Obj(Plain(a[k].fields, b[k].fields, replace, path));
      if |p| > 1 {
        ReplacedReadsAsWritten(a[k].fields, b[k].fields, replace, path, p[1..]);
      }
    } else if |p| > 1 {
      assert p[1..] != [] && Lookup(b[k], p[1..]).Some?;
      assert b[k].Obj?;
      assert k in a ==> Combine(a[k], b[k], replace, {}, path) == b[k];
      assert plain.fields[k] == b[k];
    }
  }

  /** What the merge leaves at a location where the two sides hold x and y. */
  ghost predicate Settles(x: Option<Json>, y: Option<Json>, z: Option<Json>, replaced: bool) {
    && (y.None? ==> z == x)
    && (x.None? ==> z == y)
    && (x.Some? && y.Some? ==>
          var bothObj, bothArr := x.value.Obj? && y.value.Obj?, x.value.Arr? && y.value.Arr?;
          && (!replaced && bothObj ==> z.Some? && z.value.Obj?)
          && (!replaced && bothArr ==> z == Some(Arr(x.value.items + NewItems(x.value.items, y.value.items))))
          && (replaced || (!bothObj && !bothArr) ==> z == y))
  }

  lemma PlainAt(a: Fields, b: Fields, replace: set<string>, at: string, k: string)
    ensures Lookup(Obj(Plain(a, b, replace, at)), [k]) ==
      if k in a && k in b then Some(Combine(a[k], b[k], replace, {}, BuildPath(at, k)))
      else if k in a then Some(a[k])
      else if k in b then Some(b[k])
      else None
  {
    PlainFields(a, b, replace, at);
    LookupOne(Obj(Plain(a, b, replace, at)), k);
  }

  lemma PlainSettles(a: Fields, b: Fields, replace: set<string>, at: string, k: string)
    ensures Settles(Lookup(Obj(a), [k]), Lookup(Obj(b), [k]), Lookup(Obj(Plain(a, b, replace, at)), [k]), BuildPath(at, k) in replace)
  {
    PlainAt(a, b, replace, at, k);
    LookupOne(Obj(a), k);
    LookupOne(Obj(b), k);
  }

  /** The merged document, location by location: at every key of every merged level. */
  lemma {:induction false} PlainLocations(a: Fields, b: Fields, replace: set<string>, at: string, r: Path, k: string)
    requires IsLevel(Obj(a), Obj(b), replace, at, r)
    ensures var q := r + [k];
      Settles(Lookup(Obj(a), q), Lookup(Obj(b), q), Lookup(Obj(Plain(a, b, replace, at)), q), PathString(at, q) in replace)
    decreases r
  {
    if r == [] {
      assert r + [k] == [k] && [k][1..] == [];
      assert PathString(at, [k]) == PathString(BuildPath(at, k), []) == BuildPath(at, k);
      PlainSettles(a, b, replace, at, k);
    } else {
      var h := r[0];
      IsLevelStep(Obj(a), Obj(b), replace, at, r);
      var plain := Obj(Plain(a, b, replace, at));
      PlainAt(a, b, replace, at, h);
      LookupOne(plain, h);
      assert plain.fields[h] == Obj(Plain(a[h].fields, b[h].fields, replace, BuildPath(at, h)));
      assert (r + [k])[1..] == r[1..] + [k];
      PlainLocations(a[h].fields, b[h].fields, replace, BuildPath(at, h), r[1..], k);
    }
  }
}
