/** The engine itself: the loops that build the merged object out of maps in memory. The result shares the
    maps below its first operand and the delete options are carried out in place on them; the loops are
    proved to compute the merge whatever order the keys and the delete options are visited in. */
module MergeEngine {
  import opened Basics
  import opened Json
  import opened Merge
  import Text

  /** An object without one location, followed through objects only. */
  function Without(m: Fields, keys: Path): Fields
    decreases keys
  {
    if keys == [] then m
    else if |keys| == 1 then m - {keys[0]}
    else if keys[0] in m && m[keys[0]].Obj? then m[keys[0] := Obj(Without(m[keys[0]].fields, keys[1..]))]
    else m
  }

  lemma BelowOne(keys: Path, k: string)
    requires keys != []
    ensures Below({keys}, k) == if k == keys[0] && |keys| > 1 then {keys[1..]} else {}
    ensures [k] in {keys} <==> |keys| == 1 && k == keys[0]
  {
    if |keys| == 1 { assert keys == [keys[0]]; }
  }

  lemma {:induction false} DeleteIsPrune(m: Fields, keys: Path)
    requires keys != []
    ensures Obj(Without(m, keys)) == Prune(Obj(m), {keys})
    decreases keys
  {
    var h := keys[0];
    if |keys| > 1 && h in m && m[h].Obj? {
      DeleteIsPrune(m[h].fields, keys[1..]);
    }
    forall k | k in m
      ensures [k] in {keys} <==> |keys| == 1 && k == h
      ensures Prune(m[k], Below({keys}, k)) ==
        if k == h && |keys| > 1 && m[h].Obj? then Obj(Without(m[h].fields, keys[1..])) else m[k]
    {
      BelowOne(keys, k);
      PruneNothing(m[k], {});
    }
    assert Without(m, keys) == Prune(Obj(m), {keys}).fields;
  }

  /** A decoded JSON value: an object is a map in memory, anything else is never changed. */
  datatype Value = Leaf(json: Json) | Ref(m: MapObject)

  /** The document a value stands for, and the maps it is made of. */
  ghost function Tree(v: Value): Json
    reads if v.Ref? then {v.m} else {}
  {
    match v case Leaf(j) => j case Ref(m) => Obj(m.View)
  }

  ghost function Maps(v: Value): set<MapObject>
    reads if v.Ref? then {v.m} else {}
  {
    match v case Leaf(_) => {} case Ref(m) => m.Repr
  }

  ghost predicate Good(v: Value)
    reads if v.Ref? then {v.m} + v.m.Repr else {}
  {
    match v case Leaf(j) => !j.Obj? case Ref(m) => m.Valid()
  }

  ghost function Owned(owner: map<MapObject, string>, maps: set<MapObject>, k: string): map<MapObject, string> {
    map o | o in owner.Keys + maps :: if o in maps then k else owner[o]
  }

  lemma OwnedKeeps(owner: map<MapObject, string>, maps: set<MapObject>, k: string, others: set<MapObject>, j: string)
    requires j != k && forall o | o in maps && o in owner :: owner[o] == k
    requires forall o | o in others :: o in owner && owner[o] == j
    ensures others !! maps
    ensures forall o | o in others :: o in Owned(owner, maps, k) && Owned(owner, maps, k)[o] == j
  {}

  class MapObject {
    var entries: map<string, Value>

    ghost var View: Fields  // the tree hanging below this map
    ghost var Repr: set<MapObject>  // this map and those below it
    ghost var Owner: map<MapObject, string>  // the key below which another map of the tree lies

    ghost predicate Child(k: string)
      requires k in entries && k in View
      reads this, Repr
      decreases Repr, 0
    {
      this in Repr &&
      match entries[k]
      case Leaf(v) => !v.Obj? && View[k] == v
      case Ref(m) =>
        && m in Repr && m.Repr <= Repr - {this} && m.Valid() && View[k] == Obj(m.View)
        && forall o | o in m.Repr :: o in Owner && Owner[o] == k
    }

    ghost predicate ValidBut(k: string)
      reads this, Repr
      decreases Repr, 1
    {
      && this in Repr && View.Keys == entries.Keys && Owner.Keys <= Repr
      && forall j | j in entries && j != k :: Child(j)
    }

    ghost predicate Valid()
      reads this, Repr
      decreases Repr, 1
    {
      && this in Repr && View.Keys == entries.Keys && Owner.Keys <= Repr
      && forall k | k in entries :: Child(k)
    }

    constructor ()
      ensures Valid() && View == map[] && Repr == {this}
    {
      entries := map[];
      View := map[];
      Repr := {this};
      Owner := map[];
    }

    /** A shallow copy: the maps below are shared. */
    constructor CopyOf(a: MapObject)
      requires a.Valid()
      ensures Valid() && View == a.View && Repr == {this} + (a.Repr - {a})
    {
      entries := a.entries;
      View := a.View;
      Repr := {this} + (a.Repr - {a});
      Owner := map o | o in a.Owner && o != a :: a.Owner[o];
      new;
      forall k | k in entries ensures Child(k) { assert a.Child(k); }
    }

    method PutLeaf(k: string, json: Json)
      requires ValidBut(k) && !json.Obj?
      modifies this
      ensures Valid() && View == old(View)[k := json] && Repr == old(Repr)
    {
      entries := entries[k := Leaf(json)];
      View := View[k := json];
      forall j | j in entries && j != k ensures Child(j) { assert old(Child(j)); }
    }

    method PutMap(k: string, m: MapObject)
      requires ValidBut(k) && m.Valid() && this !in m.Repr
      requires forall o | o in m.Repr && o in Repr :: o in Owner && Owner[o] == k
      modifies this
      ensures Valid() && View == old(View)[k := Obj(m.View)] && Repr == old(Repr) + m.Repr
    {
      entries := entries[k := Ref(m)];
      View := View[k := Obj(m.View)];
      Repr := Repr + m.Repr;
      Owner := Owned(Owner, m.Repr, k);
      forall j | j in entries && j != k ensures Child(j) {
        assert old(Child(j));
        if entries[j].Ref? {
          var c := entries[j].m;
          OwnedKeeps(old(Owner), m.Repr, k, c.Repr, j);
          assert old(c.Valid()) && c.Valid();
        }
      }
    }

    /** Stores a value under k, where nothing that v is made of lies below another key. */
    method Put(k: string, v: Value)
      requires ValidBut(k) && Good(v) && this !in Maps(v)
      requires forall o | o in Maps(v) && o in Repr :: o in Owner && Owner[o] == k
      modifies this
      ensures Valid() && View == old(View)[k := Tree(v)] && Repr == old(Repr) + Maps(v)
    {
      match v
      case Leaf(json) => PutLeaf(k, json);
      case Ref(m) => PutMap(k, m);
    }
  }

  method DeleteRecursive(m: MapObject, keys: Path)
    requires m.Valid()
    modifies m.Repr
    ensures m.Valid() && m.Repr == old(m.Repr) && m.View == Without(old(m.View), keys)
    decreases keys
  {
    if |keys| == 0 {
      return;
    }
    var k := keys[0];
    if |keys| == 1 {
      m.entries := m.entries - {k};
      m.View := m.View - {k};
    } else if k in m.entries {
      assert m.Child(k);
      if m.entries[k].Ref? {
        var next := m.entries[k].m;
        DeleteRecursive(next, keys[1..]);
        m.View := m.View[k := Obj(next.View)];
        assert m.Child(k);
      }
    }
    forall j | j in m.entries && j != k ensures m.Child(j) {
      assert old(m.Child(j));
      if m.entries[j].Ref? {
        assert old(m.entries[j].m.Valid());
      }
    }
  }

  lemma DeletePathsSplit(keys: set<string>, key: string)
    requires key in keys
    ensures DeletePaths(keys) == DeletePaths(keys - {key}) + {Text.Split(key, '.')}
  {}

  method DeleteKeys(m: MapObject, opts: ParsedOpts)
    requires m.Valid()
    modifies m.Repr
    ensures m.Valid() && m.Repr == old(m.Repr) && Obj(m.View) == Prune(Obj(old(m.View)), DeletePaths(opts.delete))
  {
    ghost var f := m.View;
    var todo := opts.delete;
    PruneNothing(Obj(f), DeletePaths({}));
    assert opts.delete - todo == {};
    while todo != {}
      invariant todo <= opts.delete
      invariant m.Valid() && m.Repr == old(m.Repr)
      invariant Obj(m.View) == Prune(Obj(f), DeletePaths(opts.delete - todo))
      decreases todo
    {
      var key :| key in todo;
      DeleteIsPrune(m.View, Text.Split(key, '.'));
      PruneTwice(Obj(f), DeletePaths(opts.delete - todo), {Text.Split(key, '.')});
      assert opts.delete - (todo - {key}) - {key} == opts.delete - todo;
      DeletePathsSplit(opts.delete - (todo - {key}), key);
      DeleteRecursive(m, Text.Split(key, '.'));
      todo := todo - {key};
    }
    assert opts.delete - todo == opts.delete;
  }

  method ParseOpts(opts: seq<Opt>) returns (o: ParsedOpts)
    ensures forall p :: p in o.replace <==> Opt(p, ReplaceOp) in opts
    ensures forall p :: p in o.delete <==> Opt(p, DeleteOp) in opts
  {
    o := ParsedOpts({}, {});
    for i := 0 to |opts|
      invariant forall p :: p in o.replace <==> Opt(p, ReplaceOp) in opts[..i]
      invariant forall p :: p in o.delete <==> Opt(p, DeleteOp) in opts[..i]
    {
      assert opts[..i + 1] == opts[..i] + [opts[i]];
      match opts[i].operation
      case ReplaceOp => o := o.(replace := o.replace + {opts[i].path});
      case DeleteOp => o := o.(delete := o.delete + {opts[i].path});
      case _ =>
    }
    assert opts[..|opts|] == opts;
  }

  method MergeArrays(a: seq<Json>, b: seq<Json>, opts: ParsedOpts, path: string) returns (r: seq<Json>)
    ensures Arr(r) == Combine(Arr(a), Arr(b), opts.replace, DeletePaths(opts.delete), path)
  {
    if path in opts.replace {
      return b;
    }
    var seen := {};
    for i := 0 to |a|
      invariant seen == set j | 0 <= j < i :: a[j]
    {
      seen := seen + {a[i]};
    }
    assert forall x :: x in seen <==> x in a;
    r := a;
    for i := 0 to |b|
      invariant r == a + NewItems(a, b[..i])
    {
      assert b[..i + 1][..i] == b[..i];
      if b[i] !in seen {
        r := r + [b[i]];
      }
    }
    assert b[..|b|] == b;
  }

  /** Two objects meet under key k: the merged object takes the place of the first. */
  method MergeBelow(r: MapObject, k: string, c: MapObject, opts: ParsedOpts, path: string)
    requires r.Valid() && k in r.entries && r.entries[k].Ref? && c.Valid() && c.Repr !! r.Repr && path !in opts.replace
    modifies r.Repr, c.Repr
    ensures r.Valid() && fresh(r.Repr - old(r.Repr) - old(c.Repr))
    ensures r.View == old(r.View)[k := Combine(old(r.View[k]), Obj(old(c.View)), opts.replace, DeletePaths(opts.delete), path)]
    decreases Obj(c.View), 2
  {
    assert r.Child(k);
    var merged := MergeMaps(r.entries[k].m, c, opts, path);
    forall j | j in r.entries && j != k ensures r.Child(j) {
      assert old(r.Child(j));
      if r.entries[j].Ref? {
        assert old(r.entries[j].m.Valid());
      }
    }
    r.Put(k, Ref(merged));
  }

  method MergeValue(r: MapObject, k: string, v: Value, opts: ParsedOpts, path: string)
    requires r.Valid() && k in r.entries && Good(v) && Maps(v) !! r.Repr
    modifies r.Repr, Maps(v)
    ensures r.Valid() && fresh(r.Repr - old(r.Repr) - old(Maps(v)))
    ensures r.View == old(r.View)[k := Combine(old(r.View[k]), old(Tree(v)), opts.replace, DeletePaths(opts.delete), path)]
    decreases Tree(v), 3
  {
    var existing := r.entries[k];
    assert r.Child(k);
    if v.Ref? && existing.Ref? && path !in opts.replace {
      MergeBelow(r, k, v.m, opts, path);
    } else if v.Leaf? && v.json.Arr? && existing.Leaf? && existing.json.Arr? {
      var merged := MergeArrays(existing.json.items, v.json.items, opts, path);
      r.Put(k, Leaf(Arr(merged)));
    } else {
      r.Put(k, v);
    }
  }

  /** The merged entries once the keys in done have been taken from g. */
  ghost function Partial(f: Fields, g: Fields, opts: ParsedOpts, path: string, done: set<string>): Fields
    requires done <= g.Keys
  {
    map k | k in f.Keys + done ::
      if k in done then Entry(f, g, opts.replace, DeletePaths(opts.delete), path, k) else f[k]
  }

  lemma PartialStep(f: Fields, g: Fields, opts: ParsedOpts, path: string, done: set<string>, k: string)
    requires done <= g.Keys && k in g && k !in done
    ensures Partial(f, g, opts, path, done + {k}) ==
      Partial(f, g, opts, path, done)[k := Entry(f, g, opts.replace, DeletePaths(opts.delete), path, k)]
  {}

  lemma PartialEnds(f: Fields, g: Fields, opts: ParsedOpts, path: string)
    ensures Partial(f, g, opts, path, {}) == f
    ensures Partial(f, g, opts, path, g.Keys) == MergeEntries(f, g, opts.replace, DeletePaths(opts.delete), path)
  {}

  ghost function Merged(f: Fields, k: string, v: Json, opts: ParsedOpts, path: string): Json {
    if k in f then Combine(f[k], v, opts.replace, DeletePaths(opts.delete), path) else v
  }

  method MergeKey(r: MapObject, k: string, v: Value, opts: ParsedOpts, path: string)
    requires r.Valid() && Good(v) && Maps(v) !! r.Repr
    modifies r.Repr, Maps(v)
    ensures r.Valid() && r.View == old(r.View)[k := Merged(old(r.View), k, old(Tree(v)), opts, path)]
    ensures fresh(r.Repr - old(r.Repr) - old(Maps(v)))
    decreases Tree(v), 4
  {
    if k in r.entries {
      MergeValue(r, k, v, opts, path);
    } else {
      r.Put(k, v);
    }
  }

  /** What is still to be taken from b: intact below the keys in todo, and shared with nothing taken so far. */
  ghost predicate Pending(b: MapObject, todo: set<string>, taken: set<MapObject>)
    reads b, b.Repr
  {
    && todo <= b.entries.Keys == b.View.Keys && b !in taken
    && (forall k | k in todo :: b.Child(k))
    && (forall o | o in b.Owner && b.Owner[o] in todo && o != b :: o !in taken)
  }

  method TakeKey(r: MapObject, b: MapObject, k: string, ghost todo: set<string>, opts: ParsedOpts, path: string)
    requires r.Valid() && Pending(b, todo, r.Repr) && k in todo
    modifies r.Repr, b.Repr - {b}
    ensures r.Valid() && unchanged(b) && Pending(b, todo - {k}, r.Repr)
    ensures r.View == old(r.View)[k := Merged(old(r.View), k, b.View[k], opts, path)]
    ensures fresh(r.Repr - old(r.Repr) - b.Repr)
    decreases b.View[k], 5
  {
    var v := b.entries[k];
    assert b.Child(k);
    MergeKey(r, k, v, opts, path);
    forall j | j in todo && j != k ensures b.Child(j) {
      assert old(b.Child(j));
      if b.entries[j].Ref? {
        assert old(b.entries[j].m.Valid());
      }
    }
  }

  method MergeMaps(a: MapObject, b: MapObject, opts: ParsedOpts, currentPath: string) returns (result: MapObject)
    requires a.Valid() && b.Valid() && a.Repr !! b.Repr
    modifies a.Repr, b.Repr
    ensures result.Valid() && fresh(result) && fresh(result.Repr - old(a.Repr) - old(b.Repr))
    ensures result.View == MergeObjects(old(a.View), old(b.View), opts.replace, DeletePaths(opts.delete), currentPath)
    decreases Obj(b.View), 1
  {
    ghost var f, g := a.View, b.View;
    result := new MapObject.CopyOf(a);
    var todo := b.entries.Keys;
    PartialEnds(f, g, opts, currentPath);
    assert g.Keys - todo == {};
    while todo != {}
      invariant unchanged(b) && Pending(b, todo, result.Repr)
      invariant result.Valid() && fresh(result) && fresh(result.Repr - old(a.Repr) - old(b.Repr))
      invariant result.View == Partial(f, g, opts, currentPath, g.Keys - todo)
      decreases todo
    {
      var k :| k in todo;
      assert g[k] < Obj(g);
      PartialStep(f, g, opts, currentPath, g.Keys - todo, k);
      assert g.Keys - (todo - {k}) == g.Keys - todo + {k};
      TakeKey(result, b, k, todo, opts, BuildPath(currentPath, k));
      todo := todo - {k};
    }
    assert g.Keys - todo == g.Keys;
    DeleteKeys(result, opts);
  }

  /** An unparsed document: anything but an object counts as an empty one. */
  function ParseFields(data: Option<Json>): Fields {
    match data case Some(Obj(fields)) => fields case _ => map[]
  }

  /** Decoding builds every object anew. */
  method Decode(fields: Fields) returns (m: MapObject)
    ensures m.Valid() && m.View == fields && fresh(m.Repr)
    decreases Obj(fields), 1
  {
    m := new MapObject();
    var todo := fields.Keys;
    while todo != {}
      invariant todo <= fields.Keys && m.Valid() && fresh(m.Repr)
      invariant m.View == fields - todo
      decreases todo
    {
      var k :| k in todo;
      assert fields[k] < Obj(fields);
      assert fields - (todo - {k}) == (fields - todo)[k := fields[k]];
      var v := DecodeValue(fields[k]);
      m.Put(k, v);
      todo := todo - {k};
    }
  }

  method DecodeValue(j: Json) returns (v: Value)
    ensures Good(v) && Tree(v) == j && fresh(Maps(v))
    decreases j, 2
  {
    if j.Obj? {
      var m := Decode(j.fields);
      v := Ref(m);
    } else {
      v := Leaf(j);
    }
  }

  method Encode(m: MapObject) returns (fields: Fields)
    requires m.Valid()
    ensures fields == m.View
    decreases Obj(m.View)
  {
    fields := map[];
    var todo := m.entries.Keys;
    while todo != {}
      invariant todo <= m.entries.Keys
      invariant fields == m.View - todo
      decreases todo
    {
      var k :| k in todo;
      assert m.Child(k);
      assert m.View[k] < Obj(m.View);
      match m.entries[k] {
        case Leaf(j) => fields := fields[k := j];
        case Ref(c) =>
          var inner := Encode(c);
          fields := fields[k := Obj(inner)];
      }
      todo := todo - {k};
    }
  }

  /** The paths that carry an operation. */
  function PathsWith(opts: seq<Opt>, operation: Operation): set<string> {
    set o | o in opts && o.operation == operation :: o.path
  }

  /** A path carries an operation exactly when an option says so. */
  lemma PathsWithIs(opts: seq<Opt>, operation: Operation, p: string)
    ensures p in PathsWith(opts, operation) <==> Opt(p, operation) in opts
  {
    if Opt(p, operation) in opts {
      assert Opt(p, operation).operation == operation;
    }
  }

  /** What a merge of two documents under a list of options is. */
  function MergeDocuments(a: Option<Json>, b: Option<Json>, opts: seq<Opt>): Json {
    Obj(MergeObjects(ParseFields(a), ParseFields(b), PathsWith(opts, ReplaceOp), DeletePaths(PathsWith(opts, DeleteOp)), ""))
  }

  method JSONRawMessages(a: Option<Json>, b: Option<Json>, opts: seq<Opt>) returns (merged: Json)
    ensures merged == MergeDocuments(a, b, opts)
  {
    var mapA := Decode(ParseFields(a));
    var mapB := Decode(ParseFields(b));
    var o := ParseOpts(opts);
    forall p ensures p in PathsWith(opts, ReplaceOp) <==> p in o.replace { PathsWithIs(opts, ReplaceOp, p); }
    forall p ensures p in PathsWith(opts, DeleteOp) <==> p in o.delete { PathsWithIs(opts, DeleteOp, p); }
    assert o == ParsedOpts(PathsWith(opts, ReplaceOp), PathsWith(opts, DeleteOp));
    var result := MergeMaps(mapA, mapB, o, "");
    var fields := Encode(result);
    merged := Obj(fields);
  }

  /** No location named by a delete option is left in the merged document. */
  lemma DeletedAreAbsent(a: Option<Json>, b: Option<Json>, opts: seq<Opt>, i: nat)
    requires i < |opts| && opts[i].operation == DeleteOp
    ensures !Present(MergeDocuments(a, b, opts), Text.Split(opts[i].path, '.'))
  {
    assert opts[i].path in PathsWith(opts, DeleteOp);
    DeletedLocations(ParseFields(a), ParseFields(b), PathsWith(opts, ReplaceOp), DeletePaths(PathsWith(opts, DeleteOp)), "",
                     Text.Split(opts[i].path, '.'));
  }

  /** Without delete options, a location with a replace option reads as the second document wrote it. */
  lemma ReplacedAreWritten(a: Option<Json>, b: Option<Json>, opts: seq<Opt>, p: Path)
    requires forall i | 0 <= i < |opts| :: opts[i].operation != DeleteOp
    requires p != [] && Present(Obj(ParseFields(b)), p) && Opt(PathString("", p), ReplaceOp) in opts
    ensures Lookup(MergeDocuments(a, b, opts), p) == Lookup(Obj(ParseFields(b)), p)
  {
    assert PathsWith(opts, DeleteOp) == {};
    assert DeletePaths(PathsWith(opts, DeleteOp)) == {};
    ReplacedReadsAsWritten(ParseFields(a), ParseFields(b), PathsWith(opts, ReplaceOp), "", p);
  }

  /** A delete option for the top-level key k also takes the k inside an object that both documents hold. */
  lemma DeleteTakesNestedKey(f: Fields, g: Fields, h: string, k: string)
    requires Text.Free(k, '.') && h != k && h in f && h in g && f[h].Obj? && g[h].Obj?
    requires k in f[h].fields || k in g[h].fields
    ensures Present(MergeDocuments(Some(Obj(f)), Some(Obj(g)), []), [h, k])
    ensures !Present(MergeDocuments(Some(Obj(f)), Some(Obj(g)), [Opt(k, DeleteOp)]), [h, k])
  {
    var opts := [Opt(k, DeleteOp)];
    assert PathsWith([], DeleteOp) == PathsWith([], ReplaceOp) == PathsWith(opts, ReplaceOp) == {};
    assert PathsWith(opts, DeleteOp) == {k};
    assert DeletePaths({}) == {};
    Text.SplitFree(k, '.');
    assert DeletePaths({k}) == {[k]};
    DeleteReachesDeeper(f, g, {}, "", h, k);
  }

  /** One document {"h": {"k": null}} merged with itself, with and without deleting k. */
  lemma DeleteTakesNestedKeyExample(doc: Json, h: string, k: string)
    requires h == "h" && k == "k" && doc == Obj(map[h := Obj(map[k := Null])])
    ensures Present(MergeDocuments(Some(doc), Some(doc), []), [h, k])
    ensures !Present(MergeDocuments(Some(doc), Some(doc), [Opt(k, DeleteOp)]), [h, k])
  {
    assert h[0] != k[0];
    DeleteTakesNestedKey(doc.fields, doc.fields, h, k);
  }
}
