/** The merge of two documents under a list of options, said in terms of the documents and the options alone. */
module Documents {
  import opened Basics
  import opened Json
  import opened Merge
  import opened MergeEngine
  import Refill
  import Text

  /** What the engine makes of an input: an object counts as itself, anything else as an empty object. */
  function Document(data: Option<Json>): Json {
    Obj(ParseFields(data))
  }

  lemma DocumentIs(data: Option<Json>, p: Path)
    ensures data.Some? && data.value.Obj? ==> Document(data) == data.value
    ensures !(data.Some? && data.value.Obj?) && p != [] ==> !Present(Document(data), p)
  {}

  ghost predicate Replaced(opts: seq<Opt>, q: Path) {
    Opt(PathString("", q), ReplaceOp) in opts
  }

  /** Both documents hold objects all the way down to r, and no replace option is on the way. */
  ghost predicate Meet(x: Json, y: Json, opts: seq<Opt>, r: Path) {
    forall i | 0 < i <= |r| ::
      && Lookup(x, r[..i]).Some? && Lookup(x, r[..i]).value.Obj?
      && Lookup(y, r[..i]).Some? && Lookup(y, r[..i]).value.Obj?
      && !Replaced(opts, r[..i])
  }

  lemma MeetIsLevel(x: Json, y: Json, opts: seq<Opt>, r: Path)
    ensures Meet(x, y, opts, r) <==> IsLevel(x, y, PathsWith(opts, ReplaceOp), "", r)
  {
    forall i | 0 < i <= |r| ensures Replaced(opts, r[..i]) <==> PathString("", r[..i]) in PathsWith(opts, ReplaceOp) {
      PathsWithIs(opts, ReplaceOp, PathString("", r[..i]));
    }
  }

  ghost predicate NoDeletes(opts: seq<Opt>) {
    forall p :: Opt(p, DeleteOp) !in opts
  }

  /** Two lists of options that name the same paths to replace. */
  ghost predicate SameReplaces(opts: seq<Opt>, opts': seq<Opt>) {
    forall p :: Opt(p, ReplaceOp) in opts <==> Opt(p, ReplaceOp) in opts'
  }

  lemma SameReplacePaths(opts: seq<Opt>, opts': seq<Opt>)
    requires SameReplaces(opts, opts')
    ensures PathsWith(opts, ReplaceOp) == PathsWith(opts', ReplaceOp)
  {
    forall p ensures p in PathsWith(opts, ReplaceOp) <==> p in PathsWith(opts', ReplaceOp) {
      PathsWithIs(opts, ReplaceOp, p);
      PathsWithIs(opts', ReplaceOp, p);
    }
  }

  lemma NoDeletePaths(opts: seq<Opt>)
    requires NoDeletes(opts)
    ensures DeletePaths(PathsWith(opts, DeleteOp)) == {}
  {
    forall p ensures p !in PathsWith(opts, DeleteOp) { PathsWithIs(opts, DeleteOp, p); }
    assert PathsWith(opts, DeleteOp) == {};
  }

  /** Without delete options, at every key of every level where the two documents meet: what the merged document
      holds, from what they hold there and whether an option replaces it. */
  lemma MergedLocations(a: Option<Json>, b: Option<Json>, opts: seq<Opt>, r: Path, k: string)
    requires NoDeletes(opts) && Meet(Document(a), Document(b), opts, r)
    ensures var q := r + [k];
      Settles(Lookup(Document(a), q), Lookup(Document(b), q), Lookup(MergeDocuments(a, b, opts), q), Replaced(opts, q))
  {
    NoDeletePaths(opts);
    MeetIsLevel(Document(a), Document(b), opts, r);
    PathsWithIs(opts, ReplaceOp, PathString("", r + [k]));
    PlainLocations(ParseFields(a), ParseFields(b), PathsWith(opts, ReplaceOp), "", r, k);
  }

  /** Some delete option, its path taken from a level where the documents meet, names q or something above it. */
  ghost predicate Gone(x: Json, y: Json, opts: seq<Opt>, q: Path) {
    exists r, p | Meet(x, y, opts, r) && Opt(p, DeleteOp) in opts :: r + Text.Split(p, '.') <= q
  }

  lemma GoneIs(a: Option<Json>, b: Option<Json>, opts: seq<Opt>, q: Path)
    ensures var replace, dels := PathsWith(opts, ReplaceOp), DeletePaths(PathsWith(opts, DeleteOp));
      Gone(Document(a), Document(b), opts, q) <==>
      Covered(Spread(Levels(ParseFields(a), ParseFields(b), replace, ""), dels), q)
  {
    var replace, dels := PathsWith(opts, ReplaceOp), DeletePaths(PathsWith(opts, DeleteOp));
    Refill.DeletedIs(ParseFields(a), ParseFields(b), replace, dels, "", q);
    if Refill.Deleted(Document(a), Document(b), replace, dels, "", q) {
      var r, d :| IsLevel(Document(a), Document(b), replace, "", r) && d in dels && r + d <= q;
      var p :| p in PathsWith(opts, DeleteOp) && d == Text.Split(p, '.');
      PathsWithIs(opts, DeleteOp, p);
      MeetIsLevel(Document(a), Document(b), opts, r);
    }
    if r, p :| Meet(Document(a), Document(b), opts, r) && Opt(p, DeleteOp) in opts && r + Text.Split(p, '.') <= q {
      PathsWithIs(opts, DeleteOp, p);
      MeetIsLevel(Document(a), Document(b), opts, r);
      assert Text.Split(p, '.') in dels;
    }
  }

  /** What delete options add, at every location: it is gone, or it is there exactly when the merge under the same
      replace options and no delete options has it, and anything but an object reads the same. */
  lemma MergedWithDeletes(a: Option<Json>, b: Option<Json>, opts: seq<Opt>, opts': seq<Opt>, q: Path)
    requires NoDeletes(opts') && SameReplaces(opts, opts')
    ensures var z, z' := Lookup(MergeDocuments(a, b, opts), q), Lookup(MergeDocuments(a, b, opts'), q);
      if Gone(Document(a), Document(b), opts, q) then z.None?
      else (z.Some? <==> z'.Some?) && (z.Some? ==> (z.value.Obj? <==> z'.value.Obj?) && (!z.value.Obj? ==> z == z'))
  {
    NoDeletePaths(opts');
    SameReplacePaths(opts, opts');
    GoneIs(a, b, opts, q);
    DeletedLocations(ParseFields(a), ParseFields(b), PathsWith(opts, ReplaceOp), DeletePaths(PathsWith(opts, DeleteOp)), "", q);
  }

  /** Only replace and delete options matter, and only which paths they name. */
  lemma OtherOptionsIdle(a: Option<Json>, b: Option<Json>, opts: seq<Opt>, opts': seq<Opt>)
    requires SameReplaces(opts, opts') && forall p :: Opt(p, DeleteOp) in opts <==> Opt(p, DeleteOp) in opts'
    ensures MergeDocuments(a, b, opts) == MergeDocuments(a, b, opts')
  {
    SameReplacePaths(opts, opts');
    forall p ensures p in PathsWith(opts, DeleteOp) <==> p in PathsWith(opts', DeleteOp) {
      PathsWithIs(opts, DeleteOp, p);
      PathsWithIs(opts', DeleteOp, p);
    }
    assert PathsWith(opts, DeleteOp) == PathsWith(opts', DeleteOp);
  }

  /** The location a delete option names: its path is the keys joined by dots, and no key has a dot in it. */
  lemma DeletePathsAre(keys: set<string>, d: Path)
    ensures d in DeletePaths(keys) <==>
      d != [] && Text.Join(d, '.') in keys && forall i | 0 <= i < |d| :: Text.Free(d[i], '.')
  {
    if d in DeletePaths(keys) {
      var key :| key in keys && d == Text.Split(key, '.');
      Text.JoinSplit(key, '.');
      Text.SplitParts(key, '.');
    }
    if d != [] && Text.Join(d, '.') in keys && forall i | 0 <= i < |d| :: Text.Free(d[i], '.') {
      Text.SplitJoined(d, '.');
    }
  }
}
