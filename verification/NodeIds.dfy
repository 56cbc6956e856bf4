/** The node-ID annotation of a VirtualService: printing a list of IDs and reading it back. */
module NodeIds {
  import opened Basics
  import Text

  const ANNOTATION_NODE_IDS := "envoy.kaasops.io/node-id"

  type Annotations = map<string, string>

  /** The list with later repeats dropped. */
  function Dedup(xs: seq<string>): (r: seq<string>)
    ensures forall x :: x in r <==> x in xs
    ensures forall i, j | 0 <= i < j < |r| :: r[i] != r[j]
  {
    if xs == [] then []
    else
      var init, last := Dedup(xs[..|xs| - 1]), xs[|xs| - 1];
      assert xs == xs[..|xs| - 1] + [last];
      if last in init then init else init + [last]
  }

  function TrimAll(xs: seq<string>): (r: seq<string>)
    ensures |r| == |xs| && forall i | 0 <= i < |xs| :: r[i] == Text.TrimSpace(xs[i])
  {
    if xs == [] then [] else TrimAll(xs[..|xs| - 1]) + [Text.TrimSpace(xs[|xs| - 1])]
  }

  /** What the annotation text means. */
  function Parse(text: string): seq<string> {
    if text == "" then [] else Dedup(TrimAll(Text.Split(text, ',')))
  }

  /** One more entry either repeats or is appended. */
  lemma ReadStep(xs: seq<string>, x: string)
    ensures var before, entry := Dedup(TrimAll(xs)), Text.TrimSpace(x);
      Dedup(TrimAll(xs + [x])) == if entry in before then before else before + [entry]
  {
    assert (xs + [x])[..|xs|] == xs;
    DedupStep(TrimAll(xs), Text.TrimSpace(x));
  }

  lemma MoveOver(seen: seq<string>, rest: seq<string>)
    requires rest != []
    ensures seen + [rest[0]] + rest[1..] == seen + rest
  {}

  method ReadEntries(entries: seq<string>) returns (list: seq<string>)
    ensures list == Dedup(TrimAll(entries))
  {
    list := [];
    var keys: set<string> := {};
    var rest := entries;
    ghost var seen: seq<string> := [];
    while rest != []
      invariant seen + rest == entries
      invariant list == Dedup(TrimAll(seen))
      invariant forall x :: x in keys <==> x in list
      decreases |rest|
    {
      var raw := rest[0];
      ReadStep(seen, raw);
      MoveOver(seen, rest);
      seen, rest := seen + [raw], rest[1..];
      var entry := Text.TrimSpace(raw);
      if entry !in keys {
        keys := keys + {entry};
        list := list + [entry];
      }
    }
    assert seen + [] == seen;
  }

  lemma DedupStep(xs: seq<string>, x: string)
    ensures Dedup(xs + [x]) == if x in Dedup(xs) then Dedup(xs) else Dedup(xs) + [x]
  {
    assert (xs + [x])[..|xs|] == xs;
  }

  /** The part of a VirtualService the node IDs live in; None is Go's nil map. */
  class ObjectMeta {
    var annotations: Option<Annotations>

    method GetNodeIDs() returns (list: seq<string>)
      ensures list == match annotations case Some(m) => Get(m) case None => []
    {
      if annotations.None? || ANNOTATION_NODE_IDS !in annotations.value || annotations.value[ANNOTATION_NODE_IDS] == "" {
        return [];
      }
      list := ReadEntries(Text.Split(annotations.value[ANNOTATION_NODE_IDS], ','));
    }

    /** Deleting from a nil map does nothing; writing to one panics. */
    method SetNodeIDs(nodeIDs: seq<string>) returns (panics: bool)
      modifies this
      ensures panics <==> old(annotations).None? && nodeIDs != []
      ensures annotations == match old(annotations) case Some(m) => Some(Set(m, nodeIDs)) case None => None
      ensures annotations.Some? <==> old(annotations).Some?
      ensures annotations.Some? ==> forall k | k != ANNOTATION_NODE_IDS ::
        && (k in annotations.value <==> k in old(annotations).value)
        && (k in annotations.value ==> annotations.value[k] == old(annotations).value[k])
      ensures annotations.Some? ==> (ANNOTATION_NODE_IDS in annotations.value <==> nodeIDs != [])
      ensures annotations.Some? && nodeIDs != [] ==> annotations.value[ANNOTATION_NODE_IDS] == Text.Join(nodeIDs, ',')
    {
      panics := false;
      if |nodeIDs| == 0 {
        if annotations.Some? {
          annotations := Some(annotations.value - {ANNOTATION_NODE_IDS});
        }
      } else if annotations.None? {
        panics := true;
      } else {
        annotations := Some(annotations.value[ANNOTATION_NODE_IDS := Text.Join(nodeIDs, ',')]);
      }
    }
  }

  /** The annotations after SetNodeIDs. */
  function Set(annotations: Annotations, nodeIDs: seq<string>): Annotations {
    if nodeIDs == [] then annotations - {ANNOTATION_NODE_IDS}
    else annotations[ANNOTATION_NODE_IDS := Text.Join(nodeIDs, ',')]
  }

  /** Writing node IDs leaves every other annotation alone; an empty list takes the annotation away. */
  lemma SetOnlyNodeIDs(annotations: Annotations, nodeIDs: seq<string>, k: string)
    ensures var after := Set(annotations, nodeIDs);
      if k != ANNOTATION_NODE_IDS then (k in after <==> k in annotations) && (k in after ==> after[k] == annotations[k])
      else k in after <==> nodeIDs != []
  {}

  function Get(annotations: Annotations): seq<string> {
    if ANNOTATION_NODE_IDS in annotations then Parse(annotations[ANNOTATION_NODE_IDS]) else []
  }

  function IndexFrom(xs: seq<string>, x: string, n: nat): (i: nat)
    requires n <= |xs|
    ensures n <= i <= |xs| && (i < |xs| ==> xs[i] == x) && forall j | n <= j < i :: xs[j] != x
    decreases |xs| - n
  {
    if n == |xs| || xs[n] == x then n else IndexFrom(xs, x, n + 1)
  }

  /** The position of the first occurrence, or the length. */
  function FirstIndex(xs: seq<string>, x: string): (i: nat)
    ensures i <= |xs| && (i < |xs| ==> xs[i] == x) && forall j | 0 <= j < i :: xs[j] != x
  {
    IndexFrom(xs, x, 0)
  }

  /** Dropping repeats keeps first occurrences in their order. */
  lemma {:induction false} DedupKeepsOrder(xs: seq<string>, i: nat, j: nat)
    requires i < j < |Dedup(xs)|
    ensures Dedup(xs)[i] in xs && Dedup(xs)[j] in xs
    ensures FirstIndex(xs, Dedup(xs)[i]) < FirstIndex(xs, Dedup(xs)[j])
  {
    var init, last := xs[..|xs| - 1], xs[|xs| - 1];
    var r := Dedup(init);
    assert xs == init + [last];
    assert r[i] in init && FirstIndex(init, r[i]) < |init|;
    assert FirstIndex(xs, r[i]) == FirstIndex(init, r[i]);
    if j < |r| {
      DedupKeepsOrder(init, i, j);
      assert r[j] in init && FirstIndex(xs, r[j]) == FirstIndex(init, r[j]);
    } else {
      assert last !in init && FirstIndex(xs, last) == |init|;
    }
  }

  // ----- Round trips -----

  /** The entries a list prints to: an ID with commas in it falls apart. */
  function Pieces(xs: seq<string>): seq<string> {
    if xs == [] then [] else Text.Split(xs[0], ',') + Pieces(xs[1..])
  }

  lemma {:induction false} SplitJoin(xs: seq<string>)
    requires xs != []
    ensures Text.Split(Text.Join(xs, ','), ',') == Pieces(xs)
  {
    if |xs| == 1 {
      assert Pieces(xs[1..]) == [];
    } else {
      SplitJoin(xs[1..]);
      Text.SplitConcat(xs[0], Text.Join(xs[1..], ','), ',');
    }
  }

  lemma {:induction false} PiecesOfCommaFree(xs: seq<string>)
    requires forall i | 0 <= i < |xs| :: Text.Free(xs[i], ',')
    ensures Pieces(xs) == xs
  {
    if xs != [] {
      Text.SplitFree(xs[0], ',');
      PiecesOfCommaFree(xs[1..]);
    }
  }

  /** For any list at all: reading back gives the trimmed pieces without repeats, except that a list
      that prints to the empty text reads back as nothing. */
  lemma ReadBack(annotations: Annotations, xs: seq<string>)
    ensures Get(Set(annotations, xs)) == if xs == [] || xs == [""] then [] else Dedup(TrimAll(Pieces(xs)))
  {
    if xs != [] {
      SplitJoin(xs);
    }
  }

  /** For trimmed IDs without commas, reading back gives the list without repeats, in order of first
      occurrence; this fails exactly for the list of one empty ID. */
  lemma RoundTrip(annotations: Annotations, xs: seq<string>)
    requires forall i | 0 <= i < |xs| :: Text.Free(xs[i], ',') && Text.Trimmed(xs[i])
    ensures Get(Set(annotations, xs)) == Dedup(xs) <==> xs != [""]
  {
    ReadBack(annotations, xs);
    PiecesOfCommaFree(xs);
    TrimAllTrimmed(xs);
    if xs == [""] {
      DedupStep([], "");
      assert [] + [""] == [""];
    }
  }

  lemma TrimAllTrimmed(xs: seq<string>)
    requires forall i | 0 <= i < |xs| :: Text.Trimmed(xs[i])
    ensures TrimAll(xs) == xs
  {}

  lemma {:induction false} DedupOfDistinct(xs: seq<string>)
    requires forall i, j | 0 <= i < j < |xs| :: xs[i] != xs[j]
    ensures Dedup(xs) == xs
  {
    if xs != [] {
      DedupOfDistinct(xs[..|xs| - 1]);
      assert xs == xs[..|xs| - 1] + [xs[|xs| - 1]];
    }
  }

  /** Writing back what was read is a fixed point, exactly unless a single empty ID was read. */
  lemma RereadIsFixedPoint(annotations: Annotations)
    ensures Get(Set(annotations, Get(annotations))) == Get(annotations) <==> Get(annotations) != [""]
  {
    var xs := Get(annotations);
    if xs != [] {
      var entries := Text.Split(annotations[ANNOTATION_NODE_IDS], ',');
      Text.SplitParts(annotations[ANNOTATION_NODE_IDS], ',');
      forall i | 0 <= i < |xs| ensures Text.Free(xs[i], ',') && Text.Trimmed(xs[i]) {
        assert xs[i] in TrimAll(entries);
      }
    }
    RoundTrip(annotations, xs);
    DedupOfDistinct(xs);
  }
}
