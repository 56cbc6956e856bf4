/** Choosing the TLS secret for a domain among the candidates the domain index offers. */
module Selection {
  import opened Basics
  import opened Secrets

  datatype DomainEntry = DomainEntry(nn: NamespacedName, notAfter: Time)
  type Entries = map<NamespacedName, DomainEntry>

  datatype Candidate = Candidate(nn: NamespacedName, validity: Validity, sameNs: bool)

  /** The sort order: validity first, then the preferred namespace, then namespace and name. */
  predicate Less(c: Candidate, d: Candidate) {
    if c.validity != d.validity then c.validity.Rank() > d.validity.Rank()
    else if c.sameNs != d.sameNs then c.sameNs
    else if c.nn.namespace != d.nn.namespace then StringLess(c.nn.namespace, d.nn.namespace)
    else StringLess(c.nn.name, d.nn.name)
  }

  lemma LessTotal(c: Candidate, d: Candidate)
    ensures !Less(c, c)
    ensures Less(c, d) || c == d || Less(d, c)
    ensures !(Less(c, d) && Less(d, c))
  {
    StringLessTrichotomy(c.nn.namespace, d.nn.namespace);
    StringLessTrichotomy(c.nn.name, d.nn.name);
  }

  lemma LessTransitive(c: Candidate, d: Candidate, e: Candidate)
    requires Less(c, d) && Less(d, e)
    ensures Less(c, e)
  {
    if c.validity == d.validity == e.validity && c.sameNs == d.sameNs == e.sameNs {
      var s, t, u := c.nn.namespace, d.nn.namespace, e.nn.namespace;
      if s != t && t != u { StringLessTransitive(s, t, u); StringLessTrichotomy(s, u); }
      if s == t == u { StringLessTransitive(c.nn.name, d.nn.name, e.nn.name); }
    }
  }

  /** The comparator is a strict total order on candidates. */
  lemma LessIsStrictTotalOrder()
    ensures StrictOrder(Less)
    ensures forall c, d :: Less(c, d) || c == d || Less(d, c)
  {
    forall c ensures !Less(c, c) { LessTotal(c, c); }
    forall c, d ensures Less(c, d) || c == d || Less(d, c) { LessTotal(c, d); }
    forall c, d, e | Less(c, d) && Less(d, e) ensures Less(c, e) { LessTransitive(c, d, e); }
  }

  ghost predicate IsLeast(c: Candidate, cands: set<Candidate>) {
    c in cands && forall d | d in cands :: d == c || Less(c, d)
  }

  lemma LeastUnique(c: Candidate, d: Candidate, cands: set<Candidate>)
    requires IsLeast(c, cands) && IsLeast(d, cands)
    ensures c == d
  {
    LessTotal(c, d);
  }

  lemma {:induction false} LeastExists(cands: set<Candidate>) returns (least: Candidate)
    requires cands != {}
    ensures IsLeast(least, cands)
  {
    var c :| c in cands;
    if cands == {c} {
      least := c;
    } else {
      var d := LeastExists(cands - {c});
      LessTotal(c, d);
      if Less(c, d) {
        forall e | e in cands && e != c ensures Less(c, e) {
          if e != d { LessTransitive(c, d, e); }
        }
        least := c;
      } else {
        least := d;
      }
    }
  }

  /** The candidate every other one loses to. */
  ghost function Best(cands: set<Candidate>): (r: Option<Candidate>)
    ensures cands == {} <==> r.None?
    ensures r.Some? ==> IsLeast(r.value, cands)
  {
    if cands == {} then None
    else
      assert exists c :: IsLeast(c, cands) by { var c := LeastExists(cands); }
      var c :| IsLeast(c, cands);
      Some(c)
  }

  lemma BestIs(c: Candidate, cands: set<Candidate>)
    requires IsLeast(c, cands)
    ensures Best(cands) == Some(c)
  {
    LeastUnique(c, Best(cands).value, cands);
  }

  function CandidateFor(nn: NamespacedName, notAfter: Time, preferred: string, now: Time): Candidate {
    Candidate(nn, ValidityAt(notAfter, now), nn.namespace == preferred)
  }

  /** The indexed entries whose secret is stored. */
  function IndexedCandidates(entries: Entries, secrets: map<NamespacedName, Secret>, preferred: string, now: Time): set<Candidate> {
    set nn | nn in entries && nn in secrets :: CandidateFor(nn, entries[nn].notAfter, preferred, now)
  }

  /** Selects the secret for a domain; a missing domain has no entries. */
  method GetBestSecretWithValidity(entries: Entries, preferredNamespace: string,
                                   secrets: map<NamespacedName, Secret>, now: Time)
    returns (secret: Option<Secret>, validity: Validity)
    ensures match Best(IndexedCandidates(entries, secrets, preferredNamespace, now))
      case None => secret == None && validity == NotFound
      case Some(c) => c.nn in secrets && secret == Some(secrets[c.nn]) && validity == c.validity
  {
    ghost var all := IndexedCandidates(entries, secrets, preferredNamespace, now);
    if |entries| == 0 {
      assert entries.Keys == {};
      return None, NotFound;
    }
    if |entries| == 1 {
      var nn :| nn in entries;
      assert |entries.Keys - {nn}| == 0;
      assert entries.Keys == {nn};
      if nn !in secrets {
        return None, NotFound;
      }
      ghost var only := CandidateFor(nn, entries[nn].notAfter, preferredNamespace, now);
      assert only in all;
      BestIs(only, all);
      return Some(secrets[nn]), ValidityAt(entries[nn].notAfter, now);
    }
    var candidates: seq<Candidate> := [];
    var todo := entries.Keys;
    while todo != {}
      invariant todo <= entries.Keys
      invariant forall c :: c in candidates <==> exists nn | nn in entries && nn !in todo && nn in secrets ::
          c == CandidateFor(nn, entries[nn].notAfter, preferredNamespace, now)
      decreases todo
    {
      var nn :| nn in todo;
      if nn in secrets {
        candidates := candidates + [CandidateFor(nn, entries[nn].notAfter, preferredNamespace, now)];
      }
      todo := todo - {nn};
    }
    assert forall c :: c in candidates <==> c in all;
    if |candidates| == 0 {
      return None, NotFound;
    }
    LessIsStrictTotalOrder();
    candidates := SortCandidates(candidates, all);
    secret, validity := Some(secrets[candidates[0].nn]), candidates[0].validity;
  }

  /** Sorting puts the best candidate first, however the input was ordered. */
  method SortCandidates(candidates: seq<Candidate>, ghost all: set<Candidate>) returns (sorted: seq<Candidate>)
    requires candidates != []
    requires forall c :: c in candidates <==> c in all
    ensures |sorted| > 0 && sorted[0] in all && Best(all) == Some(sorted[0])
  {
    sorted := SortSlice(candidates, Less);
    LessIsStrictTotalOrder();
    SortSliceSorts(candidates, Less);
    FirstIsBest(sorted, candidates, all);
  }

  /** Any ordering of the candidates that the comparator calls sorted starts with the best one. */
  lemma FirstIsBest(sorted: seq<Candidate>, candidates: seq<Candidate>, all: set<Candidate>)
    requires sorted != [] && Sorted(sorted, Less)
    requires multiset(sorted) == multiset(candidates)
    requires forall c :: c in candidates <==> c in all
    ensures sorted[0] in all && Best(all) == Some(sorted[0])
  {
    assert forall c :: c in sorted <==> c in multiset(sorted);
    assert forall c :: c in candidates <==> c in multiset(candidates);
    forall d | d in all ensures d == sorted[0] || Less(sorted[0], d) {
      var j :| 0 <= j < |sorted| && sorted[j] == d;
      LessTotal(sorted[0], d);
    }
    BestIs(sorted[0], all);
  }

  // ----- Independence of irrelevant alternatives -----

  /** Removing a loser changes nothing; a newcomer either loses or wins, and changes nothing else. */
  lemma BestIgnoresOthers(cands: set<Candidate>, x: Candidate)
    ensures Best(cands) != Some(x) ==> Best(cands - {x}) == Best(cands)
    ensures Best(cands + {x}) == Best(cands) || Best(cands + {x}) == Some(x)
  {
    if Best(cands) != Some(x) && cands != {} {
      BestIs(Best(cands).value, cands - {x});
    }
    if Best(cands + {x}) != Some(x) && x !in cands {
      BestIs(Best(cands + {x}).value, cands);
    } else if x in cands {
      assert cands + {x} == cands;
    }
  }

  /** The winner's validity class is the highest on offer. */
  lemma BestHasHighestRank(cands: set<Candidate>, c: Candidate)
    requires c in cands
    ensures Best(cands).value.validity.Rank() >= c.validity.Rank()
  {}
}
