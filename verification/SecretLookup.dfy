/** Which secret serves a domain, said as a scan of all stored secrets, and the wildcard domain of a domain. */
module SecretLookup {
  import opened Basics
  import opened Secrets
  import opened Selection
  import opened DomainIndex
  import Text

  /** Every stored secret annotated with the domain, ranked at an instant. */
  function ScanCandidates(secrets: SecretMap, domain: string, preferred: string, now: Time): set<Candidate> {
    set nn | nn in secrets && domain in DomainsOf(secrets[nn]) ::
      CandidateFor(nn, NotAfter(secrets[nn]), preferred, now)
  }

  /** The winner for a domain among all stored secrets. */
  ghost function Winner(secrets: SecretMap, domain: string, preferred: string, now: Time): (r: Option<Candidate>)
    ensures r.Some? ==> r.value.nn in secrets && domain in DomainsOf(secrets[r.value.nn])
    ensures r.Some? ==> r.value == CandidateFor(r.value.nn, NotAfter(secrets[r.value.nn]), preferred, now)
    ensures r.None? <==> forall nn | nn in secrets :: domain !in DomainsOf(secrets[nn])
  {
    var cands := ScanCandidates(secrets, domain, preferred, now);
    assert cands == {} <==> forall nn | nn in secrets :: domain !in DomainsOf(secrets[nn]) by {
      forall nn | nn in secrets && domain in DomainsOf(secrets[nn])
        ensures CandidateFor(nn, NotAfter(secrets[nn]), preferred, now) in cands {}
    }
    Best(cands)
  }

  /** The index offers exactly the candidates a scan finds. */
  lemma IndexOffersScan(secrets: SecretMap, domain: string, preferred: string, now: Time)
    ensures IndexedCandidates(EntriesAt(Rebuilt(secrets), domain), secrets, preferred, now) ==
      ScanCandidates(secrets, domain, preferred, now)
  {
    RebuiltEntries(secrets, domain, NamespacedName("", ""));
  }

  // ----- How the winner reacts to change -----

  lemma ScanWith(secrets: SecretMap, nn: NamespacedName, secret: Secret, domain: string, preferred: string, now: Time)
    requires nn !in secrets
    ensures var c := CandidateFor(nn, NotAfter(secret), preferred, now);
      && c !in ScanCandidates(secrets, domain, preferred, now)
      && ScanCandidates(secrets[nn := secret], domain, preferred, now) ==
         ScanCandidates(secrets, domain, preferred, now) + if domain in DomainsOf(secret) then {c} else {}
  {
    var secrets' := secrets[nn := secret];
    var c := CandidateFor(nn, NotAfter(secret), preferred, now);
    var cands := ScanCandidates(secrets, domain, preferred, now);
    forall d | d in cands + {c} && (d == c ==> domain in DomainsOf(secret))
      ensures d in ScanCandidates(secrets', domain, preferred, now)
    {
      assert secrets'[d.nn] == if d.nn == nn then secret else secrets[d.nn];
    }
  }

  /** Deleting a secret that does not win leaves the winner as it was. */
  lemma DeleteLoser(secrets: SecretMap, nn: NamespacedName, domain: string, preferred: string, now: Time)
    requires nn in secrets
    requires var w := Winner(secrets, domain, preferred, now); w.None? || w.value.nn != nn
    ensures Winner(secrets - {nn}, domain, preferred, now) == Winner(secrets, domain, preferred, now)
  {
    var rest := secrets - {nn};
    assert secrets == rest[nn := secrets[nn]];
    ScanWith(rest, nn, secrets[nn], domain, preferred, now);
    var c := CandidateFor(nn, NotAfter(secrets[nn]), preferred, now);
    var cands := ScanCandidates(secrets, domain, preferred, now);
    BestIgnoresOthers(cands, c);
    assert ScanCandidates(rest, domain, preferred, now) == cands - {c};
  }

  /** A secret under a fresh key either wins or leaves the winner as it was. */
  lemma AddNewcomer(secrets: SecretMap, secret: Secret, domain: string, preferred: string, now: Time)
    requires secret.Key() !in secrets
    ensures var w := Winner(secrets[secret.Key() := secret], domain, preferred, now);
      || w == Winner(secrets, domain, preferred, now)
      || (domain in DomainsOf(secret) && w.Some? && w.value.nn == secret.Key())
  {
    ScanWith(secrets, secret.Key(), secret, domain, preferred, now);
    var cands := ScanCandidates(secrets, domain, preferred, now);
    BestIgnoresOthers(cands, CandidateFor(secret.Key(), NotAfter(secret), preferred, now));
    assert cands + {} == cands;
  }

  function ValidityOf(w: Option<Candidate>): Validity {
    match w case None => NotFound case Some(c) => c.validity
  }

  /** The winner's class is at least that of every annotated secret. */
  lemma WinnerRank(secrets: SecretMap, nn: NamespacedName, domain: string, preferred: string, now: Time)
    requires nn in secrets && domain in DomainsOf(secrets[nn])
    ensures ValidityOf(Winner(secrets, domain, preferred, now)).Rank() >= ValidityAt(NotAfter(secrets[nn]), now).Rank()
  {
    var c := CandidateFor(nn, NotAfter(secrets[nn]), preferred, now);
    BestHasHighestRank(ScanCandidates(secrets, domain, preferred, now), c);
  }

  /** Why the winner wins: no annotated secret of its domain has a higher class; within its class a secret of
      the preferred namespace comes first; and what is left is decided by namespace and name. */
  lemma WinnerPreferences(secrets: SecretMap, nn: NamespacedName, domain: string, preferred: string, now: Time)
    requires nn in secrets && domain in DomainsOf(secrets[nn])
    ensures var w := Winner(secrets, domain, preferred, now);
      && w.Some? && w.value.nn in secrets
      && var best, top := w.value.nn, ValidityAt(NotAfter(secrets[w.value.nn]), now);
      && top.Rank() >= ValidityAt(NotAfter(secrets[nn]), now).Rank()
      && (top == ValidityAt(NotAfter(secrets[nn]), now) && nn != best ==>
            && (nn.namespace == preferred ==> best.namespace == preferred)
            && (nn.namespace == best.namespace ==> StringLess(best.name, nn.name))
            && (nn.namespace != best.namespace && best.namespace != preferred ==> StringLess(best.namespace, nn.namespace)))
  {
    var c := CandidateFor(nn, NotAfter(secrets[nn]), preferred, now);
    assert c in ScanCandidates(secrets, domain, preferred, now);
  }

  /** A winner's class never beats what another ranking of the same secrets, no later, gives. */
  lemma WinnerRankBound(secrets: SecretMap, domain: string, preferred: string, preferred': string, now: Time, now': Time)
    requires now <= now'
    ensures ValidityOf(Winner(secrets, domain, preferred', now')).Rank() <= ValidityOf(Winner(secrets, domain, preferred, now)).Rank()
  {
    var w' := Winner(secrets, domain, preferred', now');
    if w'.Some? {
      WinnerRank(secrets, w'.value.nn, domain, preferred, now);
    }
  }

  /** As time passes and whatever namespace is preferred, the class of the winner never rises; at one
      instant the preferred namespace does not affect it at all. */
  lemma WinnerRankOverTime(secrets: SecretMap, domain: string, preferred: string, preferred': string, now: Time, now': Time)
    requires now <= now'
    ensures var v, v' := ValidityOf(Winner(secrets, domain, preferred, now)), ValidityOf(Winner(secrets, domain, preferred', now'));
      v'.Rank() <= v.Rank() && (now == now' ==> v == v')
  {
    WinnerRankBound(secrets, domain, preferred, preferred', now, now');
    if now == now' {
      WinnerRankBound(secrets, domain, preferred', preferred, now, now);
    }
  }

  // ----- Wildcard domains -----

  predicate OnlyDots(s: string) {
    forall i | 0 <= i < |s| :: s[i] == '.'
  }

  /** The wildcard sibling: a star for the first label, or nothing when only dots follow it. */
  function WildcardOf(domain: string): string {
    var rest := domain[Text.IndexOf(domain, '.')..];
    if OnlyDots(rest) then "" else "*" + rest
  }

  /** A wildcard domain is its own wildcard. */
  lemma WildcardOfWildcard(domain: string)
    ensures WildcardOf(WildcardOf(domain)) == WildcardOf(domain)
  {
    var rest := domain[Text.IndexOf(domain, '.')..];
    var w := WildcardOf(domain);
    if w != "" {
      assert w[1..] == rest && rest[0] == '.';
      Text.IndexOfIs(w, '.', 1);
    }
  }

  lemma {:induction false} JoinOnlyDots(parts: seq<string>)
    requires forall i | 0 <= i < |parts| :: Text.Free(parts[i], '.')
    ensures OnlyDots(Text.Join(parts, '.')) <==> forall i | 0 <= i < |parts| :: parts[i] == ""
  {
    var all := Text.Join(parts, '.');
    if |parts| == 1 {
      assert all != "" ==> all[0] == parts[0][0] && all[0] != '.';
    } else if |parts| > 1 {
      JoinOnlyDots(parts[1..]);
      var rest := Text.Join(parts[1..], '.');
      var n := |parts[0]|;
      assert all == parts[0] + "." + rest;
      assert forall i | 0 <= i < |rest| :: all[n + 1 + i] == rest[i];
      assert n > 0 ==> all[0] == parts[0][0];
      assert OnlyDots(all) <==> parts[0] == "" && OnlyDots(rest);
      assert (forall i | 0 <= i < |parts| :: parts[i] == "") <==>
        parts[0] == "" && forall i | 0 <= i < |parts[1..]| :: parts[1..][i] == "";
    }
  }

  /** The wildcard domain in terms of the labels. */
  lemma WildcardFromLabels(domain: string, first: string, rest: seq<string>)
    requires rest != [] && Text.Free(first, '.') && forall i | 0 <= i < |rest| :: Text.Free(rest[i], '.')
    requires domain == first + "." + Text.Join(rest, '.')
    ensures WildcardOf(domain) == if forall i | 0 <= i < |rest| :: rest[i] == "" then "" else "*." + Text.Join(rest, '.')
  {
    var tail := Text.Join(rest, '.');
    AfterFirstLabel(first, tail);
    JoinOnlyDots(rest);
    DotThenDots(tail);
  }

  lemma AfterFirstLabel(first: string, tail: string)
    requires Text.Free(first, '.')
    ensures Text.IndexOf(first + "." + tail, '.') == |first|
    ensures (first + "." + tail)[|first|..] == "." + tail
  {
    var d := first + "." + tail;
    assert forall j | 0 <= j < |first| :: d[j] == first[j];
    Text.IndexOfIs(d, '.', |first|);
  }

  lemma DotThenDots(tail: string)
    ensures OnlyDots("." + tail) <==> OnlyDots(tail)
    ensures "*" + ("." + tail) == "*." + tail
  {
    assert forall j | 0 <= j < |tail| :: ("." + tail)[j + 1] == tail[j];
  }

  method HasNonEmpty(parts: seq<string>) returns (found: bool)
    ensures found <==> exists i | 0 <= i < |parts| :: parts[i] != ""
  {
    found := false;
    for i := 0 to |parts|
      invariant !found && forall j | 0 <= j < i :: parts[j] == ""
    {
      if parts[i] != "" {
        return true;
      }
    }
  }

  lemma OneLabel(domain: string)
    requires Text.Free(domain, '.')
    ensures WildcardOf(domain) == ""
  {
    Text.IndexOfIs(domain, '.', |domain|);
  }

  lemma WildcardFromParts(domain: string, parts: seq<string>)
    requires parts == Text.Split(domain, '.')
    ensures WildcardOf(domain) ==
      if |parts| < 2 || (forall i | 0 <= i < |parts[1..]| :: parts[1..][i] == "") then ""
      else "*." + Text.Join(parts[1..], '.')
  {
    Text.JoinSplit(domain, '.');
    Text.SplitParts(domain, '.');
    if |parts| < 2 {
      OneLabel(domain);
    } else {
      WildcardFromLabels(domain, parts[0], parts[1..]);
    }
  }

  method GetWildcardDomain(domain: string) returns (wildcard: string)
    ensures wildcard == WildcardOf(domain)
  {
    var parts := Text.Split(domain, '.');
    WildcardFromParts(domain, parts);
    if domain == "" || |parts| < 2 {
      return "";
    }
    var hasValidPart := HasNonEmpty(parts[1..]);
    if !hasValidPart {
      return "";
    }
    Text.JoinCons("*", parts[1..], '.');
    wildcard := Text.Join(["*"] + parts[1..], '.');
    assert "*" + ['.'] == "*.";
  }

  // ----- Falling back to the wildcard -----

  datatype SecretLookupResult = SecretLookupResult(
    secret: Option<Secret>, usedWildcard: bool, fallbackReason: string,
    exactSecretName: string, exactValidity: string, wildcardSecretName: string, wildcardValidity: string)

  function ValidityToString(v: Validity): string {
    match v case Valid => "valid" case Expired => "expired" case Unknown => "unknown" case NotFound => "not_found"
  }

  function SecretName(secret: Option<Secret>): string {
    match secret case Some(s) => s.namespace + "/" + s.name case None => ""
  }

  function SecretOf(secrets: SecretMap, w: Option<Candidate>): Option<Secret> {
    match w
    case Some(c) => if c.nn in secrets then Some(secrets[c.nn]) else None
    case None => None
  }

  /** The decision, given the winner for the domain and the winner for its wildcard. */
  ghost predicate Decides(r: SecretLookupResult, secrets: SecretMap, exact: Option<Candidate>, wild: Option<Candidate>) {
    var exactFine, wildFine := ValidityOf(exact) == Valid, ValidityOf(wild) == Valid;
    && (r.usedWildcard <==> wild.Some? && !exactFine && (exact.None? || wildFine))
    && r.secret == SecretOf(secrets, if r.usedWildcard then wild else exact)
    && r.fallbackReason == (if r.usedWildcard && exact.Some? then ValidityToString(ValidityOf(exact)) else "")
    && r.exactSecretName == SecretName(SecretOf(secrets, exact))
    && r.exactValidity == ValidityToString(ValidityOf(exact))
    && r.wildcardSecretName == (if exactFine then "" else SecretName(SecretOf(secrets, wild)))
    && r.wildcardValidity == ValidityToString(if exactFine then NotFound else ValidityOf(wild))
  }

  /** Some stored secret is annotated with the domain. */
  ghost predicate Serves(secrets: SecretMap, domain: string) {
    exists nn | nn in secrets :: domain in DomainsOf(secrets[nn])
  }

  /** An expiry is known and still to come. */
  predicate InForce(notAfter: Time, now: Time) {
    notAfter != ZERO_TIME && notAfter > now
  }

  /** Some stored secret annotated with the domain is in force at the instant. */
  ghost predicate ServesValidly(secrets: SecretMap, domain: string, now: Time) {
    exists nn | nn in secrets :: domain in DomainsOf(secrets[nn]) && InForce(NotAfter(secrets[nn]), now)
  }

  /** Some stored secret annotated with the domain has no known expiry. */
  ghost predicate ServesUnknown(secrets: SecretMap, domain: string) {
    exists nn | nn in secrets :: domain in DomainsOf(secrets[nn]) && NotAfter(secrets[nn]) == ZERO_TIME
  }

  /** The class of the winner is the best the stored secrets of the domain offer: valid if one is in force, else
      unknown if one has no known expiry, else expired. */
  lemma WinnerClass(secrets: SecretMap, domain: string, preferred: string, now: Time)
    ensures var class_ := ValidityOf(Winner(secrets, domain, preferred, now));
      && (class_ == Valid <==> ServesValidly(secrets, domain, now))
      && (class_ == Unknown <==> !ServesValidly(secrets, domain, now) && ServesUnknown(secrets, domain))
      && (class_ == NotFound <==> !Serves(secrets, domain))
      && (Winner(secrets, domain, preferred, now).Some? <==> Serves(secrets, domain))
  {
    var w := Winner(secrets, domain, preferred, now);
    if w.Some? {
      var nn := w.value.nn;
      assert domain in DomainsOf(secrets[nn]) && w.value.validity == ValidityAt(NotAfter(secrets[nn]), now);
    }
    if nn :| nn in secrets && domain in DomainsOf(secrets[nn]) && InForce(NotAfter(secrets[nn]), now) {
      WinnerRank(secrets, nn, domain, preferred, now);
    }
    if nn :| nn in secrets && domain in DomainsOf(secrets[nn]) && NotAfter(secrets[nn]) == ZERO_TIME {
      WinnerRank(secrets, nn, domain, preferred, now);
    }
  }

  /** If some annotated secret has no certificate that parses, the winner is in force or has no known expiry. */
  lemma UnknownBeatsExpired(secrets: SecretMap, nn: NamespacedName, domain: string, preferred: string, now: Time)
    requires nn in secrets && domain in DomainsOf(secrets[nn]) && forall t :: !Expires(secrets[nn], t)
    ensures var w := Winner(secrets, domain, preferred, now);
      w.Some? && (InForce(NotAfter(secrets[w.value.nn]), now) || NotAfter(secrets[w.value.nn]) == ZERO_TIME)
  {
    assert Harmless(secrets[nn]) by {
      if secrets[nn].tlsCrt.Some? {
        var times := ParsedTimes(secrets[nn].tlsCrt.value);
        ParsedTimesAre(secrets[nn].tlsCrt.value, [], ZERO_TIME);
        assert !Expires(secrets[nn], ZERO_TIME);
      }
    }
    NotAfterBounds(secrets[nn]);
    WinnerRank(secrets, nn, domain, preferred, now);
  }

  /** No secret is ever annotated with the empty domain. */
  lemma NoEmptyDomain(secrets: SecretMap, preferred: string, now: Time)
    ensures Winner(secrets, "", preferred, now).None?
  {}

  /** A winner stands for its domain: stored, annotated, and of the best class on offer. */
  ghost predicate StandsFor(w: Option<Candidate>, secrets: SecretMap, domain: string, now: Time) {
    && (w.Some? <==> Serves(secrets, domain))
    && (ValidityOf(w) == Valid <==> ServesValidly(secrets, domain, now))
    && (ValidityOf(w) == Unknown <==> !ServesValidly(secrets, domain, now) && ServesUnknown(secrets, domain))
    && (ValidityOf(w) == NotFound <==> !Serves(secrets, domain))
    && (w.Some? ==>
          && w.value.nn in secrets && domain in DomainsOf(secrets[w.value.nn])
          && (w.value.validity == Valid <==> InForce(NotAfter(secrets[w.value.nn]), now)))
  }

  lemma WinnerStandsFor(secrets: SecretMap, domain: string, preferred: string, now: Time)
    ensures StandsFor(Winner(secrets, domain, preferred, now), secrets, domain, now)
  {
    WinnerClass(secrets, domain, preferred, now);
  }

  /** The class of a domain in words. */
  ghost function ClassOf(secrets: SecretMap, domain: string, now: Time): string {
    if ServesValidly(secrets, domain, now) then "valid"
    else if ServesUnknown(secrets, domain) then "unknown"
    else if Serves(secrets, domain) then "expired"
    else "not_found"
  }

  /** A name of the form namespace/name that belongs to a stored secret of the domain. */
  ghost predicate NamesOne(name: string, secrets: SecretMap, domain: string) {
    exists nn | nn in secrets :: domain in DomainsOf(secrets[nn]) && name == secrets[nn].namespace + "/" + secrets[nn].name
  }

  /** What the fallback guarantees, in terms of the stored secrets: `wild` is the wildcard domain, and
      the exact lookup happens at `now`, the wildcard one at `now'`. */
  ghost predicate FallbackGuarantee(r: SecretLookupResult, secrets: SecretMap, domain: string, wild: string, now: Time, now': Time) {
    // a secret in force is returned whenever one exists for the domain or for its wildcard
    && (ServesValidly(secrets, domain, now) || ServesValidly(secrets, wild, now') <==>
          r.secret.Some? && InForce(NotAfter(r.secret.value), if r.usedWildcard then now' else now))
    // nothing is returned only if nothing is stored for either
    && (r.secret.None? <==> !Serves(secrets, domain) && !Serves(secrets, wild))
    // what is returned is stored and annotated with the domain the answer claims
    && (r.secret.Some? ==>
          exists nn | nn in secrets :: secrets[nn] == r.secret.value &&
            (if r.usedWildcard then wild else domain) in DomainsOf(secrets[nn]))
    // the exact domain goes first: the wildcard is used only for want of it, or to gain validity
    && (r.usedWildcard <==>
          && Serves(secrets, wild) && !ServesValidly(secrets, domain, now)
          && (Serves(secrets, domain) ==> ServesValidly(secrets, wild, now')))
    // and a reason is given exactly when an exact secret was passed over: the class it had
    && r.fallbackReason == (if r.usedWildcard && Serves(secrets, domain) then ClassOf(secrets, domain, now) else "")
    && Reported(r, secrets, domain, wild, now, now')
  }

  /** What the answer tells beside the secret: the classes found, and the names; the wildcard is looked up only
      when no exact secret is in force. */
  ghost predicate Reported(r: SecretLookupResult, secrets: SecretMap, domain: string, wild: string, now: Time, now': Time) {
    && r.exactValidity == ClassOf(secrets, domain, now)
    && r.wildcardValidity == (if ServesValidly(secrets, domain, now) then "not_found" else ClassOf(secrets, wild, now'))
    && (if Serves(secrets, domain) then NamesOne(r.exactSecretName, secrets, domain) else r.exactSecretName == "")
    && (if Serves(secrets, wild) && !ServesValidly(secrets, domain, now) then NamesOne(r.wildcardSecretName, secrets, wild)
        else r.wildcardSecretName == "")
    && (r.secret.Some? ==>
          (if r.usedWildcard then r.wildcardSecretName else r.exactSecretName) ==
          r.secret.value.namespace + "/" + r.secret.value.name)
  }

  lemma NamedByWinner(w: Option<Candidate>, secrets: SecretMap, domain: string, now: Time)
    requires StandsFor(w, secrets, domain, now)
    ensures if Serves(secrets, domain) then NamesOne(SecretName(SecretOf(secrets, w)), secrets, domain)
            else SecretName(SecretOf(secrets, w)) == ""
    ensures ValidityToString(ValidityOf(w)) == ClassOf(secrets, domain, now)
  {
    if w.Some? {
      var nn := w.value.nn;
      assert SecretName(SecretOf(secrets, w)) == secrets[nn].namespace + "/" + secrets[nn].name;
    }
  }

  lemma DecisionMeans(r: SecretLookupResult, secrets: SecretMap, exact: Option<Candidate>, wildcard: Option<Candidate>,
                      domain: string, wild: string, now: Time, now': Time)
    requires Decides(r, secrets, exact, wildcard)
    requires StandsFor(exact, secrets, domain, now) && StandsFor(wildcard, secrets, wild, now')
    ensures FallbackGuarantee(r, secrets, domain, wild, now, now')
  {
    NamedByWinner(exact, secrets, domain, now);
    NamedByWinner(wildcard, secrets, wild, now');
    if r.secret.Some? {
      var nn := (if r.usedWildcard then wildcard else exact).value.nn;
      assert secrets[nn] == r.secret.value;
    }
  }

  /** The two lookups read the clock separately, and the guarantee holds for any two readings. */
  lemma FallbackMeaning(r: SecretLookupResult, secrets: SecretMap, domain: string, preferred: string, now: Time, now': Time)
    ensures
      Decides(r, secrets, Winner(secrets, domain, preferred, now), Winner(secrets, WildcardOf(domain), preferred, now')) ==>
      FallbackGuarantee(r, secrets, domain, WildcardOf(domain), now, now')
  {
    var exact, wild := Winner(secrets, domain, preferred, now), Winner(secrets, WildcardOf(domain), preferred, now');
    if Decides(r, secrets, exact, wild) {
      WinnerStandsFor(secrets, domain, preferred, now);
      WinnerStandsFor(secrets, WildcardOf(domain), preferred, now');
      DecisionMeans(r, secrets, exact, wild, domain, WildcardOf(domain), now, now');
    }
  }
}
