/** The domain-to-secrets index: what it must hold, and how adding and withdrawing one secret keeps it so. */
module DomainIndex {
  import opened Basics
  import opened Secrets
  import opened Selection
  import Text

  type Index = map<string, Entries>
  type SecretMap = map<NamespacedName, Secret>

  function EntriesAt(idx: Index, domain: string): Entries {
    if domain in idx then idx[domain] else map[]
  }

  /** DomainSecretsIndex.Add */
  function Add(idx: Index, domain: string, entry: DomainEntry): Index {
    idx[domain := EntriesAt(idx, domain)[entry.nn := entry]]
  }

  /** DomainSecretsIndex.Remove: an inner map that becomes empty disappears. */
  function Remove(idx: Index, domain: string, nn: NamespacedName): Index {
    if domain !in idx then idx
    else if idx[domain] - {nn} == map[] then idx - {domain}
    else idx[domain := idx[domain] - {nn}]
  }

  // ----- The index from scratch -----

  function EntryOf(nn: NamespacedName, secret: Secret): DomainEntry {
    DomainEntry(nn, NotAfter(secret))
  }

  function Annotated(domain: string): Secret -> bool {
    (secret: Secret) => domain in DomainsOf(secret)
  }

  /** The entries of the secrets that satisfy a condition. */
  function EntriesWhere(secrets: SecretMap, cond: Secret -> bool): Entries {
    map nn | nn in secrets && cond(secrets[nn]) :: EntryOf(nn, secrets[nn])
  }

  function EntriesFor(secrets: SecretMap, domain: string): Entries {
    EntriesWhere(secrets, Annotated(domain))
  }

  /** One inner map per annotated domain, one entry per stored secret annotated with it. */
  function Rebuilt(secrets: SecretMap): Index {
    map d | d in AllDomains(secrets) :: EntriesFor(secrets, d)
  }

  function AllDomains(secrets: SecretMap): set<string> {
    set nn, d | nn in secrets && d in DomainsOf(secrets[nn]) :: d
  }

  /** The meaning of the index, entry by entry. */
  lemma RebuiltEntries(secrets: SecretMap, d: string, nn: NamespacedName)
    ensures EntriesAt(Rebuilt(secrets), d) == EntriesFor(secrets, d)
    ensures nn in EntriesAt(Rebuilt(secrets), d) <==> nn in secrets && d in DomainsOf(secrets[nn])
    ensures d in Rebuilt(secrets) ==> Rebuilt(secrets)[d] != map[]
  {
    if d in AllDomains(secrets) {
      var m :| m in secrets && d in DomainsOf(secrets[m]);
      assert m in EntriesFor(secrets, d);
    } else {
      assert EntriesFor(secrets, d) == map[];
    }
  }

  /** Two indexes without empty inner maps are equal when they agree on every entry. */
  lemma SameIndex(x: Index, y: Index)
    requires NoEmptyInner(x) && NoEmptyInner(y)
    requires forall d :: EntriesAt(x, d) == EntriesAt(y, d)
    ensures x == y
  {
    forall d ensures d in x <==> d in y
             ensures d in x && d in y ==> x[d] == y[d] {
      assert EntriesAt(x, d) == EntriesAt(y, d);
    }
  }

  // ----- One secret in, one secret out -----

  function Enroll(idx: Index, ds: set<string>, entry: DomainEntry): Index {
    map d | d in idx.Keys + ds :: if d in ds then EntriesAt(idx, d)[entry.nn := entry] else idx[d]
  }

  function Withdraw(idx: Index, ds: set<string>, nn: NamespacedName): Index {
    map d | d in idx && (d in ds ==> idx[d] - {nn} != map[]) :: if d in ds then idx[d] - {nn} else idx[d]
  }

  lemma EnrollStep(idx: Index, ds: set<string>, d: string, entry: DomainEntry)
    ensures Add(Enroll(idx, ds, entry), d, entry) == Enroll(idx, ds + {d}, entry)
  {
    var lhs, rhs := Add(Enroll(idx, ds, entry), d, entry), Enroll(idx, ds + {d}, entry);
    assert lhs.Keys == rhs.Keys;
    forall x | x in rhs ensures lhs[x] == rhs[x] {}
  }

  lemma WithdrawStep(idx: Index, ds: set<string>, d: string, nn: NamespacedName)
    ensures Remove(Withdraw(idx, ds, nn), d, nn) == Withdraw(idx, ds + {d}, nn)
  {
    var lhs, rhs := Remove(Withdraw(idx, ds, nn), d, nn), Withdraw(idx, ds + {d}, nn);
    if d in idx {
      assert idx[d] - {nn} - {nn} == idx[d] - {nn};
    }
    assert lhs.Keys == rhs.Keys;
    forall x | x in rhs ensures lhs[x] == rhs[x] {}
  }

  ghost predicate NoEmptyInner(idx: Index) {
    forall d | d in idx :: idx[d] != map[]
  }

  lemma EnrollAt(idx: Index, ds: set<string>, entry: DomainEntry, d: string)
    ensures EntriesAt(Enroll(idx, ds, entry), d) ==
      if d in ds then EntriesAt(idx, d)[entry.nn := entry] else EntriesAt(idx, d)
    ensures NoEmptyInner(idx) ==> NoEmptyInner(Enroll(idx, ds, entry))
  {
    forall x | x in ds ensures entry.nn in Enroll(idx, ds, entry)[x] {}
  }

  lemma WithdrawAt(idx: Index, ds: set<string>, nn: NamespacedName, d: string)
    ensures EntriesAt(Withdraw(idx, ds, nn), d) ==
      if d in ds then EntriesAt(idx, d) - {nn} else EntriesAt(idx, d)
    ensures NoEmptyInner(idx) ==> NoEmptyInner(Withdraw(idx, ds, nn))
  {}

  lemma RebuiltNoEmptyInner(secrets: SecretMap)
    ensures NoEmptyInner(Rebuilt(secrets))
  {
    forall d | d in Rebuilt(secrets) ensures Rebuilt(secrets)[d] != map[] {
      RebuiltEntries(secrets, d, NamespacedName("", ""));
    }
  }

  lemma EntriesWith(secrets: SecretMap, nn: NamespacedName, secret: Secret, cond: Secret -> bool)
    requires nn !in secrets
    ensures EntriesWhere(secrets[nn := secret], cond) ==
      if cond(secret) then EntriesWhere(secrets, cond)[nn := EntryOf(nn, secret)] else EntriesWhere(secrets, cond)
  {}

  lemma EntriesWithout(secrets: SecretMap, nn: NamespacedName, cond: Secret -> bool)
    requires nn in secrets
    ensures EntriesWhere(secrets - {nn}, cond) ==
      if cond(secrets[nn]) then EntriesWhere(secrets, cond) - {nn} else EntriesWhere(secrets, cond)
  {}

  /** Adding a secret under a fresh key to an exact index leaves it exact. */
  lemma EnrollExact(secrets: SecretMap, nn: NamespacedName, secret: Secret)
    requires nn !in secrets
    ensures Enroll(Rebuilt(secrets), DomainsOf(secret), EntryOf(nn, secret)) == Rebuilt(secrets[nn := secret])
  {
    var ds, entry, secrets' := DomainsOf(secret), EntryOf(nn, secret), secrets[nn := secret];
    RebuiltNoEmptyInner(secrets);
    RebuiltNoEmptyInner(secrets');
    EnrollAt(Rebuilt(secrets), ds, entry, "");
    forall d ensures EntriesAt(Enroll(Rebuilt(secrets), ds, entry), d) == EntriesAt(Rebuilt(secrets'), d) {
      EnrollAt(Rebuilt(secrets), ds, entry, d);
      RebuiltEntries(secrets, d, nn);
      RebuiltEntries(secrets', d, nn);
      EntriesWith(secrets, nn, secret, Annotated(d));
    }
    SameIndex(Enroll(Rebuilt(secrets), ds, entry), Rebuilt(secrets'));
  }

  /** Withdrawing a stored secret from an exact index leaves it exact for the remaining ones. */
  lemma WithdrawExact(secrets: SecretMap, nn: NamespacedName)
    requires nn in secrets
    ensures Withdraw(Rebuilt(secrets), DomainsOf(secrets[nn]), nn) == Rebuilt(secrets - {nn})
  {
    var ds, secrets' := DomainsOf(secrets[nn]), secrets - {nn};
    RebuiltNoEmptyInner(secrets);
    RebuiltNoEmptyInner(secrets');
    WithdrawAt(Rebuilt(secrets), ds, nn, "");
    forall d ensures EntriesAt(Withdraw(Rebuilt(secrets), ds, nn), d) == EntriesAt(Rebuilt(secrets'), d) {
      WithdrawAt(Rebuilt(secrets), ds, nn, d);
      RebuiltEntries(secrets, d, nn);
      RebuiltEntries(secrets', d, nn);
      EntriesWithout(secrets, nn, Annotated(d));
    }
    SameIndex(Withdraw(Rebuilt(secrets), ds, nn), Rebuilt(secrets'));
  }

  // ----- Entry lists, one domain at a time -----

  /** The index after adding the secret under each non-empty, trimmed entry of the list in turn. */
  function AddParts(idx: Index, parts: seq<string>, entry: DomainEntry): Index {
    if parts == [] then idx
    else
      var before, d := AddParts(idx, parts[..|parts| - 1], entry), Text.TrimSpace(parts[|parts| - 1]);
      if d == "" then before else Add(before, d, entry)
  }

  function RemoveParts(idx: Index, parts: seq<string>, nn: NamespacedName): Index {
    if parts == [] then idx
    else
      var before, d := RemoveParts(idx, parts[..|parts| - 1], nn), Text.TrimSpace(parts[|parts| - 1]);
      if d == "" then before else Remove(before, d, nn)
  }

  lemma ListedStep(parts: seq<string>)
    requires parts != []
    ensures var d := Text.TrimSpace(parts[|parts| - 1]);
      Listed(parts) == Listed(parts[..|parts| - 1]) + if d == "" then {} else {d}
  {}

  lemma {:induction false} AddPartsEnrolls(idx: Index, parts: seq<string>, entry: DomainEntry)
    ensures AddParts(idx, parts, entry) == Enroll(idx, Listed(parts), entry)
  {
    if parts != [] {
      var init, d := parts[..|parts| - 1], Text.TrimSpace(parts[|parts| - 1]);
      AddPartsEnrolls(idx, init, entry);
      ListedStep(parts);
      if d == "" { assert Listed(init) + {} == Listed(init); } else { EnrollStep(idx, Listed(init), d, entry); }
    }
  }

  lemma {:induction false} RemovePartsWithdraws(idx: Index, parts: seq<string>, nn: NamespacedName)
    ensures RemoveParts(idx, parts, nn) == Withdraw(idx, Listed(parts), nn)
  {
    if parts != [] {
      var init, d := parts[..|parts| - 1], Text.TrimSpace(parts[|parts| - 1]);
      RemovePartsWithdraws(idx, init, nn);
      ListedStep(parts);
      if d == "" { assert Listed(init) + {} == Listed(init); } else { WithdrawStep(idx, Listed(init), d, nn); }
    }
  }

  // ----- The whole part of the store that deals with secrets -----

  datatype SecretState = SecretState(stored: SecretMap, domains: Index)

  function SetSecret(s: SecretState, secret: Secret): SecretState {
    var nn := secret.Key();
    var idx := if nn in s.stored then Withdraw(s.domains, DomainsOf(s.stored[nn]), nn) else s.domains;
    SecretState(s.stored[nn := secret], Enroll(idx, DomainsOf(secret), EntryOf(nn, secret)))
  }

  function DeleteSecret(s: SecretState, nn: NamespacedName): SecretState {
    if nn !in s.stored then s
    else SecretState(s.stored - {nn}, Withdraw(s.domains, DomainsOf(s.stored[nn]), nn))
  }

  /** Secrets lie under their own names and the index is the one rebuilt from them. */
  ghost predicate SecretsExact(s: SecretState) {
    (forall nn | nn in s.stored :: s.stored[nn].Key() == nn) && s.domains == Rebuilt(s.stored)
  }

  /** Setting and deleting secrets keeps the index equal to the one rebuilt from scratch. */
  lemma SecretStepsExact(s: SecretState, secret: Secret, nn: NamespacedName)
    requires SecretsExact(s)
    ensures SecretsExact(SetSecret(s, secret)) && SecretsExact(DeleteSecret(s, nn))
  {
    var key := secret.Key();
    if key in s.stored {
      WithdrawExact(s.stored, key);
      EnrollExact(s.stored - {key}, key, secret);
      assert (s.stored - {key})[key := secret] == s.stored[key := secret];
    } else {
      EnrollExact(s.stored, key, secret);
    }
    if nn in s.stored { WithdrawExact(s.stored, nn); }
  }
}
