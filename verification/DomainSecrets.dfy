/** The domain index in memory: an outer map to inner maps that Add and Remove change in place. */
module DomainSecrets {
  import opened Basics
  import opened GoMaps
  import opened Secrets
  import opened Selection
  import opened DomainIndex
  import Text

  /** The inner map of a domain. */
  type EntryMap = GoMap<NamespacedName, DomainEntry>

  class DomainSecretsIndex {
    var inner: map<string, EntryMap>

    ghost var View: Index  // what the index holds
    ghost var Repr: set<object>  // this object and its inner maps
    ghost var Owner: map<EntryMap, string>  // the one domain each inner map belongs to

    ghost predicate Valid()
      reads this, Repr
      ensures Valid() ==> this in Repr
    {
      && this in Repr
      && View.Keys == inner.Keys
      && (forall d | d in inner :: inner[d] in Repr && inner[d].m == View[d])
      && (forall d | d in inner :: inner[d] in Owner && Owner[inner[d]] == d)
    }

    constructor ()
      ensures Valid() && View == map[] && fresh(Repr)
    {
      inner := map[];
      View := map[];
      Repr := {this};
      Owner := map[];
    }

    /** Makes `cell` the inner map of a domain. */
    method PutInner(domain: string, cell: EntryMap)
      requires Valid() && (cell !in Owner || Owner[cell] == domain)
      modifies this
      ensures Valid() && View == old(View)[domain := cell.m] && Repr == old(Repr) + {cell}
      ensures inner == old(inner)[domain := cell]
    {
      inner := inner[domain := cell];
      View := View[domain := cell.m];
      Repr := Repr + {cell};
      Owner := Owner[cell := domain];
    }

    /** Changes the inner map of a domain in place. */
    method SetEntries(domain: string, entries: Entries)
      requires Valid() && domain in inner
      modifies Repr
      ensures Valid() && View == old(View)[domain := entries] && Repr == old(Repr) && inner == old(inner)
    {
      inner[domain].m := entries;
      View := View[domain := entries];
    }

    method DropInner(domain: string)
      requires Valid()
      modifies this
      ensures Valid() && View == old(View) - {domain} && Repr == old(Repr)
    {
      inner := inner - {domain};
      View := View - {domain};
    }

    method Add(domain: string, entry: DomainEntry)
      requires Valid()
      modifies Repr
      ensures Valid() && fresh(Repr - old(Repr))
      ensures View == DomainIndex.Add(old(View), domain, entry)
    {
      if domain !in inner {
        var empty := new GoMap();
        PutInner(domain, empty);
      }
      SetEntries(domain, inner[domain].m[entry.nn := entry]);
      AddInPlace(old(View), domain, entry);
    }

    method Remove(domain: string, nn: NamespacedName)
      requires Valid()
      modifies Repr
      ensures Valid() && fresh(Repr - old(Repr))
      ensures View == DomainIndex.Remove(old(View), domain, nn)
    {
      if domain !in inner {
        return;
      }
      var rest := inner[domain].m - {nn};
      SetEntries(domain, rest);
      if |rest| == 0 {
        DropInner(domain);
      }
      RemoveInPlace(old(View), domain, nn);
    }

    /** addDomainSecretsForSecretWithNotAfter */
    method AddSecret(secret: Secret, notAfter: Time)
      requires Valid()
      modifies Repr
      ensures Valid() && fresh(Repr - old(Repr))
      ensures View == Enroll(old(View), DomainsOf(secret), DomainEntry(secret.Key(), notAfter))
    {
      var entry := DomainEntry(secret.Key(), notAfter);
      if secret.domains.None? {
        AddPartsEnrolls(View, [], entry);
        return;
      }
      var parts := Text.Split(secret.domains.value, ',');
      AddPartsEnrolls(View, parts, entry);
      AddDomains(parts, entry);
    }

    method AddDomains(parts: seq<string>, entry: DomainEntry)
      requires Valid()
      modifies Repr
      ensures Valid() && fresh(Repr - old(Repr))
      ensures View == AddParts(old(View), parts, entry)
    {
      for i := 0 to |parts|
        invariant Valid() && fresh(Repr - old(Repr))
        invariant View == AddParts(old(View), parts[..i], entry)
      {
        assert parts[..i + 1][..i] == parts[..i];
        var domain := Text.TrimSpace(parts[i]);
        if domain != "" {
          Add(domain, entry);
        }
      }
      assert parts[..|parts|] == parts;
    }

    /** removeDomainSecretsForSecret */
    method RemoveSecret(secret: Secret)
      requires Valid()
      modifies Repr
      ensures Valid() && fresh(Repr - old(Repr))
      ensures View == Withdraw(old(View), DomainsOf(secret), secret.Key())
    {
      if secret.domains.None? {
        RemovePartsWithdraws(View, [], secret.Key());
        return;
      }
      var parts := Text.Split(secret.domains.value, ',');
      RemovePartsWithdraws(View, parts, secret.Key());
      RemoveDomains(parts, secret.Key());
    }

    /** Takes the old secret out, if there is one, and puts the new one in. */
    method Replace(prev: Option<Secret>, secret: Secret, notAfter: Time)
      requires Valid()
      modifies Repr
      ensures Valid() && fresh(Repr - old(Repr))
      ensures View == Enroll(match prev case Some(p) => Withdraw(old(View), DomainsOf(p), p.Key()) case None => old(View),
                             DomainsOf(secret), DomainEntry(secret.Key(), notAfter))
    {
      if prev.Some? {
        RemoveSecret(prev.value);
      }
      AddSecret(secret, notAfter);
    }

    method RemoveDomains(parts: seq<string>, nn: NamespacedName)
      requires Valid()
      modifies Repr
      ensures Valid() && fresh(Repr - old(Repr))
      ensures View == RemoveParts(old(View), parts, nn)
    {
      for i := 0 to |parts|
        invariant Valid() && fresh(Repr - old(Repr))
        invariant View == RemoveParts(old(View), parts[..i], nn)
      {
        assert parts[..i + 1][..i] == parts[..i];
        var domain := Text.TrimSpace(parts[i]);
        if domain != "" {
          Remove(domain, nn);
        }
      }
      assert parts[..|parts|] == parts;
    }

    /** GetBestSecretWithValidity for a domain of this index. */
    method GetBest(domain: string, preferredNamespace: string, secrets: SecretMap, now: Time)
      returns (secret: Option<Secret>, validity: Validity)
      requires Valid()
      ensures match Best(IndexedCandidates(EntriesAt(View, domain), secrets, preferredNamespace, now))
        case None => secret == None && validity == NotFound
        case Some(c) => c.nn in secrets && secret == Some(secrets[c.nn]) && validity == c.validity
    {
      var entries := if domain in inner then inner[domain].m else map[];
      secret, validity := GetBestSecretWithValidity(entries, preferredNamespace, secrets, now);
    }

    method Copy() returns (c: DomainSecretsIndex)
      requires Valid()
      ensures c.Valid() && fresh(c.Repr) && c.View == View
    {
      c := new DomainSecretsIndex();
      var todo := inner.Keys;
      while todo != {}
        invariant todo <= inner.Keys
        invariant c.Valid() && fresh(c.Repr)
        invariant c.View == View - todo
        decreases todo
      {
        var d :| d in todo;
        CopyEntry(View, todo, d);
        var copy := inner[d].Copy();
        c.PutInner(d, copy);
        todo := todo - {d};
      }
    }
  }

  lemma AddInPlace(idx: Index, domain: string, entry: DomainEntry)
    ensures domain !in idx ==>
      idx[domain := map[]][domain := map[][entry.nn := entry]] == DomainIndex.Add(idx, domain, entry)
  {}

  lemma RemoveInPlace(idx: Index, domain: string, nn: NamespacedName)
    requires domain in idx
    ensures var rest := idx[domain] - {nn};
      DomainIndex.Remove(idx, domain, nn) == if |rest| == 0 then idx[domain := rest] - {domain} else idx[domain := rest]
  {
    var rest := idx[domain] - {nn};
    if |rest| == 0 { assert rest == map[]; }
  }

  /** updateDomainSecretsMap: the index built from scratch, visiting the secrets in any order. */
  method Rebuild(secrets: SecretMap) returns (idx: DomainSecretsIndex)
    requires forall nn | nn in secrets :: secrets[nn].Key() == nn
    ensures idx.Valid() && fresh(idx.Repr) && idx.View == Rebuilt(secrets)
  {
    idx := new DomainSecretsIndex();
    var todo := secrets.Keys;
    ghost var done: SecretMap := map[];
    assert AllDomains(done) == {};
    while todo != {}
      invariant todo <= secrets.Keys
      invariant done == secrets - todo
      invariant idx.Valid() && fresh(idx.Repr) && idx.View == Rebuilt(done)
      decreases todo
    {
      var nn :| nn in todo;
      var notAfter := ParseCertificateNotAfter(Some(secrets[nn]));
      EnrollExact(done, nn, secrets[nn]);
      idx.AddSecret(secrets[nn], notAfter);
      todo := todo - {nn};
      done := done[nn := secrets[nn]];
    }
    assert done == secrets;
  }
}
