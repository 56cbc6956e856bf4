/** The part of the store in memory that deals with secrets: the primary map and the domain index. */
module SecretMaps {
  import opened Basics
  import opened GoMaps
  import opened DomainSecrets
  import opened Secrets
  import DI = DomainIndex
  import BulkLoad

  class SecretMaps {
    const secrets: GoMap<NamespacedName, Secret>
    var domainSecretsIndex: DomainSecretsIndex

    ghost var View: DI.SecretState  // what the maps hold
    ghost var Repr: set<object>  // this object and all memory below it

    /** The two share no memory, and secrets lie under their own names. */
    ghost predicate Valid()
      reads this, Repr
      ensures Valid() ==> this in Repr
    {
      && this in Repr && secrets in Repr
      && domainSecretsIndex in Repr && domainSecretsIndex.Repr <= Repr
      && this !in domainSecretsIndex.Repr && secrets !in domainSecretsIndex.Repr
      && domainSecretsIndex.Valid()
      && View == DI.SecretState(secrets.m, domainSecretsIndex.View)
      && (forall nn | nn in secrets.m :: secrets.m[nn].Key() == nn)
    }

    constructor (rows: GoMap<NamespacedName, Secret>, domains: DomainSecretsIndex)
      requires domains.Valid() && rows !in domains.Repr && forall nn | nn in rows.m :: rows.m[nn].Key() == nn
      ensures Valid() && View == DI.SecretState(rows.m, domains.View) && Repr == {this, rows} + domains.Repr
    {
      secrets, domainSecretsIndex := rows, domains;
      View := DI.SecretState(rows.m, domains.View);
      Repr := {this, rows} + domains.Repr;
    }

    method SetSecret(secret: Secret)
      requires Valid()
      modifies Repr
      ensures Valid() && fresh(Repr - old(Repr)) && View == DI.SetSecret(old(View), secret)
    {
      var notAfter := ParseCertificateNotAfter(Some(secret));
      var key := secret.Key();
      var prev := if key in secrets.m then Some(secrets.m[key]) else None;
      secrets.m := secrets.m[key := secret];
      domainSecretsIndex.Replace(prev, secret, notAfter);
      Repr := Repr + domainSecretsIndex.Repr;
      View := DI.SetSecret(View, secret);
    }

    method DeleteSecret(nn: NamespacedName)
      requires Valid()
      modifies Repr
      ensures Valid() && fresh(Repr - old(Repr)) && View == DI.DeleteSecret(old(View), nn)
    {
      if nn in secrets.m {
        domainSecretsIndex.RemoveSecret(secrets.m[nn]);
        secrets.m := secrets.m - {nn};
        Repr := Repr + domainSecretsIndex.Repr;
        View := DI.DeleteSecret(View, nn);
      }
    }

    /** The bulk load of secrets; the domain index waits for the rebuild. */
    method FillAll(items: seq<Secret>)
      requires Valid()
      modifies Repr
      ensures Valid() && Repr == old(Repr)
      ensures View == DI.SecretState(BulkLoad.LoadSecrets(old(View).stored, items), old(View).domains)
    {
      for i := 0 to |items|
        invariant Valid() && Repr == old(Repr)
        invariant View == DI.SecretState(BulkLoad.LoadSecrets(old(View).stored, items[..i]), old(View).domains)
      {
        assert items[..i + 1][..i] == items[..i];
        secrets.m := secrets.m[items[i].Key() := items[i]];
        View := View.(stored := secrets.m);
      }
      assert items[..|items|] == items;
    }

    /** updateDomainSecretsMap: a new index takes the place of the old one. */
    method UpdateDomainSecretsMap()
      requires Valid()
      modifies Repr
      ensures Valid() && fresh(Repr - old(Repr))
      ensures View == DI.SecretState(old(View).stored, DI.Rebuilt(old(View).stored))
    {
      var idx := Rebuild(secrets.m);
      domainSecretsIndex := idx;
      Repr := Repr + idx.Repr;
      View := View.(domains := idx.View);
    }

    method Copy() returns (c: SecretMaps)
      requires Valid()
      ensures c.Valid() && fresh(c.Repr) && c.View == View
    {
      var rows := secrets.Copy();
      var domains := domainSecretsIndex.Copy();
      c := new SecretMaps(rows, domains);
    }
  }

  /** A part of a new store. */
  method NewSecretMaps() returns (c: SecretMaps)
    ensures c.Valid() && fresh(c.Repr) && c.View == DI.SecretState(map[], map[])
  {
    var rows := new GoMap();
    var domains := new DomainSecretsIndex();
    c := new SecretMaps(rows, domains);
  }
}
