/** How the store's operations on secrets change which secret serves a domain. */
module SecretRuns {
  import opened Basics
  import opened Secrets
  import opened SecretLookup
  import opened StoreModel

  /** Deleting a secret takes it out of the running, and changes the winner only if it was the winner. */
  lemma DeleteSecretWinner(s: State, nn: NamespacedName, domain: string, preferred: string, now: Time)
    ensures var w := Winner(s.secrets.stored, domain, preferred, now);
      var w' := Winner(Apply(s, DeleteSecret(nn)).secrets.stored, domain, preferred, now);
      && (w'.Some? ==> w'.value.nn != nn)
      && (w.None? || w.value.nn != nn ==> w' == w)
  {
    if nn in s.secrets.stored {
      var w := Winner(s.secrets.stored, domain, preferred, now);
      assert Apply(s, DeleteSecret(nn)).secrets.stored == s.secrets.stored - {nn};
      if w.None? || w.value.nn != nn {
        DeleteLoser(s.secrets.stored, nn, domain, preferred, now);
      }
    }
  }

  /** After setting a secret it serves the domain, if annotated with it, or the winner is the one the other secrets
      have among them; under a new name, the one before. */
  lemma SetSecretWinner(s: State, secret: Secret, domain: string, preferred: string, now: Time)
    ensures var stored, key := s.secrets.stored, NamespacedName(secret.namespace, secret.name);
      var w := Winner(Apply(s, SetSecret(secret)).secrets.stored, domain, preferred, now);
      || w == Winner(stored - {key}, domain, preferred, now)
      || (w.Some? && w.value.nn == key && domain in DomainsOf(secret))
    ensures NamespacedName(secret.namespace, secret.name) !in s.secrets.stored ==>
      var w := Winner(Apply(s, SetSecret(secret)).secrets.stored, domain, preferred, now);
      || w == Winner(s.secrets.stored, domain, preferred, now)
      || (w.Some? && w.value.nn == NamespacedName(secret.namespace, secret.name) && domain in DomainsOf(secret))
  {
    var stored, key := s.secrets.stored, secret.Key();
    assert Apply(s, SetSecret(secret)).secrets.stored == stored[key := secret] == (stored - {key})[key := secret];
    AddNewcomer(stored - {key}, secret, domain, preferred, now);
    assert key !in stored ==> stored - {key} == stored;
  }

  /** After any run of a new store the winner for a domain is a secret last set, not deleted since and annotated
      with the domain. */
  lemma WinnerIsHistory(ops: seq<Op>, domain: string, preferred: string, now: Time)
    ensures var w := Winner(Run(EMPTY, ops).secrets.stored, domain, preferred, now);
      w.Some? ==>
      var n := Last(ops, w.value.nn, SettingSecret);
      n > Last(ops, w.value.nn, DeletingSecret) && domain in DomainsOf(ops[n].secret)
  {
    var w := Winner(Run(EMPTY, ops).secrets.stored, domain, preferred, now);
    if w.Some? {
      SecretIsHistory(ops, w.value.nn);
    }
  }
}
