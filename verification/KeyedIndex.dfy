/** A primary map with one secondary index kept up to date by Put and Drop. The UID indexes and the
    spec-name index of the store are all this structure; they differ only in the key they read off a
    resource. */
module KeyedIndex {
  import opened Basics

  datatype Keyed<V> = Keyed(rows: map<NamespacedName, V>, index: map<string, V>)

  /** How a resource names itself and which secondary key, if any, it carries. */
  datatype Keys<!V> = Keys(id: V -> NamespacedName, key: V -> Option<string>)

  /** Forgets the index entry under v's secondary key, whoever holds it. */
  function Unindex<V>(index: map<string, V>, v: V, ks: Keys<V>): map<string, V> {
    match ks.key(v) case Some(k) => index - {k} case None => index
  }

  function Put<V>(s: Keyed<V>, v: V, ks: Keys<V>): Keyed<V> {
    var nn := ks.id(v);
    var cleared := if nn in s.rows then Unindex(s.index, s.rows[nn], ks) else s.index;
    Keyed(s.rows[nn := v], match ks.key(v) case Some(k) => cleared[k := v] case None => cleared)
  }

  function Drop<V>(s: Keyed<V>, nn: NamespacedName, ks: Keys<V>): Keyed<V> {
    if nn in s.rows then Keyed(s.rows - {nn}, Unindex(s.index, s.rows[nn], ks)) else s
  }

  /** Rows lie under their own name, and every index entry is a stored row carrying that key. */
  ghost predicate Sound<V(!new)>(s: Keyed<V>, ks: Keys<V>) {
    && (forall nn | nn in s.rows :: ks.id(s.rows[nn]) == nn)
    && (forall k | k in s.index ::
          && ks.key(s.index[k]) == Some(k)
          && ks.id(s.index[k]) in s.rows && s.rows[ks.id(s.index[k])] == s.index[k])
  }

  /** Every stored row that carries a key is found under it. */
  ghost predicate Complete<V(!new)>(s: Keyed<V>, ks: Keys<V>) {
    forall nn | nn in s.rows :: ks.key(s.rows[nn]).Some? ==>
      ks.key(s.rows[nn]).value in s.index && s.index[ks.key(s.rows[nn]).value] == s.rows[nn]
  }

  /** No two stored rows carry the same key. */
  ghost predicate Unique<V(!new)>(rows: map<NamespacedName, V>, ks: Keys<V>) {
    forall m, n | m in rows && n in rows && m != n :: ks.key(rows[m]).Some? ==> ks.key(rows[m]) != ks.key(rows[n])
  }

  /** No other stored row carries v's key: what a scan of all rows would check. */
  predicate Free<V>(rows: map<NamespacedName, V>, v: V, ks: Keys<V>) {
    ks.key(v).None? || forall m | m in rows && m != ks.id(v) :: ks.key(rows[m]) != ks.key(v)
  }

  lemma PutSound<V(!new)>(s: Keyed<V>, v: V, ks: Keys<V>)
    requires Sound(s, ks)
    ensures Sound(Put(s, v, ks), ks)
  {}

  lemma DropSound<V(!new)>(s: Keyed<V>, nn: NamespacedName, ks: Keys<V>)
    requires Sound(s, ks)
    ensures Sound(Drop(s, nn, ks), ks)
    ensures Complete(s, ks) ==> Complete(Drop(s, nn, ks), ks)
  {
    if nn in s.rows && Complete(s, ks) {
      CompleteIsUnique(s, ks);
    }
  }

  /** What a lookup gives, complete index or not: after a put the new row under its own key, nothing under the key of
      the row it takes the place of, and otherwise what it gave before. */
  lemma PutLookup<V(!new)>(s: Keyed<V>, v: V, ks: Keys<V>, k: string)
    ensures var before, after := s.index, Put(s, v, ks).index;
      if ks.key(v) == Some(k) then k in after && after[k] == v
      else if ks.id(v) in s.rows && ks.key(s.rows[ks.id(v)]) == Some(k) then k !in after
      else (k in after <==> k in before) && (k in before ==> after[k] == before[k])
  {}

  /** After a drop: nothing under the key of the row dropped, whoever was found there, and otherwise what it gave
      before. */
  lemma DropLookup<V(!new)>(s: Keyed<V>, nn: NamespacedName, ks: Keys<V>, k: string)
    ensures var before, after := s.index, Drop(s, nn, ks).index;
      if nn in s.rows && ks.key(s.rows[nn]) == Some(k) then k !in after
      else (k in after <==> k in before) && (k in before ==> after[k] == before[k])
  {}

  /** A sound and complete index is the exact inverse of reading off keys: a lookup finds a row exactly
      when some stored row carries the key, and that row is the only one. */
  lemma LookupIsScan<V(!new)>(s: Keyed<V>, ks: Keys<V>, k: string)
    requires Sound(s, ks) && Complete(s, ks)
    ensures k in s.index <==> exists nn | nn in s.rows :: ks.key(s.rows[nn]) == Some(k)
    ensures forall nn | nn in s.rows && ks.key(s.rows[nn]) == Some(k) :: k in s.index && s.index[k] == s.rows[nn]
  {}

  lemma CompleteIsUnique<V(!new)>(s: Keyed<V>, ks: Keys<V>)
    requires Sound(s, ks) && Complete(s, ks)
    ensures Unique(s.rows, ks)
  {}

  /** Put keeps a complete index complete exactly when no other row holds the new key. */
  lemma PutCompleteIffFree<V(!new)>(s: Keyed<V>, v: V, ks: Keys<V>)
    requires Sound(s, ks) && Complete(s, ks)
    ensures Complete(Put(s, v, ks), ks) <==> Free(s.rows, v, ks)
  {
    var t := Put(s, v, ks);
    CompleteIsUnique(s, ks);
    PutSound(s, v, ks);
    if Complete(t, ks) {
      CompleteIsUnique(t, ks);
      forall m | m in s.rows && m != ks.id(v) && ks.key(v).Some? ensures ks.key(s.rows[m]) != ks.key(v) {
        assert t.rows[m] == s.rows[m] && t.rows[ks.id(v)] == v;
      }
    }
    if Free(s.rows, v, ks) {
      forall nn | nn in t.rows && ks.key(t.rows[nn]).Some?
        ensures ks.key(t.rows[nn]).value in t.index && t.index[ks.key(t.rows[nn]).value] == t.rows[nn]
      {
        if nn != ks.id(v) {
          assert t.rows[nn] == s.rows[nn];
          assert ks.id(v) in s.rows ==> ks.key(s.rows[ks.id(v)]) != ks.key(s.rows[nn]);
        }
      }
    }
  }
}
