/** Shared vocabulary: optional values, resource keys, and the byte-wise string order Go uses for `<`. */
module Basics {

  datatype Option<+T> = None | Some(value: T)

  /** The (namespace, name) key of every stored resource. */
  datatype NamespacedName = NamespacedName(namespace: string, name: string)

  /** Copying one more entry of a map: what is left to copy shrinks by its key. */
  lemma CopyEntry<K, V>(m: map<K, V>, todo: set<K>, k: K)
    requires k in m && k in todo
    ensures (m - todo)[k := m[k]] == m - (todo - {k})
  {}

  /** Strict lexicographic order on strings. */
  predicate StringLess(s: string, t: string) {
    t != [] && (s == [] || s[0] < t[0] || (s[0] == t[0] && StringLess(s[1..], t[1..])))
  }

  lemma {:induction false} StringLessTrichotomy(s: string, t: string)
    ensures StringLess(s, t) || s == t || StringLess(t, s)
    ensures !(StringLess(s, t) && StringLess(t, s))
    ensures !StringLess(s, s)
  {
    if s != [] {
      StringLessTrichotomy(s[1..], s[1..]);
      if t != [] && s[0] == t[0] {
        StringLessTrichotomy(s[1..], t[1..]);
        assert s == [s[0]] + s[1..] && t == [t[0]] + t[1..];
      }
    }
  }

  lemma {:induction false} StringLessTransitive(s: string, t: string, u: string)
    requires StringLess(s, t) && StringLess(t, u)
    ensures StringLess(s, u)
  {
    if s != [] && s[0] == t[0] == u[0] {
      StringLessTransitive(s[1..], t[1..], u[1..]);
    }
  }

  /** The order is decided at the first position where the strings differ, and a proper prefix comes first. */
  lemma {:induction false} StringLessIs(s: string, t: string)
    ensures StringLess(s, t) <==> exists i | 0 <= i <= |s| && i < |t| :: s[..i] == t[..i] && (i < |s| ==> s[i] < t[i])
  {
    if t != [] && s != [] {
      StringLessIs(s[1..], t[1..]);
      if StringLess(s, t) {
        if s[0] < t[0] {
          assert s[..0] == t[..0];
        } else {
          var i :| 0 <= i <= |s[1..]| && i < |t[1..]| && s[1..][..i] == t[1..][..i] && (i < |s[1..]| ==> s[1..][i] < t[1..][i]);
          assert s[..i + 1] == [s[0]] + s[1..][..i] && t[..i + 1] == [t[0]] + t[1..][..i];
        }
      }
      if i :| 0 < i <= |s| && i < |t| && s[..i] == t[..i] && (i < |s| ==> s[i] < t[i]) {
        assert s[0] == s[..i][0] == t[0];
        assert s[1..][..i - 1] == s[..i][1..] && t[1..][..i - 1] == t[..i][1..];
      }
    } else if t != [] {
      assert s[..0] == t[..0];
    }
  }

  // ----- Sorting: the contract of Go's sort.Slice, which need not be stable -----

  /** No later element is less than an earlier one. */
  ghost predicate Sorted<T>(s: seq<T>, less: (T, T) -> bool) {
    forall i, j | 0 <= i < j < |s| :: !less(s[j], s[i])
  }

  ghost predicate StrictOrder<T(!new)>(less: (T, T) -> bool) {
    && (forall x :: !less(x, x))
    && (forall x, y, z | less(x, y) && less(y, z) :: less(x, z))
  }

  function Insert<T>(x: T, s: seq<T>, less: (T, T) -> bool): (r: seq<T>)
    ensures multiset(r) == multiset{x} + multiset(s)
    ensures |r| == |s| + 1
  {
    if s == [] then [x]
    else
      assert s == [s[0]] + s[1..];
      if less(x, s[0]) then [x] + s else [s[0]] + Insert(x, s[1..], less)
  }

  lemma {:induction false} InsertSorted<T(!new)>(x: T, s: seq<T>, less: (T, T) -> bool)
    requires StrictOrder(less) && Sorted(s, less)
    ensures Sorted(Insert(x, s, less), less)
  {
    if s != [] && !less(x, s[0]) {
      InsertSorted(x, s[1..], less);
      var tail := Insert(x, s[1..], less);
      forall j | 0 <= j < |tail| ensures !less(tail[j], s[0]) {
        assert tail[j] in multiset(tail);
        assert tail[j] == x || tail[j] in s[1..];
      }
    }
  }

  function SortSlice<T>(s: seq<T>, less: (T, T) -> bool): (r: seq<T>)
    ensures multiset(r) == multiset(s)
    ensures |r| == |s|
  {
    if s == [] then []
    else
      assert s == [s[0]] + s[1..];
      Insert(s[0], SortSlice(s[1..], less), less)
  }

  lemma {:induction false} SortSliceSorts<T(!new)>(s: seq<T>, less: (T, T) -> bool)
    requires StrictOrder(less)
    ensures Sorted(SortSlice(s, less), less)
  {
    if s != [] {
      SortSliceSorts(s[1..], less);
      InsertSorted(s[0], SortSlice(s[1..], less), less);
    }
  }
}
