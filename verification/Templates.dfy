/** The template index in memory: one Go slice of services per template. Appending may write into the
    spare capacity of the backing array and removing shifts the array in place, so what keeps two
    holders of a list apart is which backing arrays they own. */
module Templates {
  import opened Basics
  import opened VirtualServices

  /** A slice: the first `len` elements of a backing array whose length is the capacity. */
  datatype Slice = Slice(arr: array<VirtualService>, len: nat)

  /** append(s, v): in place when there is capacity, otherwise into a grown copy. */
  method Append(s: Slice, v: VirtualService) returns (r: Slice)
    requires s.len <= s.arr.Length
    modifies s.arr
    ensures r.len <= r.arr.Length && r.arr[..r.len] == old(s.arr[..s.len]) + [v]
    ensures r.arr == s.arr || fresh(r.arr)
  {
    var arr := s.arr;
    if s.len == arr.Length {
      arr := new VirtualService[2 * s.len + 1];
      for i := 0 to s.len
        invariant forall j | 0 <= j < i :: arr[j] == s.arr[j]
        invariant s.arr[..] == old(s.arr[..])
      {
        arr[i] := s.arr[i];
      }
      assert arr[..s.len] == s.arr[..s.len];
    }
    arr[s.len] := v;
    r := Slice(arr, s.len + 1);
    assert r.arr[..r.len] == arr[..s.len] + [v];
  }

  lemma ShiftedDown(before: seq<VirtualService>, after: seq<VirtualService>, i: nat)
    requires i < |before| && |after| == |before| - 1
    requires forall k | 0 <= k < i :: after[k] == before[k]
    requires forall k | i <= k < |after| :: after[k] == before[k + 1]
    ensures after == before[..i] + before[i + 1..]
  {}

  /** append(s[:i], s[i+1:]...): shifts the tail down inside the same backing array. */
  method RemoveAt(s: Slice, i: nat) returns (r: Slice)
    requires s.len <= s.arr.Length && i < s.len
    modifies s.arr
    ensures r.len <= r.arr.Length && r.arr == s.arr
    ensures r.arr[..r.len] == old(s.arr[..s.len])[..i] + old(s.arr[..s.len])[i + 1..]
  {
    var arr := s.arr;
    ghost var before := arr[..s.len];
    var j := i;
    while j + 1 < s.len
      invariant i <= j < s.len
      invariant forall k | 0 <= k < i :: arr[k] == before[k]
      invariant forall k | i <= k < j :: arr[k] == before[k + 1]
      invariant forall k | j < k < s.len :: arr[k] == before[k]
    {
      arr[j] := arr[j + 1];
      j := j + 1;
    }
    r := Slice(arr, s.len - 1);
    ShiftedDown(before, arr[..r.len], i);
  }

  /** append([]T(nil), s...): a copy with its own backing array. */
  method Clone(s: Slice) returns (r: Slice)
    requires s.len <= s.arr.Length
    ensures fresh(r.arr) && r.len == r.arr.Length && r.arr[..r.len] == s.arr[..s.len]
  {
    var arr := new VirtualService[s.len];
    for i := 0 to s.len
      invariant forall j | 0 <= j < i :: arr[j] == s.arr[j]
      invariant s.arr[..] == old(s.arr[..])
    {
      arr[i] := s.arr[i];
    }
    r := Slice(arr, s.len);
    assert forall i | 0 <= i < s.len :: r.arr[..r.len][i] == s.arr[..s.len][i];
  }

  class TemplateIndex {
    var lists: map<NamespacedName, Slice>

    ghost var View: Lists  // what the lists hold
    ghost var Repr: set<object>  // this object and the backing arrays it owns
    ghost var Owner: map<object, NamespacedName>  // the one list each backing array belongs to

    /** Every list owns its backing array. */
    ghost predicate Valid()
      reads this, Repr
      ensures Valid() ==> this in Repr
    {
      && this in Repr
      && View.Keys == lists.Keys
      && (forall t | t in lists :: lists[t].arr in Repr && lists[t].len <= lists[t].arr.Length && lists[t].arr[..lists[t].len] == View[t])
      && (forall t | t in lists :: lists[t].arr in Owner && Owner[lists[t].arr] == t)
    }

    constructor ()
      ensures Valid() && View == map[] && fresh(Repr)
    {
      lists := map[];
      View := map[];
      Repr := {this};
      Owner := map[];
    }

    /** Stores a list whose backing array belongs to no other list. */
    method PutList(t: NamespacedName, slice: Slice)
      requires this in Repr && View.Keys == lists.Keys && slice.len <= slice.arr.Length
      requires forall u | u in lists && u != t ::
        && lists[u].arr in Repr && lists[u].len <= lists[u].arr.Length && lists[u].arr[..lists[u].len] == View[u]
        && lists[u].arr in Owner && Owner[lists[u].arr] == u && lists[u].arr != slice.arr
      modifies this
      ensures Valid() && View == old(View)[t := slice.arr[..slice.len]] && Repr == old(Repr) + {slice.arr}
    {
      lists := lists[t := slice];
      View := View[t := slice.arr[..slice.len]];
      Repr := Repr + {slice.arr};
      Owner := Owner[slice.arr := t];
    }

    method FindByUid(s: Slice, uid: string) returns (i: nat)
      requires s.len <= s.arr.Length
      ensures i == FindUid(s.arr[..s.len], uid)
    {
      i := 0;
      while i < s.len && s.arr[i].uid != uid
        invariant 0 <= i <= s.len
        invariant forall j | 0 <= j < i :: s.arr[j].uid != uid
      {
        i := i + 1;
      }
      assert i < s.len ==> s.arr[..s.len][i].uid == uid;
      assert forall j | 0 <= j < i :: s.arr[..s.len][j].uid != uid;
      FindUidIs(s.arr[..s.len], uid, i);
    }

    /** updateTemplateIndex */
    method Update(v: VirtualService)
      requires Valid()
      modifies Repr
      ensures Valid() && fresh(Repr - old(Repr))
      ensures View == AddToTemplate(old(View), v)
    {
      if v.TemplateKey().None? {
        return;
      }
      var t := v.TemplateKey().value;
      var slice: Slice;
      if t in lists {
        slice := lists[t];
      } else {
        var none := new VirtualService[0];
        slice := Slice(none, 0);
      }
      var i := FindByUid(slice, v.uid);
      if i < slice.len {
        return;
      }
      var grown := Append(slice, v);
      PutList(t, grown);
    }

    /** removeFromTemplateIndex */
    method Remove(v: VirtualService)
      requires Valid()
      modifies Repr
      ensures Valid() && fresh(Repr - old(Repr))
      ensures View == RemoveFromTemplate(old(View), v)
    {
      if v.TemplateKey().None? || v.TemplateKey().value !in lists {
        return;
      }
      var t := v.TemplateKey().value;
      var i := FindByUid(lists[t], v.uid);
      if i == lists[t].len {
        return;
      }
      var shrunk := RemoveAt(lists[t], i);
      PutList(t, shrunk);
    }

    /** GetVirtualServicesByTemplate: hands out a copy, or nothing for an unknown template. */
    method Get(t: NamespacedName) returns (r: Option<array<VirtualService>>)
      requires Valid()
      ensures r.Some? <==> t in View
      ensures r.Some? ==> fresh(r.value) && r.value[..] == View[t]
    {
      if t !in lists {
        return None;
      }
      var copy := Clone(lists[t]);
      r := Some(copy.arr);
    }

    /** Takes the old service out, if there is one, and puts the new one in. */
    method Replace(prev: Option<VirtualService>, v: VirtualService)
      requires Valid()
      modifies Repr
      ensures Valid() && fresh(Repr - old(Repr))
      ensures View == AddToTemplate(match prev case Some(p) => RemoveFromTemplate(old(View), p) case None => old(View), v)
    {
      if prev.Some? {
        Remove(prev.value);
      }
      Update(v);
    }

    method Copy() returns (c: TemplateIndex)
      requires Valid()
      ensures c.Valid() && fresh(c.Repr) && c.View == View
    {
      c := new TemplateIndex();
      var todo := lists.Keys;
      while todo != {}
        invariant todo <= lists.Keys
        invariant c.Valid() && fresh(c.Repr)
        invariant c.View == View - todo
        decreases todo
      {
        var t :| t in todo;
        CopyEntry(View, todo, t);
        var slice := Clone(lists[t]);
        c.PutList(t, slice);
        todo := todo - {t};
      }
    }
  }

  lemma FindUidIs(list: seq<VirtualService>, uid: string, i: nat)
    requires i <= |list| && (i < |list| ==> list[i].uid == uid)
    requires forall j | 0 <= j < i :: list[j].uid != uid
    ensures i == FindUid(list, uid)
  {}
}
