/** `PostingList` of search/posting_list.h: the document ids one term occurs
    in, kept strictly ascending. The `Vector<unsigned int>` it is built on is
    modelled by the class in vector.dfy; here its contents are a `seq<nat>`,
    and the in-place sorts work on an array holding those contents. */
module PostingLists {

  /** The largest `size_t`, what `0 - 1` wraps around to. */
  const SIZE_MAX: nat := 0xFFFF_FFFF_FFFF_FFFF

  /** Strictly increasing: sorted and free of duplicates. */
  predicate Ascending(s: seq<nat>)
  {
    forall i, j :: 0 <= i < j < |s| ==> s[i] < s[j]
  }

  predicate Sorted(s: seq<nat>)
  {
    forall i, j :: 0 <= i < j < |s| ==> s[i] <= s[j]
  }

  predicate Distinct(s: seq<nat>)
  {
    forall i, j :: 0 <= i < j < |s| ==> s[i] != s[j]
  }

  /** The ids a list holds. */
  function Elems(s: seq<nat>): set<nat>
  {
    set x | x in s
  }

  /** Every id before the last of an ascending list is below the last. */
  lemma BelowLast(init: seq<nat>, last: nat)
    ensures Ascending(init + [last]) ==> forall x :: x in init ==> x < last
  {
    if Ascending(init + [last]) {
      forall x | x in init
        ensures x < last
      {
        var k :| 0 <= k < |init| && init[k] == x;
        assert (init + [last])[k] == x && (init + [last])[|init|] == last;
      }
    }
  }

  /** Appending an id above all others keeps a list ascending. */
  lemma AppendAscending(front: seq<nat>, last: nat)
    requires Ascending(front) && forall x :: x in front ==> x < last
    ensures Ascending(front + [last])
  {
    forall i, j | 0 <= i < j < |front| + 1
      ensures (front + [last])[i] < (front + [last])[j]
    {
      if j == |front| {
        assert front[i] in front;
      }
    }
  }

  /** Appending the last id of an ascending list to an ascending selection
      of the ids before it keeps the selection ascending. */
  lemma ExtendAscending(init: seq<nat>, last: nat, front: seq<nat>)
    requires Ascending(init + [last]) && Ascending(front)
    requires forall x :: x in front ==> x in init
    ensures Ascending(front + [last])
  {
    BelowLast(init, last);
    AppendAscending(front, last);
  }

  lemma HeadInElems(s: seq<nat>)
    ensures s != [] ==> s[0] in Elems(s)
  {
  }

  lemma ElemsAppend(s: seq<nat>, x: nat)
    ensures Elems(s + [x]) == Elems(s) + {x}
  {
  }

  /** The ids of `s` that `t` contains, in the order of `s`. */
  function Common(s: seq<nat>, t: seq<nat>): (r: seq<nat>)
    ensures forall x :: x in r <==> x in s && x in t
    ensures Ascending(s) ==> Ascending(r)
    decreases |s|
  {
    if s == [] then []
    else
      var front := Common(s[..|s| - 1], t);
      if s[|s| - 1] in t then
        assert Ascending(s) ==> Ascending(front + [s[|s| - 1]]) by {
          if Ascending(s) {
            assert s == s[..|s| - 1] + [s[|s| - 1]];
            ExtendAscending(s[..|s| - 1], s[|s| - 1], front);
          }
        }
        front + [s[|s| - 1]]
      else front
  }

  lemma CommonWithNothing(s: seq<nat>)
    ensures Common(s, []) == []
  {
  }

  /** The ids of `s` that `t` does not contain, in the order of `s`. */
  function Without(s: seq<nat>, t: seq<nat>): (r: seq<nat>)
    ensures forall x :: x in r <==> x in s && x !in t
    ensures Ascending(s) ==> Ascending(r)
    decreases |s|
  {
    if s == [] then []
    else
      var front := Without(s[..|s| - 1], t);
      if s[|s| - 1] !in t then
        assert Ascending(s) ==> Ascending(front + [s[|s| - 1]]) by {
          if Ascending(s) {
            assert s == s[..|s| - 1] + [s[|s| - 1]];
            ExtendAscending(s[..|s| - 1], s[|s| - 1], front);
          }
        }
        front + [s[|s| - 1]]
      else front
  }

  lemma SortedDistinctIsAscending(s: seq<nat>)
    requires Sorted(s) && Distinct(s)
    ensures Ascending(s)
  {
  }

  lemma AscendingIsDistinct(s: seq<nat>)
    requires Ascending(s)
    ensures Distinct(s)
  {
  }

  lemma {:induction false} DistinctCount(s: seq<nat>, x: nat)
    requires Distinct(s)
    ensures multiset(s)[x] <= 1
  {
    if s != [] {
      assert s == [s[0]] + s[1..];
      DistinctCount(s[1..], x);
      if s[0] == x {
        assert x !in s[1..];
      }
    }
  }

  lemma DuplicateCount(s: seq<nat>, p: nat, q: nat)
    requires p < q < |s| && s[p] == s[q]
    ensures multiset(s)[s[p]] >= 2
  {
    assert s == s[..q] + s[q..];
    assert s[p] in s[..q];
    assert s[q] in s[q..];
  }

  /** A rearrangement of a duplicate-free list is duplicate-free. */
  lemma DistinctPermutation(a: seq<nat>, b: seq<nat>)
    requires Distinct(a) && multiset(a) == multiset(b)
    ensures Distinct(b)
  {
    forall p, q | 0 <= p < q < |b|
      ensures b[p] != b[q]
    {
      if b[p] == b[q] {
        DuplicateCount(b, p, q);
        DistinctCount(a, b[p]);
        assert false;
      }
    }
  }

  /** A strictly ascending list is the only one holding exactly its ids in
      strictly ascending order. */
  lemma {:induction false} AscendingUnique(s: seq<nat>, t: seq<nat>)
    requires Ascending(s) && Ascending(t) && Elems(s) == Elems(t)
    ensures s == t
    decreases |s|
  {
    HeadInElems(s);
    HeadInElems(t);
    if s != [] && t != [] {
      assert s[0] == t[0] by {
        assert s[0] in Elems(t) && t[0] in Elems(s);
      }
      assert Elems(s[1..]) == Elems(t[1..]) by {
        forall x ensures x in s[1..] <==> x in t[1..] {
          if x in s[1..] {
            var k :| 0 <= k < |s| - 1 && s[1..][k] == x;
            assert s[k + 1] == x && x in Elems(s);
            assert x in t && x != t[0];
          }
          if x in t[1..] {
            var k :| 0 <= k < |t| - 1 && t[1..][k] == x;
            assert t[k + 1] == x && x in Elems(t);
            assert x in s && x != s[0];
          }
        }
      }
      AscendingUnique(s[1..], t[1..]);
      assert s == [s[0]] + s[1..] && t == [t[0]] + t[1..];
    }
  }

  /** The first id of an ascending list is below all the others. */
  lemma HeadLeast(s: seq<nat>)
    requires Ascending(s) && s != []
    ensures forall y :: y in s[1..] ==> s[0] < y
  {
    forall y | y in s[1..]
      ensures s[0] < y
    {
      var k :| 0 <= k < |s| - 1 && s[1..][k] == y;
      assert s[k + 1] == y;
    }
  }

  lemma PrependAscending(x: nat, rest: seq<nat>)
    requires Ascending(rest) && forall y :: y in rest ==> x < y
    ensures Ascending([x] + rest)
  {
    forall i, j | 0 <= i < j < |rest| + 1
      ensures ([x] + rest)[i] < ([x] + rest)[j]
    {
      if i == 0 {
        assert rest[j - 1] in rest;
      }
    }
  }

  /** The ascending union of two ascending lists: the list a sorted union
      must equal (see `AscendingUnique`). */
  function Merge(s: seq<nat>, t: seq<nat>): (r: seq<nat>)
    ensures forall y :: y in r <==> y in s || y in t
    decreases |s| + |t|
  {
    if s == [] then t
    else if t == [] then s
    else if s[0] < t[0] then [s[0]] + Merge(s[1..], t)
    else if t[0] < s[0] then [t[0]] + Merge(s, t[1..])
    else [s[0]] + Merge(s[1..], t[1..])
  }

  lemma {:induction false} MergeAscending(s: seq<nat>, t: seq<nat>)
    requires Ascending(s) && Ascending(t)
    ensures Ascending(Merge(s, t))
    decreases |s| + |t|
  {
    if s != [] && t != [] {
      HeadLeast(s);
      HeadLeast(t);
      if s[0] < t[0] {
        MergeAscending(s[1..], t);
        PrependAscending(s[0], Merge(s[1..], t));
      } else if t[0] < s[0] {
        MergeAscending(s, t[1..]);
        PrependAscending(t[0], Merge(s, t[1..]));
      } else {
        MergeAscending(s[1..], t[1..]);
        PrependAscending(s[0], Merge(s[1..], t[1..]));
      }
    }
  }

  /** An ascending list holding exactly the ids of two ascending lists is
      their merge. */
  lemma SortedUnionIsMerge(r: seq<nat>, s: seq<nat>, t: seq<nat>)
    requires Ascending(r) && Ascending(s) && Ascending(t)
    requires Elems(r) == Elems(s) + Elems(t)
    ensures r == Merge(s, t)
  {
    MergeAscending(s, t);
    AscendingUnique(r, Merge(s, t));
  }

  method Swap(a: array<nat>, i: nat, j: nat)
    requires i < a.Length && j < a.Length
    modifies a
    ensures a[i] == old(a[j]) && a[j] == old(a[i])
    ensures forall k :: 0 <= k < a.Length && k != i && k != j ==> a[k] == old(a[k])
    ensures multiset(a[..]) == old(multiset(a[..]))
  {
    var t := a[i];
    a[i] := a[j];
    a[j] := t;
  }

  /** The exchange sort that `sort_docs`, `unite`, `search_or` and the
      evaluator's OR run in place. The outer bound `get_size() - 1` is a
      `size_t`: on an empty vector it wraps around to 2^64 - 1, and the outer
      loop then runs that many rounds in which the inner loop does nothing.
      `rounds` reports how many outer rounds ran. */
  method ExchangeSort(a: array<nat>) returns (rounds: nat)
    modifies a
    ensures Sorted(a[..])
    ensures multiset(a[..]) == old(multiset(a[..]))
    ensures rounds == if a.Length == 0 then SIZE_MAX else a.Length - 1
  {
    var n := a.Length;
    var bound := if n == 0 then SIZE_MAX else n - 1;
    var i := 0;
    while i < bound
      invariant 0 <= i <= bound
      invariant forall p, q :: 0 <= p < i && p < q < n ==> a[p] <= a[q]
      invariant multiset(a[..]) == old(multiset(a[..]))
    {
      var j := i + 1;
      while j < n
        invariant i + 1 <= j
        invariant forall p, q :: 0 <= p < i && p < q < n ==> a[p] <= a[q]
        invariant forall q :: i < q < j && q < n ==> a[i] <= a[q]
        invariant multiset(a[..]) == old(multiset(a[..]))
      {
        if a[i] > a[j] {
          Swap(a, i, j);
        }
        j := j + 1;
      }
      i := i + 1;
    }
    rounds := i;
  }

  /** Sorts a duplicate-free list into strictly ascending order. */
  method SortIds(ids: seq<nat>) returns (r: seq<nat>)
    requires Distinct(ids)
    ensures Ascending(r) && Elems(r) == Elems(ids) && |r| == |ids|
  {
    var a := new nat[|ids|](i requires 0 <= i < |ids| => ids[i]);
    assert a[..] == ids;
    var rounds := ExchangeSort(a);
    r := a[..];
    DistinctPermutation(ids, r);
    SortedDistinctIsAscending(r);
    assert forall x :: x in r <==> x in multiset(r);
    assert forall x :: x in ids <==> x in multiset(ids);
  }

  /** The linear scan of `contains`. */
  method ContainsId(ids: seq<nat>, d: nat) returns (found: bool)
    ensures found <==> d in ids
  {
    var i := 0;
    while i < |ids|
      invariant 0 <= i <= |ids|
      invariant d !in ids[..i]
    {
      if ids[i] == d {
        return true;
      }
      i := i + 1;
    }
    return false;
  }

  /** `add_doc`: an id already present leaves the list as it is; otherwise it is
      pushed and the list sorted again. */
  method AddId(ids: seq<nat>, d: nat) returns (r: seq<nat>)
    requires Ascending(ids)
    ensures Ascending(r)
    ensures Elems(r) == Elems(ids) + {d}
    ensures d in ids ==> r == ids
    ensures d !in ids ==> |r| == |ids| + 1
    ensures r == Merge(ids, [d])
  {
    var i := 0;
    while i < |ids|
      invariant 0 <= i <= |ids|
      invariant d !in ids[..i]
    {
      if ids[i] == d {
        SortedUnionIsMerge(ids, ids, [d]);
        return ids;
      }
      i := i + 1;
    }
    assert ids[..i] == ids;
    AscendingIsDistinct(ids);
    r := SortIds(ids + [d]);
    SortedUnionIsMerge(r, ids, [d]);
  }

  /** `intersect`: the ids of `a` that `b` contains, in the order of `a`. */
  method IntersectIds(a: seq<nat>, b: seq<nat>) returns (r: seq<nat>)
    ensures r == Common(a, b)
  {
    r := [];
    var i := 0;
    while i < |a|
      invariant 0 <= i <= |a|
      invariant r == Common(a[..i], b)
    {
      var found := ContainsId(b, a[i]);
      if found {
        r := r + [a[i]];
      }
      assert a[..i + 1][..i] == a[..i];
      i := i + 1;
    }
    assert a[..i] == a;
  }

  /** `difference`: the ids of `a` that `b` does not contain, in the order of `a`. */
  method DifferenceIds(a: seq<nat>, b: seq<nat>) returns (r: seq<nat>)
    ensures r == Without(a, b)
  {
    r := [];
    var i := 0;
    while i < |a|
      invariant 0 <= i <= |a|
      invariant r == Without(a[..i], b)
    {
      var found := ContainsId(b, a[i]);
      if !found {
        r := r + [a[i]];
      }
      assert a[..i + 1][..i] == a[..i];
      i := i + 1;
    }
    assert a[..i] == a;
  }

  /** Appends each id of `ids` that `acc` does not hold yet, scanning `acc`
      for it first: the inner loops of `unite`, `search_or` and the
      evaluator's OR. */
  method AppendMissing(acc: seq<nat>, ids: seq<nat>) returns (r: seq<nat>)
    requires Distinct(acc)
    ensures Distinct(r)
    ensures Elems(r) == Elems(acc) + Elems(ids)
    ensures |acc| <= |r| && r[..|acc|] == acc
  {
    r := acc;
    var i := 0;
    while i < |ids|
      invariant 0 <= i <= |ids|
      invariant Distinct(r)
      invariant Elems(r) == Elems(acc) + Elems(ids[..i])
      invariant |acc| <= |r| && r[..|acc|] == acc
    {
      var found := ContainsId(r, ids[i]);
      if !found {
        ElemsAppend(r, ids[i]);
        r := r + [ids[i]];
      }
      assert ids[..i + 1] == ids[..i] + [ids[i]];
      ElemsAppend(ids[..i], ids[i]);
      i := i + 1;
    }
    assert ids[..i] == ids;
  }

  /** `unite`: `a` followed by the ids of `b` it lacks, then sorted. */
  method UniteIds(a: seq<nat>, b: seq<nat>) returns (r: seq<nat>)
    requires Distinct(a)
    ensures Ascending(r)
    ensures Elems(r) == Elems(a) + Elems(b)
  {
    var acc := AppendMissing(a, b);
    r := SortIds(acc);
  }

  /** One term's posting list. */
  class PostingList {
    var docIds: seq<nat>

    ghost predicate Valid()
      reads this
    {
      Ascending(docIds)
    }

    constructor ()
      ensures Valid() && docIds == []
    {
      docIds := [];
    }

    /** `add_doc`: afterwards the list holds the old ids and `d`, ascending;
        adding an id twice changes nothing the second time. */
    method AddDoc(d: nat)
      requires Valid()
      modifies this
      ensures Valid()
      ensures Elems(docIds) == Elems(old(docIds)) + {d}
      ensures d in old(docIds) ==> docIds == old(docIds)
    {
      docIds := AddId(docIds, d);
    }

    /** `get_docs` returns a copy; a `seq` value cannot alias the list. */
    method GetDocs() returns (ids: seq<nat>)
      requires Valid()
      ensures Ascending(ids) && ids == docIds
    {
      ids := docIds;
    }

    method Size() returns (n: nat)
      ensures n == |docIds|
    {
      n := |docIds|;
    }

    method Contains(d: nat) returns (found: bool)
      ensures found <==> d in docIds
    {
      found := ContainsId(docIds, d);
    }

    method Intersect(other: PostingList) returns (ids: seq<nat>)
      requires Valid()
      ensures ids == Common(docIds, other.docIds)
      ensures Ascending(ids)
    {
      ids := IntersectIds(docIds, other.docIds);
    }

    method Unite(other: PostingList) returns (ids: seq<nat>)
      requires Valid()
      ensures Ascending(ids)
      ensures Elems(ids) == Elems(docIds) + Elems(other.docIds)
    {
      AscendingIsDistinct(docIds);
      ids := UniteIds(docIds, other.docIds);
    }

    method Difference(other: PostingList) returns (ids: seq<nat>)
      requires Valid()
      ensures ids == Without(docIds, other.docIds)
      ensures Ascending(ids)
    {
      ids := DifferenceIds(docIds, other.docIds);
    }
  }

  /** Adding two ids in either order yields the same list: by `AddId`'s
      contract, `add_doc(d)` then `add_doc(e)` leaves
      `Merge(Merge(s, [d]), [e])`. */
  lemma AddOrderIrrelevant(s: seq<nat>, d: nat, e: nat)
    requires Ascending(s)
    ensures Merge(Merge(s, [d]), [e]) == Merge(Merge(s, [e]), [d])
  {
    MergeAscending(s, [d]);
    MergeAscending(Merge(s, [d]), [e]);
    MergeAscending(s, [e]);
    MergeAscending(Merge(s, [e]), [d]);
    AscendingUnique(Merge(Merge(s, [d]), [e]), Merge(Merge(s, [e]), [d]));
  }
}
