/**
 * The runtime section record (`SectionState` in types/index.ts) and the sort
 * by `order` that context/section-config-context.tsx applies with
 * `sort((a, b) => a.order - b.order)`. JavaScript's `Array.prototype.sort` is
 * stable, so the model is a stable insertion sort, run in place on an array by
 * `SortInPlace`; `StableSortIsUnique` shows that every stable sort by `order`
 * gives the same result.
 */
module Sections {

  datatype SectionState = SectionState(id: string, enabled: bool, order: int)

  /** The ids of a list of entries, position by position. */
  function Ids(s: seq<SectionState>): seq<string>
  {
    seq(|s|, i requires 0 <= i < |s| => s[i].id)
  }

  /** Non-decreasing by `order`. */
  ghost predicate Sorted(s: seq<SectionState>)
  {
    forall i, j :: 0 <= i < j < |s| ==> s[i].order <= s[j].order
  }

  /** Strictly increasing by `order`: no two entries share an order value. */
  ghost predicate StrictlySorted(s: seq<SectionState>)
  {
    forall i, j :: 0 <= i < j < |s| ==> s[i].order < s[j].order
  }

  /** The entries of `s` whose order is `k`, in their order in `s`. */
  function WithOrder(s: seq<SectionState>, k: int): seq<SectionState>
  {
    if s == [] then []
    else WithOrder(s[..|s| - 1], k) + (if s[|s| - 1].order == k then [s[|s| - 1]] else [])
  }

  /** `t` is what a stable sort by order makes of `s`. */
  ghost predicate StableSortOf(t: seq<SectionState>, s: seq<SectionState>)
  {
    Sorted(t) && forall k :: WithOrder(t, k) == WithOrder(s, k)
  }

  lemma WithOrderSnoc(s: seq<SectionState>, x: SectionState, k: int)
    ensures WithOrder(s + [x], k) == WithOrder(s, k) + (if x.order == k then [x] else [])
  {
    assert (s + [x])[..|s|] == s;
  }

  lemma {:induction false} WithOrderMember(s: seq<SectionState>, k: int, x: SectionState)
    ensures x in WithOrder(s, k) <==> x in s && x.order == k
  {
    if s != [] {
      var init := s[..|s| - 1];
      WithOrderMember(init, k, x);
      assert s == init + [s[|s| - 1]];
    }
  }

  /**
   * Inserts `x` after every entry whose order is at most `x.order`, scanning
   * from the end: one step of insertion sort.
   */
  function Insert(s: seq<SectionState>, x: SectionState): (r: seq<SectionState>)
    ensures |r| == |s| + 1
  {
    if s == [] then [x]
    else if s[|s| - 1].order > x.order then Insert(s[..|s| - 1], x) + [s[|s| - 1]]
    else s + [x]
  }

  lemma {:induction false} InsertAddsOne(s: seq<SectionState>, x: SectionState)
    ensures multiset(Insert(s, x)) == multiset(s) + multiset{x}
  {
    if s != [] {
      var init, last := s[..|s| - 1], s[|s| - 1];
      assert s == init + [last];
      if last.order > x.order {
        InsertAddsOne(init, x);
      }
    }
  }

  lemma {:induction false} InsertKeepsSorted(s: seq<SectionState>, x: SectionState)
    requires Sorted(s)
    ensures Sorted(Insert(s, x))
  {
    if s != [] {
      var init, last := s[..|s| - 1], s[|s| - 1];
      if last.order > x.order {
        InsertKeepsSorted(init, x);
        InsertAddsOne(init, x);
        var r := Insert(init, x);
        forall i | 0 <= i < |r| ensures r[i].order <= last.order {
          assert r[i] in multiset(init) + multiset{x};
        }
      }
    }
  }

  lemma {:induction false} InsertRuns(s: seq<SectionState>, x: SectionState, k: int)
    ensures WithOrder(Insert(s, x), k) == WithOrder(s, k) + (if x.order == k then [x] else [])
  {
    if s == [] {
      WithOrderSnoc([], x, k);
    } else {
      var init, last := s[..|s| - 1], s[|s| - 1];
      assert s == init + [last];
      if last.order > x.order {
        InsertRuns(init, x, k);
        WithOrderSnoc(Insert(init, x), last, k);
        WithOrderSnoc(init, last, k);
      } else {
        WithOrderSnoc(s, x, k);
      }
    }
  }

  /** The stable sort by order, as insertion sort from the front. */
  function SortByOrder(s: seq<SectionState>): (r: seq<SectionState>)
    ensures |r| == |s|
  {
    if s == [] then []
    else Insert(SortByOrder(s[..|s| - 1]), s[|s| - 1])
  }

  lemma SortByOrderSnoc(s: seq<SectionState>, x: SectionState)
    ensures SortByOrder(s + [x]) == Insert(SortByOrder(s), x)
  {
    assert (s + [x])[..|s|] == s;
  }

  /** Sorting only rearranges: the result holds the same entries. */
  lemma {:induction false} SortByOrderPermutes(s: seq<SectionState>)
    ensures multiset(SortByOrder(s)) == multiset(s)
  {
    if s != [] {
      var init, last := s[..|s| - 1], s[|s| - 1];
      assert s == init + [last];
      SortByOrderPermutes(init);
      InsertAddsOne(SortByOrder(init), last);
    }
  }

  /** `SortByOrder` is a stable sort: sorted, and each run of equal orders kept as it was. */
  lemma {:induction false} SortByOrderIsStable(s: seq<SectionState>)
    ensures StableSortOf(SortByOrder(s), s)
  {
    if s != [] {
      var init, last := s[..|s| - 1], s[|s| - 1];
      assert s == init + [last];
      SortByOrderIsStable(init);
      InsertKeepsSorted(SortByOrder(init), last);
      forall k ensures WithOrder(SortByOrder(s), k) == WithOrder(s, k) {
        InsertRuns(SortByOrder(init), last, k);
        WithOrderSnoc(init, last, k);
      }
    }
  }

  /** Two sorted lists that agree key by key are equal. */
  lemma {:induction false} SortedRunsDetermine(t1: seq<SectionState>, t2: seq<SectionState>)
    requires Sorted(t1) && Sorted(t2)
    requires forall k :: WithOrder(t1, k) == WithOrder(t2, k)
    ensures t1 == t2
    decreases |t1| + |t2|
  {
    if t1 == [] && t2 != [] {
      var b := t2[|t2| - 1];
      WithOrderMember(t2, b.order, b);
      WithOrderMember(t1, b.order, b);
    } else if t1 != [] && t2 == [] {
      var a := t1[|t1| - 1];
      WithOrderMember(t1, a.order, a);
      WithOrderMember(t2, a.order, a);
    } else if t1 != [] {
      var init1, a := t1[..|t1| - 1], t1[|t1| - 1];
      var init2, b := t2[..|t2| - 1], t2[|t2| - 1];
      LastRunsAgree(t1, t2);
      assert t1 == init1 + [a] && t2 == init2 + [b];
      forall k ensures WithOrder(init1, k) == WithOrder(init2, k) {
        WithOrderSnoc(init1, a, k);
        WithOrderSnoc(init2, b, k);
        var w1, w2, tail := WithOrder(init1, k), WithOrder(init2, k), if a.order == k then [a] else [];
        assert w1 + tail == w2 + tail;
        assert w1 == (w1 + tail)[..|w1|];
        assert w2 == (w2 + tail)[..|w2|];
      }
      SortedRunsDetermine(init1, init2);
      assert t1 == init1 + [a] && t2 == init2 + [b];
    }
  }

  /** Two non-empty sorted lists that agree key by key end with the same entry. */
  lemma LastRunsAgree(t1: seq<SectionState>, t2: seq<SectionState>)
    requires Sorted(t1) && Sorted(t2) && t1 != [] && t2 != []
    requires forall k :: WithOrder(t1, k) == WithOrder(t2, k)
    ensures t1[|t1| - 1] == t2[|t2| - 1]
  {
    var a, b := t1[|t1| - 1], t2[|t2| - 1];
    WithOrderMember(t2, b.order, b);
    WithOrderMember(t1, b.order, b);
    LastIsGreatest(t1, b);
    WithOrderMember(t1, a.order, a);
    WithOrderMember(t2, a.order, a);
    LastIsGreatest(t2, a);
    LastOfRun(t1, a.order);
    LastOfRun(t2, a.order);
    var w := WithOrder(t1, a.order);
    assert w[|w| - 1] == a;
  }

  lemma LastIsGreatest(t: seq<SectionState>, x: SectionState)
    requires Sorted(t) && x in t
    ensures x.order <= t[|t| - 1].order
  {
    var i :| 0 <= i < |t| && t[i] == x;
    if i < |t| - 1 {
      assert t[i].order <= t[|t| - 1].order;
    }
  }

  /** The run of the last entry's order ends with that entry. */
  lemma LastOfRun(t: seq<SectionState>, k: int)
    requires t != [] && t[|t| - 1].order == k
    ensures WithOrder(t, k) != [] && WithOrder(t, k)[|WithOrder(t, k)| - 1] == t[|t| - 1]
  {
  }

  /**
   * Any stable sort by order (sorted, and entries of equal order kept in
   * their relative order) yields exactly `SortByOrder`.
   */
  lemma StableSortIsUnique(s: seq<SectionState>, t: seq<SectionState>)
    requires StableSortOf(t, s)
    ensures t == SortByOrder(s)
  {
    SortByOrderIsStable(s);
    SortedRunsDetermine(t, SortByOrder(s));
  }

  /** Sorting an already sorted list changes nothing. */
  lemma SortSortedIsIdentity(s: seq<SectionState>)
    requires Sorted(s)
    ensures SortByOrder(s) == s
  {
    SortByOrderIsStable(s);
    SortedRunsDetermine(s, SortByOrder(s));
  }

  /** Two lists with the same entries, one sorted and one strictly sorted, are equal. */
  lemma {:induction false} StrictlySortedPermutationIsEqual(t: seq<SectionState>, u: seq<SectionState>)
    requires Sorted(t) && StrictlySorted(u)
    requires multiset(t) == multiset(u)
    ensures t == u
    decreases |t|
  {
    assert |t| == |u| by {
      assert |multiset(t)| == |multiset(u)|;
    }
    if t != [] {
      var initT, initU := t[..|t| - 1], u[..|u| - 1];
      SameLast(t, u);
      DropLast(t);
      DropLast(u);
      SortedFront(t);
      StrictlySortedFront(u);
      StrictlySortedPermutationIsEqual(initT, initU);
      assert t == initT + [t[|t| - 1]];
      assert u == initU + [u[|u| - 1]];
    }
  }

  /** A sorted and a strictly sorted list with the same entries end alike. */
  lemma SameLast(t: seq<SectionState>, u: seq<SectionState>)
    requires Sorted(t) && StrictlySorted(u) && t != [] && u != []
    requires multiset(t) == multiset(u)
    ensures t[|t| - 1] == u[|u| - 1]
  {
    var a, b := t[|t| - 1], u[|u| - 1];
    assert a in multiset(u) && b in multiset(t);
    LastIsGreatest(t, b);
    LastIsGreatest(u, a);
    OnlyEntryWithOrder(u, a);
  }

  lemma SortedFront(s: seq<SectionState>)
    requires Sorted(s) && s != []
    ensures Sorted(s[..|s| - 1])
  {
  }

  lemma StrictlySortedFront(s: seq<SectionState>)
    requires StrictlySorted(s) && s != []
    ensures StrictlySorted(s[..|s| - 1])
  {
  }

  /** A non-empty list is its front followed by its last entry, as multisets too. */
  lemma DropLast(s: seq<SectionState>)
    requires s != []
    ensures multiset(s[..|s| - 1]) == multiset(s) - multiset{s[|s| - 1]}
  {
    assert s == s[..|s| - 1] + [s[|s| - 1]];
  }

  /** In a strictly sorted list, the last entry is the only one with its order. */
  lemma OnlyEntryWithOrder(u: seq<SectionState>, x: SectionState)
    requires StrictlySorted(u) && x in u && u != [] && x.order == u[|u| - 1].order
    ensures x == u[|u| - 1]
  {
    var p :| 0 <= p < |u| && u[p] == x;
    if p < |u| - 1 {
      assert u[p].order < u[|u| - 1].order;
    }
  }

  /**
   * The in-place sort of `mergedSections.sort(...)`: an insertion sort on the
   * array, proved to leave the array holding `SortByOrder` of its old contents.
   */
  method SortInPlace(a: array<SectionState>)
    modifies a
    ensures a[..] == SortByOrder(old(a[..]))
  {
    ghost var input := a[..];
    var i := 0;
    while i < a.Length
      invariant 0 <= i <= a.Length
      invariant a[..i] == SortByOrder(input[..i])
      invariant a[i..] == input[i..]
    {
      ghost var before := a[..];
      assert before[..i] == SortByOrder(input[..i]);
      assert before[i] == input[i];
      InsertInPlace(a, i);
      assert a[..i + 1] == Insert(SortByOrder(input[..i]), input[i]);
      SortByOrderSnoc(input[..i], input[i]);
      assert input[..i] + [input[i]] == input[..i + 1];
      assert a[i + 1..] == input[i + 1..];
      i := i + 1;
    }
    assert input[..a.Length] == input;
    assert a[..a.Length] == a[..];
  }

  /** Moves `a[i]` left into the sorted prefix `a[..i]`, as `Insert` does. */
  method InsertInPlace(a: array<SectionState>, i: nat)
    requires i < a.Length
    modifies a
    ensures a[..i + 1] == Insert(old(a[..i]), old(a[i]))
    ensures a[i + 1..] == old(a[i + 1..])
  {
    ghost var before := a[..];
    ghost var done := a[..i];
    var x := a[i];
    var j := i;
    while j > 0 && a[j - 1].order > x.order
      invariant 0 <= j <= i
      invariant forall k :: 0 <= k < j ==> a[k] == done[k]
      invariant forall k :: j < k <= i ==> a[k] == done[k - 1]
      invariant forall k :: i < k < a.Length ==> a[k] == before[k]
      invariant forall k :: j <= k < i ==> done[k].order > x.order
    {
      a[j] := a[j - 1];
      j := j - 1;
    }
    a[j] := x;
    InsertLandsAt(done, x, j);
    ShiftedLayout(a[..], before, x, i, j);
  }

  /**
   * The array after `InsertInPlace`'s loop, as a list: `x` at `j`, the
   * prefix before it, the rest of the prefix one slot up, and the tail as it was.
   */
  lemma ShiftedLayout(cur: seq<SectionState>, before: seq<SectionState>, x: SectionState, i: nat, j: nat)
    requires |cur| == |before| && j <= i < |cur| && cur[j] == x
    requires forall k :: 0 <= k < j ==> cur[k] == before[k]
    requires forall k :: j < k <= i ==> cur[k] == before[k - 1]
    requires forall k :: i < k < |cur| ==> cur[k] == before[k]
    ensures cur[..i + 1] == before[..i][..j] + [x] + before[..i][j..]
    ensures cur[i + 1..] == before[i + 1..]
  {
    var done := before[..i];
    var result := done[..j] + [x] + done[j..];
    forall k | 0 <= k <= i ensures cur[k] == result[k] {
      if k < j {
        assert result[k] == done[k];
      } else if j < k {
        assert result[k] == done[k - 1];
      }
    }
  }

  /**
   * `Insert` places `x` right after the last entry whose order is at most
   * `x.order`, when every later entry has a larger order.
   */
  lemma {:induction false} InsertLandsAt(s: seq<SectionState>, x: SectionState, j: nat)
    requires j <= |s| && (j == 0 || s[j - 1].order <= x.order)
    requires forall k :: j <= k < |s| ==> s[k].order > x.order
    ensures Insert(s, x) == s[..j] + [x] + s[j..]
    decreases |s|
  {
    if |s| > j {
      var init, last := s[..|s| - 1], s[|s| - 1];
      assert last.order > x.order;
      assert Insert(s, x) == Insert(init, x) + [last];
      assert j == 0 || init[j - 1] == s[j - 1];
      forall k | j <= k < |init| ensures init[k].order > x.order {
        assert init[k] == s[k];
      }
      InsertLandsAt(init, x, j);
      assert init[..j] == s[..j];
      assert s[j..] == init[j..] + [last];
    } else {
      assert s[..j] == s && s[j..] == [];
    }
  }
}
