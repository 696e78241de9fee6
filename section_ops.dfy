/**
 * The state updates of context/section-config-context.tsx: `toggleSection`'s
 * `map`, `reorderSections`' updater (find both indices, splice the moved entry
 * out of a copy and back in at the target's index, renumber), and
 * `getEnabledSections`' `filter` and `sort`.
 */
module SectionOps {
  import opened Wrappers
  import opened Registry
  import opened Sections
  import opened Reconcile

  // ---------------------------------------------------------------- toggle

  /** The entry with its `enabled` flag flipped. */
  function Flip(e: SectionState): SectionState
  {
    e.(enabled := !e.enabled)
  }

  /** `toggleSection`'s updater: flip `enabled` on every entry whose id matches. */
  function Toggle(s: seq<SectionState>, id: string): (r: seq<SectionState>)
    ensures |r| == |s| && Ids(r) == Ids(s)
    ensures forall i :: 0 <= i < |s| ==> r[i].order == s[i].order
  {
    seq(|s|, i requires 0 <= i < |s| => if s[i].id == id then Flip(s[i]) else s[i])
  }

  /** Toggling the same id twice restores the list. */
  lemma ToggleTwiceIsIdentity(s: seq<SectionState>, id: string)
    ensures Toggle(Toggle(s, id), id) == s
  {
    assert forall i :: 0 <= i < |s| ==> Toggle(Toggle(s, id), id)[i] == s[i];
  }

  /** Toggling an id that no entry has leaves the list equal. */
  lemma ToggleAbsentIsIdentity(s: seq<SectionState>, id: string)
    requires forall i :: 0 <= i < |s| ==> s[i].id != id
    ensures Toggle(s, id) == s
  {
    assert forall i :: 0 <= i < |s| ==> Toggle(s, id)[i] == s[i];
  }

  /** With distinct ids, toggling changes exactly one flag of exactly one entry. */
  lemma ToggleFlipsExactlyOne(s: seq<SectionState>, id: string, p: nat)
    requires NoDup(Ids(s))
    requires p < |s| && s[p].id == id
    ensures Toggle(s, id)[p].enabled == !s[p].enabled
    ensures Toggle(s, id)[p] == s[p].(enabled := !s[p].enabled)
    ensures forall j :: 0 <= j < |s| && j != p ==> Toggle(s, id)[j] == s[j]
  {
    forall j | 0 <= j < |s| && j != p ensures Toggle(s, id)[j] == s[j] {
      assert Ids(s)[j] != Ids(s)[p];
    }
  }

  lemma {:induction false} FindByIdAfterToggle(s: seq<SectionState>, id: string, k: string)
    ensures FindById(Toggle(s, id), k) ==
            match FindById(s, k)
            case None => None
            case Some(e) => Some(if e.id == id then Flip(e) else e)
  {
    if s != [] {
      assert Toggle(s, id)[1..] == Toggle(s[1..], id);
      FindByIdAfterToggle(s[1..], id, k);
    }
  }

  lemma {:induction false} RunsAfterToggle(s: seq<SectionState>, id: string, k: int)
    ensures WithOrder(Toggle(s, id), k) == Toggle(WithOrder(s, k), id)
  {
    if s != [] {
      var init, last := s[..|s| - 1], s[|s| - 1];
      assert Toggle(s, id) == Toggle(init, id) + Toggle([last], id);
      RunsAfterToggle(init, id, k);
      WithOrderSnoc(Toggle(init, id), Toggle([last], id)[0], k);
      assert Toggle(s, id)[..|s| - 1] == Toggle(init, id);
      var w := WithOrder(init, k);
      var tail := if last.order == k then [last] else [];
      assert Toggle(w + tail, id) == Toggle(w, id) + Toggle(tail, id);
    }
  }

  /** Sorting by order and toggling commute: toggling never touches an order. */
  lemma SortCommutesWithToggle(s: seq<SectionState>, id: string)
    ensures SortByOrder(Toggle(s, id)) == Toggle(SortByOrder(s), id)
  {
    var t := Toggle(SortByOrder(s), id);
    SortByOrderIsStable(s);
    forall k ensures WithOrder(t, k) == WithOrder(Toggle(s, id), k) {
      RunsAfterToggle(SortByOrder(s), id, k);
      RunsAfterToggle(s, id, k);
    }
    StableSortIsUnique(Toggle(s, id), t);
  }

  /**
   * Toggling keeps a reconciled list reconciled: what is stored after a
   * toggle loads back as exactly the toggled list.
   */
  lemma ToggleKeepsReconciled(reg: seq<SectionConfig>, x: seq<SectionState>, id: string)
    requires multiset(Ids(x)) == multiset(RegistryIds(reg))
    requires Reconciled(reg, x) == x
    ensures Reconciled(reg, Toggle(x, id)) == Toggle(x, id)
  {
    var m := MergeEntries(reg, x);
    forall i | 0 <= i < |reg| ensures MergeEntries(reg, Toggle(x, id))[i] == Toggle(m, id)[i] {
      var ids := RegistryIds(reg);
      assert ids[i] == reg[i].id && ids[i] in multiset(ids);
      var k :| 0 <= k < |x| && Ids(x)[k] == reg[i].id;
      FindByIdAfterToggle(x, id, reg[i].id);
    }
    assert MergeEntries(reg, Toggle(x, id)) == Toggle(m, id);
    SortCommutesWithToggle(m, id);
  }

  // --------------------------------------------------------------- reorder

  /** `findIndex((s) => s.id === id)`: the first index with that id, or -1. */
  function IndexOfId(s: seq<SectionState>, id: string): (r: int)
    ensures -1 <= r < |s|
    ensures r == -1 <==> forall i :: 0 <= i < |s| ==> s[i].id != id
    ensures r >= 0 ==> s[r].id == id && forall j :: 0 <= j < r ==> s[j].id != id
  {
    if s == [] then -1
    else if s[0].id == id then 0
    else
      var r := IndexOfId(s[1..], id);
      if r == -1 then -1 else r + 1
  }

  /**
   * The two `splice` calls on the copy: take the entry at `from` out, then put
   * it back in at index `to` of the shortened list.
   */
  function Move(s: seq<SectionState>, from: nat, to: nat): (r: seq<SectionState>)
    requires from < |s| && to < |s|
    ensures |r| == |s|
  {
    var rest := s[..from] + s[from + 1..];
    rest[..to] + [s[from]] + rest[to..]
  }

  /**
   * Where each entry ends up: the moved one at `to`, the ones between the two
   * indices one slot toward `from`, the rest where they were.
   */
  lemma MoveShifts(s: seq<SectionState>, from: nat, to: nat, k: nat)
    requires from < |s| && to < |s| && k < |s|
    ensures Move(s, from, to)[k] ==
              if k == to then s[from]
              else if from <= k < to then s[k + 1]
              else if to < k <= from then s[k - 1]
              else s[k]
  {
  }

  /** Moving only rearranges the entries. */
  lemma MovePermutes(s: seq<SectionState>, from: nat, to: nat)
    requires from < |s| && to < |s|
    ensures multiset(Move(s, from, to)) == multiset(s)
  {
    var rest := s[..from] + s[from + 1..];
    assert s == s[..from] + [s[from]] + s[from + 1..];
    assert multiset(s) == multiset(rest) + multiset{s[from]};
    assert rest == rest[..to] + rest[to..];
    assert multiset(Move(s, from, to)) == multiset(rest[..to]) + multiset{s[from]} + multiset(rest[to..]);
  }

  /** Taking the moved entry out again gives the list with it taken out of its old place. */
  lemma MoveThenRemove(s: seq<SectionState>, from: nat, to: nat)
    requires from < |s| && to < |s|
    ensures var r := Move(s, from, to); r[..to] + r[to + 1..] == s[..from] + s[from + 1..]
  {
  }

  /**
   * The in-place part of `reorderSections`: on a copy of the list, shift the
   * entries between the two indices by one slot and drop the moved entry
   * into the target index.
   */
  method MoveInPlace(a: array<SectionState>, from: nat, to: nat)
    requires from < a.Length && to < a.Length
    modifies a
    ensures a[..] == Move(old(a[..]), from, to)
  {
    if from < to {
      MoveForward(a, from, to);
    } else {
      MoveBackward(a, from, to);
    }
  }

  /** Moving toward the end: the entries after `from` up to `to` shift one slot left. */
  method MoveForward(a: array<SectionState>, from: nat, to: nat)
    requires from < to < a.Length
    modifies a
    ensures a[..] == Move(old(a[..]), from, to)
  {
    ghost var s := a[..];
    var moved := a[from];
    var k := from;
    while k < to
      invariant from <= k <= to
      invariant forall m :: 0 <= m < from ==> a[m] == s[m]
      invariant forall m :: from <= m < k ==> a[m] == s[m + 1]
      invariant forall m :: k <= m < a.Length ==> a[m] == s[m]
    {
      a[k] := a[k + 1];
      k := k + 1;
    }
    a[to] := moved;
    ForwardLayout(a[..], s, from, to);
  }

  /** Moving toward the front: the entries from `to` up to `from` shift one slot right. */
  method MoveBackward(a: array<SectionState>, from: nat, to: nat)
    requires to <= from < a.Length
    modifies a
    ensures a[..] == Move(old(a[..]), from, to)
  {
    ghost var s := a[..];
    var moved := a[from];
    var k := from;
    while k > to
      invariant to <= k <= from
      invariant forall m :: 0 <= m <= k ==> a[m] == s[m]
      invariant forall m :: k < m <= from ==> a[m] == s[m - 1]
      invariant forall m :: from < m < a.Length ==> a[m] == s[m]
    {
      a[k] := a[k - 1];
      k := k - 1;
    }
    a[to] := moved;
    BackwardLayout(a[..], s, from, to);
  }

  /** The array after `MoveForward`'s loop, as a list, is the moved list. */
  lemma ForwardLayout(cur: seq<SectionState>, s: seq<SectionState>, from: nat, to: nat)
    requires |cur| == |s| && from < to < |s| && cur[to] == s[from]
    requires forall m :: 0 <= m < from ==> cur[m] == s[m]
    requires forall m :: from <= m < to ==> cur[m] == s[m + 1]
    requires forall m :: to < m < |s| ==> cur[m] == s[m]
    ensures cur == Move(s, from, to)
  {
    forall m | 0 <= m < |s| ensures cur[m] == Move(s, from, to)[m] {
      MoveShifts(s, from, to, m);
    }
  }

  /** The array after `MoveBackward`'s loop, as a list, is the moved list. */
  lemma BackwardLayout(cur: seq<SectionState>, s: seq<SectionState>, from: nat, to: nat)
    requires |cur| == |s| && to <= from < |s| && cur[to] == s[from]
    requires forall m :: 0 <= m < to ==> cur[m] == s[m]
    requires forall m :: to < m <= from ==> cur[m] == s[m - 1]
    requires forall m :: from < m < |s| ==> cur[m] == s[m]
    ensures cur == Move(s, from, to)
  {
    forall m | 0 <= m < |s| ensures cur[m] == Move(s, from, to)[m] {
      MoveShifts(s, from, to, m);
    }
  }

  /** The final `map((section, index) => ({...section, order: index}))`. */
  function Renumber(s: seq<SectionState>): (r: seq<SectionState>)
    ensures |r| == |s| && Ids(r) == Ids(s)
    ensures StrictlySorted(r)
  {
    seq(|s|, i requires 0 <= i < |s| => s[i].(order := i))
  }

  /**
   * `reorderSections(activeId, overId)`'s updater: unchanged (the very same
   * list) when either id is missing; otherwise the moved list, renumbered.
   */
  function Reordered(s: seq<SectionState>, activeId: string, overId: string): (r: seq<SectionState>)
    ensures |r| == |s|
    ensures IndexOfId(s, activeId) == -1 || IndexOfId(s, overId) == -1 ==> r == s
    ensures IndexOfId(s, activeId) != -1 && IndexOfId(s, overId) != -1 ==> StrictlySorted(r)
  {
    var oldIndex := IndexOfId(s, activeId);
    var newIndex := IndexOfId(s, overId);
    if oldIndex == -1 || newIndex == -1 then s
    else Renumber(Move(s, oldIndex, newIndex))
  }

  /** With either id missing, the reorder returns the list unchanged, orders included. */
  lemma ReorderedAbsentIsIdentity(s: seq<SectionState>, activeId: string, overId: string)
    requires (forall i :: 0 <= i < |s| ==> s[i].id != activeId) ||
             (forall i :: 0 <= i < |s| ==> s[i].id != overId)
    ensures Reordered(s, activeId, overId) == s
  {
  }

  /**
   * What a reorder with both ids present does: the entry of `activeId` lands at
   * the index `overId` had, with its flag; every entry between the two indices
   * shifts one slot toward the old index; the others stay; and every order
   * becomes the entry's index.
   */
  lemma ReorderedMovesEntry(s: seq<SectionState>, activeId: string, overId: string, k: nat)
    requires IndexOfId(s, activeId) != -1 && IndexOfId(s, overId) != -1
    requires k < |s|
    ensures var i, j, r := IndexOfId(s, activeId), IndexOfId(s, overId), Reordered(s, activeId, overId);
            && |r| == |s|
            && r[k].order == k
            && (k == j ==> r[k].id == activeId && r[k].enabled == s[i].enabled)
            && (k != j ==> r[k] == (if i <= k < j then s[k + 1]
                                    else if j < k <= i then s[k - 1]
                                    else s[k]).(order := k))
  {
    MoveShifts(s, IndexOfId(s, activeId), IndexOfId(s, overId), k);
  }

  /** A reorder keeps the ids, as a rearrangement. */
  lemma ReorderedKeepsIds(s: seq<SectionState>, activeId: string, overId: string)
    ensures multiset(Ids(Reordered(s, activeId, overId))) == multiset(Ids(s))
  {
    var i, j := IndexOfId(s, activeId), IndexOfId(s, overId);
    if i != -1 && j != -1 {
      MovePermutes(s, i, j);
      IdsOfPermutation(Move(s, i, j), s);
    }
  }

  /** Dropping the moved entry leaves the others in their old relative order. */
  lemma ReorderedKeepsOthersInOrder(s: seq<SectionState>, activeId: string, overId: string)
    requires IndexOfId(s, activeId) != -1 && IndexOfId(s, overId) != -1
    ensures var i, j, r := IndexOfId(s, activeId), IndexOfId(s, overId), Reordered(s, activeId, overId);
            var others := Ids(r)[..j] + Ids(r)[j + 1..];
            others == Ids(s)[..i] + Ids(s)[i + 1..]
  {
    var i, j := IndexOfId(s, activeId), IndexOfId(s, overId);
    var m := Move(s, i, j);
    MoveThenRemove(s, i, j);
    assert Ids(Renumber(m)) == Ids(m);
    IdsRemoveOne(m, j);
    IdsRemoveOne(s, i);
  }

  /**
   * Moving an entry onto itself is not a no-op: it renumbers every order to
   * the entry's index.
   */
  lemma ReorderOntoItselfRenumbers(s: seq<SectionState>, id: string)
    requires IndexOfId(s, id) != -1
    ensures Reordered(s, id, id) == Renumber(s)
  {
    MoveOntoItself(s, IndexOfId(s, id));
  }

  /**
   * On a list whose orders already equal the indices, as after any earlier
   * reorder or with the current registry's defaults, moving an entry onto
   * itself changes nothing.
   */
  lemma ReorderOntoItselfWhenNumbered(s: seq<SectionState>, id: string)
    requires IndexOfId(s, id) != -1
    requires forall i :: 0 <= i < |s| ==> s[i].order == i
    ensures Reordered(s, id, id) == s
  {
    ReorderOntoItselfRenumbers(s, id);
    assert forall i :: 0 <= i < |s| ==> Renumber(s)[i] == s[i];
  }

  lemma MoveOntoItself(s: seq<SectionState>, i: nat)
    requires i < |s|
    ensures Move(s, i, i) == s
  {
    forall k | 0 <= k < |s| ensures Move(s, i, i)[k] == s[k] {
      MoveShifts(s, i, i, k);
    }
  }

  /**
   * A reorder keeps a complete, reconciled list reconciled: what is stored
   * after a reorder loads back as exactly the reordered list.
   */
  lemma ReorderedKeepsReconciled(reg: seq<SectionConfig>, x: seq<SectionState>, activeId: string, overId: string)
    requires DistinctIds(reg)
    requires multiset(Ids(x)) == multiset(RegistryIds(reg))
    requires Reconciled(reg, x) == x
    ensures Reconciled(reg, Reordered(x, activeId, overId)) == Reordered(x, activeId, overId)
  {
    var i, j := IndexOfId(x, activeId), IndexOfId(x, overId);
    if i != -1 && j != -1 {
      ReorderedKeepsIds(x, activeId, overId);
      StrictlySortedIsReconciled(reg, Reordered(x, activeId, overId));
    }
  }

  // ---------------------------------------------------------- enabled view

  /** `filter((section) => section.enabled)`. */
  function FilterEnabled(s: seq<SectionState>): (r: seq<SectionState>)
    ensures forall e :: e in r <==> e in s && e.enabled
  {
    if s == [] then []
    else
      assert s == s[..|s| - 1] + [s[|s| - 1]];
      FilterEnabled(s[..|s| - 1]) + (if s[|s| - 1].enabled then [s[|s| - 1]] else [])
  }

  /** Appending one entry appends it to the filter exactly when it is enabled. */
  lemma FilterEnabledSnoc(s: seq<SectionState>, x: SectionState)
    ensures FilterEnabled(s + [x]) == FilterEnabled(s) + (if x.enabled then [x] else [])
  {
    assert (s + [x])[..|s|] == s;
  }

  /** A single entry passes the filter exactly when it is enabled. */
  lemma FilterEnabledSingle(e: SectionState)
    ensures FilterEnabled([e]) == if e.enabled then [e] else []
  {
    FilterEnabledSnoc([], e);
    assert [] + [e] == [e];
  }

  /**
   * Filtering a concatenation concatenates the filtered parts, so the enabled
   * entries keep their list order, each as often as it occurs.
   */
  lemma {:induction false} FilterEnabledConcat(a: seq<SectionState>, b: seq<SectionState>)
    ensures FilterEnabled(a + b) == FilterEnabled(a) + FilterEnabled(b)
    decreases |b|
  {
    if b == [] {
      assert a + b == a;
    } else {
      var init, last := b[..|b| - 1], b[|b| - 1];
      var kept := if last.enabled then [last] else [];
      assert b == init + [last];
      assert a + b == (a + init) + [last];
      FilterEnabledConcat(a, init);
      FilterEnabledSnoc(a + init, last);
      FilterEnabledSnoc(init, last);
      AppendAssoc(FilterEnabled(a), FilterEnabled(init), kept);
    }
  }

  /** Concatenation is associative. */
  lemma AppendAssoc<T>(x: seq<T>, y: seq<T>, z: seq<T>)
    ensures (x + y) + z == x + (y + z)
  {
  }

  /** A filter of a sorted list is sorted. */
  lemma {:induction false} FilterKeepsSorted(s: seq<SectionState>)
    requires Sorted(s)
    ensures Sorted(FilterEnabled(s))
  {
    if s != [] {
      var init, last := s[..|s| - 1], s[|s| - 1];
      FilterKeepsSorted(init);
      var f := FilterEnabled(init);
      forall k | 0 <= k < |f| ensures f[k].order <= last.order {
        assert f[k] in init;
      }
    }
  }

  /** `getEnabledSections`: the enabled entries, sorted by order (a fresh list). */
  function EnabledView(s: seq<SectionState>): (r: seq<SectionState>)
    ensures forall e :: e in r <==> e in s && e.enabled
    ensures StableSortOf(r, FilterEnabled(s))
  {
    SortByOrderPermutes(FilterEnabled(s));
    SortByOrderIsStable(FilterEnabled(s));
    assert forall e :: e in SortByOrder(FilterEnabled(s)) <==> e in multiset(FilterEnabled(s));
    SortByOrder(FilterEnabled(s))
  }

  /** On a list already sorted by order, the view is the plain filter. */
  lemma EnabledViewOfSortedIsFilter(s: seq<SectionState>)
    requires Sorted(s)
    ensures EnabledView(s) == FilterEnabled(s)
  {
    FilterKeepsSorted(s);
    SortSortedIsIdentity(FilterEnabled(s));
  }

  /** With every section enabled, as the registry has it, the view holds all seven. */
  lemma DefaultViewShowsAll()
    ensures EnabledView(DefaultSections(SectionRegistry)) == DefaultSections(SectionRegistry)
  {
    SectionRegistryWellFormed();
    RegistryAllEnabledByDefault();
    AllEnabledDefaultsShown(SectionRegistry);
  }

  /**
   * When the default orders increase and every descriptor is enabled by
   * default, the enabled view of the defaults is the whole default list.
   */
  lemma AllEnabledDefaultsShown(reg: seq<SectionConfig>)
    requires WellFormedRegistry(reg)
    requires forall i :: 0 <= i < |reg| ==> reg[i].defaultEnabled
    ensures EnabledView(DefaultSections(reg)) == DefaultSections(reg)
  {
    var d := DefaultSections(reg);
    assert Sorted(d) by {
      forall i, j | 0 <= i < j < |d| ensures d[i].order <= d[j].order {
        assert d[i].order == reg[i].defaultOrder && d[j].order == reg[j].defaultOrder;
      }
    }
    EnabledViewOfSortedIsFilter(d);
    AllEnabledFilter(d);
  }

  lemma {:induction false} AllEnabledFilter(s: seq<SectionState>)
    requires forall i :: 0 <= i < |s| ==> s[i].enabled
    ensures FilterEnabled(s) == s
  {
    if s != [] {
      AllEnabledFilter(s[..|s| - 1]);
      assert s == s[..|s| - 1] + [s[|s| - 1]];
    }
  }
}
