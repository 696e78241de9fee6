/**
 * The load path of context/section-config-context.tsx: the default list built
 * from the registry (`getDefaultSections`) and the merge of a stored list
 * against the registry, followed by the sort by order.
 */
module Reconcile {
  import opened Wrappers
  import opened Registry
  import opened Sections

  /** The entry a descriptor starts with: its id, default flag and default order. */
  function DefaultEntry(c: SectionConfig): SectionState
  {
    SectionState(c.id, c.defaultEnabled, c.defaultOrder)
  }

  /** `getDefaultSections`: one entry per descriptor, in registry order. */
  function DefaultSections(reg: seq<SectionConfig>): (r: seq<SectionState>)
    ensures Ids(r) == RegistryIds(reg)
    ensures forall i :: 0 <= i < |reg| ==> r[i].enabled == reg[i].defaultEnabled && r[i].order == reg[i].defaultOrder
  {
    seq(|reg|, i requires 0 <= i < |reg| => DefaultEntry(reg[i]))
  }

  /** `parsed.find((s) => s.id === id)`: the first stored entry with that id, if any. */
  function FindById(s: seq<SectionState>, id: string): (r: Option<SectionState>)
    ensures r.None? <==> forall i :: 0 <= i < |s| ==> s[i].id != id
    ensures r.Some? ==> exists i :: 0 <= i < |s| && s[i] == r.value && r.value.id == id &&
                                    forall j :: 0 <= j < i ==> s[j].id != id
  {
    if s == [] then None
    else if s[0].id == id then Some(s[0])
    else
      var r := FindById(s[1..], id);
      assert r.Some? ==> exists i :: 0 < i < |s| && s[i] == r.value && r.value.id == id &&
                                     forall j :: 0 < j < i ==> s[j].id != id by {
        if r.Some? {
          var i :| 0 <= i < |s[1..]| && s[1..][i] == r.value && r.value.id == id &&
                   forall j :: 0 <= j < i ==> s[1..][j].id != id;
          assert s[i + 1] == r.value;
          assert forall j :: 0 < j < i + 1 ==> s[j].id != id by {
            forall j | 0 < j < i + 1 ensures s[j].id != id {
              assert s[j] == s[1..][j - 1];
            }
          }
        }
      }
      r
  }

  /**
   * The `sectionRegistry.map(...)` step of the load effect: for each
   * descriptor, the first stored entry with its id, adopted whole, or else the
   * descriptor's defaults. Entries of unknown ids are never looked at.
   */
  function MergeEntries(reg: seq<SectionConfig>, parsed: seq<SectionState>): (r: seq<SectionState>)
    ensures |r| == |reg|
    ensures Ids(r) == RegistryIds(reg)
    ensures forall i :: 0 <= i < |reg| ==> r[i] in parsed || r[i] == DefaultEntry(reg[i])
  {
    seq(|reg|, i requires 0 <= i < |reg| =>
      match FindById(parsed, reg[i].id)
      case Some(e) => e
      case None => DefaultEntry(reg[i]))
  }

  /** The whole merge: `MergeEntries`, then the in-place stable sort by order. */
  function Reconciled(reg: seq<SectionConfig>, parsed: seq<SectionState>): (r: seq<SectionState>)
    ensures |r| == |reg|
    ensures StableSortOf(r, MergeEntries(reg, parsed))
  {
    SortByOrderIsStable(MergeEntries(reg, parsed));
    SortByOrder(MergeEntries(reg, parsed))
  }

  /**
   * The entry merged for descriptor `i` is the first stored entry with that
   * id when there is one, and the descriptor's defaults otherwise.
   */
  lemma MergeAdoptsFirstStored(reg: seq<SectionConfig>, parsed: seq<SectionState>, i: nat)
    requires i < |reg|
    ensures (forall j :: 0 <= j < |parsed| ==> parsed[j].id != reg[i].id) ==>
              MergeEntries(reg, parsed)[i] == DefaultEntry(reg[i])
    ensures (exists j :: 0 <= j < |parsed| && parsed[j].id == reg[i].id) ==>
              exists j :: 0 <= j < |parsed| && MergeEntries(reg, parsed)[i] == parsed[j] &&
                          forall k :: 0 <= k < j ==> parsed[k].id != reg[i].id
  {
  }

  /**
   * After a load, the ids are exactly the registry's ids, each as often as the
   * registry has it, and the list is sorted stably by order.
   */
  lemma ReconcileKeepsRegistryIds(reg: seq<SectionConfig>, parsed: seq<SectionState>)
    ensures multiset(Ids(Reconciled(reg, parsed))) == multiset(RegistryIds(reg))
    ensures StableSortOf(Reconciled(reg, parsed), MergeEntries(reg, parsed))
  {
    SortByOrderPermutes(MergeEntries(reg, parsed));
    SortByOrderIsStable(MergeEntries(reg, parsed));
    IdsOfPermutation(Reconciled(reg, parsed), MergeEntries(reg, parsed));
  }

  /** A stored entry whose id the registry does not know is dropped. */
  lemma ReconcileDropsUnknownIds(reg: seq<SectionConfig>, parsed: seq<SectionState>, id: string)
    requires forall i :: 0 <= i < |reg| ==> reg[i].id != id
    ensures forall e :: e in Reconciled(reg, parsed) ==> e.id != id
  {
    var r := Reconciled(reg, parsed);
    ReconcileKeepsRegistryIds(reg, parsed);
    forall e | e in r ensures e.id != id {
      var k :| 0 <= k < |r| && r[k] == e;
      assert Ids(r)[k] == e.id;
      assert e.id in multiset(RegistryIds(reg));
    }
  }

  /** Reconciling an already reconciled list against the same registry changes nothing. */
  lemma ReconcileIdempotent(reg: seq<SectionConfig>, parsed: seq<SectionState>)
    requires DistinctIds(reg)
    ensures Reconciled(reg, Reconciled(reg, parsed)) == Reconciled(reg, parsed)
  {
    var x := MergeEntries(reg, parsed);
    var m := SortByOrder(x);
    SortByOrderPermutes(x);
    forall i | 0 <= i < |reg| ensures MergeEntries(reg, m)[i] == x[i] {
      FindInRearrangedMerge(reg, x, m, i);
    }
    assert MergeEntries(reg, m) == x;
  }

  /**
   * In any rearrangement of a merged list, the first entry with a registry
   * id is the one merged for that id.
   */
  lemma FindInRearrangedMerge(reg: seq<SectionConfig>, x: seq<SectionState>, m: seq<SectionState>, i: nat)
    requires DistinctIds(reg) && Ids(x) == RegistryIds(reg)
    requires multiset(m) == multiset(x) && i < |reg|
    ensures FindById(m, reg[i].id) == Some(x[i])
  {
    assert x[i] in multiset(m);
    assert x[i].id == Ids(x)[i] == reg[i].id;
    var found := FindById(m, reg[i].id);
    var e := found.value;
    assert e in multiset(x);
    var q :| 0 <= q < |x| && x[q] == e;
    assert Ids(x)[q] == reg[q].id;
  }

  /** Taking one element out of a list takes it out of the list's multiset. */
  lemma RemoveOne<T>(t: seq<T>, p: nat)
    requires p < |t|
    ensures multiset(t) == multiset(t[..p] + t[p + 1..]) + multiset{t[p]}
  {
    assert t == t[..p] + [t[p]] + t[p + 1..];
  }

  lemma IdsRemoveOne(t: seq<SectionState>, p: nat)
    requires p < |t|
    ensures Ids(t[..p] + t[p + 1..]) == Ids(t)[..p] + Ids(t)[p + 1..]
  {
  }

  /** Entries that are a rearrangement of each other have ids that are too. */
  lemma {:induction false} IdsOfPermutation(s: seq<SectionState>, t: seq<SectionState>)
    requires multiset(s) == multiset(t)
    ensures multiset(Ids(s)) == multiset(Ids(t))
    decreases |s|
  {
    if s == [] {
      assert |t| == |multiset(t)| == 0;
    } else {
      var x := s[|s| - 1];
      assert x in multiset(t);
      var p :| 0 <= p < |t| && t[p] == x;
      var init, rest := s[..|s| - 1], t[..p] + t[p + 1..];
      DropAt(s, |s| - 1);
      DropAt(t, p);
      assert s[..|s| - 1] + s[|s|..] == init;
      Cancel(multiset(init), multiset(rest), x);
      IdsOfPermutation(init, rest);
    }
  }

  lemma Cancel<T>(a: multiset<T>, b: multiset<T>, x: T)
    requires a + multiset{x} == b + multiset{x}
    ensures a == b
  {
    assert a == (a + multiset{x}) - multiset{x};
    assert b == (b + multiset{x}) - multiset{x};
  }

  /** Taking out the entry at `p` takes it out of the entries and its id out of the ids. */
  lemma DropAt(t: seq<SectionState>, p: nat)
    requires p < |t|
    ensures multiset(t) == multiset(t[..p] + t[p + 1..]) + multiset{t[p]}
    ensures multiset(Ids(t)) == multiset(Ids(t[..p] + t[p + 1..])) + multiset{t[p].id}
  {
    RemoveOne(t, p);
    IdsRemoveOne(t, p);
    RemoveOne(Ids(t), p);
  }

  /** In a list without duplicates, every value occurs at most once. */
  lemma {:induction false} NoDupCountsOnce<T>(q: seq<T>, v: T)
    requires NoDup(q)
    ensures multiset(q)[v] <= 1
  {
    if q != [] {
      var init, last := q[..|q| - 1], q[|q| - 1];
      assert q == init + [last];
      NoDupCountsOnce(init, v);
      if last == v {
        assert v !in init;
      }
    }
  }

  /** A rearrangement of a list without duplicates has none either. */
  lemma NoDupOfPermutation<T>(q: seq<T>, r: seq<T>)
    requires multiset(q) == multiset(r) && NoDup(r)
    ensures NoDup(q)
  {
    forall i, j | 0 <= i < j < |q| ensures q[i] != q[j] {
      if q[i] == q[j] {
        assert q == q[..i] + [q[i]] + q[i + 1..j] + [q[j]] + q[j + 1..];
        assert multiset(q)[q[i]] >= 2;
        NoDupCountsOnce(r, q[i]);
      }
    }
  }

  /** Two lists without duplicates and with the same members are rearrangements of each other. */
  lemma SameMembersNoDup<T>(q: seq<T>, r: seq<T>)
    requires NoDup(q) && NoDup(r)
    requires forall v :: v in q <==> v in r
    ensures multiset(q) == multiset(r)
  {
    forall v ensures multiset(q)[v] == multiset(r)[v] {
      NoDupCountsOnce(q, v);
      NoDupCountsOnce(r, v);
      if v in q {
        assert v in multiset(q) && v in multiset(r);
      } else {
        assert v !in multiset(q) && v !in multiset(r);
      }
    }
  }

  /** A merged entry is a stored one when every registry id is stored. */
  lemma MergedComesFromStore(reg: seq<SectionConfig>, x: seq<SectionState>, v: SectionState)
    requires multiset(Ids(x)) == multiset(RegistryIds(reg))
    requires v in MergeEntries(reg, x)
    ensures v in x
  {
    var m, ids := MergeEntries(reg, x), RegistryIds(reg);
    var i :| 0 <= i < |m| && m[i] == v;
    assert ids[i] == reg[i].id && ids[i] in multiset(ids);
    var k :| 0 <= k < |x| && Ids(x)[k] == reg[i].id;
    assert FindById(x, reg[i].id).Some?;
  }

  /** A stored entry is merged when stored ids are distinct and all known to the registry. */
  lemma StoredIsMerged(reg: seq<SectionConfig>, x: seq<SectionState>, v: SectionState)
    requires multiset(Ids(x)) == multiset(RegistryIds(reg))
    requires NoDup(Ids(x))
    requires v in x
    ensures v in MergeEntries(reg, x)
  {
    var m, ids := MergeEntries(reg, x), RegistryIds(reg);
    var k :| 0 <= k < |x| && x[k] == v;
    assert Ids(x)[k] in multiset(ids);
    var i :| 0 <= i < |ids| && ids[i] == v.id;
    var found := FindById(x, reg[i].id);
    var q :| 0 <= q < |x| && x[q] == found.value;
    assert Ids(x)[q] == Ids(x)[k];
    assert m[i] == v;
  }

  /**
   * When the stored list holds each registry id exactly once, merging only
   * rearranges it.
   */
  lemma MergeOfCompleteStorePermutes(reg: seq<SectionConfig>, x: seq<SectionState>)
    requires DistinctIds(reg)
    requires multiset(Ids(x)) == multiset(RegistryIds(reg))
    ensures multiset(MergeEntries(reg, x)) == multiset(x)
  {
    var ids, m := RegistryIds(reg), MergeEntries(reg, x);
    DistinctIdsIsNoDup(reg);
    NoDupOfPermutation(Ids(x), ids);
    forall v ensures v in m <==> v in x {
      if v in m {
        MergedComesFromStore(reg, x, v);
      }
      if v in x {
        StoredIsMerged(reg, x, v);
      }
    }
    assert NoDup(m) by {
      forall i, j | 0 <= i < j < |m| ensures m[i] != m[j] {
        assert Ids(m)[i] != Ids(m)[j];
      }
    }
    assert NoDup(x) by {
      forall i, j | 0 <= i < j < |x| ensures x[i] != x[j] {
        assert Ids(x)[i] != Ids(x)[j];
      }
    }
    SameMembersNoDup(m, x);
  }

  /**
   * A list holding each registry id once and strictly sorted by order is
   * what reconciling it against the registry gives back: storing it and
   * loading it again restores it exactly.
   */
  lemma StrictlySortedIsReconciled(reg: seq<SectionConfig>, x: seq<SectionState>)
    requires DistinctIds(reg)
    requires multiset(Ids(x)) == multiset(RegistryIds(reg))
    requires StrictlySorted(x)
    ensures Reconciled(reg, x) == x
  {
    var m := MergeEntries(reg, x);
    MergeOfCompleteStorePermutes(reg, x);
    SortByOrderPermutes(m);
    SortByOrderIsStable(m);
    StrictlySortedPermutationIsEqual(SortByOrder(m), x);
  }

  /** The default list reconciles to itself when its orders strictly increase. */
  lemma DefaultsAreReconciled(reg: seq<SectionConfig>)
    requires DistinctIds(reg)
    requires forall i, j :: 0 <= i < j < |reg| ==> reg[i].defaultOrder < reg[j].defaultOrder
    ensures Reconciled(reg, DefaultSections(reg)) == DefaultSections(reg)
  {
    assert Ids(DefaultSections(reg)) == RegistryIds(reg);
    StrictlySortedIsReconciled(reg, DefaultSections(reg));
  }

  /**
   * An empty stored list reconciles to the defaults when the registry's
   * default orders are sorted: every descriptor falls back to its defaults.
   */
  lemma EmptyStoreGivesDefaults(reg: seq<SectionConfig>)
    requires forall i, j :: 0 <= i < j < |reg| ==> reg[i].defaultOrder <= reg[j].defaultOrder
    ensures Reconciled(reg, []) == DefaultSections(reg)
  {
    assert MergeEntries(reg, []) == DefaultSections(reg);
    SortSortedIsIdentity(DefaultSections(reg));
  }
}
