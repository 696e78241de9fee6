/**
 * `SectionConfigProvider` of context/section-config-context.tsx as an object:
 * the `sections` list, the `isHydrated` flag, and the browser storage slot
 * under the site's storage key. The load effect, the save effect and the
 * three update callbacks are its methods; `getEnabledSections` is a function
 * of its state.
 */
module SectionStore {
  import opened Wrappers
  import opened Registry
  import opened Sections
  import opened Reconcile
  import opened SectionOps

  /**
   * A list the store can hold for registry `reg`: every registry id exactly
   * once, and already what loading it back would give, so that writing it
   * to storage loses nothing.
   */
  ghost predicate Settled(reg: seq<SectionConfig>, s: seq<SectionState>)
  {
    && multiset(Ids(s)) == multiset(RegistryIds(reg))
    && Reconciled(reg, s) == s
  }

  /** The defaults of a well-formed registry are settled. */
  lemma DefaultsSettled(reg: seq<SectionConfig>)
    requires WellFormedRegistry(reg)
    ensures Settled(reg, DefaultSections(reg))
  {
    assert Ids(DefaultSections(reg)) == RegistryIds(reg);
    DefaultsAreReconciled(reg);
  }

  /** Whatever was stored, the reconciled list is settled. */
  lemma ReconciledSettled(reg: seq<SectionConfig>, parsed: seq<SectionState>)
    requires DistinctIds(reg)
    ensures Settled(reg, Reconciled(reg, parsed))
  {
    ReconcileKeepsRegistryIds(reg, parsed);
    ReconcileIdempotent(reg, parsed);
  }

  /** Toggling keeps a list settled. */
  lemma ToggledSettled(reg: seq<SectionConfig>, s: seq<SectionState>, id: string)
    requires Settled(reg, s)
    ensures Settled(reg, Toggle(s, id))
  {
    ToggleKeepsReconciled(reg, s, id);
  }

  /** Reordering keeps a list settled. */
  lemma ReorderedSettled(reg: seq<SectionConfig>, s: seq<SectionState>, activeId: string, overId: string)
    requires DistinctIds(reg)
    requires Settled(reg, s)
    ensures Settled(reg, Reordered(s, activeId, overId))
  {
    ReorderedKeepsIds(s, activeId, overId);
    ReorderedKeepsReconciled(reg, s, activeId, overId);
  }

  /** The two outcomes of `Reordered`, by whether both ids were found. */
  lemma ReorderedOutcome(s: seq<SectionState>, activeId: string, overId: string)
    ensures IndexOfId(s, activeId) == -1 || IndexOfId(s, overId) == -1 ==> Reordered(s, activeId, overId) == s
    ensures IndexOfId(s, activeId) != -1 && IndexOfId(s, overId) != -1 ==>
              Reordered(s, activeId, overId) == Renumber(Move(s, IndexOfId(s, activeId), IndexOfId(s, overId)))
  {
  }

  /** The renumbered moved copy is the reorder's result, and it is settled. */
  lemma RenumberedMoveSettled(reg: seq<SectionConfig>, s: seq<SectionState>, activeId: string, overId: string,
                              moved: seq<SectionState>)
    requires DistinctIds(reg) && Settled(reg, s)
    requires IndexOfId(s, activeId) != -1 && IndexOfId(s, overId) != -1
    requires moved == Move(s, IndexOfId(s, activeId), IndexOfId(s, overId))
    ensures Renumber(moved) == Reordered(s, activeId, overId)
    ensures Settled(reg, Renumber(moved))
  {
    ReorderedSettled(reg, s, activeId, overId);
  }

  /** `[...s]`: a fresh array holding a copy of the list. */
  method CopyToArray(s: seq<SectionState>) returns (a: array<SectionState>)
    ensures fresh(a) && a[..] == s
  {
    a := new SectionState[|s|](i requires 0 <= i < |s| => s[i]);
  }

  /**
   * `const newSections = [...prev]` and the two `splice` calls: the entry at
   * `from` moved to index `to` of a copy, the list itself untouched.
   */
  method SpliceCopy(s: seq<SectionState>, from: nat, to: nat) returns (r: seq<SectionState>)
    requires from < |s| && to < |s|
    ensures r == Move(s, from, to)
  {
    var a := CopyToArray(s);
    MoveInPlace(a, from, to);
    r := a[..];
  }

  /**
   * The updater `reorderSections` hands to `setSections`: whether the list
   * changes (both ids found) and, if it does, the renumbered moved copy.
   */
  method ReorderUpdate(reg: seq<SectionConfig>, prev: seq<SectionState>, activeId: string, overId: string)
    returns (changed: bool, next: seq<SectionState>)
    requires DistinctIds(reg) && Settled(reg, prev)
    ensures changed == (IndexOfId(prev, activeId) != -1 && IndexOfId(prev, overId) != -1)
    ensures next == Reordered(prev, activeId, overId) && Settled(reg, next)
  {
    var oldIndex := IndexOfId(prev, activeId);
    var newIndex := IndexOfId(prev, overId);
    ReorderedOutcome(prev, activeId, overId);
    if oldIndex == -1 || newIndex == -1 {
      return false, prev;
    }
    var moved := SpliceCopy(prev, oldIndex, newIndex);
    RenumberedMoveSettled(reg, prev, activeId, overId, moved);
    return true, Renumber(moved);
  }

  class SectionConfigStore {
    /** The registry the provider reconciles against (`sectionRegistry`). */
    const registry: seq<SectionConfig>
    var sections: seq<SectionState>
    var hydrated: bool
    /**
     * The storage slot as the load effect sees it: `None` when the key is
     * absent or empty, its text does not parse, or it is not a list.
     */
    var stored: Option<seq<SectionState>>

    /**
     * Every registry id appears exactly once, and the list is what loading it
     * back would give: writing it to storage loses nothing.
     */
    ghost predicate Valid()
      reads this
    {
      && WellFormedRegistry(registry)
      && Settled(registry, sections)
    }

    /** `useState(getDefaultSections)` and `useState(false)`, over the storage as found. */
    constructor (initial: Option<seq<SectionState>>)
      ensures Valid()
      ensures registry == SectionRegistry
      ensures sections == DefaultSections(SectionRegistry) && !hydrated && stored == initial
    {
      registry := SectionRegistry;
      sections := DefaultSections(SectionRegistry);
      hydrated := false;
      stored := initial;
      new;
      SectionRegistryWellFormed();
      DefaultsSettled(registry);
    }

    /**
     * The save effect: once hydrated, write the whole list; a write that fails
     * (`writeOk` false) is swallowed and leaves the slot as it was.
     */
    method SaveEffect(writeOk: bool)
      modifies this`stored
      ensures stored == if hydrated && writeOk then Some(sections) else old(stored)
    {
      if hydrated && writeOk {
        stored := Some(sections);
      }
    }

    /**
     * The load effect on mount: a parsed list is merged against the registry
     * and sorted in place; otherwise the defaults stay. Hydration then turns
     * on, and the save effect runs because the flag changed.
     */
    method Load(writeOk: bool)
      requires Valid()
      modifies this
      ensures Valid() && hydrated
      ensures sections == match old(stored)
                          case None => old(sections)
                          case Some(parsed) => Reconciled(registry, parsed)
      ensures stored == if writeOk then Some(sections) else old(stored)
    {
      match stored {
        case None =>
        case Some(parsed) =>
          var merged := MergeEntries(registry, parsed);
          var a := CopyToArray(merged);
          SortInPlace(a);
          sections := a[..];
          ReconciledSettled(registry, parsed);
      }
      hydrated := true;
      SaveEffect(writeOk);
    }

    /** `toggleSection(id)`, then the save effect. */
    method ToggleSection(id: string, writeOk: bool)
      requires Valid()
      modifies this
      ensures Valid() && hydrated == old(hydrated)
      ensures sections == Toggle(old(sections), id)
      ensures stored == if hydrated && writeOk then Some(sections) else old(stored)
    {
      ToggledSettled(registry, sections, id);
      sections := Toggle(sections, id);
      SaveEffect(writeOk);
    }

    /**
     * `reorderSections(activeId, overId)`. With either id missing the updater
     * hands back the same list, so nothing re-renders and nothing is written;
     * otherwise the moved copy, renumbered, becomes the list and is saved.
     */
    method ReorderSections(activeId: string, overId: string, writeOk: bool)
      requires Valid()
      modifies this
      ensures Valid() && hydrated == old(hydrated)
      ensures sections == Reordered(old(sections), activeId, overId)
      ensures stored == if IndexOfId(old(sections), activeId) != -1 && IndexOfId(old(sections), overId) != -1 &&
                           hydrated && writeOk
                        then Some(sections) else old(stored)
    {
      var changed, next := ReorderUpdate(registry, sections, activeId, overId);
      sections := next;
      if changed {
        SaveEffect(writeOk);
      }
    }

    /** `resetToDefaults()`, then the save effect, which overwrites what was stored. */
    method ResetToDefaults(writeOk: bool)
      requires Valid()
      modifies this
      ensures Valid() && hydrated == old(hydrated)
      ensures sections == DefaultSections(registry)
      ensures stored == if hydrated && writeOk then Some(sections) else old(stored)
    {
      sections := DefaultSections(registry);
      DefaultsSettled(registry);
      SaveEffect(writeOk);
    }

    /**
     * `getEnabledSections()`: the enabled entries sorted by order. Since the
     * list is always sorted, this is the enabled entries in list order.
     */
    function GetEnabledSections(): (r: seq<SectionState>)
      reads this
      requires Valid()
      ensures forall e :: e in r <==> e in sections && e.enabled
      ensures r == FilterEnabled(sections)
    {
      SortByOrderIsStable(MergeEntries(registry, sections));
      EnabledViewOfSortedIsFilter(sections);
      EnabledView(sections)
    }
  }
}
