/**
 * The section registry of config/sections.ts: the canonical, ordered catalogue
 * of page sections and the display-name lookup built on it.
 */
module Registry {
  import opened Wrappers

  /** One registry entry (`SectionConfig` in the source's types). */
  datatype SectionConfig = SectionConfig(
    id: string,
    translationKey: string,
    defaultEnabled: bool,
    defaultOrder: int)

  /** `sectionRegistry`: the seven sections of the page, in registry order. */
  const SectionRegistry: seq<SectionConfig> := [
    SectionConfig("hero", "hero", true, 0),
    SectionConfig("menu", "menu", true, 1),
    SectionConfig("about", "about", true, 2),
    SectionConfig("events", "events", true, 3),
    SectionConfig("testimonials", "testimonials", true, 4),
    SectionConfig("reservations", "reservations", true, 5),
    SectionConfig("contact", "contact", true, 6)
  ]

  /** The ids of a registry, in registry order. */
  function RegistryIds(reg: seq<SectionConfig>): seq<string>
  {
    seq(|reg|, i requires 0 <= i < |reg| => reg[i].id)
  }

  /**
   * No id is declared twice. Written over the descriptors directly; it means
   * `NoDup(RegistryIds(reg))`, as `DistinctIdsIsNoDup` shows.
   */
  ghost predicate DistinctIds(reg: seq<SectionConfig>)
  {
    forall i, j :: 0 <= i < j < |reg| ==> reg[i].id != reg[j].id
  }

  lemma DistinctIdsIsNoDup(reg: seq<SectionConfig>)
    ensures DistinctIds(reg) <==> NoDup(RegistryIds(reg))
  {
    var ids := RegistryIds(reg);
    assert forall i :: 0 <= i < |reg| ==> ids[i] == reg[i].id;
  }

  /** `reg.find((s) => s.id === id)`: the first entry with that id, if any. */
  function FindDescriptor(reg: seq<SectionConfig>, id: string): (r: Option<SectionConfig>)
    ensures r.None? <==> forall i :: 0 <= i < |reg| ==> reg[i].id != id
    ensures r.Some? ==> exists i :: 0 <= i < |reg| && reg[i] == r.value && r.value.id == id &&
                                    forall j :: 0 <= j < i ==> reg[j].id != id
  {
    if reg == [] then None
    else if reg[0].id == id then Some(reg[0])
    else
      var r := FindDescriptor(reg[1..], id);
      assert r.Some? ==> exists i :: 0 <= i < |reg[1..]| && reg[1..][i] == r.value && r.value.id == id &&
                                     forall j :: 0 <= j < i ==> reg[1..][j].id != id;
      assert r.Some? ==> exists i :: 0 < i < |reg| && reg[i] == r.value && r.value.id == id &&
                                     forall j :: 0 < j < i ==> reg[j].id != id;
      r
  }

  /**
   * `getSectionDisplayName` over registry `reg`: the translation key of the
   * first entry with that id, falling back to the id itself when there is no
   * such entry or its key is empty (`||`).
   */
  function DisplayNameIn(reg: seq<SectionConfig>, id: string): (r: string)
    ensures (forall i :: 0 <= i < |reg| ==> reg[i].id != id) ==> r == id
    ensures forall i :: 0 <= i < |reg| && reg[i].id == id && (forall j :: 0 <= j < i ==> reg[j].id != id) ==>
                          r == if reg[i].translationKey != "" then reg[i].translationKey else id
  {
    var found := FindDescriptor(reg, id);
    if found.Some? && found.value.translationKey != "" then found.value.translationKey else id
  }

  /**
   * `getSectionDisplayName(id)`. Every key of the current registry equals its
   * id, so the lookup is the identity on every input.
   */
  function GetSectionDisplayName(id: string): (r: string)
    ensures r == id
  {
    RegistryKeyIsId();
    DisplayNameIn(SectionRegistry, id)
  }

  lemma RegistryIdsAreTheSeven()
    ensures RegistryIds(SectionRegistry) ==
            ["hero", "menu", "about", "events", "testimonials", "reservations", "contact"]
  {
  }

  lemma RegistryIdsDistinct()
    ensures DistinctIds(SectionRegistry)
  {
  }

  /** The i-th entry's default order is i, so registry order and default order agree. */
  lemma RegistryOrderIsIndex()
    ensures forall i :: 0 <= i < |SectionRegistry| ==> SectionRegistry[i].defaultOrder == i
  {
  }

  /** Ids are distinct and default orders increase along the registry. */
  ghost predicate WellFormedRegistry(reg: seq<SectionConfig>)
  {
    && DistinctIds(reg)
    && forall i, j :: 0 <= i < j < |reg| ==> reg[i].defaultOrder < reg[j].defaultOrder
  }

  lemma SectionRegistryWellFormed()
    ensures WellFormedRegistry(SectionRegistry)
  {
    RegistryIdsDistinct();
    RegistryOrderIsIndex();
  }

  lemma RegistryAllEnabledByDefault()
    ensures forall i :: 0 <= i < |SectionRegistry| ==> SectionRegistry[i].defaultEnabled
  {
  }

  lemma RegistryKeyIsId()
    ensures forall c :: c in SectionRegistry ==> c.translationKey == c.id && c.translationKey != ""
  {
  }
}
