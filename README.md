# Restaurant site: section configuration and form validation

This project models two parts of a restaurant's one-page website and proves properties of them.

**The section-configuration store.** The page shows seven sections: hero, menu, about, events, testimonials, reservations and contact. A visitor can switch sections on and off and reorder them by drag and drop. The choice is kept in browser storage.

- `SectionStore.SectionConfigStore` is the provider's state: the `sections` list, the `hydrated` flag and the storage slot.
- Its methods are the provider's operations:
  - the load effect, which merges a stored list against the registry and then sorts it by `order`, in place;
  - the save effect;
  - `toggleSection`;
  - `reorderSections`, which splices on a copied array and then renumbers;
  - `resetToDefaults`;
  - `getEnabledSections`.
- The list transformations are pure functions:
  - `Reconcile` holds the defaults and the merge;
  - `Sections` holds the stable sort by order;
  - `SectionOps` holds toggle, reorder and the enabled view.
- `Registry` holds the section registry and the display-name lookup.

The class keeps an invariant, `Valid`. It says two things. First, every registry id appears exactly once. Second, the list is already what loading it back would give, so a write to storage loses nothing.

**The two form validators.** `ContactForm.ContactSection.ValidateForm` and `ReservationForm.ReservationsSection.ValidateForm` check the fields one by one. They collect a fresh error map, store it, and report whether that map is empty.

- Error messages are modelled as kinds of error (`FormChecks.ErrorKind`).
- `JsText` models the JavaScript string behaviour the checks rely on:
  - the white space that `trim` and `\s` recognise;
  - `trim`;
  - `replace(/\s/g, "")`;
  - `length` in UTF-16 code units;
  - the email and phone regular expressions. Each is given both as what the pattern means and as a positional test, with a proof that the two agree.
- The current time is a parameter, `now`.

## Model

| member | source | states |
|---|---|---|
| Reconcile.DefaultSections | context/section-config-context.tsx:16-22 | one entry per registry descriptor, in registry order, with the descriptor's id, default flag and default order |
| Reconcile.FindById | context/section-config-context.tsx:47 | `find`: `None` exactly when no stored entry has the id; otherwise the first stored entry with it |
| Reconcile.MergeEntries | context/section-config-context.tsx:46-57 | the merged list has the registry's ids in registry order; each entry is a stored one or the descriptor's defaults |
| Reconcile.Reconciled | context/section-config-context.tsx:46-59 | the loaded list has one entry per registry descriptor and is a stable sort by order of the merged list (its ids: `Reconcile.ReconcileKeepsRegistryIds`) |
| Reconcile.MergeAdoptsFirstStored | context/section-config-context.tsx:47-56 | the entry for a registry id is the first stored entry with that id if there is one, otherwise the descriptor's defaults |
| Reconcile.ReconcileKeepsRegistryIds | context/section-config-context.tsx:46-59 | after a load, the ids are exactly the registry ids, each as often as the registry has it; the list is a stable sort by order of the merged list |
| Reconcile.ReconcileDropsUnknownIds | context/section-config-context.tsx:46-57 | a stored entry whose id the registry lacks never appears in the loaded list |
| Reconcile.ReconcileIdempotent | context/section-config-context.tsx:46-59 | merging and sorting an already merged list against the same registry returns it unchanged |
| Reconcile.IdsOfPermutation | context/section-config-context.tsx:59 | rearranging entries rearranges their ids |
| Reconcile.MergeOfCompleteStorePermutes | context/section-config-context.tsx:46-57 | a stored list holding each registry id once comes out of the merge rearranged, with nothing added or lost |
| Reconcile.StrictlySortedIsReconciled | context/section-config-context.tsx:40-77 | a list holding each registry id once, with strictly increasing orders, loads back as exactly itself once saved |
| Reconcile.DefaultsAreReconciled | context/section-config-context.tsx:16-59 | with distinct ids and increasing default orders, the default list loads back as itself |
| Reconcile.EmptyStoreGivesDefaults | context/section-config-context.tsx:16-59 | a stored empty list loads as the default list when default orders are sorted |
| Sections.Insert | context/section-config-context.tsx:59 | one step of the sort adds exactly one entry |
| Sections.InsertAddsOne | context/section-config-context.tsx:59 | inserting adds the entry to the multiset and nothing else |
| Sections.InsertKeepsSorted | context/section-config-context.tsx:59 | inserting into a list sorted by order keeps it sorted |
| Sections.InsertRuns | context/section-config-context.tsx:59 | inserting appends the entry to the run of its order and leaves every other run alone |
| Sections.SortByOrder | context/section-config-context.tsx:59 | sorting keeps the length |
| Sections.SortByOrderPermutes | context/section-config-context.tsx:59 | sorting only rearranges the entries |
| Sections.SortByOrderIsStable | context/section-config-context.tsx:59 | the sort is sorted by order and keeps every run of equal orders in its original order |
| Sections.StableSortIsUnique | context/section-config-context.tsx:59 | every stable sort by order gives the same list, so the model's sort is the engine's sort |
| Sections.SortedRunsDetermine | context/section-config-context.tsx:59 | two sorted lists that agree run by run are equal |
| Sections.SortSortedIsIdentity | context/section-config-context.tsx:59 | sorting a sorted list changes nothing |
| Sections.StrictlySortedPermutationIsEqual | context/section-config-context.tsx:59 | a sorted rearrangement of a strictly sorted list is that list |
| Sections.SortInPlace | context/section-config-context.tsx:59 | the in-place sort leaves the array holding the stable sort of its old contents |
| Sections.InsertInPlace | context/section-config-context.tsx:59 | one in-place pass moves the new entry into the sorted prefix exactly as `Insert` does and leaves the rest of the array alone |
| Sections.InsertLandsAt | context/section-config-context.tsx:59 | the entry lands right after the last entry whose order is at most its own |
| SectionOps.Toggle | context/section-config-context.tsx:80-86 | toggling keeps the length, every id and every order |
| SectionOps.ToggleTwiceIsIdentity | context/section-config-context.tsx:80-86 | toggling the same id twice restores the list |
| SectionOps.ToggleAbsentIsIdentity | context/section-config-context.tsx:80-86 | toggling an id no entry has leaves the list equal |
| SectionOps.ToggleFlipsExactlyOne | context/section-config-context.tsx:80-86 | with distinct ids, toggling flips the flag of the one matching entry and changes nothing else |
| SectionOps.SortCommutesWithToggle | context/section-config-context.tsx:80-86 | sorting then toggling equals toggling then sorting |
| SectionOps.ToggleKeepsReconciled | context/section-config-context.tsx:80-86 | a toggled list that was saved loads back as exactly the toggled list |
| SectionOps.IndexOfId | context/section-config-context.tsx:91-92 | `findIndex`: -1 exactly when the id is absent; otherwise the first index holding it |
| SectionOps.Move | context/section-config-context.tsx:96-98 | the two splices keep the length |
| SectionOps.MoveShifts | context/section-config-context.tsx:96-98 | the moved entry lands at the target index; entries between the two indices shift one slot toward the old index; the rest stay |
| SectionOps.MovePermutes | context/section-config-context.tsx:96-98 | moving only rearranges the entries |
| SectionOps.MoveThenRemove | context/section-config-context.tsx:96-98 | removing the moved entry from its new place gives the list with it removed from its old place |
| SectionOps.MoveInPlace | context/section-config-context.tsx:96-98 | the splices on the copied array leave it holding the moved list |
| SectionOps.MoveForward | context/section-config-context.tsx:96-98 | moving toward the end, in place, gives the moved list |
| SectionOps.MoveBackward | context/section-config-context.tsx:96-98 | moving toward the front, in place, gives the moved list |
| SectionOps.Renumber | context/section-config-context.tsx:101-104 | renumbering keeps the ids in place and makes the orders strictly increasing |
| SectionOps.ReorderedAbsentIsIdentity | context/section-config-context.tsx:94 | with either id missing, the list comes back unchanged, orders included |
| SectionOps.ReorderedMovesEntry | context/section-config-context.tsx:89-106 | with both ids present: the moved entry, with its flag, sits at the target's old index; entries between shift by one; the rest stay; every order equals its index |
| SectionOps.Reordered | context/section-config-context.tsx:89-106 | the length never changes; with either id missing the list is returned as it was; with both present the orders strictly increase (the move itself: `SectionOps.ReorderedMovesEntry`) |
| SectionOps.ReorderedKeepsIds | context/section-config-context.tsx:89-106 | a reorder is a rearrangement of the ids |
| SectionOps.ReorderedKeepsOthersInOrder | context/section-config-context.tsx:96-98 | apart from the moved entry, the entries keep their relative order |
| SectionOps.ReorderOntoItselfRenumbers | context/section-config-context.tsx:89-106 | moving an entry onto itself is not a no-op: it renumbers every order to the entry's index |
| SectionOps.ReorderOntoItselfWhenNumbered | context/section-config-context.tsx:89-106 | when orders already equal indices, moving an entry onto itself changes nothing |
| SectionOps.ReorderedKeepsReconciled | context/section-config-context.tsx:89-106 | a reordered list that was saved loads back as exactly the reordered list |
| SectionOps.FilterEnabled | context/section-config-context.tsx:116 | the filter keeps exactly the enabled entries |
| SectionOps.FilterEnabledSingle | context/section-config-context.tsx:116 | a one-entry list passes the filter exactly when its entry is enabled |
| SectionOps.FilterEnabledConcat | context/section-config-context.tsx:116 | filtering a concatenation concatenates the filtered parts, so the enabled entries keep their order and their number of occurrences |
| SectionOps.FilterKeepsSorted | context/section-config-context.tsx:115-117 | filtering a sorted list leaves it sorted |
| SectionOps.EnabledView | context/section-config-context.tsx:114-118 | the view holds exactly the enabled entries, as a stable sort by order of the filtered list |
| SectionOps.EnabledViewOfSortedIsFilter | context/section-config-context.tsx:114-118 | on a sorted list, the view is the plain filter |
| SectionOps.AllEnabledDefaultsShown | context/section-config-context.tsx:114-118 | with every descriptor enabled by default and increasing default orders, the view of the defaults is the whole default list |
| SectionOps.DefaultViewShowsAll | config/sections.ts:4-47 | the enabled view of the current defaults shows all seven sections, in registry order |
| SectionStore.ReorderUpdate | context/section-config-context.tsx:90-105 | the reorder updater returns a changed list exactly when both ids are found; its result is the reorder, and it stays settled |
| SectionStore.SpliceCopy | context/section-config-context.tsx:96-98 | copying the list and splicing the copy gives the moved list |
| SectionStore.CopyToArray | context/section-config-context.tsx:96 | a fresh array holding the list |
| SectionStore.DefaultsSettled | context/section-config-context.tsx:16-22 | the defaults of a well-formed registry satisfy the store invariant |
| SectionStore.ReconciledSettled | context/section-config-context.tsx:46-60 | whatever was stored, the loaded list satisfies the store invariant |
| SectionStore.ToggledSettled | context/section-config-context.tsx:80-86 | toggling keeps the store invariant |
| SectionStore.ReorderedSettled | context/section-config-context.tsx:89-106 | reordering keeps the store invariant |
| SectionStore.SectionConfigStore.constructor | context/section-config-context.tsx:36-37 | the store starts with the default list, not hydrated, over the storage as found, with its invariant holding |
| SectionStore.SectionConfigStore.SaveEffect | context/section-config-context.tsx:69-77 | once hydrated, a successful write stores the whole list; before hydration, or when the write fails, storage is untouched; the list never changes |
| SectionStore.SectionConfigStore.Load | context/section-config-context.tsx:40-66 | a stored list becomes the merged and sorted list; without one the list stays as it was; the store is hydrated afterwards and the list is then written |
| SectionStore.SectionConfigStore.ToggleSection | context/section-config-context.tsx:80-86 | the list becomes the toggled list; it is written if hydrated; the invariant is kept |
| SectionStore.SectionConfigStore.ReorderSections | context/section-config-context.tsx:89-106 | the list becomes the reordered list; it is written only if both ids were found and the store is hydrated; the invariant is kept |
| SectionStore.SectionConfigStore.ResetToDefaults | context/section-config-context.tsx:109-111 | the list becomes exactly the default list and is written if hydrated; the invariant is kept |
| SectionStore.SectionConfigStore.GetEnabledSections | context/section-config-context.tsx:114-118 | the view holds exactly the enabled entries; since the list is always sorted, it is the enabled entries in list order |
| Registry.RegistryIdsAreTheSeven | config/sections.ts:4-47 | the registry ids are hero, menu, about, events, testimonials, reservations and contact, in that order |
| Registry.RegistryIdsDistinct | config/sections.ts:4-47 | no id is declared twice |
| Registry.RegistryOrderIsIndex | config/sections.ts:4-47 | the i-th descriptor's default order is i |
| Registry.RegistryAllEnabledByDefault | config/sections.ts:4-47 | every descriptor is enabled by default |
| Registry.RegistryKeyIsId | config/sections.ts:4-47 | every translation key equals its id and is non-empty |
| Registry.SectionRegistryWellFormed | config/sections.ts:4-47 | the registry has distinct ids and strictly increasing default orders |
| Registry.FindDescriptor | config/sections.ts:51 | `find`: `None` exactly when no descriptor has the id; otherwise the first descriptor with it |
| Registry.DisplayNameIn | config/sections.ts:50-53 | the first matching descriptor's translation key; the id itself when nothing matches or the key is empty |
| Registry.GetSectionDisplayName | config/sections.ts:4-53 | with the current registry the display name is the id itself, for every input |
| JsText.LeadingWs | components/sections/contact.tsx:40 | the count of leading white space is at most the length |
| JsText.LeadingWsSpan | components/sections/contact.tsx:40 | the counted prefix is all white space and the next character is not |
| JsText.TrailingWsSpan | components/sections/contact.tsx:40 | the suffix from the returned index is all white space and the character before it is not |
| JsText.TrailingWsStart | components/sections/contact.tsx:40 | the start of the trailing white space lies within the string (what precedes and follows it: `JsText.TrailingWsSpan`) |
| JsText.TrimIsMiddle | components/sections/contact.tsx:40 | `trim` keeps a middle stretch that neither starts nor ends with white space, and drops only white space |
| JsText.Trim | components/sections/contact.tsx:40 | `trim` never lengthens the text, and what it returns neither starts nor ends with white space |
| JsText.TrimEmptyIffAllWs | components/sections/contact.tsx:40 | the trimmed text is empty exactly when every character is white space |
| JsText.RemoveWs | components/sections/reservations.tsx:84 | deleting white space leaves none; the result is empty exactly when the input was all white space; it is never longer |
| JsText.RemoveWsSingle | components/sections/reservations.tsx:84 | a single character is deleted exactly when it is white space |
| JsText.RemoveWsConcat | components/sections/reservations.tsx:84 | deleting white space from a concatenation concatenates the results, so the characters that stay keep their order |
| JsText.RemoveWsKeepsPlainText | components/sections/reservations.tsx:84 | text without white space is left as it is |
| JsText.Utf16Length | components/sections/contact.tsx:56 | `length` is between the number of characters and twice that |
| JsText.Utf16LengthSingle | components/sections/contact.tsx:56 | a character beyond U+FFFF is two code units, any other one |
| JsText.Utf16LengthConcat | components/sections/contact.tsx:56 | the code units of a concatenation are those of its parts added up |
| JsText.Utf16LengthOfBmp | components/sections/contact.tsx:56 | text within the Basic Multilingual Plane has as many code units as characters |
| JsText.IndexOfChar | components/sections/contact.tsx:46 | the first index of the character, or -1 exactly when it is absent |
| JsText.MatchesEmail | components/sections/contact.tsx:46 | an accepted email has at least five characters and neither starts nor ends with white space (exact meaning: `JsText.EmailMatchIsPattern`) |
| JsText.EmailMatchIsPattern | components/sections/contact.tsx:46 | the positional email test accepts exactly the strings of the form local@host.top, each part non-empty and free of white space and `@` |
| JsText.MatchedEmailHasShape | components/sections/contact.tsx:46 | a string the email test accepts has the pattern's shape |
| JsText.ShapedEmailMatches | components/sections/contact.tsx:46 | a string of the pattern's shape passes the email test |
| JsText.EmailWithOuterWsFails | components/sections/contact.tsx:46 | a value starting or ending with white space never matches the email pattern |
| JsText.PhoneMatchIsPattern | components/sections/reservations.tsx:84 | the positional phone test accepts exactly an optional `+` followed by nine or more digits, white space or `-` |
| JsText.MatchesPhone | components/sections/reservations.tsx:84 | an accepted phone has at least nine characters, and only its first may be something other than a digit, white space or `-` (exact meaning: `JsText.PhoneMatchIsPattern`) |
| FormChecks.RequiredErrorMeaning | components/sections/contact.tsx:40-42 | a text field is flagged as required exactly when it is all white space, and otherwise passes |
| FormChecks.RequiredError | components/sections/contact.tsx:40-42 | the only error a plain text field gets is "required", and a field that passes is not blank after `trim` |
| FormChecks.EmailErrorMeaning | components/sections/contact.tsx:44-48 | a blank email is required; any other passes exactly when the untrimmed value has the email shape, and is otherwise an invalid email |
| FormChecks.EmailError | components/sections/contact.tsx:44-48 | the email field is either required or invalid; an accepted email has at least five characters and no white space at either end |
| FormChecks.CollectHoldsEachCheck | components/sections/contact.tsx:37-61 | in the collected map, a checked field is present exactly when its check failed, with that check's error |
| FormChecks.CollectHoldsOnlyChecked | components/sections/contact.tsx:37-61 | only checked fields appear in the collected map |
| FormChecks.Collect | components/sections/contact.tsx:37-61 | after `n` checks the map holds at most `n` errors |
| FormChecks.CheckRequired | components/sections/contact.tsx:40-42 | the required step records the field's required error, if any, and nothing else |
| FormChecks.CheckEmail | components/sections/contact.tsx:44-48 | the email step records the email error, if any, and nothing else |
| FormChecks.PaddedEmailIsInvalid | components/sections/contact.tsx:44-47 | a well-formed address with white space around it is an invalid email, not a missing one |
| ContactForm.MessageErrorMeaning | components/sections/contact.tsx:54-58 | a blank message is required; any other passes exactly when its trimmed length is at least ten code units, and is otherwise too short |
| ContactForm.MessageError | components/sections/contact.tsx:54-58 | the message is either required or too short; an accepted message keeps at least five characters after `trim` |
| ContactForm.ContactErrorsPerField | components/sections/contact.tsx:37-61 | each field has at most one error: it is in the map exactly when its check fails, with that check's error |
| ContactForm.ContactErrors | components/sections/contact.tsx:37-61 | the contact form reports at most four errors, one per field (which ones: `ContactForm.ContactErrorsPerField`) |
| ContactForm.NoErrorsIffEveryCheckPasses | components/sections/contact.tsx:37-61 | the map is empty exactly when all four checks pass |
| ContactForm.NoErrorsIffAcceptable | components/sections/contact.tsx:37-61 | the map is empty exactly when the name and subject are not blank, the email has the pattern's shape and the trimmed message is at least ten code units long |
| ContactForm.CheckMessage | components/sections/contact.tsx:54-58 | the message step records the message error, if any, and nothing else |
| ContactForm.ContactSection.constructor | components/sections/contact.tsx:26-33 | all four fields start empty and no errors are shown |
| ContactForm.ContactSection.ValidateForm | components/sections/contact.tsx:37-61 | the shown errors become the collected map; the answer is true exactly when the map is empty, and exactly when the form is acceptable |
| ReservationForm.DateError | components/sections/reservations.tsx:62-66 | an unset date is required; a date before now is past; otherwise no error |
| ReservationForm.TimeError | components/sections/reservations.tsx:68-70 | the time is required exactly when it is the empty string |
| ReservationForm.PhonePatternWithoutWs | components/sections/reservations.tsx:84 | on text without white space, the phone pattern means an optional `+` followed by nine or more digits or `-` |
| ReservationForm.PhoneErrorMeaning | components/sections/reservations.tsx:82-86 | a blank phone is required; any other passes exactly when, without its white space, it is an optional `+` and nine or more digits or `-`; otherwise it is invalid |
| ReservationForm.PhoneError | components/sections/reservations.tsx:82-86 | the phone is either required or invalid; an accepted phone has at least nine characters other than white space |
| ReservationForm.ReservationErrorsPerField | components/sections/reservations.tsx:59-89 | each field has at most one error: it is in the map exactly when its check fails, with that check's error |
| ReservationForm.ReservationErrors | components/sections/reservations.tsx:59-89 | the reservation form reports at most five errors, one per field (which ones: `ReservationForm.ReservationErrorsPerField`) |
| ReservationForm.NoErrorsIffEveryCheckPasses | components/sections/reservations.tsx:59-89 | the map is empty exactly when all five checks pass |
| ReservationForm.NoErrorsIffAcceptable | components/sections/reservations.tsx:59-89 | the map is empty exactly when the date is set and not before now, a time is chosen, the name is not blank, the email has the pattern's shape and the phone has the phone shape |
| ReservationForm.GuestsAndRequestsUnchecked | components/sections/reservations.tsx:59-89 | party size and special requests never change the errors |
| ReservationForm.CheckDate | components/sections/reservations.tsx:62-66 | the date step records the date error, if any, and nothing else |
| ReservationForm.CheckTime | components/sections/reservations.tsx:68-70 | the time step records the time error, if any, and nothing else |
| ReservationForm.CheckPhone | components/sections/reservations.tsx:82-86 | the phone step records the phone error, if any, and nothing else |
| ReservationForm.ReservationsSection.constructor | components/sections/reservations.tsx:45-55 | the form starts with no date, no time, two guests, empty text fields and no errors |
| ReservationForm.ReservationsSection.ValidateForm | components/sections/reservations.tsx:59-90 | the shown errors become the collected map; the answer is true exactly when the map is empty, and exactly when the booking is acceptable at `now` |

## Left out

- Rendering is not modelled: JSX, styling, icons, animations and the translation library. An error is its kind, not its translated message.
- Browser storage and `JSON.parse` are not modelled. The stored value is an `Option` of a list. `None` stands for an absent or empty key, reading storage throwing, text that does not parse, a parsed value that is not a list, and a list holding `null` ahead of the first match for some registry id. In the last two cases `find` throws, and in all the throwing cases the `catch` keeps the list as it was. Other non-objects in a stored list are skipped by `find`, since reading `.id` of them gives `undefined`; the model's stored entries are always objects, so those are not modelled. A write either succeeds or fails, chosen by a parameter. Console logging is dropped.
- Stored entries are assumed well typed. The source adopts a stored entry whole, without checking its fields. The model's entries always have a boolean `enabled` and an integer `order`, so sorting on a `NaN` order is not modelled.
- React scheduling is not modelled: effects, `useCallback`, context and re-renders. Each callback runs to completion. The save effect runs as its last step, and only when the list or the hydration flag was replaced by a new value. `useSectionConfig` throwing outside a provider is framework plumbing and is not modelled.
- The drag-and-drop gesture and the configuration panel are not modelled. The panel only supplies the two ids, and it already skips dropping an entry onto itself.
- The navigation links built from the enabled view in the navbar and footer are not modelled.
- Each form's submit handler is not modelled: timers, toasts and the simulated request.
- Dates are millisecond time stamps, and the current time is the parameter `now`. An invalid `Date`, whose comparison with now is always false, is not modelled.
- The JavaScript engine's own sort is not modelled. The model sorts with a stable insertion sort. `Sections.StableSortIsUnique` shows that any stable sort by order gives the same result.
- Reordering an entry onto itself is not a no-op: the code renumbers every order to its index (`SectionOps.ReorderOntoItselfRenumbers`). It is a no-op only when the orders already equal the indices (`SectionOps.ReorderOntoItselfWhenNumbered`). A list loaded from storage with gaps in its orders is renumbered.
- SectionOps.ToggleFlipsExactlyOne: assumes distinct ids. The toggle flips every entry with the id, and in the store the ids are always distinct.
- `JsText.IsWs` lists the white-space characters that `trim` and `\s` recognise. Unicode normalisation and case are not modelled.
- The text is a sequence of code points, not UTF-16 code units. Only `length` needs code units, and `JsText.Utf16Length` counts them.
- Menu prices, the menu category filter, and the other sections' content are not modelled.
