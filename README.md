# Master-detail editor: model and controller

This project models the model-and-controller layer of a browser master-detail
editor (`week02/master-detail/MasterDetail.js`, lines 1-68). The editor keeps a
list of person records. Each record is an *entry*, and an entry holds three
values:

- a `saved` record;
- an `edited` record;
- a derived `dirty` flag.

The model also holds a `selected` value. It is either null or a pair
`{idx, entry}`. A controller appends and deletes rows, selects a row, and
updates, saves or resets the selected entry.

Modules, leaves first:

- `Records` (`records.dfy`): a field value is `Str` or `Num`. A record is a
  `map<string, Value>`, where an absent key stands for JavaScript's
  `undefined`. `Person` is the record constructor with its three defaults.
- `Lists` (`lists.dfy`): the part of the observable list the controller
  uses. The list is a `seq`. `add` is `+ [x]`. `del` is `Remove`, which
  deletes the first occurrence and keeps the others in order. `IndexOf`
  is the first-occurrence position in whose terms `Remove`'s contract is
  stated.
- `Entries` (`entries.dfy`): the dirty condition `Differs` (some key of
  `saved` reads differently in `edited`) and the class `Entry`. Every write
  to `saved` or `edited` (`SetSaved`, `SetEdited`) is followed by
  `UpdateDirtyField`. That method is the source's loop over the keys of
  `saved` with its early exit. `Entry.Valid()` states that `dirty` equals
  `Differs(saved, edited)`, and every operation keeps it.
- `MasterDetail` (`controller.dfy`): the `Selection` value, the class `Model`
  (entry list and selection) and the class `Controller`.
  `Model.Valid()` says the entries are distinct objects and each has a
  current dirty flag. `Model.SelectionConsistent()` says the selected index
  holds the selected entry. `EditSession` is a client method. Using only the
  contracts, it walks through add, select, update, save (twice), update,
  reset, delete-other-row, and a save with no selection.

The reactive wiring is modelled directly. In the source, the only model-level
subscribers are the two dirty-recompute handlers registered on `edited` and
`saved` (lines 48-49). So each `Entry` write method ends by recomputing
`dirty`, and no subscriber lists are kept.

Three behaviours of the code are easy to misread; the model follows the code as written:

- The dirty check walks the keys of `saved`, not of `edited`. A key that only
  `edited` has never makes an entry dirty (`ExtraEditedKeyIgnored`), while a
  key of `saved` missing from `edited` always does (`MissingSavedKeyDirty`).
- When nothing is selected, `update`, `save` and `reset` dereference null and
  throw a `TypeError` before writing anything. The model returns
  `InvalidState` and changes nothing.
- `select` does not check the pair it is given. `Select` therefore accepts
  any `Selection`. It ensures the selection is consistent exactly when the
  given pair fits the list.

## Model

| member | source | states |
|---|---|---|
| `Records.Person` | week02/master-detail/MasterDetail.js:5-11 | the result has exactly the fields firstName, lastName, workload; a supplied field keeps its value; a missing one gets "Vorname", "Nachname" or 0; other fields are dropped |
| `Records.PersonOfEmpty` | week02/master-detail/MasterDetail.js:35 | `Person({})` is firstName "Vorname", lastName "Nachname", workload 0 |
| `Lists.IndexOf` | week02/master-detail/MasterDetail.js:52 | the index holds the element, and the element does not occur before it |
| `Lists.Remove` | week02/master-detail/MasterDetail.js:52 | deleting an absent element leaves the list unchanged; deleting a present one gives the list with its first occurrence cut out, the rest in order |
| `Lists.RemoveMultiset` | week02/master-detail/MasterDetail.js:52 | deleting a present element removes exactly one copy of it and nothing else |
| `Lists.RemoveDistinct` | week02/master-detail/MasterDetail.js:51-54 | on a list without duplicates, the deleted element is gone afterwards and the list stays free of duplicates |
| `Lists.AppendDistinct` | week02/master-detail/MasterDetail.js:35-36 | appending an element that is not yet in the list keeps the list free of duplicates |
| `Entries.NotDiffersSelf` | week02/master-detail/MasterDetail.js:13-19 | a record never differs from itself, so an entry whose two records are equal is clean |
| `Entries.CleanIffAgreesOnSavedKeys` | week02/master-detail/MasterDetail.js:38-46 | an entry is clean exactly when `edited`, cut down to the keys of `saved`, equals `saved` (both directions) |
| `Entries.ExtraEditedKeyIgnored` | week02/master-detail/MasterDetail.js:39-40 | for all records: giving `edited` a field that `saved` lacks leaves the dirty condition as it was (both directions) |
| `Entries.MissingSavedKeyDirty` | week02/master-detail/MasterDetail.js:39-40 | for all records: if `edited` lacks a field of `saved`, the entry is dirty |
| `Entries.Entry.constructor` | week02/master-detail/MasterDetail.js:13-19 | a new entry has saved and edited both equal to the given record, and dirty false, which agrees with the dirty condition |
| `Entries.Entry.UpdateDirtyField` | week02/master-detail/MasterDetail.js:38-46 | after the key loop, dirty is true exactly when some key of saved has a different (or missing) value in edited; only dirty is written |
| `Entries.Entry.SetSaved` | week02/master-detail/MasterDetail.js:49 | writing saved sets it, leaves edited unchanged, and leaves dirty consistent with the two records |
| `Entries.Entry.SetEdited` | week02/master-detail/MasterDetail.js:48 | writing edited sets it, leaves saved unchanged, and leaves dirty consistent with the two records |
| `MasterDetail.Model.constructor` | week02/master-detail/MasterDetail.js:21-28 | a new model has an empty entry list and selection null |
| `MasterDetail.Controller.constructor` | week02/master-detail/MasterDetail.js:32 | the controller works on the model it is given |
| `MasterDetail.Controller.AddRow` | week02/master-detail/MasterDetail.js:34-50 | the list grows by exactly one fresh entry at the end, holding `Person({})` in both records and not dirty; earlier entries and the selection are unchanged; a consistent selection stays consistent |
| `MasterDetail.Controller.RemoveRow` | week02/master-detail/MasterDetail.js:51-54 | the list becomes the old list with the entry deleted, the entry is no longer in it, and the selection is null whatever was selected |
| `MasterDetail.Controller.Select` | week02/master-detail/MasterDetail.js:55-57 | the selection becomes the given value and the list is unchanged; the selection is consistent exactly when the given pair fits the list |
| `MasterDetail.Controller.Update` | week02/master-detail/MasterDetail.js:58-60 | with a selection: only the selected entry's edited is set, to the given record; its saved, the other entries, the list and the selection are unchanged; without one: InvalidState and nothing changes |
| `MasterDetail.Controller.Save` | week02/master-detail/MasterDetail.js:61-63 | with a selection: saved becomes the old edited, edited is unchanged, dirty is false, and saving an entry whose two records are equal keeps saved as it was (so saving twice is saving once); without one: InvalidState and nothing changes |
| `MasterDetail.Controller.Reset` | week02/master-detail/MasterDetail.js:64-66 | with a selection: edited becomes the old saved, saved is unchanged, dirty is false; without one: InvalidState and nothing changes |

## Left out

- The view (`MasterDetail.js` lines 70-168) is left out. It does DOM lookup, event listeners, table rendering, CSS classes and enabling or disabling inputs. It has no model logic. This includes the loop that computes `idx` for `select`, and the subscriptions the view registers again on every selection.
- `../observable/observable.js` is not part of this model. The observable value is a field that is read and assigned. The observable list is a `seq` with append and `Remove`. Its subscriber lists, notification order, its equality short-circuit and the index it passes to delete listeners are not modelled. The behaviour of deleting an absent element is assumed to be a no-op.
- `Lists.Remove` assumes that `del` removes the first occurrence of the element. The list implementation is not part of this model; since the model's entry list never holds duplicates, removing every occurrence would give the same list.
- Subscriber bookkeeping is left out. The two dirty handlers of `addRow` are folded into `Entry.SetSaved` and `Entry.SetEdited`.
- Reference aliasing is left out: after `save`, `saved` and `edited` are one shared object in the source. Records are values here. The source's later updates always pass a fresh object, so the visible behaviour is the same.
- Input coercion is left out: the view passes `workload` as a string. A caller of `Update` may pass `Str` for workload. The dirty check then treats `Str("0")` and `Num(0)` as different, as `!==` does.
- Field values are strings and integers only. JavaScript's floating-point numbers, `null`, an explicit `undefined` (which also triggers a `Person` default) and object-valued fields are not modelled.
- `Entries.Entry.UpdateDirtyField` walks the keys of `saved` in an unspecified order, not JavaScript's property order. The result does not depend on the order.
