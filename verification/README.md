# Attribute-group editor: a Dafny model

This project models the in-memory state logic of two Angular components of
the work package type administration screen.

- **Type form configuration editor** (`TypeFormConfigurationComponent`).
  Its state is an ordered list of attribute groups plus a list of inactive
  attributes. Each group has a key, a static-key flag, its attributes, an
  optional embedded query and a kind (`attribute` or `query`). The editor
  can deactivate an attribute, delete a group, create a group, and read a
  group's query back from the page's data store. The inactive list is
  re-sorted by translation by `deactivateAttribute` and `deleteGroup`.
- **Group rename widget** (`GroupEditInPlaceComponent`). It is a small
  state machine over the group's key, the name being edited and the editing
  flag. Its transitions are initialisation, start editing, save, leave
  editing mode and reset. A save may emit the trimmed name to the parent.

Every operation is a pure function from the old state to the new one. Where
the component method returns something, the function returns it next to the
new state.

Collaborators become parameters:
- `leq(a, b)` stands for `a.localeCompare(b) <= 0`. It is assumed to be a
  total preorder (`TranslationSort.IsCollation`).
- `randomId` stands for the key `randomString(8)` generates.
- `editAllowed` stands for the type banner service's decision to run the
  editing callback rather than show the enterprise-only hint.
- jQuery's `.data()` store is a `map<string, DataValue>`.

Modules:
- `Js` (`js.dfy`): nullable values, jQuery data values, truthiness, the `||`
  operator and `String.prototype.trim`.
- `TypeFormModel` (`type_form_model.dfy`): attributes, groups, editor state,
  and the multiset of all attributes the editor holds.
- `TranslationSort` (`translation_sort.dfy`): sorting by translation, and
  uniqueness of the sorted order up to ties.
- `TypeFormConfiguration` (`type_form_configuration.dfy`): the editor's
  operations.
- `GroupEditInPlace` (`group_edit_in_place.dfy`): the rename widget.

Two facts about the code are worth stating up front:
- `deactivateAttribute` does not take the attribute out of its group, so
  the editor then holds it twice (`DeactivateAttribute`).
- Only `deactivateAttribute` and `deleteGroup` sort the inactive list;
  `createGroup` and the initial load leave it as it is.

## Model

| member | source | states |
|---|---|---|
| `Js.Trim` | frontend/src/app/modules/admin/types/group-edit-in-place.component.ts:69 | `trim` removes a run of white space from each end and nothing else; the result neither starts nor ends with white space |
| `Js.TrimFixedIff` | frontend/src/app/modules/admin/types/group-edit-in-place.component.ts:71 | trimming leaves a name unchanged exactly when it has no white space at either end |
| `Js.TrimIdempotent` | frontend/src/app/modules/admin/types/group-edit-in-place.component.ts:69 | trimming a trimmed name changes nothing |
| `Js.TrimEmptyIff` | frontend/src/app/modules/admin/types/group-edit-in-place.component.ts:88 | the trimmed name is empty exactly when the name is all white space |
| `TranslationSort.Insert` | frontend/src/app/modules/admin/types/type-form-configuration.component.ts:199 | inserting into a list sorted by translation keeps it sorted and adds exactly that attribute |
| `TranslationSort.Sort` | frontend/src/app/modules/admin/types/type-form-configuration.component.ts:199 | the sort by `localeCompare` of the translations gives a sorted permutation of its input |
| `TranslationSort.SortedPermutationsAgree` | frontend/src/app/modules/admin/types/type-form-configuration.component.ts:199 | any two sorted arrangements of the same attributes have equal-comparing translations at every position, so the translations at each position, up to ties, do not depend on the sorting algorithm |
| `TranslationSort.SortedTranslationsUnique` | frontend/src/app/modules/admin/types/type-form-configuration.component.ts:199 | under a collation that never ties distinct strings, all sorted arrangements list the same translations |
| `TypeFormConfiguration.UpdateInactives` | frontend/src/app/modules/admin/types/type-form-configuration.component.ts:198-200 | the inactive list becomes a sorted permutation of the copied input; the groups are untouched |
| `TypeFormConfiguration.DeactivateAttribute` | frontend/src/app/modules/admin/types/type-form-configuration.component.ts:125-127 | the inactive list becomes a sorted permutation of the old one plus the attribute; the groups are unchanged, so the editor holds that attribute once more |
| `TypeFormConfiguration.DeactivateAlphaBeforeBeta` | frontend/src/app/modules/admin/types/type-form-configuration.component.ts:125-127 | with "Beta" inactive, deactivating "Alpha" gives the inactive list [Alpha, Beta] under any collation ordering "Alpha" first |
| `TypeFormConfiguration.WithoutCounts` | frontend/src/app/modules/admin/types/type-form-configuration.component.ts:150 | the filter removes every group equal to the deleted one and keeps each other group as often as before |
| `TypeFormConfiguration.WithoutDistributes` | frontend/src/app/modules/admin/types/type-form-configuration.component.ts:150 | filtering a concatenation filters each part in place, so the remaining groups keep their relative order |
| `TypeFormConfiguration.WithoutAbsent` | frontend/src/app/modules/admin/types/type-form-configuration.component.ts:150 | filtering out a group that is not in the list returns the list unchanged |
| `TypeFormConfiguration.DeleteGroup` | frontend/src/app/modules/admin/types/type-form-configuration.component.ts:148-153 | the inactive list becomes a sorted permutation of the old one plus the group's attributes; every copy of the group leaves the group list and the other groups keep their counts; the group is returned |
| `TypeFormConfiguration.DeleteGroupKeepsOrder` | frontend/src/app/modules/admin/types/type-form-configuration.component.ts:150 | deleting a group from `a + b` gives `a` and `b`, each filtered in place |
| `TypeFormConfiguration.DeleteAbsentGroup` | frontend/src/app/modules/admin/types/type-form-configuration.component.ts:148-153 | deleting a group that is not listed leaves the groups unchanged but still adds its attributes to the inactive list |
| `TypeFormConfiguration.DeleteGroupPreservesAttributes` | frontend/src/app/modules/admin/types/type-form-configuration.component.ts:148-151 | deleting a group that occurs once moves its attributes to the inactive list without losing or duplicating any attribute |
| `TypeFormConfiguration.CreateGroup` | frontend/src/app/modules/admin/types/type-form-configuration.component.ts:164-176 | a new group with the generated key, the given kind, a non-static key, no attributes and no query is put in front of the others and returned; the name argument is ignored and the inactive list is unchanged |
| `TypeFormConfiguration.CreateThenDelete` | frontend/src/app/modules/admin/types/type-form-configuration.component.ts:148-176 | deleting a just-created group restores the group list exactly and keeps the same inactive attributes |
| `TypeFormConfiguration.QueryEdited` | frontend/src/app/modules/admin/types/type-form-configuration.component.ts:141-145 | the query dialog's callback overwrites the edited group's query and changes nothing else |
| `TypeFormConfiguration.QueryEditedKeepsAttributes` | frontend/src/app/modules/admin/types/type-form-configuration.component.ts:143 | editing a query never moves an attribute |
| `TypeFormConfiguration.AddGroupAndOpenQuery` | frontend/src/app/modules/admin/types/type-form-configuration.component.ts:129-132 | a query group without attributes is put in front of the others, and the query handed to the dialog is undefined |
| `TypeFormConfiguration.AddGroupThenConfirmQuery` | frontend/src/app/modules/admin/types/type-form-configuration.component.ts:129-145 | confirming the dialog stores the chosen query on the new first group and leaves the other groups alone |
| `TypeFormConfiguration.ExtractQuery` | frontend/src/app/modules/admin/types/type-form-configuration.component.ts:155-162 | the edited query (`queryProps`) if it is truthy, else the rendered query (`query`) if that is truthy, else undefined |
| `TypeFormConfiguration.ExtractQueryIsOrChain` | frontend/src/app/modules/admin/types/type-form-configuration.component.ts:161 | the result agrees with chaining JavaScript's or-operator over the two stored queries and `undefined`; it is truthy or undefined, and truthy exactly when one of the stored queries is |
| `TypeFormConfiguration.ExtractQuerySkipsNaN` | frontend/src/app/modules/admin/types/type-form-configuration.component.ts:159-161 | a `queryProps` that reads as `NaN` is falsy, so the rendered query is returned |
| `GroupEditInPlace.Init` | frontend/src/app/modules/admin/types/group-edit-in-place.component.ts:49-56 | the name starts as the key; editing starts exactly when the key is null, undefined or empty and the banner service allows editing |
| `GroupEditInPlace.InitEmptyKeyEdits` | frontend/src/app/modules/admin/types/group-edit-in-place.component.ts:49-56 | a group with the empty key opens in editing mode; a named one does not |
| `GroupEditInPlace.StartEditing` | frontend/src/app/modules/admin/types/group-edit-in-place.component.ts:58-65 | editing is switched on only when the banner service allows it; otherwise the state is unchanged |
| `GroupEditInPlace.StartThenLeave` | frontend/src/app/modules/admin/types/group-edit-in-place.component.ts:58-91 | starting to edit and then leaving editing mode with a name that is not blank ends out of editing mode with key and name as before |
| `GroupEditInPlace.ResetUndoesStart` | frontend/src/app/modules/admin/types/group-edit-in-place.component.ts:58-84 | a reset discards a started edit, and a second reset changes nothing |
| `GroupEditInPlace.LeaveEditingMode` | frontend/src/app/modules/admin/types/group-edit-in-place.component.ts:86-91 | editing is switched off exactly when the name is not null and its trimmed form is not empty; otherwise the flag is kept; key and name never change |
| `GroupEditInPlace.LeaveEditingModeIff` | frontend/src/app/modules/admin/types/group-edit-in-place.component.ts:86-91 | from editing mode, the widget leaves it exactly when the name has a character that is not white space |
| `GroupEditInPlace.SaveEdition` | frontend/src/app/modules/admin/types/group-edit-in-place.component.ts:67-79 | a null name makes `trim` throw after the key was overwritten; otherwise the key becomes the name as typed, the name becomes its trimmed form, the trimmed name is emitted exactly when trimming changed it, editing is left unless the name is all white space, and the result is `false` |
| `GroupEditInPlace.SaveEmitsIffPadded` | frontend/src/app/modules/admin/types/group-edit-in-place.component.ts:68-73 | a save emits exactly when the typed name starts or ends with white space |
| `GroupEditInPlace.RenameWithoutPaddingEmitsNothing` | frontend/src/app/modules/admin/types/group-edit-in-place.component.ts:67-73 | renaming "A" to "B" updates the widget's own key and leaves editing mode but emits nothing |
| `GroupEditInPlace.SaveBlankName` | frontend/src/app/modules/admin/types/group-edit-in-place.component.ts:68-73 | saving an all-white-space name sets the name to the empty string and keeps the editing flag; the empty string is emitted unless the name was already empty |
| `GroupEditInPlace.SaveTwice` | frontend/src/app/modules/admin/types/group-edit-in-place.component.ts:67-73 | a second save emits nothing and sets the key to the trimmed name |
| `GroupEditInPlace.Reset` | frontend/src/app/modules/admin/types/group-edit-in-place.component.ts:81-84 | editing is switched off and the name goes back to the key, which is unchanged |
| `GroupEditInPlace.ResetAfterSaveRestoresTyped` | frontend/src/app/modules/admin/types/group-edit-in-place.component.ts:68-84 | since the key keeps the name as typed, a reset after a save brings back the untrimmed name |

## Left out

- `ngOnInit` of the type form editor (type-form-configuration.component.ts:73-119) is left out. It hooks the form submit, sets up the dragula groups, parses the groups and inactive attributes from DOM data attributes, and starts autoscrolling. All of this is DOM and library plumbing. The model starts from a given `Editor` value.
- The `dropModel` subscription only logs. Moves made by drag and drop, which may rewrite the bound arrays, are not modelled.
- `updateHiddenFields`, called on form submit, is not part of this model: it is not defined in the component file.
- `resetToDefault` is left out. It waits for a confirmation dialog, writes an empty list into a hidden input and submits the form, so none of it touches the editor state.
- `editQuery` opens an external dialog. Only the dialog's confirmation callback is modelled (`QueryEdited`); the disabled-tab labels are display text.
- `randomString(8)` is a parameter (`randomId`). Its length and randomness are not modelled.
- `localeCompare` is a parameter (`leq`) assumed to be a total preorder. `Sort` is one concrete algorithm. `SortedPermutationsAgree` shows that every sort under `leq` gives the same translations at each position up to ties; the order among attributes whose translations tie depends on the sort used and is not promised.
- JavaScript object identity (`el !== group`) is modelled as equality of group values. Two distinct group objects with identical contents would both be removed by the model.
- `TypeFormConfiguration.DeleteGroupPreservesAttributes`: stated only for a group that occurs exactly once. `DeleteAbsentGroup` covers a group that is absent. A group listed several times is not covered, because the component never lists one group object twice.
- Finite numbers read from the data store are reals, so floating-point rounding is not modelled. `NaN` and the infinities, which jQuery produces for the texts "NaN" and "Infinity", are separate `DataValue` cases.
- `Js.IsWhiteSpace` lists ECMAScript's WhiteSpace and LineTerminator characters by code point. The contracts only use the fact that it is a fixed set of characters (the `RenameWithoutPaddingEmitsNothing` example uses that `'B'` is not white space).
- The type banner service is a boolean parameter. Its enterprise-edition hint is display only.
- `saveEdition`'s `preventDefault`/`stopPropagation` and its keyboard event are not modelled. The `onValueChange` emitter becomes the `emitted` field of the outcome. The `placeholder` input is display only.
- frontend/src/app/components/wp-inline-create/wp-inline-create.service.ts is left out: it holds only nullable fields and RxJS subjects, with no logic.
- modules/dashboards/lib/dashboards/engine.rb and modules/dashboards/spec/routing/dashboards_spec.rb are left out. They are Rails engine, menu, permission and routing registration, not logic of this repository.
