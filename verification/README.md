# Campaign evaluation grid: a Dafny model

This project models the editable campaign-evaluation grid of a CRM record page, together with the small field-editing modal that sits beside it. The grid shows campaign items ("real" rows). Under a real row it can show A/B-test variants ("virtual" rows, whose identifier is `<parent>_<3 characters>`). The variants are stored as a list in the parent's `Evaluation_JSON__c` property, called the sidecar below.

The model covers these parts:

- **Row model builder** (`RowModel`). `setupDataForTable` and `generateStoreLabel` turn fetched items into display rows. Each row gets three "Stores(N)" labels and an add action or a delete action.
- **Draft reconciler** (`Drafts`). `handleCellChange` merges cell edits into one draft per identifier. The draft-merge part of `handleChange` does the same for the store-number modal.
- **Virtual-row manager** (`VirtualRows`). It covers `addrow`, `generateVirtualItem`, `generateRandomString`, `deleteRow`, `getParentRow` and `findRowIndexById`. Adding or deleting a variant changes three things together: the display rowset, the parent's draft and the parent's sidecar list.
- **Validators and normaliser** (`FieldRules`, `ABLabels`).
  - `FIELD_VALIDATION` and `validateItem` apply per-field format rules. The regular expressions are written out as predicates.
  - `NUMBER_SET_FIELDS`, `formatNumberSetFields` and `formatNumberSetFieldValue` canonicalise the delimiters of number-list properties.
  - `validateABLabel` and `getFullABMap` enforce that A/B labels are unique across real and virtual rows.
- **Changeset assembly** (`Save`). This is the merge and validate loop of `handleSave`. Virtual-row edits are folded into the parent's sidecar, and real drafts are merged into one entry per identifier. The result is either "persist this changeset", "rejected" or "crashed".
- **Field modal** (`FieldModal`). `setContent` builds the option lists and sorts the fields by `order`. `setLinkLabel` produces the picklist label or the store count.

JavaScript semantics are written out where they matter:

- Loose `==` and truthiness are modelled.
- `split` keeps empty tokens.
- `replaceAll` makes a single left-to-right pass.
- A `forEach` that overwrites its result finds the *last* match. A `some` finds the *first* one.
- A JavaScript `Map` is a sequence of rows with an in-place `set`.
- Every path that raises a `TypeError` ends in an explicit `Throws` or `Crashed` result.

Records are `Row(id, fields, sidecar)`. In `fields`, an absent key reads as `undefined` and `None` is `null`. The sidecar is kept structured:

- `Missing`, `NullJson` or `Blank` (`''`) for the falsy cases;
- `Encoded(items)` for a list that decodes;
- `Malformed(raw)` for text that does not decode to a list.

`Math.random` becomes a parameter: a sequence of draws, each below 62.

Files:

- `strings.dfy`: `Options`, and `Strings` with split, join, replaceAll, upper-casing and decimal text;
- `records.dfy`: the data model;
- `field_rules.dfy`: format rules and number-set canonicalisation;
- `row_model.dfy`: the row model builder;
- `drafts.dfy`: the draft reconciler;
- `virtual_rows.dfy`: adding and deleting variants;
- `ab_labels.dfy`: A/B-label validation;
- `save.dfy`: the save pipeline;
- `field_modal.dfy`: the field modal.

## Model

| member | source | states |
|---|---|---|
| Strings.Split | src/main/default/lwc/campaignEvaluationTable/campaignEvaluationTable.js:212-213 | `split` with a one-character separator yields one more token than there are separators, and no token contains the separator |
| Strings.JoinSplit | src/main/default/lwc/campaignEvaluationTable/campaignEvaluationTable.js:437 | joining the tokens of `split` with the separator gives back the original text |
| Strings.NatToString | src/main/default/lwc/campaignEvaluationTable/campaignEvaluationTable.js:214 | the decimal text of a count is all digits, is "0" for zero and has no leading zero otherwise, as JavaScript renders a number in a string |
| FieldRules.AbRulesAcceptDigitUpper | src/main/default/lwc/campaignEvaluationTable/campaignEvaluationTable.js:21-34 | the two A/B-label rules (`^.{2}$` and the unanchored `[0-9]{1}[A-Z]{1}`) together accept exactly a digit followed by an upper-case letter |
| FieldRules.StoreListHasFormat | src/main/default/lwc/campaignEvaluationTable/campaignEvaluationTable.js:13-20 | every comma-separated list of four-digit store numbers, with or without a trailing comma, matches the store-number pattern |
| FieldRules.WeekDayListHasFormat | src/main/default/lwc/campaignEvaluationTable/campaignEvaluationTable.js:59-66 | every `;`-separated list of days 1 to 7 matches the days-of-the-week pattern |
| FieldRules.ValidateItem | src/main/default/lwc/campaignEvaluationTable/campaignEvaluationTable.js:814-843 | returns false exactly when some property with rules has a value other than `''` that fails a rule that applies (a virtual-exclusive rule does not apply to a real row); `null` is tested as the text "null" |
| FieldRules.EmptyAndRealBypass | src/main/default/lwc/campaignEvaluationTable/campaignEvaluationTable.js:818-826 | an empty string passes every rule, and a real row passes the A/B-label rules whatever its value |
| FieldRules.FormatNumberSetFieldValue | src/main/default/lwc/campaignEvaluationTable/campaignEvaluationTable.js:875-892 | the result is no longer than the input, holds no line break, tab, space or `;`, and keeps the input's non-delimiter characters in order |
| FieldRules.FormatKeepsShape | src/main/default/lwc/campaignEvaluationTable/campaignEvaluationTable.js:875-892 | the result is the output of the `replaceAll` chain with at most one trailing comma dropped; it keeps the numbers (maximal runs without delimiters) in order and keeps a separator wherever the input separated two numbers, so only a separator at the very end can disappear |
| FieldRules.FormatIsNotIdempotent | src/main/default/lwc/campaignEvaluationTable/campaignEvaluationTable.js:887-890 | the single-pass `,,` collapse makes formatting non-idempotent: `",,,,"` becomes `","`, which becomes `""` |
| FieldRules.CollapseCommaRun | src/main/default/lwc/campaignEvaluationTable/campaignEvaluationTable.js:887 | a run of 2n commas collapses to n commas, not to one |
| FieldRules.FormatKeepsCanonical | src/main/default/lwc/campaignEvaluationTable/campaignEvaluationTable.js:875-892 | a value made of digits and single commas, with no trailing comma, is left unchanged |
| FieldRules.FormatNumberSetFields | src/main/default/lwc/campaignEvaluationTable/campaignEvaluationTable.js:856-862 | a `null` number-set property makes it throw; otherwise each number-set property other than `''` becomes exactly the `formatNumberSetFieldValue` of its value, `''` stays `''`, and every other property and the set of keys are unchanged |
| RowModel.StoreLabelReads | src/main/default/lwc/campaignEvaluationTable/campaignEvaluationTable.js:210-218 | the label reads "Stores(N)", where N is written in plain decimal (no leading zero) and is the number of commas plus one for a truthy value (empty tokens counted), and the label is "Stores(0)" for an empty, `null` or absent value |
| RowModel.DecorateRow | src/main/default/lwc/campaignEvaluationTable/campaignEvaluationTable.js:151-170 | the display row has the three store labels of its store fields and the delete action exactly when its identifier contains `_` (add otherwise); every other property is kept |
| RowModel.SetupDataForTable | src/main/default/lwc/campaignEvaluationTable/campaignEvaluationTable.js:147-179 | no rowset unless the result is a non-empty list; otherwise one decorated row per item, in order |
| Drafts.MergeDraft | src/main/default/lwc/campaignEvaluationTable/campaignEvaluationTable.js:136-138 | the merged draft carries every key of the event with the event's value, and keeps the keys the event does not mention |
| Drafts.HandleCellChange | src/main/default/lwc/campaignEvaluationTable/campaignEvaluationTable.js:128-145 | an empty draft list adopts the event's list verbatim; otherwise each draft with the event's identifier becomes exactly that draft merged with the event's first draft (its own sidecar kept unless the event carries one), or the event's draft is appended; other drafts are unchanged, and one draft per identifier is kept |
| Drafts.EditsAccumulate | src/main/default/lwc/campaignEvaluationTable/campaignEvaluationTable.js:128-145 | after any run of edits to one identifier, the draft holds exactly the keys that the earlier draft or some edit carried, each with the latest edit's value, and identifiers stay unique |
| Drafts.SetDraftField | src/main/default/lwc/campaignEvaluationTable/campaignEvaluationTable.js:480-497 | the property is set on every draft with the identifier (the rest of that draft kept), or a draft holding only it is appended; every other draft is unchanged |
| Drafts.HandleChange | src/main/default/lwc/campaignEvaluationTable/campaignEvaluationTable.js:460-508 | the edit is applied exactly when the formatted text is empty or a store-number list, and refused with the store-number message otherwise; when applied, each draft of the row is that draft with the property set to the formatted text (or a draft holding only it is appended), each display row of the row is that row with the recomputed label, and nothing else changes |
| Drafts.ModalEditIsCellEdit | src/main/default/lwc/campaignEvaluationTable/campaignEvaluationTable.js:480-497 | an accepted modal edit changes the drafts exactly as `handleCellChange` does for an event carrying only the formatted property |
| VirtualRows.RandomString | src/main/default/lwc/campaignEvaluationTable/campaignEvaluationTable.js:845-854 | one alphanumeric character per draw, so the suffix never contains the separator |
| VirtualRows.RandomStringInjective | src/main/default/lwc/campaignEvaluationTable/campaignEvaluationTable.js:845-854 | different draws give different suffixes |
| VirtualRows.AlphabetCovers | src/main/default/lwc/campaignEvaluationTable/campaignEvaluationTable.js:846-847 | every ASCII letter and digit can be drawn |
| VirtualRows.GeneratedVariantFields | src/main/default/lwc/campaignEvaluationTable/campaignEvaluationTable.js:325-361 | a variant copies the parent's inheritable properties (an absent one stays absent), has an empty A/B label, has the parent's confirmed-store label as alternate identifier, and has the delete action |
| VirtualRows.VariantLeadsToParent | src/main/default/lwc/campaignEvaluationTable/campaignEvaluationTable.js:328 | the part of a variant's identifier before the first separator is its real parent's identifier |
| VirtualRows.FindRowIndexById | src/main/default/lwc/campaignEvaluationTable/campaignEvaluationTable.js:448-458 | the index of the first row with that identifier, or -1 exactly when there is none |
| VirtualRows.ParentId | src/main/default/lwc/campaignEvaluationTable/campaignEvaluationTable.js:437 | the result is a prefix of the identifier that holds no separator; for a variant identifier the first separator follows it, and a real identifier is its own parent |
| VirtualRows.GetParentRow | src/main/default/lwc/campaignEvaluationTable/campaignEvaluationTable.js:436-446 | the *last* display row whose identifier is the prefix, or none exactly when no row has that identifier |
| VirtualRows.WriteDraft | src/main/default/lwc/campaignEvaluationTable/campaignEvaluationTable.js:393-417 | every draft with the identifier gets the sidecar and the extra properties, or a fresh draft is appended; other drafts are unchanged and identifiers stay unique |
| VirtualRows.RemoveVariant | src/main/default/lwc/campaignEvaluationTable/campaignEvaluationTable.js:376-387 | when some entry has the identifier, exactly the last such entry is removed and the rest keep their order; when none has it, `splice(undefined, 1)` removes the first |
| VirtualRows.RemoveLastVariant | src/main/default/lwc/campaignEvaluationTable/campaignEvaluationTable.js:380-387 | for any entry that no later entry shares its identifier with, removing by that identifier takes out exactly that entry, whatever precedes or follows it |
| VirtualRows.AddRow | src/main/default/lwc/campaignEvaluationTable/campaignEvaluationTable.js:273-323 | throws exactly when the row's sidecar is truthy but not a list; otherwise the variant is appended to the list, every row and draft of the parent records the new list, and the variant is inserted after the parent's first index |
| VirtualRows.DeleteRow | src/main/default/lwc/campaignEvaluationTable/campaignEvaluationTable.js:363-434 | throws exactly when there is no parent row or its sidecar is not a list; otherwise the parent's drafts and rows record the list from `RemoveVariant` (the last entry with the variant's identifier taken out; an empty list gives `null` sidecar and label in the draft and `''` on display) and the variant's first row is removed |
| VirtualRows.DeleteRemovesVariantRow | src/main/default/lwc/campaignEvaluationTable/campaignEvaluationTable.js:427-432 | with unique identifiers, the deleted variant's row leaves the display and every unrelated row stays |
| VirtualRows.InsertAfterUnique | src/main/default/lwc/campaignEvaluationTable/campaignEvaluationTable.js:309-310 | inserting a fresh variant right after its parent keeps display identifiers unique, and the variant is then the first row with its identifier |
| VirtualRows.AddThenDelete | src/main/default/lwc/campaignEvaluationTable/campaignEvaluationTable.js:273-434 | adding a variant and deleting it restores the parent's sidecar list on display and in its drafts (an emptied list clears the sidecar and A/B label) |
| VirtualRows.AddThenDeleteRestoresRows | src/main/default/lwc/campaignEvaluationTable/campaignEvaluationTable.js:363-434 | for a parent that already lists variants, add then delete gives back exactly the original display rowset |
| ABLabels.RealKeys | src/main/default/lwc/campaignEvaluationTable/campaignEvaluationTable.js:778-781 | the distinct identifiers without a separator among the display rows, ordered by the index of their first occurrence |
| ABLabels.EffectiveLabel | src/main/default/lwc/campaignEvaluationTable/campaignEvaluationTable.js:782-790 | the change's label when it holds text, otherwise the displayed label |
| ABLabels.EffectiveSidecar | src/main/default/lwc/campaignEvaluationTable/campaignEvaluationTable.js:791-795 | the result is the displayed sidecar or a truthy sidecar of a change for the row |
| ABLabels.EffectiveSidecarChoice | src/main/default/lwc/campaignEvaluationTable/campaignEvaluationTable.js:791-795 | with one change per identifier, a truthy sidecar in the row's change is the one read; when no change for the row has a truthy sidecar, the displayed one is read |
| ABLabels.ChildEntries | src/main/default/lwc/campaignEvaluationTable/campaignEvaluationTable.js:805-809 | exactly the listed variants that have a truthy label, as (identifier, label) pairs |
| ABLabels.AllEntries | src/main/default/lwc/campaignEvaluationTable/campaignEvaluationTable.js:778-810 | throws exactly when some real row's effective sidecar is truthy but not a list; otherwise holds exactly the entries of every real row |
| ABLabels.BuildMapLastWins | src/main/default/lwc/campaignEvaluationTable/campaignEvaluationTable.js:782-807 | a key maps to the value of its last `set` |
| ABLabels.FullABMap | src/main/default/lwc/campaignEvaluationTable/campaignEvaluationTable.js:776-812 | throws exactly when some real display row's effective sidecar is truthy but not a list |
| ABLabels.FullABMapKeys | src/main/default/lwc/campaignEvaluationTable/campaignEvaluationTable.js:776-812 | the map holds every real display row and every listed variant with a truthy label |
| ABLabels.FullABMapValues | src/main/default/lwc/campaignEvaluationTable/campaignEvaluationTable.js:776-812 | every map value is a real row's effective label or a listed variant's truthy label |
| ABLabels.FullABMapRealLabels | src/main/default/lwc/campaignEvaluationTable/campaignEvaluationTable.js:782-790 | when variant identifiers are virtual, each real row maps to exactly its effective label |
| ABLabels.VariantLabelInMap | src/main/default/lwc/campaignEvaluationTable/campaignEvaluationTable.js:805-809 | with distinct variant identifiers, a listed variant with a truthy label maps to exactly that label |
| ABLabels.CheckEntry | src/main/default/lwc/campaignEvaluationTable/campaignEvaluationTable.js:691-770 | a crash only comes from a truthy sidecar that is not a list, and a pass means a labelled entry's label is used by no other identifier |
| ABLabels.CheckEntryPass | src/main/default/lwc/campaignEvaluationTable/campaignEvaluationTable.js:691-770 | one changeset entry passes exactly when the stated acceptance conditions hold (labelled parent, decodable list, no refused variant, no cleared label over displayed variants, label not taken elsewhere) |
| ABLabels.CheckEntries | src/main/default/lwc/campaignEvaluationTable/campaignEvaluationTable.js:689-772 | passes exactly when every entry passes; otherwise it yields the verdict of the first entry that does not pass |
| ABLabels.ValidateABLabel | src/main/default/lwc/campaignEvaluationTable/campaignEvaluationTable.js:684-774 | true exactly when the full map builds and every changeset entry is accepted; throws exactly when the map throws or the first non-passing entry crashes |
| ABLabels.AcceptedEntryLabelUnique | src/main/default/lwc/campaignEvaluationTable/campaignEvaluationTable.js:755-770 | an accepted labelled entry shares its label with no other real row and no listed variant |
| ABLabels.AcceptedVariantLabelsUnique | src/main/default/lwc/campaignEvaluationTable/campaignEvaluationTable.js:700-736 | every variant of an accepted entry has a non-empty label that differs from the entry's label, every other real row's label and every other variant's label |
| ABLabels.UnlabelledParentRejected | src/main/default/lwc/campaignEvaluationTable/campaignEvaluationTable.js:737-743 | an entry listing variants with no label of its own and none on display is refused |
| ABLabels.SiblingDuplicateRejected | src/main/default/lwc/campaignEvaluationTable/campaignEvaluationTable.js:721-734 | two sibling variants with the same truthy label are refused |
| ABLabels.TwinLabelsRejected | src/main/default/lwc/campaignEvaluationTable/campaignEvaluationTable.js:755-770 | two entries for different real rows with the same truthy label are refused |
| Save.Prepare | src/main/default/lwc/campaignEvaluationTable/campaignEvaluationTable.js:535-538 | a truthy A/B label is upper-cased, each number-set property other than `''` becomes exactly the `formatNumberSetFieldValue` of its value, a `null` number-set property throws, and everything else is kept |
| Save.PrepareAll | src/main/default/lwc/campaignEvaluationTable/campaignEvaluationTable.js:534-538 | throws exactly when some draft has a `null` number-set property; otherwise each draft is prepared in place |
| Save.Checks | src/main/default/lwc/campaignEvaluationTable/campaignEvaluationTable.js:539-542 | each flag is the `validateItem` verdict of its draft |
| Save.Put | src/main/default/lwc/campaignEvaluationTable/campaignEvaluationTable.js:583-594 | `Map.set` replaces the entry with that identifier or appends one, keeps identifiers unique, and makes the entry the one looked up |
| Save.FoldVariant | src/main/default/lwc/campaignEvaluationTable/campaignEvaluationTable.js:572-580 | every listed variant with the draft's identifier takes the draft's properties and keeps its other properties; other variants are unchanged; the list keeps its length and identifiers |
| Save.FillName | src/main/default/lwc/campaignEvaluationTable/campaignEvaluationTable.js:596-602 | the `Name` is taken from the last display row with the identifier, and nothing else changes |
| Save.FoldIntoParent | src/main/default/lwc/campaignEvaluationTable/campaignEvaluationTable.js:550-584 | throws exactly when there is no parent row or the parent's effective sidecar is truthy but not a list; a falsy sidecar drops the variant's edit, leaving every entry's identifier and properties as they were; otherwise only the parent's entry changes, identifiers stay unique, and the parent entry's other properties are kept |
| Save.FoldsVariantEdit | src/main/default/lwc/campaignEvaluationTable/campaignEvaluationTable.js:560-584 | when the parent's sidecar is a list, the variant's edit lands in the parent entry's list: matching variants take the edited properties and keep the rest, other variants and other changeset entries are unchanged, and the list keeps its length and identifiers |
| Save.MergeReal | src/main/default/lwc/campaignEvaluationTable/campaignEvaluationTable.js:585-602 | the draft's properties go over the earlier entry for its identifier, which keeps its sidecar; a falsy `Name` is filled in from display; other entries are unchanged |
| Save.StepKeepsRealKeyed | src/main/default/lwc/campaignEvaluationTable/campaignEvaluationTable.js:550-595 | one loop iteration keeps one entry per identifier and only real identifiers |
| Save.FoldRealKeyed | src/main/default/lwc/campaignEvaluationTable/campaignEvaluationTable.js:534-603 | the assembled changeset has at most one entry per identifier, and only real rows |
| Save.FoldKeepsRealDraft | src/main/default/lwc/campaignEvaluationTable/campaignEvaluationTable.js:585-602 | an accepted real draft's properties are in its entry and no later draft overwrites them |
| Save.FlagsMeaning | src/main/default/lwc/campaignEvaluationTable/campaignEvaluationTable.js:539-549 | the per-draft verdicts and the evaluation-property test read the same on the original drafts |
| Save.HandleSave | src/main/default/lwc/campaignEvaluationTable/campaignEvaluationTable.js:523-616 | crashes over an absent rowset (an empty fetch leaves `campaignItems` `undefined`, so the copy at :685 throws); otherwise persists exactly when assembly does not throw, every draft is accepted and the A/B-label check passes; the persisted items are the changeset, and the recalculation message is chosen exactly when a draft touches an evaluation property |
| Save.AllChecksPass | src/main/default/lwc/campaignEvaluationTable/campaignEvaluationTable.js:526-542 | the validity flag holds exactly when every draft survives normalisation and passes `validateItem` |
| Save.Recalculates | src/main/default/lwc/campaignEvaluationTable/campaignEvaluationTable.js:527-549 | when every draft is valid, the slower message is chosen exactly when some draft touches the A/B label, the confirmed stores or the evaluation NASA |
| Save.NullNumberSetCrashes | src/main/default/lwc/campaignEvaluationTable/campaignEvaluationTable.js:856-862 | a draft with a `null` number-set property makes the save throw |
| Save.SavedRealDraft | src/main/default/lwc/campaignEvaluationTable/campaignEvaluationTable.js:534-616 | a persisted changeset has one entry per real identifier, and each real draft's normalised properties are in its entry |
| FieldModal.ToField | src/main/default/lwc/fieldModalDisplay/fieldModalDisplay.js:26-38 | a picklist entry without values throws; otherwise the properties are copied, a falsy order becomes `null`, the options start with "--None--", and a picklist offers its values in order with label equal to value |
| FieldModal.BuildFields | src/main/default/lwc/fieldModalDisplay/fieldModalDisplay.js:24-40 | one field per content entry, in input order; throws exactly when one entry does |
| FieldModal.Insert | src/main/default/lwc/fieldModalDisplay/fieldModalDisplay.js:41-43 | inserting adds exactly one field to the multiset |
| FieldModal.Sort | src/main/default/lwc/fieldModalDisplay/fieldModalDisplay.js:41-43 | the sorted list is a permutation of the input |
| FieldModal.SortSorted | src/main/default/lwc/fieldModalDisplay/fieldModalDisplay.js:41-43 | the result is ascending by order, with `null` counting as 0 |
| FieldModal.SortStable | src/main/default/lwc/fieldModalDisplay/fieldModalDisplay.js:41-43 | fields with equal order keep their input order |
| FieldModal.FirstLowest | src/main/default/lwc/fieldModalDisplay/fieldModalDisplay.js:41-43 | the index of the first field of smallest order |
| FieldModal.SortHead | src/main/default/lwc/fieldModalDisplay/fieldModalDisplay.js:41-51 | the sorted list starts with the first field of smallest order |
| FieldModal.SetContent | src/main/default/lwc/fieldModalDisplay/fieldModalDisplay.js:23-45 | throws exactly when a picklist entry has no values; otherwise one field per entry |
| FieldModal.SetContentSorted | src/main/default/lwc/fieldModalDisplay/fieldModalDisplay.js:23-45 | the field list is sorted, holds exactly the built fields, and is stable |
| FieldModal.SetLinkLabel | src/main/default/lwc/fieldModalDisplay/fieldModalDisplay.js:47-54 | a picklist first entry gives its value or "--None--"; otherwise "Stores (N)", where N is written in plain decimal (no leading zero) and is the first field's comma-token count (0 when falsy); it throws with no entries or no fields |
| FieldModal.Connect | src/main/default/lwc/fieldModalDisplay/fieldModalDisplay.js:18-21 | the link label is computed over the field list that `setContent` produced |
| FieldModal.ConnectCountsLowest | src/main/default/lwc/fieldModalDisplay/fieldModalDisplay.js:48-52 | the picklist test reads the first entry in input order, but the store count reads the entry with the smallest order (the earliest on a tie) |

## Behaviour of the code worth knowing

The model follows the code in each of these cases:

- **Deleting a variant leaves the variant's own draft in place.** `deleteRow` rewrites only the drafts of the parent (`campaignEvaluationTable.js:393-417`). `VirtualRows.DeleteRow` keeps the variant's draft.
- **Deletion removes the last entry with the identifier.** The `forEach` at `campaignEvaluationTable.js:380-385` overwrites its index on every match, so it ends on the last one. When nothing matches, the index stays `undefined` and `splice(undefined, 1)` removes the first entry.
- **A sidecar that is not a list makes add and delete throw.** The fallback decode yields a string:
  - `push` on that string throws (`:290`);
  - `forEach` on it throws (`:380`).

  Both are modelled as `Throws`.
- **The store-number rule is keyed `storeNumbers`.** That key (`campaignEvaluationTable.js:13`) names no campaign-item property. So `validateItem` never applies the rule to `ConfirmedStoreNumbers__c` or `Control_Stores__c`; only `ManualBlacklist__c` has that pattern at save time. The modal's `handleChange` does test the `storeNumbers` rule. `FieldRules.FieldValidation` keeps the key as written.
- **An empty draft list adopts the whole event list.** When the draft list is empty, `handleCellChange` takes the event's list as it is (`campaignEvaluationTable.js:129-130`); otherwise it merges only the event's first draft.
- **A save with no rowset crashes.** An empty fetch leaves `campaignItems` `undefined` (`campaignEvaluationTable.js:177`). `validateABLabel` then throws on `JSON.parse(JSON.stringify(undefined))` (`:685`), so `Save.HandleSave` over the empty rowset that stands for it is `Crashed`.
- **Formatting `",,,,"` gives `","`.** The `,,` collapse is a single pass and yields `",,"`, and one trailing comma is then dropped.

## Left out

- Apex calls, wire adapters, refresh, toasts, navigation, modal open and close, busy flags, `handleCancel`, and the rendering of backend errors. These are I/O and presentation. A save ends in `Persist(changeset, recalculation)`, `Rejected` or `Crashed` instead of a server call and messages.
- `callRowAction`: this is UI dispatch. `addrow` and `deleteRow` are modelled directly.
- JSON text encoding and decoding. The sidecar is kept structured. `Encoded` stands both for well-formed JSON text and for the raw array that `addrow` leaves on the display row; the two decode alike.
- Property values are modelled as text or `null`. Numeric, boolean and date properties are represented by their text. This is also how `regex.test` and the comparisons see them.
- The attachment of `evaluationReadyOptions` to every row (`campaignEvaluationTable.js:173-175`). These are external picklist data and play no part in the logic.
- The `selectedRow` and `currentModal.fieldValue` writes in `handleChange`. These are UI state. The effect on the drafts and display rows is modelled.
- Save.HandleSave: modelled as "normalise every draft, then fold". The source interleaves the two in one `forEach`. Every `TypeError` ends the save whichever draft raises it, and both flags are order-independent, so the outcome is the same.
- Save.FoldIntoParent: a parent sidecar that is truthy but not a list is `Throws` at once. The source carries it on until `getFullABMap` calls `forEach` on it, which throws for that same real row.
- Strings.ToUpper: upper-cases ASCII letters only. `toUpperCase` applies Unicode's default upper-casing, which also maps non-ASCII letters ("é" to "É") and can lengthen the text ("ß" to "SS"). That mapping is not modelled. It matters because A/B labels are upper-cased before the uniqueness test of `validateABLabel`: for labels with non-ASCII letters, the model and the code can disagree on which labels are equal.
- VirtualRows.RandomString: the 62-character alphabet is given by formula ("a".."z", "A".."Z", "0".."9", in that order), not as the literal text.
- Drafts.HandleCellChange: requires a cell-change event with at least one draft when drafts already exist. The grid always sends one; an empty event would make `draftValues[0].Id` throw.
- FieldModal.SetLinkLabel: the `trim` of each token is not modelled. Trimming does not change the number of tokens, which is all the label shows.
- FieldModal.ToField: `order` is an integer or `null`. Non-integer, string or `NaN` orders, which would make the comparator non-numeric, are not modelled.
- `addrow` shares one object three ways: the new variant entry pushed onto the parent's list (`campaignEvaluationTable.js:290`, or onto a fresh list at `:293-295`), that list placed on the parent's display row (`:299`), and the variant's display row spliced into the rowset (`:310`). A later in-place write to the variant's display row, such as the store label that `handleChange` sets (`:501-505`), therefore also lands in the parent's displayed sidecar list. The model keeps values, not shared objects, so such a write changes only the display row.
- The modal's own `handleSave`, `openModal` and `closeModal`. These are a server call and UI state.
