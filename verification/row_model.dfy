/** The row model builder: turns the fetched campaign items into display
    rows with store-count labels and an add/delete action
    (`setupDataForTable`, `generateStoreLabel`). */
module RowModel {
  import opened Options
  import opened Strings
  import opened Records

  const ConfirmedStoresField := "ConfirmedStoreNumbers__c"
  const ControlStoresField := "Control_Stores__c"
  const BlacklistField := "ManualBlacklist__c"

  const ConfirmedStoresLabelField := "ConfirmedStoreNumbersLabel"
  const ManualStoresLabelField := "ManualStoreNumbersLabel"
  const BlacklistLabelField := "ManualBlacklistLabel"

  const IconField := "dynamicIcon"
  const ActionField := "actionName"
  const AltTextField := "alternativeText"

  /** Number of tokens `split(',')` yields for a truthy value, else 0. */
  function StoreCount(v: Slot): nat {
    if Truthy(v) then |Split(v.s, ',')| else 0
  }

  /** `generateStoreLabel`. */
  function StoreLabel(v: Slot): string {
    "Stores(" + NatToString(StoreCount(v)) + ")"
  }

  /** The label reads "Stores(N)" with N the number of comma-separated
      tokens, empty tokens included, and 0 for an empty or absent value. */
  lemma StoreLabelReads(v: Slot)
    ensures var text := StoreLabel(v);
            && |text| >= 9 && text[..7] == "Stores(" && text[|text| - 1] == ')'
            && AllDigits(text[7..|text| - 1])
            && ParseNat(text[7..|text| - 1]) == (if Truthy(v) then Count(v.s, ',') + 1 else 0)
            && (|text| == 9 || text[7] != '0')
    ensures !Truthy(v) ==> StoreLabel(v) == "Stores(0)"
  {
    var n := NatToString(StoreCount(v));
    ParseNatToString(StoreCount(v));
    var text := "Stores(" + n + ")";
    assert text[7..|text| - 1] == n;
  }

  /** The icon, action name and alternative text of a row's action
      button. */
  datatype RowAction = RowAction(icon: string, name: string, altText: string)

  const DeleteAction := RowAction("action:delete", "delete", "Delete Row")
  const AddAction := RowAction("action:add_relationship", "add", "Duplicate Row")

  /** The action a row offers: virtual rows can be deleted, real rows can
      have a variant added. */
  function ActionFor(id: string): RowAction {
    if IsVirtualId(id) then DeleteAction else AddAction
  }

  const DecorationFields: set<string> := {
    ConfirmedStoresLabelField, ManualStoresLabelField, BlacklistLabelField,
    IconField, ActionField, AltTextField
  }

  /** `r` is the display row for the fetched item `src`: same identifier
      and sidecar, the three store labels, the action its identifier calls
      for, and every other property kept. */
  predicate Decorates(src: Row, r: Row) {
    && r.id == src.id && r.sidecar == src.sidecar
    && Read(r.fields, ActionField) == Text(if IsVirtualId(src.id) then "delete" else "add")
    && Read(r.fields, ConfirmedStoresLabelField) == Text(StoreLabel(Read(src.fields, ConfirmedStoresField)))
    && Read(r.fields, ManualStoresLabelField) == Text(StoreLabel(Read(src.fields, ControlStoresField)))
    && Read(r.fields, BlacklistLabelField) == Text(StoreLabel(Read(src.fields, BlacklistField)))
    && forall k :: k in src.fields && k !in DecorationFields ==> Read(r.fields, k) == Read(src.fields, k)
  }

  /** The properties `setupDataForTable` adds to a fetched item. */
  function Decoration(r: Row): (m: Fields)
    ensures m.Keys == DecorationFields
    ensures m[ActionField] == Some(if IsVirtualId(r.id) then "delete" else "add")
    ensures m[ConfirmedStoresLabelField] == Some(StoreLabel(Read(r.fields, ConfirmedStoresField)))
    ensures m[ManualStoresLabelField] == Some(StoreLabel(Read(r.fields, ControlStoresField)))
    ensures m[BlacklistLabelField] == Some(StoreLabel(Read(r.fields, BlacklistField)))
  {
    var a := ActionFor(r.id);
    assert ConfirmedStoresLabelField !in {ManualStoresLabelField, BlacklistLabelField, IconField, ActionField, AltTextField};
    assert ManualStoresLabelField !in {BlacklistLabelField, IconField, ActionField, AltTextField};
    assert BlacklistLabelField !in {IconField, ActionField, AltTextField};
    map[
      ConfirmedStoresLabelField := Some(StoreLabel(Read(r.fields, ConfirmedStoresField))),
      ManualStoresLabelField := Some(StoreLabel(Read(r.fields, ControlStoresField))),
      BlacklistLabelField := Some(StoreLabel(Read(r.fields, BlacklistField))),
      IconField := Some(a.icon), ActionField := Some(a.name), AltTextField := Some(a.altText)
    ]
  }

  function DecorateRow(r: Row): (d: Row)
    ensures Decorates(r, d)
  {
    var m := Decoration(r);
    var d := r.(fields := r.fields + m);
    assert forall k :: k in m ==> d.fields[k] == m[k];
    d
  }

  /** `setupDataForTable`: no rowset unless the result is a non-empty list;
      otherwise one display row per item, in the same order. */
  function SetupDataForTable(result: Option<seq<Row>>): (rows: Option<seq<Row>>)
    ensures rows.None? <==> result.None? || result.value == []
    ensures rows.Some? ==> |rows.value| == |result.value|
    ensures rows.Some? ==> forall i :: 0 <= i < |rows.value| ==> Decorates(result.value[i], rows.value[i])
  {
    if result.None? || result.value == [] then None
    else Some(seq(|result.value|, i requires 0 <= i < |result.value| => DecorateRow(result.value[i])))
  }
}
