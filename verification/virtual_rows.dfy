/** The virtual-row manager: adding an A/B-test variant under a real row
    (`addrow`, `generateVirtualItem`, `generateRandomString`) and deleting
    one (`deleteRow`, `getParentRow`, `findRowIndexById`). The display
    rowset, the parent's sidecar list and the drafts change together. */
module VirtualRows {
  import opened Options
  import opened Strings
  import opened Records
  import opened RowModel
  import opened Drafts

  /** The display rowset and the persistent drafts. */
  datatype Grid = Grid(rows: seq<Row>, drafts: seq<Row>)

  /** Size of the alphabet `generateRandomString` draws from. */
  const AlphabetSize := 62

  predicate IsAlphanumeric(c: char) {
    IsLower(c) || IsUpper(c) || IsDigit(c)
  }

  /** The `k`-th character of the alphabet "a".."z", "A".."Z", "0".."9",
      in that order. */
  function AlphabetChar(k: nat): (ch: char)
    requires k < AlphabetSize
    ensures IsAlphanumeric(ch)
  {
    if k < 26 then (97 + k) as char
    else if k < 52 then (65 + k - 26) as char
    else (48 + k - 52) as char
  }

  /** No character appears twice in the alphabet. */
  lemma AlphabetDistinct(a: nat, b: nat)
    requires a < AlphabetSize && b < AlphabetSize && AlphabetChar(a) == AlphabetChar(b)
    ensures a == b
  {
  }

  /** Length of the suffix a variant identifier gets. */
  const SuffixLength := 3

  /** A valid sequence of `Math.floor(Math.random() * 62)` results. */
  predicate ValidDraws(draws: seq<nat>) {
    forall i :: 0 <= i < |draws| ==> draws[i] < AlphabetSize
  }

  /** `generateRandomString`: one alphabet character per draw. */
  function RandomString(draws: seq<nat>): (r: string)
    requires ValidDraws(draws)
    ensures |r| == |draws|
    ensures forall i :: 0 <= i < |r| ==> IsAlphanumeric(r[i])
    ensures Separator !in r
  {
    seq(|draws|, i requires 0 <= i < |draws| => AlphabetChar(draws[i]))
  }

  /** Different draws give different suffixes: every one of the 62^n
      outcomes is reachable and distinct. */
  lemma RandomStringInjective(a: seq<nat>, b: seq<nat>)
    requires ValidDraws(a) && ValidDraws(b) && |a| == |b|
    requires RandomString(a) == RandomString(b)
    ensures a == b
  {
    forall i | 0 <= i < |a| ensures a[i] == b[i] {
      assert RandomString(a)[i] == RandomString(b)[i];
      AlphabetDistinct(a[i], b[i]);
    }
  }

  /** Every letter and digit can be drawn. */
  lemma AlphabetCovers(c: char)
    requires IsAlphanumeric(c)
    ensures exists k :: 0 <= k < AlphabetSize && AlphabetChar(k) == c
  {
    if IsLower(c) {
      assert AlphabetChar(c as int - 97) == c;
    } else if IsUpper(c) {
      assert AlphabetChar(c as int - 65 + 26) == c;
    } else {
      assert AlphabetChar(c as int - 48 + 52) == c;
    }
  }

  // ---------------------------------------------------------------------
  // Generating a variant

  const AlternateIdField := "ADvendio__AlternateId__c"

  /** The parent properties a new variant copies. */
  const InheritedFields: set<string> := {
    "Name", "ConfirmedStoreNumbers__c", "EvaluationNASA__c",
    "Blacklist_Control_Stores__c", "Start_Week_Pre_period__c",
    "Days_of_the_Week__c", "Number_of_Week__c", "CrossSellNASA__c",
    "Sample_NASA__c", "EvaluationReady__c", "EvaluationReadySelection__c",
    "ADvendio__Media_Campaign__c", "Reach__c", "Campaign_Item_ID__c",
    "ADvendio__From_Date__c", "ADvendio__Until_Date__c", "Year_Pre_period__c",
    "From_Week_Year__c", "From_Week__c", "Until_Week__c", "Until_Week_Year__c",
    "OverlapBlacklist__c", "ABBlacklist__c", "ADvendio__Internal_comment__c"
  }

  /** The properties a new variant sets itself. */
  const OwnFields: set<string> := {AbField, AlternateIdField, IconField, ActionField, AltTextField}

  /** The variant's own properties: an empty A/B label, the parent's
      confirmed-store label as alternate identifier, and the delete action. */
  function OwnValues(parent: Row): (m: Fields)
    ensures m.Keys == OwnFields
    ensures m[AbField] == Some("")
    ensures m[AlternateIdField] == Some(StoreLabel(Read(parent.fields, ConfirmedStoresField)))
    ensures m[ActionField] == Some("delete")
  {
    map[AbField := Some(""),
        AlternateIdField := Some(StoreLabel(Read(parent.fields, ConfirmedStoresField))),
        IconField := Some(DeleteAction.icon), ActionField := Some(DeleteAction.name),
        AltTextField := Some(DeleteAction.altText)]
  }

  /** `generateVirtualItem`: identifier `<parent>_<suffix>`, the inherited
      properties the parent has (an `undefined` one is dropped when the list
      is serialised), and the variant's own properties. */
  function GenerateVirtualItem(parent: Row, suffix: string): (v: VirtualItem)
    ensures v.id == parent.id + [Separator] + suffix
    ensures IsVirtualId(v.id)
  {
    var inherited := map k | k in InheritedFields && k in parent.fields :: parent.fields[k];
    VirtualItem(parent.id + [Separator] + suffix, inherited + OwnValues(parent))
  }

  /** The properties of a generated variant: the inherited ones read as on
      the parent, then an empty A/B label, the parent's store label as
      alternate identifier, and the delete action. */
  lemma GeneratedVariantFields(parent: Row, suffix: string)
    ensures var v := GenerateVirtualItem(parent, suffix);
            && v.fields.Keys == (InheritedFields * parent.fields.Keys) + OwnFields
            && (forall k :: k in InheritedFields ==> Read(v.fields, k) == Read(parent.fields, k))
            && ItemAb(v) == Text("")
            && Read(v.fields, AlternateIdField) == Text(StoreLabel(Read(parent.fields, ConfirmedStoresField)))
            && Read(v.fields, ActionField) == Text("delete")
  {
    VariantKeys(parent, suffix);
    VariantInherits(parent, suffix);
    VariantOwnValues(parent, suffix);
  }

  lemma VariantKeys(parent: Row, suffix: string)
    ensures GenerateVirtualItem(parent, suffix).fields.Keys == (InheritedFields * parent.fields.Keys) + OwnFields
  {
    var inherited := map k | k in InheritedFields && k in parent.fields :: parent.fields[k];
    assert inherited.Keys == InheritedFields * parent.fields.Keys;
  }

  lemma VariantInherits(parent: Row, suffix: string)
    ensures forall k :: k in InheritedFields ==> Read(GenerateVirtualItem(parent, suffix).fields, k) == Read(parent.fields, k)
  {
    var inherited := map k | k in InheritedFields && k in parent.fields :: parent.fields[k];
    var own := OwnValues(parent);
    OwnFieldsDisjoint();
    forall k | k in InheritedFields ensures Read((inherited + own), k) == Read(parent.fields, k) {
      assert k !in OwnFields;
    }
  }

  lemma VariantOwnValues(parent: Row, suffix: string)
    ensures var v := GenerateVirtualItem(parent, suffix);
            && ItemAb(v) == Text("")
            && Read(v.fields, AlternateIdField) == Text(StoreLabel(Read(parent.fields, ConfirmedStoresField)))
            && Read(v.fields, ActionField) == Text("delete")
  {
    var own := OwnValues(parent);
    assert AbField in own && AlternateIdField in own && ActionField in own;
  }

  /** The own properties do not shadow any inherited one. */
  lemma OwnFieldsDisjoint()
    ensures forall k :: k in OwnFields ==> k !in InheritedFields
  {
  }

  /** A variant's identifier leads back to its parent: the prefix before the
      first separator is the parent's identifier, when that holds none. */
  lemma VariantLeadsToParent(parent: Row, draws: seq<nat>)
    requires ValidDraws(draws) && !IsVirtualId(parent.id)
    ensures Split(GenerateVirtualItem(parent, RandomString(draws)).id, Separator)[0] == parent.id
  {
    SplitFirstToken(parent.id, Separator, RandomString(draws));
  }

  // ---------------------------------------------------------------------
  // Locating rows

  /** `findRowIndexById`: the index of the first display row with
      identifier `id` (strict equality), or -1. */
  function FindRowIndexById(rows: seq<Row>, id: string): (r: int)
    ensures -1 <= r < |rows|
    ensures r == -1 <==> forall i :: 0 <= i < |rows| ==> rows[i].id != id
    ensures r >= 0 ==> rows[r].id == id && forall i :: 0 <= i < r ==> rows[i].id != id
  {
    FirstIndex(Ids(rows), id)
  }

  /** The identifier before the first separator. */
  function ParentId(id: string): (p: string)
    ensures Separator !in p
    ensures !IsVirtualId(id) ==> p == id
    ensures p <= id
    ensures IsVirtualId(id) ==> |p| < |id| && id[|p|] == Separator
  {
    var p := Split(id, Separator)[0];
    assert !IsVirtualId(id) ==> p == id by {
      if !IsVirtualId(id) { SplitNoSeparator(id, Separator); }
    }
    SplitFirstPrefix(id, Separator);
    p
  }

  /** `getParentRow`: the last display row whose identifier is the part of
      the row's identifier before the first separator (`undefined` when
      there is none). */
  function GetParentRow(rows: seq<Row>, row: Row): (r: Option<Row>)
    ensures r.Some? ==> r.value in rows && r.value.id == ParentId(row.id) && !IsVirtualId(r.value.id)
    ensures r.None? <==> forall i :: 0 <= i < |rows| ==> rows[i].id != ParentId(row.id)
    ensures r.Some? ==> forall i :: 0 <= i < |rows| && rows[i].id == ParentId(row.id) && rows[i] != r.value ==>
              exists j :: i < j < |rows| && rows[j] == r.value
  {
    LastById(rows, ParentId(row.id))
  }

  // ---------------------------------------------------------------------
  // Adding and deleting variants

  /** Every display row with identifier `id` gets sidecar `sc`. */
  function SetSidecar(rows: seq<Row>, id: string, sc: Sidecar): (r: seq<Row>)
    ensures |r| == |rows|
    ensures forall i :: 0 <= i < |rows| ==>
              r[i] == if rows[i].id == id then rows[i].(sidecar := sc) else rows[i]
  {
    seq(|rows|, i requires 0 <= i < |rows| =>
      if rows[i].id == id then rows[i].(sidecar := sc) else rows[i])
  }

  /** Every draft with identifier `id` gets sidecar `sc` and the keys of
      `extra`; a fresh draft with just those is appended when there is none. */
  function WriteDraft(drafts: seq<Row>, id: string, sc: Sidecar, extra: Fields): (r: seq<Row>)
    ensures |r| == |drafts| + (if HasDraft(drafts, id) then 0 else 1)
    ensures UniqueIds(drafts) ==> UniqueIds(r)
    ensures HasDraft(r, id)
    ensures forall i :: 0 <= i < |drafts| && drafts[i].id != id ==> r[i] == drafts[i]
    ensures forall i :: 0 <= i < |drafts| && drafts[i].id == id ==>
              r[i] == drafts[i].(fields := drafts[i].fields + extra, sidecar := sc)
    ensures !HasDraft(drafts, id) ==> r[|drafts|] == Row(id, extra, sc)
    ensures forall i :: 0 <= i < |r| && r[i].id == id ==>
              (&& r[i].sidecar == sc
               && extra.Keys <= r[i].fields.Keys
               && forall k :: k in extra ==> r[i].fields[k] == extra[k])
  {
    if HasDraft(drafts, id) then
      var r := seq(|drafts|, i requires 0 <= i < |drafts| =>
        if drafts[i].id == id then drafts[i].(fields := drafts[i].fields + extra, sidecar := sc) else drafts[i]);
      assert Ids(r) == Ids(drafts);
      r
    else
      var r := drafts + [Row(id, extra, sc)];
      assert r[|drafts|].id == id;
      r
  }

  /** `s` with `x` inserted at index `k`. */
  function InsertAt<T>(s: seq<T>, k: nat, x: T): (r: seq<T>)
    requires k <= |s|
    ensures |r| == |s| + 1 && r[k] == x
    ensures forall i :: 0 <= i < k ==> r[i] == s[i]
    ensures forall i :: k < i < |r| ==> r[i] == s[i - 1]
  {
    s[..k] + [x] + s[k..]
  }

  /** `s` without its element at index `k`. */
  function RemoveAt<T>(s: seq<T>, k: nat): (r: seq<T>)
    requires k < |s|
    ensures |r| == |s| - 1
    ensures forall i :: 0 <= i < k ==> r[i] == s[i]
    ensures forall i :: k <= i < |r| ==> r[i] == s[i + 1]
  {
    s[..k] + s[k + 1..]
  }

  /** `addrow`: a variant of `row` is generated; its sidecar list (a falsy
      sidecar counts as an empty list, one that does not decode to a list
      makes `push` throw) gets the variant appended; every display row and
      every draft with the row's identifier records the new list (a draft
      is created if there is none); and the variant's display row is
      inserted right after the first display row with that identifier, or at
      the top when there is none. */
  function AddRow(g: Grid, row: Row, draws: seq<nat>): (r: Outcome<Grid>)
    requires ValidDraws(draws) && |draws| == SuffixLength
    ensures r.Throws? <==> SidecarTruthy(row.sidecar) && !row.sidecar.Encoded?
    ensures r.Ok? ==>
              var v := GenerateVirtualItem(row, RandomString(draws));
              var sc := Encoded(Listed(row.sidecar) + [v]);
              var at := FindRowIndexById(g.rows, row.id) + 1;
              && r.value.rows == InsertAt(SetSidecar(g.rows, row.id, sc), at, AsRow(v))
              && r.value.drafts == WriteDraft(g.drafts, row.id, sc, map[])
  {
    if SidecarTruthy(row.sidecar) && !row.sidecar.Encoded? then Throws
    else Ok(AddVariant(g, row, GenerateVirtualItem(row, RandomString(draws))))
  }

  /** The grid with the variant `v` of `row` listed and displayed. */
  function AddVariant(g: Grid, row: Row, v: VirtualItem): Grid {
    var sc := Encoded(Listed(row.sidecar) + [v]);
    var rows := SetSidecar(g.rows, row.id, sc);
    var at := FindRowIndexById(g.rows, row.id) + 1;
    Grid(InsertAt(rows, at, AsRow(v)), WriteDraft(g.drafts, row.id, sc, map[]))
  }

  /** The list without the last variant named `id`; when none is named
      `id` the splice index is `undefined`, which removes the first one. */
  function RemoveVariant(items: seq<VirtualItem>, id: string): (r: seq<VirtualItem>)
    ensures |r| == if items == [] then 0 else |items| - 1
    ensures id !in ItemIds(items) && items != [] ==> r == items[1..]
    ensures id in ItemIds(items) ==>
              exists k :: && 0 <= k < |items| && items[k].id == id
                          && (forall j :: k < j < |items| ==> items[j].id != id)
                          && r == items[..k] + items[k + 1..]
  {
    match LastIndex(ItemIds(items), id)
    case Some(k) => RemoveAt(items, k)
    case None => if items == [] then [] else RemoveAt(items, 0)
  }

  /** `deleteRow`: the variant is removed from its parent's sidecar list;
      every draft with the parent's identifier records the remaining list
      (with an empty list, a `null` sidecar and a `null` A/B label); every
      display row with that identifier records it (an empty text when the
      list is empty); the first display row with the variant's identifier
      is removed. A missing parent, or a parent whose sidecar is not a
      list, makes it throw. */
  function DeleteRow(g: Grid, row: Row): (r: Outcome<Grid>)
    ensures var p := GetParentRow(g.rows, row);
            r.Throws? <==> p.None? || !p.value.sidecar.Encoded?
    ensures r.Ok? ==>
              var pid := ParentId(row.id);
              var rest := RemoveVariant(GetParentRow(g.rows, row).value.sidecar.items, row.id);
              var at := FindRowIndexById(g.rows, row.id);
              var rows := SetSidecar(g.rows, pid, if rest == [] then Blank else Encoded(rest));
              && r.value.rows == (if at == -1 then rows else RemoveAt(rows, at))
              && r.value.drafts == WriteDraft(g.drafts, pid,
                   if rest == [] then NullJson else Encoded(rest),
                   if rest == [] then map[AbField := None] else map[])
  {
    var p := GetParentRow(g.rows, row);
    if p.None? || !p.value.sidecar.Encoded? then Throws
    else
      var pid := ParentId(row.id);
      var rest := RemoveVariant(p.value.sidecar.items, row.id);
      var empty := rest == [];
      var drafts := WriteDraft(g.drafts, pid, if empty then NullJson else Encoded(rest),
                               if empty then map[AbField := None] else map[]);
      var rows := SetSidecar(g.rows, pid, if empty then Blank else Encoded(rest));
      var at := FindRowIndexById(g.rows, row.id);
      Ok(Grid(if at == -1 then rows else RemoveAt(rows, at), drafts))
  }

  // ---------------------------------------------------------------------
  // Properties

  /** The last variant named `id` is the one removed, whatever precedes or
      follows it. */
  lemma RemoveLastVariant(items: seq<VirtualItem>, k: nat)
    requires k < |items|
    requires forall j :: k < j < |items| ==> items[j].id != items[k].id
    ensures RemoveVariant(items, items[k].id) == items[..k] + items[k + 1..]
  {
    var ids := ItemIds(items);
    assert ids[k] == items[k].id;
    assert LastIndex(ids, items[k].id) == Some(k);
  }

  /** Removing the first row named `id` from a rowset with unique
      identifiers (after rewriting the sidecars of the rows named `pid`)
      leaves no row named `id` and keeps every row with another identifier. */
  lemma RemoveFirstOfUnique(rows: seq<Row>, id: string, pid: string, sc: Sidecar)
    requires UniqueIds(rows) && id in Ids(rows) && id != pid
    ensures var at := FindRowIndexById(rows, id);
            var r := RemoveAt(SetSidecar(rows, pid, sc), at);
            && |r| == |rows| - 1
            && id !in Ids(r)
            && forall i :: 0 <= i < |rows| && rows[i].id != id && rows[i].id != pid ==> rows[i] in r
  {
    var at := FindRowIndexById(rows, id);
    var set' := SetSidecar(rows, pid, sc);
    var r := RemoveAt(set', at);
    forall i | 0 <= i < |r| ensures r[i].id != id {
      if i < at {
        assert r[i].id == rows[i].id;
      } else {
        assert r[i].id == rows[i + 1].id;
      }
    }
    forall i | 0 <= i < |rows| && rows[i].id != id && rows[i].id != pid
      ensures rows[i] in r
    {
      if i < at {
        assert r[i] == rows[i];
      } else {
        assert r[i - 1] == rows[i];
      }
    }
  }

  /** With unique display identifiers, deleting a variant that is on
      display takes its row off the display and leaves every row other than
      the variant and its parent in place. */
  lemma DeleteRemovesVariantRow(g: Grid, row: Row)
    requires UniqueIds(g.rows) && DeleteRow(g, row).Ok?
    requires row.id in Ids(g.rows) && IsVirtualId(row.id)
    ensures var rows := DeleteRow(g, row).value.rows;
            && |rows| == |g.rows| - 1
            && row.id !in Ids(rows)
            && forall i :: 0 <= i < |g.rows| && g.rows[i].id != row.id && g.rows[i].id != ParentId(row.id) ==>
                 g.rows[i] in rows
  {
    var pid := ParentId(row.id);
    var rest := RemoveVariant(GetParentRow(g.rows, row).value.sidecar.items, row.id);
    RemoveFirstOfUnique(g.rows, row.id, pid, if rest == [] then Blank else Encoded(rest));
  }

  /** Inserting a row with a fresh identifier right after row `p` (after
      rewriting the sidecar of the rows named like `p`) keeps identifiers
      unique and makes the new row the first one with its identifier. */
  lemma InsertAfterUnique(rows: seq<Row>, p: nat, sc: Sidecar, x: Row)
    requires UniqueIds(rows) && p < |rows| && x.id !in Ids(rows)
    ensures var r := InsertAt(SetSidecar(rows, rows[p].id, sc), p + 1, x);
            && UniqueIds(r)
            && r[p] == rows[p].(sidecar := sc)
            && FindRowIndexById(r, x.id) == p + 1
  {
    var r := InsertAt(SetSidecar(rows, rows[p].id, sc), p + 1, x);
    forall i, j | 0 <= i < j < |r| ensures r[i].id != r[j].id {
      if j < p + 1 {
        assert r[i].id == rows[i].id && r[j].id == rows[j].id;
      } else if j == p + 1 {
        assert r[i].id == rows[i].id;
      } else if i == p + 1 {
        assert r[j].id == rows[j - 1].id;
      } else if i < p + 1 {
        assert r[i].id == rows[i].id && r[j].id == rows[j - 1].id;
      } else {
        assert r[i].id == rows[i - 1].id && r[j].id == rows[j - 1].id;
      }
    }
    forall i | 0 <= i < p + 1 ensures r[i].id != x.id {
      assert r[i].id == rows[i].id;
    }
  }

  /** Taking the inserted row out again, after writing a second sidecar,
      gives the original rowset with that sidecar. */
  lemma InsertThenRemove(rows: seq<Row>, p: nat, id: string, sc1: Sidecar, sc2: Sidecar, x: Row)
    requires p < |rows| && x.id != id
    ensures RemoveAt(SetSidecar(InsertAt(SetSidecar(rows, id, sc1), p + 1, x), id, sc2), p + 1)
            == SetSidecar(rows, id, sc2)
  {
    var a := RemoveAt(SetSidecar(InsertAt(SetSidecar(rows, id, sc1), p + 1, x), id, sc2), p + 1);
    var b := SetSidecar(rows, id, sc2);
    forall i | 0 <= i < |rows| ensures a[i] == b[i] {
      if i < p + 1 {
        assert a[i] == SetSidecar(InsertAt(SetSidecar(rows, id, sc1), p + 1, x), id, sc2)[i];
      } else {
        assert a[i] == SetSidecar(InsertAt(SetSidecar(rows, id, sc1), p + 1, x), id, sc2)[i + 1];
      }
    }
  }

  /** Adding a variant to a row on display and deleting that variant again
      restores the parent's sidecar list: the display rowset is the original
      one with that list written back (an empty text when it is empty), and
      every draft of the parent records the list (with a `null` sidecar and
      A/B label when it is empty). */
  lemma AddThenDelete(g: Grid, p: nat, draws: seq<nat>)
    requires UniqueIds(g.rows) && p < |g.rows| && !IsVirtualId(g.rows[p].id)
    requires ValidDraws(draws) && |draws| == SuffixLength
    requires !SidecarTruthy(g.rows[p].sidecar) || g.rows[p].sidecar.Encoded?
    requires GenerateVirtualItem(g.rows[p], RandomString(draws)).id !in Ids(g.rows)
    ensures AddRow(g, g.rows[p], draws).Ok?
    ensures var v := GenerateVirtualItem(g.rows[p], RandomString(draws));
            var g1 := AddRow(g, g.rows[p], draws).value;
            var list := Listed(g.rows[p].sidecar);
            && DeleteRow(g1, AsRow(v)).Ok?
            && DeleteRow(g1, AsRow(v)).value.rows
                 == SetSidecar(g.rows, g.rows[p].id, if list == [] then Blank else Encoded(list))
            && DeleteRow(g1, AsRow(v)).value.drafts
                 == WriteDraft(g1.drafts, g.rows[p].id,
                      if list == [] then NullJson else Encoded(list),
                      if list == [] then map[AbField := None] else map[])
  {
    var v := GenerateVirtualItem(g.rows[p], RandomString(draws));
    VariantLeadsToParent(g.rows[p], draws);
    assert AddRow(g, g.rows[p], draws) == Ok(AddVariant(g, g.rows[p], v));
    DeleteUndoesAdd(g, p, v);
  }

  /** `AddThenDelete` for any variant whose identifier is new and leads
      back to the row at `p`. */
  lemma DeleteUndoesAdd(g: Grid, p: nat, v: VirtualItem)
    requires UniqueIds(g.rows) && p < |g.rows|
    requires v.id !in Ids(g.rows) && ParentId(v.id) == g.rows[p].id
    ensures var g1 := AddVariant(g, g.rows[p], v);
            var list := Listed(g.rows[p].sidecar);
            && DeleteRow(g1, AsRow(v)).Ok?
            && DeleteRow(g1, AsRow(v)).value.rows
                 == SetSidecar(g.rows, g.rows[p].id, if list == [] then Blank else Encoded(list))
            && DeleteRow(g1, AsRow(v)).value.drafts
                 == WriteDraft(g1.drafts, g.rows[p].id,
                      if list == [] then NullJson else Encoded(list),
                      if list == [] then map[AbField := None] else map[])
  {
    var row := g.rows[p];
    var list := Listed(row.sidecar);
    var sc1 := Encoded(list + [v]);
    UniqueLookup(g.rows, p);
    assert FindRowIndexById(g.rows, row.id) == p;
    var g1 := AddVariant(g, row, v);
    assert g1.rows == InsertAt(SetSidecar(g.rows, row.id, sc1), p + 1, AsRow(v));
    InsertAfterUnique(g.rows, p, sc1, AsRow(v));
    UniqueLookup(g1.rows, p);
    assert GetParentRow(g1.rows, AsRow(v)) == Some(g1.rows[p]);
    RemoveLastVariant(list + [v], |list|);
    assert (list + [v])[..|list|] + (list + [v])[|list| + 1..] == list;
    var s := if list == [] then Blank else Encoded(list);
    InsertThenRemove(g.rows, p, row.id, sc1, s, AsRow(v));
  }

  /** Writing a row's own sidecar back changes nothing when identifiers are
      unique. */
  lemma SetOwnSidecar(rows: seq<Row>, p: nat)
    requires UniqueIds(rows) && p < |rows|
    ensures SetSidecar(rows, rows[p].id, rows[p].sidecar) == rows
  {
    var r := SetSidecar(rows, rows[p].id, rows[p].sidecar);
    assert forall i :: 0 <= i < |rows| ==> r[i] == rows[i];
  }

  /** For a row that already has variants, adding one and deleting it
      again gives back exactly the display rowset it started from. */
  lemma AddThenDeleteRestoresRows(g: Grid, p: nat, draws: seq<nat>)
    requires UniqueIds(g.rows) && p < |g.rows| && !IsVirtualId(g.rows[p].id)
    requires ValidDraws(draws) && |draws| == SuffixLength
    requires g.rows[p].sidecar.Encoded? && g.rows[p].sidecar.items != []
    requires GenerateVirtualItem(g.rows[p], RandomString(draws)).id !in Ids(g.rows)
    ensures AddRow(g, g.rows[p], draws).Ok?
    ensures var v := GenerateVirtualItem(g.rows[p], RandomString(draws));
            var g1 := AddRow(g, g.rows[p], draws).value;
            DeleteRow(g1, AsRow(v)).Ok? && DeleteRow(g1, AsRow(v)).value.rows == g.rows
  {
    AddThenDelete(g, p, draws);
    SetOwnSidecar(g.rows, p);
  }
}
