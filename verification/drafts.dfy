/** The draft reconciler: per-cell edit events and store-number modal edits
    merged into the persistent draft list, one draft per identifier
    (`handleCellChange`, the draft-merge part of `handleChange`). */
module Drafts {
  import opened Options
  import opened Strings
  import opened Records
  import opened FieldRules
  import opened RowModel

  predicate HasDraft(drafts: seq<Row>, id: string) {
    exists i :: 0 <= i < |drafts| && drafts[i].id == id
  }

  /** The fields of the draft for `id`, or none at all. */
  function DraftFields(drafts: seq<Row>, id: string): Fields {
    match Lookup(drafts, id)
    case Some(d) => d.fields
    case None => map[]
  }

  /** Copying every key of the event onto the existing draft. */
  function MergeDraft(d: Row, e: Row): (m: Row)
    ensures m.id == d.id
    ensures m.fields.Keys == d.fields.Keys + e.fields.Keys
    ensures forall k :: k in e.fields ==> m.fields[k] == e.fields[k]
    ensures forall k :: k in d.fields && k !in e.fields ==> m.fields[k] == d.fields[k]
    ensures m.sidecar == (if e.sidecar.Missing? then d.sidecar else e.sidecar)
  {
    Row(d.id, d.fields + e.fields, if e.sidecar.Missing? then d.sidecar else e.sidecar)
  }

  /** `handleCellChange`: an empty draft list adopts the event's list as it
      is; otherwise the event's first draft is merged into every draft with
      its identifier, or appended when there is none. */
  function HandleCellChange(persistent: seq<Row>, event: seq<Row>): (r: seq<Row>)
    requires persistent != [] ==> event != []
    ensures persistent == [] ==> r == event
    ensures persistent != [] ==>
              |r| == |persistent| + (if HasDraft(persistent, event[0].id) then 0 else 1)
    ensures persistent != [] && UniqueIds(persistent) ==> UniqueIds(r)
    ensures persistent != [] ==> forall i :: 0 <= i < |persistent| && persistent[i].id == event[0].id ==>
              r[i] == MergeDraft(persistent[i], event[0])
    ensures persistent != [] && !HasDraft(persistent, event[0].id) ==> r[|persistent|] == event[0]
    ensures persistent != [] ==> forall i :: 0 <= i < |persistent| ==>
              r[i].id == persistent[i].id
              && (persistent[i].id != event[0].id ==> r[i] == persistent[i])
    ensures persistent != [] && UniqueIds(persistent) ==>
              var e, f := event[0], DraftFields(r, event[0].id);
              && Lookup(r, e.id).Some?
              && f.Keys == DraftFields(persistent, e.id).Keys + e.fields.Keys
              && (forall k :: k in e.fields ==> f[k] == e.fields[k])
              && (forall k :: k in DraftFields(persistent, e.id) && k !in e.fields ==>
                    f[k] == DraftFields(persistent, e.id)[k])
  {
    if persistent == [] then event
    else
      var e := event[0];
      if HasDraft(persistent, e.id) then
        var r := seq(|persistent|, i requires 0 <= i < |persistent| =>
          if persistent[i].id == e.id then MergeDraft(persistent[i], e) else persistent[i]);
        assert Ids(r) == Ids(persistent);
        MergedLookup(persistent, r, e);
        r
      else
        var r := persistent + [e];
        assert Ids(r) == Ids(persistent) + [e.id];
        assert e.id !in Ids(persistent);
        assert Lookup(r, e.id) == Some(e);
        r
  }

  lemma MergedLookup(persistent: seq<Row>, r: seq<Row>, e: Row)
    requires |r| == |persistent| && HasDraft(persistent, e.id)
    requires forall i :: 0 <= i < |persistent| ==>
               r[i] == if persistent[i].id == e.id then MergeDraft(persistent[i], e) else persistent[i]
    ensures Lookup(r, e.id).Some?
    ensures Lookup(r, e.id) == Some(MergeDraft(Lookup(persistent, e.id).value, e))
  {
    assert Ids(r) == Ids(persistent);
  }

  /** Applying single-draft edit events one after another. */
  function ApplyEdits(drafts: seq<Row>, edits: seq<Row>): seq<Row>
    decreases |edits|
  {
    if edits == [] then drafts
    else HandleCellChange(ApplyEdits(drafts, edits[..|edits| - 1]), [edits[|edits| - 1]])
  }

  /** One edit event for `x`: the draft for `x` becomes the earlier one
      (or nothing) overlaid with the event's keys. */
  lemma OneEdit(before: seq<Row>, e: Row)
    requires UniqueIds(before)
    ensures UniqueIds(HandleCellChange(before, [e]))
    ensures DraftFields(HandleCellChange(before, [e]), e.id) == DraftFields(before, e.id) + e.fields
  {
    var after := HandleCellChange(before, [e]);
    if before == [] {
      assert after == [e];
      assert Ids(after) == [e.id];
      assert Lookup(after, e.id) == Some(e);
    } else {
      var f := DraftFields(after, e.id);
      assert f.Keys == (DraftFields(before, e.id) + e.fields).Keys;
    }
  }

  /** The keys of `edits` laid over `f`, later edits winning. */
  function Overlay(f: Fields, edits: seq<Row>): Fields
    decreases |edits|
  {
    if edits == [] then f else Overlay(f, edits[..|edits| - 1]) + edits[|edits| - 1].fields
  }

  lemma {:induction false} ApplyEditsOverlays(drafts: seq<Row>, edits: seq<Row>, x: string)
    requires UniqueIds(drafts)
    requires forall j :: 0 <= j < |edits| ==> edits[j].id == x
    ensures UniqueIds(ApplyEdits(drafts, edits))
    ensures DraftFields(ApplyEdits(drafts, edits), x) == Overlay(DraftFields(drafts, x), edits)
    decreases |edits|
  {
    if edits != [] {
      var n := |edits| - 1;
      ApplyEditsOverlays(drafts, edits[..n], x);
      OneEdit(ApplyEdits(drafts, edits[..n]), edits[n]);
    }
  }

  /** Some edit after position `j` also carries `k`. */
  predicate OverwrittenLater(edits: seq<Row>, j: nat, k: string) {
    exists j' :: j < j' < |edits| && k in edits[j'].fields
  }

  /** The overlay holds exactly the keys of `f` and of the edits. */
  lemma {:induction false} OverlayKeys(f: Fields, edits: seq<Row>, k: string)
    ensures k in Overlay(f, edits) <==> k in f || exists j :: 0 <= j < |edits| && k in edits[j].fields
    decreases |edits|
  {
    if edits != [] {
      var n := |edits| - 1;
      var prefix := edits[..n];
      OverlayKeys(f, prefix, k);
      if k in Overlay(f, prefix) && !(k in f) {
        var j :| 0 <= j < |prefix| && k in prefix[j].fields;
        assert edits[j] == prefix[j];
      }
      if k !in f && k !in edits[n].fields && exists j :: 0 <= j < |edits| && k in edits[j].fields {
        var j :| 0 <= j < |edits| && k in edits[j].fields;
        assert prefix[j] == edits[j];
      }
    }
  }

  /** A key takes the value of the last edit that carries it. */
  lemma {:induction false} OverlayLatestWins(f: Fields, edits: seq<Row>, j: nat, k: string)
    requires j < |edits| && k in edits[j].fields && !OverwrittenLater(edits, j, k)
    ensures k in Overlay(f, edits) && Overlay(f, edits)[k] == edits[j].fields[k]
    decreases |edits|
  {
    var n := |edits| - 1;
    var prefix := edits[..n];
    if j < n {
      assert k !in edits[n].fields;
      assert prefix[j] == edits[j];
      forall j' | j < j' < |prefix|
        ensures k !in prefix[j'].fields
      {
        assert prefix[j'] == edits[j'];
      }
      OverlayLatestWins(f, prefix, j, k);
    }
  }

  /** A key no edit carries keeps its earlier value. */
  lemma {:induction false} OverlayKeepsUntouched(f: Fields, edits: seq<Row>, k: string)
    requires k in f && forall j :: 0 <= j < |edits| ==> k !in edits[j].fields
    ensures k in Overlay(f, edits) && Overlay(f, edits)[k] == f[k]
    decreases |edits|
  {
    if edits != [] {
      var n := |edits| - 1;
      var prefix := edits[..n];
      assert k !in edits[n].fields;
      forall j | 0 <= j < |prefix| ensures k !in prefix[j].fields {
        assert prefix[j] == edits[j];
      }
      OverlayKeepsUntouched(f, prefix, k);
    }
  }

  /** Draft merging is field-additive: after any run of edits to the same
      identifier the draft holds exactly the keys the earlier draft or some
      edit carried, each with the value of the latest edit that carried it,
      and the list still holds one draft per identifier. */
  lemma EditsAccumulate(drafts: seq<Row>, edits: seq<Row>, x: string)
    requires UniqueIds(drafts)
    requires forall j :: 0 <= j < |edits| ==> edits[j].id == x
    ensures UniqueIds(ApplyEdits(drafts, edits))
    ensures forall k :: k in DraftFields(ApplyEdits(drafts, edits), x) <==>
              k in DraftFields(drafts, x) || exists j :: 0 <= j < |edits| && k in edits[j].fields
    ensures forall j, k :: 0 <= j < |edits| && k in edits[j].fields && !OverwrittenLater(edits, j, k) ==>
              DraftFields(ApplyEdits(drafts, edits), x)[k] == edits[j].fields[k]
    ensures forall k :: k in DraftFields(drafts, x) && (forall j :: 0 <= j < |edits| ==> k !in edits[j].fields) ==>
              DraftFields(ApplyEdits(drafts, edits), x)[k] == DraftFields(drafts, x)[k]
  {
    ApplyEditsOverlays(drafts, edits, x);
    var f := DraftFields(drafts, x);
    forall k ensures k in Overlay(f, edits) <==> k in f || exists j :: 0 <= j < |edits| && k in edits[j].fields {
      OverlayKeys(f, edits, k);
    }
    forall j, k | 0 <= j < |edits| && k in edits[j].fields && !OverwrittenLater(edits, j, k)
      ensures k in Overlay(f, edits) && Overlay(f, edits)[k] == edits[j].fields[k]
    {
      OverlayLatestWins(f, edits, j, k);
    }
    forall k | k in f && (forall j :: 0 <= j < |edits| ==> k !in edits[j].fields)
      ensures k in Overlay(f, edits) && Overlay(f, edits)[k] == f[k]
    {
      OverlayKeepsUntouched(f, edits, k);
    }
  }

  // ---------------------------------------------------------------------
  // The store-number modal (`handleChange`).
  // ---------------------------------------------------------------------

  datatype ModalOutcome =
    | Applied(rows: seq<Row>, drafts: seq<Row>)
    | FormatRejected(message: string)

  /** Sets one property on every draft with identifier `id`, or appends a
      draft holding only that property when there is none. */
  function SetDraftField(drafts: seq<Row>, id: string, key: string, v: Option<string>): (r: seq<Row>)
    ensures |r| == |drafts| + (if HasDraft(drafts, id) then 0 else 1)
    ensures UniqueIds(drafts) ==> UniqueIds(r)
    ensures forall i :: 0 <= i < |drafts| ==> r[i].id == drafts[i].id && r[i].sidecar == drafts[i].sidecar
    ensures forall i :: 0 <= i < |drafts| && drafts[i].id != id ==> r[i] == drafts[i]
    ensures forall i :: 0 <= i < |drafts| && drafts[i].id == id ==> r[i] == drafts[i].(fields := drafts[i].fields[key := v])
    ensures !HasDraft(drafts, id) ==> r[|drafts|] == Row(id, map[key := v], Missing)
  {
    if HasDraft(drafts, id) then
      seq(|drafts|, i requires 0 <= i < |drafts| =>
        if drafts[i].id == id then drafts[i].(fields := drafts[i].fields[key := v]) else drafts[i])
    else drafts + [Row(id, map[key := v], Missing)]
  }

  /** Sets one property on every display row with identifier `id`. */
  function SetRowField(rows: seq<Row>, id: string, key: string, v: Option<string>): (r: seq<Row>)
    ensures |r| == |rows|
    ensures forall i :: 0 <= i < |rows| ==> r[i].id == rows[i].id && r[i].sidecar == rows[i].sidecar
    ensures forall i :: 0 <= i < |rows| ==>
              r[i] == if rows[i].id == id then rows[i].(fields := rows[i].fields[key := v]) else rows[i]
  {
    seq(|rows|, i requires 0 <= i < |rows| =>
      if rows[i].id == id then rows[i].(fields := rows[i].fields[key := v]) else rows[i])
  }

  /** The draft-merge part of `handleChange`: the typed text is
      canonicalised; a non-empty result that is not a store-number list is
      refused; otherwise it is written into the row's draft and the row's
      store label is recomputed. */
  function HandleChange(rows: seq<Row>, drafts: seq<Row>, rowId: string, field: string,
                        labelField: string, typed: string): (r: ModalOutcome)
    ensures var v := FormatNumberSetFieldValue(typed);
            r.Applied? <==> v == "" || StoreNumbersFormat(v)
    ensures r.FormatRejected? ==> r.message == StoreNumbersMessage
    ensures r.Applied? ==>
              var v := FormatNumberSetFieldValue(typed);
              && (UniqueIds(drafts) ==> UniqueIds(r.drafts))
              && |r.drafts| == |drafts| + (if HasDraft(drafts, rowId) then 0 else 1)
              && (forall i :: 0 <= i < |drafts| && drafts[i].id != rowId ==> r.drafts[i] == drafts[i])
              && (forall i :: 0 <= i < |r.drafts| && r.drafts[i].id == rowId ==>
                    Read(r.drafts[i].fields, field) == Text(v))
              && (forall i :: 0 <= i < |drafts| && drafts[i].id == rowId ==>
                    r.drafts[i] == drafts[i].(fields := drafts[i].fields[field := Some(v)]))
              && (!HasDraft(drafts, rowId) ==> r.drafts[|drafts|] == Row(rowId, map[field := Some(v)], Missing))
              && |r.rows| == |rows|
              && (forall i :: 0 <= i < |rows| && rows[i].id != rowId ==> r.rows[i] == rows[i])
              && (forall i :: 0 <= i < |rows| && rows[i].id == rowId ==>
                    r.rows[i] == rows[i].(fields := rows[i].fields[labelField := Some(StoreLabel(Text(v)))]))
  {
    var v := FormatNumberSetFieldValue(typed);
    if v != "" && !StoreNumbersFormat(v) then FormatRejected(StoreNumbersMessage)
    else
      var drafts' := SetDraftField(drafts, rowId, field, Some(v));
      var rows' := SetRowField(rows, rowId, labelField, Some(StoreLabel(Text(v))));
      Applied(rows', drafts')
  }

  /** An accepted store-number modal edit changes the drafts exactly as a
      cell-edit event carrying the canonicalised value would. */
  lemma ModalEditIsCellEdit(rows: seq<Row>, drafts: seq<Row>, rowId: string, field: string,
                            labelField: string, typed: string)
    requires HandleChange(rows, drafts, rowId, field, labelField, typed).Applied?
    ensures var e := Row(rowId, map[field := Some(FormatNumberSetFieldValue(typed))], Missing);
            HandleChange(rows, drafts, rowId, field, labelField, typed).drafts == HandleCellChange(drafts, [e])
  {
    var v := FormatNumberSetFieldValue(typed);
    var e := Row(rowId, map[field := Some(v)], Missing);
    var r := HandleChange(rows, drafts, rowId, field, labelField, typed).drafts;
    var c := HandleCellChange(drafts, [e]);
    if drafts != [] && HasDraft(drafts, rowId) {
      forall i | 0 <= i < |drafts| && drafts[i].id == rowId
        ensures c[i] == r[i]
      {
        assert drafts[i].fields + e.fields == drafts[i].fields[field := Some(v)];
      }
      assert |c| == |r|;
    }
  }
}
