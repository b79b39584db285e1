/** The save pipeline (`handleSave`): every draft is normalised and
    validated, virtual drafts are folded into their parent's sidecar list,
    real drafts are merged by identifier, and the resulting changeset is
    persisted only when every draft is valid and the A/B labels check out. */
module Save {
  import opened Options
  import opened Strings
  import opened Records
  import opened FieldRules
  import opened RowModel
  import opened VirtualRows
  import opened ABLabels

  /** The properties whose change triggers the slower success message
      announcing a recalculation. */
  const EvaluationFields: set<string> := {AbField, ConfirmedStoresField, "EvaluationNASA__c"}

  /** A truthy A/B label is upper-cased, then the number-set properties are
      canonicalised; a `null` number-set property makes `replaceAll` throw
      (`None`). */
  function Prepare(item: Row): (r: Option<Row>)
    ensures r.None? <==> exists k :: k in item.fields && k in NumberSetFields && item.fields[k].None?
    ensures r.Some? ==> r.value.id == item.id && r.value.sidecar == item.sidecar
    ensures r.Some? ==> r.value.fields.Keys == item.fields.Keys
    ensures r.Some? && Truthy(Ab(item)) ==>
              Ab(r.value) == Text(ToUpper(Ab(item).s))
    ensures r.Some? && !Truthy(Ab(item)) ==> Ab(r.value) == Ab(item)
    ensures r.Some? ==> forall k :: k in item.fields && k !in NumberSetFields && k != AbField ==>
              r.value.fields[k] == item.fields[k]
    ensures r.Some? ==> forall k :: k in item.fields && k in NumberSetFields ==>
              r.value.fields[k] == if item.fields[k] == Some("") then Some("")
                                   else Some(FormatNumberSetFieldValue(item.fields[k].value))
  {
    var up := if Truthy(Ab(item)) then item.(fields := item.fields[AbField := Some(ToUpper(Ab(item).s))]) else item;
    assert AbField !in NumberSetFields;
    FormatNumberSetFields(up)
  }

  /** The draft names a property that calls for a recalculation. */
  predicate TouchesEvaluation(item: Row) {
    exists k :: k in item.fields && k in EvaluationFields
  }

  /** No number-set property of the draft is `null` (which would make
      `replaceAll` throw). */
  predicate NumberSetsPresent(item: Row) {
    forall k :: k in item.fields && k in NumberSetFields ==> item.fields[k].Some?
  }

  /** Every draft normalised, or `None` when one of them holds a `null`
      number-set property. */
  function PrepareAll(drafts: seq<Row>): (r: Option<seq<Row>>)
    ensures r.None? <==> exists i :: 0 <= i < |drafts| && !NumberSetsPresent(drafts[i])
    ensures r.Some? ==> |r.value| == |drafts|
    ensures r.Some? ==> forall i :: 0 <= i < |drafts| ==> Prepare(drafts[i]) == Some(r.value[i])
  {
    if exists i :: 0 <= i < |drafts| && Prepare(drafts[i]).None? then None
    else Some(seq(|drafts|, i requires 0 <= i < |drafts| => Prepare(drafts[i]).value))
  }

  /** The verdict of `validateItem` on each normalised draft. */
  function Checks(ps: seq<Row>): (oks: seq<bool>)
    ensures |oks| == |ps|
    ensures forall i :: 0 <= i < |ps| ==> (oks[i] <==> ItemValid(ps[i]))
  {
    seq(|ps|, i requires 0 <= i < |ps| => ItemValid(ps[i]))
  }

  /** `Map.set`: replaces the entry with the same identifier in place, or
      appends a new one. */
  function Put(changes: seq<Row>, r: Row): (c: seq<Row>)
    ensures |c| == |changes| + (if r.id in Ids(changes) then 0 else 1)
    ensures UniqueIds(changes) ==> UniqueIds(c)
    ensures forall i :: 0 <= i < |changes| && changes[i].id != r.id ==> c[i] == changes[i]
    ensures r in c
    ensures forall x :: x in c ==> x == r || x in changes
    ensures UniqueIds(changes) ==> Lookup(c, r.id) == Some(r)
  {
    var k := FirstIndex(Ids(changes), r.id);
    if k == -1 then
      var c := changes + [r];
      assert Ids(c) == Ids(changes) + [r.id];
      assert c[|changes|] == r;
      c
    else
      var c := changes[k := r];
      assert Ids(c) == Ids(changes);
      assert UniqueIds(changes) ==> Lookup(c, r.id) == Some(r) by {
        if UniqueIds(changes) { UniqueLookup(c, k); }
      }
      c
  }

  /** The edit `item` copied onto every listed variant with its identifier. */
  function FoldVariant(items: seq<VirtualItem>, item: Row): (r: seq<VirtualItem>)
    ensures |r| == |items|
    ensures forall i :: 0 <= i < |items| ==> r[i].id == items[i].id
    ensures forall i :: 0 <= i < |items| && items[i].id != item.id ==> r[i] == items[i]
    ensures forall i :: 0 <= i < |items| && items[i].id == item.id ==>
              && r[i].fields.Keys == items[i].fields.Keys + item.fields.Keys
              && (forall k :: k in item.fields ==> r[i].fields[k] == item.fields[k])
              && (forall k :: k in items[i].fields && k !in item.fields ==> r[i].fields[k] == items[i].fields[k])
  {
    seq(|items|, i requires 0 <= i < |items| =>
      if items[i].id == item.id then VirtualItem(items[i].id, items[i].fields + item.fields) else items[i])
  }

  /** The `Name` copied from the last display row with the entry's
      identifier; an `undefined` one drops the property from the payload. */
  function FillName(entry: Row, rows: seq<Row>): (r: Row)
    ensures r.id == entry.id && r.sidecar == entry.sidecar
    ensures forall k :: k != NameField ==> Read(r.fields, k) == Read(entry.fields, k)
    ensures LastById(rows, entry.id).Some? ==> Read(r.fields, NameField) == Read(LastById(rows, entry.id).value.fields, NameField)
    ensures LastById(rows, entry.id).None? ==> r == entry
  {
    match LastById(rows, entry.id)
    case None => entry
    case Some(d) =>
      match Read(d.fields, NameField)
      case Undefined => entry.(fields := entry.fields - {NameField})
      case Null => entry.(fields := entry.fields[NameField := None])
      case Text(s) => entry.(fields := entry.fields[NameField := Some(s)])
  }

  /** The changeset entry a virtual edit starts from: the parent's entry,
      given the displayed sidecar when it has none of its own, or a copy of
      the displayed parent row. */
  function VirtualBase(changes: seq<Row>, parent: Row): (b: Row)
    ensures b.id == parent.id
  {
    match Lookup(changes, parent.id)
    case Some(e) => if e.sidecar.Missing? then e.(sidecar := parent.sidecar) else e
    case None => parent
  }

  /** A virtual draft's edits folded into its parent's changeset entry. A
      truthy sidecar that is not a list makes the later `getFullABMap`
      throw; a falsy one drops the edits. */
  function FoldIntoParent(changes: seq<Row>, rows: seq<Row>, p: Row): (r: Outcome<seq<Row>>)
    ensures GetParentRow(rows, p).None? ==> r.Throws?
    ensures r.Throws? <==> || GetParentRow(rows, p).None?
                           || (var base := VirtualBase(changes, GetParentRow(rows, p).value);
                               SidecarTruthy(base.sidecar) && !base.sidecar.Encoded?)
    ensures GetParentRow(rows, p).Some? && !SidecarTruthy(VirtualBase(changes, GetParentRow(rows, p).value).sidecar) ==>
              && r.Ok? && |r.value| == |changes|
              && forall i :: 0 <= i < |changes| ==> r.value[i].id == changes[i].id && r.value[i].fields == changes[i].fields
    ensures r.Ok? ==> |changes| <= |r.value|
    ensures r.Ok? && UniqueIds(changes) ==> UniqueIds(r.value)
    ensures r.Ok? ==> forall x :: x in r.value ==> x in changes || x.id == ParentId(p.id)
    ensures r.Ok? ==> forall i :: 0 <= i < |changes| && changes[i].id != ParentId(p.id) ==> r.value[i] == changes[i]
    ensures r.Ok? && UniqueIds(changes) && Lookup(changes, ParentId(p.id)).Some? ==>
              && Lookup(r.value, ParentId(p.id)).Some?
              && Lookup(r.value, ParentId(p.id)).value.fields == Lookup(changes, ParentId(p.id)).value.fields
  {
    match GetParentRow(rows, p)
    case None => Throws
    case Some(parent) =>
      var base := VirtualBase(changes, parent);
      if SidecarTruthy(base.sidecar) then
        if !base.sidecar.Encoded? then Throws
        else Ok(Put(changes, base.(sidecar := Encoded(FoldVariant(base.sidecar.items, p)))))
      else if parent.id in Ids(changes) then Ok(Put(changes, base))
      else Ok(changes)
  }

  /** When the parent's sidecar lists variants, the edit of the virtual
      draft `p` ends up in its parent's entry: every listed variant with
      `p`'s identifier carries `p`'s properties, and the list keeps its
      length and order of identifiers. */
  lemma FoldsVariantEdit(changes: seq<Row>, rows: seq<Row>, p: Row)
    requires UniqueIds(changes) && GetParentRow(rows, p).Some?
    requires VirtualBase(changes, GetParentRow(rows, p).value).sidecar.Encoded?
    ensures FoldIntoParent(changes, rows, p).Ok?
    ensures var before := VirtualBase(changes, GetParentRow(rows, p).value).sidecar.items;
            var e := Lookup(FoldIntoParent(changes, rows, p).value, ParentId(p.id));
            && e.Some? && e.value.sidecar.Encoded?
            && |e.value.sidecar.items| == |before|
            && (forall i :: 0 <= i < |before| ==> e.value.sidecar.items[i].id == before[i].id)
            && (forall i, k :: 0 <= i < |before| && before[i].id == p.id && k in p.fields ==>
                  k in e.value.sidecar.items[i].fields && e.value.sidecar.items[i].fields[k] == p.fields[k])
            && (forall i, k :: 0 <= i < |before| && before[i].id == p.id && k in before[i].fields && k !in p.fields ==>
                  k in e.value.sidecar.items[i].fields && e.value.sidecar.items[i].fields[k] == before[i].fields[k])
            && (forall i :: 0 <= i < |before| && before[i].id != p.id ==> e.value.sidecar.items[i] == before[i])
            && (forall i :: 0 <= i < |changes| && changes[i].id != ParentId(p.id) ==>
                  FoldIntoParent(changes, rows, p).value[i] == changes[i])
  {
    var base := VirtualBase(changes, GetParentRow(rows, p).value);
    var folded := base.(sidecar := Encoded(FoldVariant(base.sidecar.items, p)));
    assert FoldIntoParent(changes, rows, p) == Ok(Put(changes, folded));
  }

  /** A real draft merged into the changeset entry with its identifier
      (keeping that entry's sidecar), with a missing `Name` filled in from
      the display rows. */
  function MergeReal(changes: seq<Row>, rows: seq<Row>, p: Row): (r: seq<Row>)
    ensures |r| == |changes| + (if p.id in Ids(changes) then 0 else 1)
    ensures UniqueIds(changes) ==> UniqueIds(r)
    ensures forall x :: x in r ==> x in changes || x.id == p.id
    ensures forall i :: 0 <= i < |changes| && changes[i].id != p.id ==> r[i] == changes[i]
    ensures UniqueIds(changes) ==> Lookup(r, p.id).Some?
    ensures UniqueIds(changes) ==> MergedEntry(Lookup(changes, p.id), p, rows, Lookup(r, p.id).value)
  {
    var entry := match Lookup(changes, p.id)
      case Some(e) => e.(fields := e.fields + p.fields)
      case None => p;
    var named := if Truthy(Read(p.fields, NameField)) then entry else FillName(entry, rows);
    assert MergedEntry(Lookup(changes, p.id), p, rows, named) by {
      assert forall k :: (Read(entry.fields, k) ==
        if k in p.fields then Read(p.fields, k)
        else if Lookup(changes, p.id).Some? then Read(Lookup(changes, p.id).value.fields, k) else Undefined);
    }
    Put(changes, named)
  }

  /** `e` is what `handleSave` keeps for the real draft `p`: the draft's
      properties over those of the earlier entry `prior` (whose sidecar
      wins), with a falsy `Name` replaced by the displayed one. */
  ghost predicate MergedEntry(prior: Option<Row>, p: Row, rows: seq<Row>, e: Row) {
    && e.id == p.id
    && e.sidecar == (if prior.Some? then prior.value.sidecar else p.sidecar)
    && (forall k :: k in p.fields && k != NameField ==> Read(e.fields, k) == Read(p.fields, k))
    && (forall k :: k !in p.fields && k != NameField ==>
          Read(e.fields, k) == (if prior.Some? then Read(prior.value.fields, k) else Undefined))
    && (Truthy(Read(p.fields, NameField)) ==> Read(e.fields, NameField) == Read(p.fields, NameField))
    && (!Truthy(Read(p.fields, NameField)) && LastById(rows, p.id).Some? ==>
          Read(e.fields, NameField) == Read(LastById(rows, p.id).value.fields, NameField))
  }

  /** One iteration of `handleSave`'s `forEach` on the changeset, for a
      normalised draft `p` whose `validateItem` verdict is `ok`: a rejected
      draft contributes nothing. */
  function Step(changes: seq<Row>, rows: seq<Row>, p: Row, ok: bool): (r: Outcome<seq<Row>>)
    ensures !ok ==> r == Ok(changes)
  {
    if !ok then Ok(changes)
    else if IsVirtualId(p.id) then FoldIntoParent(changes, rows, p)
    else Ok(MergeReal(changes, rows, p))
  }

  /** The changeset after the first `n` normalised drafts. */
  function Fold(ps: seq<Row>, oks: seq<bool>, rows: seq<Row>, n: nat): (r: Outcome<seq<Row>>)
    requires |oks| == |ps| && n <= |ps|
  {
    if n == 0 then Ok([])
    else
      match Fold(ps, oks, rows, n - 1)
      case Throws => Throws
      case Ok(changes) => Step(changes, rows, ps[n - 1], oks[n - 1])
  }

  /** The changeset is keyed: one entry per identifier, and only real
      records, since a virtual draft is filed under its parent. */
  ghost predicate RealKeyed(changes: seq<Row>) {
    UniqueIds(changes) && forall x :: x in changes ==> !IsVirtualId(x.id)
  }

  lemma StepKeepsRealKeyed(changes: seq<Row>, rows: seq<Row>, p: Row, ok: bool)
    requires RealKeyed(changes)
    requires Step(changes, rows, p, ok).Ok?
    ensures RealKeyed(Step(changes, rows, p, ok).value)
  {
    if ok && IsVirtualId(p.id) {
      var pid := ParentId(p.id);
      assert !IsVirtualId(pid);
    }
  }

  lemma {:induction false} FoldRealKeyed(ps: seq<Row>, oks: seq<bool>, rows: seq<Row>, n: nat)
    requires |oks| == |ps| && n <= |ps|
    requires Fold(ps, oks, rows, n).Ok?
    ensures RealKeyed(Fold(ps, oks, rows, n).value)
  {
    if n > 0 {
      FoldRealKeyed(ps, oks, rows, n - 1);
      StepKeepsRealKeyed(Fold(ps, oks, rows, n - 1).value, rows, ps[n - 1], oks[n - 1]);
    }
  }

  /** An update that leaves every entry with another identifier in place
      leaves the lookup of `id` alone. */
  lemma LookupUnchanged(changes: seq<Row>, r: seq<Row>, id: string, other: string)
    requires UniqueIds(changes) && UniqueIds(r) && |changes| <= |r| && id != other
    requires forall i :: 0 <= i < |changes| && changes[i].id != other ==> r[i] == changes[i]
    requires Lookup(changes, id).Some?
    ensures Lookup(r, id) == Lookup(changes, id)
  {
    var k :| 0 <= k < |changes| && changes[k] == Lookup(changes, id).value;
    UniqueLookup(changes, k);
    UniqueLookup(r, k);
  }

  /** The changeset entry for the real draft `p` carries `p`'s properties
      (its `Name` only when that is truthy). */
  ghost predicate KeepsDraft(changes: seq<Row>, p: Row) {
    && Lookup(changes, p.id).Some?
    && (forall k :: k in p.fields && k != NameField ==> Read(Lookup(changes, p.id).value.fields, k) == Read(p.fields, k))
    && (Truthy(Read(p.fields, NameField)) ==>
          Read(Lookup(changes, p.id).value.fields, NameField) == Read(p.fields, NameField))
  }

  /** A later step for a draft with another identifier does not undo what
      an earlier real draft put in the changeset. */
  lemma StepKeepsDraft(changes: seq<Row>, rows: seq<Row>, p: Row, ok: bool, d: Row)
    requires RealKeyed(changes) && KeepsDraft(changes, d) && p.id != d.id
    requires Step(changes, rows, p, ok).Ok?
    ensures KeepsDraft(Step(changes, rows, p, ok).value, d)
  {
    var r := Step(changes, rows, p, ok).value;
    StepKeepsRealKeyed(changes, rows, p, ok);
    if ok && IsVirtualId(p.id) {
      if ParentId(p.id) != d.id {
        LookupUnchanged(changes, r, d.id, ParentId(p.id));
      }
    } else if ok {
      LookupUnchanged(changes, r, d.id, p.id);
    }
  }

  /** An accepted real draft is in the changeset with its properties, and
      no later draft (they all have other identifiers) overwrites them. */
  lemma {:induction false} FoldKeepsRealDraft(ps: seq<Row>, oks: seq<bool>, rows: seq<Row>, n: nat, j: nat)
    requires |oks| == |ps| && j < n <= |ps| && UniqueIds(ps)
    requires oks[j] && !IsVirtualId(ps[j].id)
    requires Fold(ps, oks, rows, n).Ok?
    ensures KeepsDraft(Fold(ps, oks, rows, n).value, ps[j])
  {
    var before := Fold(ps, oks, rows, n - 1).value;
    FoldRealKeyed(ps, oks, rows, n - 1);
    if n - 1 == j {
      assert Fold(ps, oks, rows, n).value == MergeReal(before, rows, ps[j]);
    } else {
      FoldKeepsRealDraft(ps, oks, rows, n - 1, j);
      StepKeepsDraft(before, rows, ps[n - 1], oks[n - 1], ps[j]);
    }
  }

  /** The whole loop: normalisation, then the fold. A `TypeError` anywhere
      ends the save, whichever draft raised it first. */
  function Changeset(drafts: seq<Row>, rows: seq<Row>): (r: Outcome<seq<Row>>)
    ensures r.Ok? ==> PrepareAll(drafts).Some?
  {
    match PrepareAll(drafts)
    case None => Throws
    case Some(ps) => Fold(ps, Checks(ps), rows, |ps|)
  }

  /** The draft survives normalisation and passes `validateItem`. */
  predicate Accepted(item: Row) {
    Prepare(item).Some? && ItemValid(Prepare(item).value)
  }

  /** The flags in terms of the drafts themselves: normalisation keeps the
      set of property names, so touching an evaluation property does not
      depend on it. */
  lemma FlagsMeaning(drafts: seq<Row>)
    requires PrepareAll(drafts).Some?
    ensures var ps := PrepareAll(drafts).value;
            forall i :: 0 <= i < |ps| ==> (Checks(ps)[i] <==> Accepted(drafts[i]))
    ensures var ps := PrepareAll(drafts).value;
            forall i :: 0 <= i < |ps| ==> (TouchesEvaluation(ps[i]) <==> TouchesEvaluation(drafts[i]))
  {
    var ps := PrepareAll(drafts).value;
    forall i | 0 <= i < |ps|
      ensures Checks(ps)[i] <==> Accepted(drafts[i])
      ensures TouchesEvaluation(ps[i]) <==> TouchesEvaluation(drafts[i])
    {
      assert Prepare(drafts[i]) == Some(ps[i]);
      assert ps[i].fields.Keys == drafts[i].fields.Keys;
    }
  }

  /** What a save ends in: the changeset handed to the server together with
      the choice of success message, a refusal shown as error toasts, or a
      thrown `TypeError`. */
  datatype SaveOutcome = Persist(items: seq<Row>, recalculation: bool) | Rejected | Crashed

  /** `handleSave`: the validity flag is the conjunction of the
      `validateItem` verdicts, the recalculation flag says whether an
      accepted draft touched an evaluation property, and the A/B-label
      check runs on the changeset before the validity flag is looked at.
      An empty rowset stands for the absent one (`campaignItems` left
      `undefined` by an empty fetch); copying it for the A/B-label check
      throws, so every save over it crashes. */
  function HandleSave(drafts: seq<Row>, rows: seq<Row>): (r: SaveOutcome)
    ensures rows == [] ==> r.Crashed?
    ensures r.Persist? <==>
              (&& rows != []
               && Changeset(drafts, rows).Ok?
               && (forall i :: 0 <= i < |drafts| ==> Accepted(drafts[i]))
               && ValidateABLabel(Changeset(drafts, rows).value, rows) == Ok(true))
    ensures r.Persist? ==> r.items == Changeset(drafts, rows).value
    ensures r.Persist? ==> (r.recalculation <==> exists i :: 0 <= i < |drafts| && TouchesEvaluation(drafts[i]))
  {
    if rows == [] then Crashed
    else match Changeset(drafts, rows)
    case Throws => Crashed
    case Ok(changes) =>
      var valid := AllChecksPass(drafts);
      var recalc := Recalculates(drafts);
      match ValidateABLabel(changes, rows)
      case Throws => Crashed
      case Ok(ok) => if !ok || !valid then Rejected else Persist(changes, recalc)
  }

  /** The `isValid` flag after the loop: every normalised draft passed
      `validateItem`. */
  function AllChecksPass(drafts: seq<Row>): (valid: bool)
    requires PrepareAll(drafts).Some?
    ensures valid <==> forall i :: 0 <= i < |drafts| ==> Accepted(drafts[i])
  {
    var ps := PrepareAll(drafts).value;
    FlagsMeaning(drafts);
    forall i :: 0 <= i < |ps| ==> Checks(ps)[i]
  }

  /** The `isEvaluationField` flag after the loop: some accepted draft
      touches an evaluation property. */
  function Recalculates(drafts: seq<Row>): (recalc: bool)
    requires PrepareAll(drafts).Some?
    ensures AllChecksPass(drafts) ==> (recalc <==> exists i :: 0 <= i < |drafts| && TouchesEvaluation(drafts[i]))
  {
    var ps := PrepareAll(drafts).value;
    FlagsMeaning(drafts);
    exists i :: 0 <= i < |ps| && Checks(ps)[i] && TouchesEvaluation(ps[i])
  }

  /** A draft with a `null` number-set property makes the save throw,
      whatever the other drafts hold. */
  lemma NullNumberSetCrashes(drafts: seq<Row>, rows: seq<Row>, i: int)
    requires 0 <= i < |drafts| && !NumberSetsPresent(drafts[i])
    ensures HandleSave(drafts, rows).Crashed?
  {
  }

  /** What a successful save persists: one entry per real record, and
      every real draft's edits (after normalisation) in its entry. */
  lemma {:induction false} SavedRealDraft(drafts: seq<Row>, rows: seq<Row>, j: nat)
    requires UniqueIds(drafts) && j < |drafts| && !IsVirtualId(drafts[j].id)
    requires HandleSave(drafts, rows).Persist?
    ensures RealKeyed(HandleSave(drafts, rows).items)
    ensures Prepare(drafts[j]).Some? && KeepsDraft(HandleSave(drafts, rows).items, Prepare(drafts[j]).value)
  {
    var ps := PrepareAll(drafts).value;
    var oks := Checks(ps);
    assert forall i :: 0 <= i < |ps| ==> ps[i].id == drafts[i].id by {
      forall i | 0 <= i < |ps| ensures ps[i].id == drafts[i].id {
        assert Prepare(drafts[i]) == Some(ps[i]);
      }
    }
    assert UniqueIds(ps);
    FlagsMeaning(drafts);
    assert oks[j];
    FoldRealKeyed(ps, oks, rows, |ps|);
    FoldKeepsRealDraft(ps, oks, rows, |ps|, j);
  }
}
