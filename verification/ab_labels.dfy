/** The A/B-label validator (`validateABLabel`, `getFullABMap`): before a
    changeset is persisted, every A/B label must be non-empty on variants,
    present on a parent that has variants, and unique across all real rows
    and all variants, with the changeset's edits taking precedence over
    what is on display. */
module ABLabels {
  import opened Options
  import opened Strings
  import opened Records

  // ---------------------------------------------------------------------
  // The full label map

  /** A pair `(identifier, label)` as `fullABMap.set` receives it. */
  type Entry = (string, Slot)

  /** The distinct identifiers without a separator among the first `n`
      display rows, in order of first occurrence: the keys a `Map` built
      from the rowset visits, minus the virtual ones. */
  function RealKeys(rows: seq<Row>, n: nat): (keys: seq<string>)
    requires n <= |rows|
    ensures forall i, j :: 0 <= i < j < |keys| ==> keys[i] != keys[j]
    ensures forall k :: k in keys <==> (!IsVirtualId(k) && exists i :: 0 <= i < n && rows[i].id == k)
    ensures forall i :: 0 <= i < |keys| ==> 0 <= FirstIndex(Ids(rows), keys[i]) < n
    ensures forall i, j :: 0 <= i < j < |keys| ==> FirstIndex(Ids(rows), keys[i]) < FirstIndex(Ids(rows), keys[j])
  {
    if n == 0 then []
    else
      var prev := RealKeys(rows, n - 1);
      var k := rows[n - 1].id;
      if !IsVirtualId(k) && k !in prev then
        assert FirstIndex(Ids(rows), k) == n - 1 by {
          assert Ids(rows)[n - 1] == k;
        }
        prev + [k]
      else prev
  }

  /** The A/B label `getFullABMap` records for a real row: the change's
      label when it holds text (a `null` or absent one does not count),
      otherwise the displayed one. */
  function EffectiveLabel(changes: seq<Row>, d: Row): (l: Slot)
    ensures UniqueIds(changes) ==> forall i :: 0 <= i < |changes| && changes[i].id == d.id && Ab(changes[i]).Text? ==>
              l == Ab(changes[i])
    ensures (forall i :: 0 <= i < |changes| && changes[i].id == d.id ==> !Ab(changes[i]).Text?) ==> l == Ab(d)
  {
    var u := Lookup(changes, d.id);
    assert UniqueIds(changes) ==> forall i :: 0 <= i < |changes| && changes[i].id == d.id ==> u == Some(changes[i]) by {
      if UniqueIds(changes) {
        forall i | 0 <= i < |changes| && changes[i].id == d.id ensures u == Some(changes[i]) {
          UniqueLookup(changes, i);
        }
      }
    }
    if u.Some? && Ab(u.value).Text? then Ab(u.value) else Ab(d)
  }

  /** The sidecar `getFullABMap` reads for a real row: the change's when it
      is truthy, otherwise the displayed one. */
  function EffectiveSidecar(changes: seq<Row>, d: Row): (sc: Sidecar)
    ensures sc == d.sidecar || (SidecarTruthy(sc) && exists i :: 0 <= i < |changes| && changes[i].id == d.id && changes[i].sidecar == sc)
  {
    var u := Lookup(changes, d.id);
    if u.Some? && SidecarTruthy(u.value.sidecar) then u.value.sidecar else d.sidecar
  }

  /** Both directions of the choice: with one change per identifier, a
      truthy sidecar in the row's change wins; when no change for the row
      has a truthy sidecar, the displayed one is read. */
  lemma EffectiveSidecarChoice(changes: seq<Row>, d: Row)
    ensures UniqueIds(changes) ==> forall i :: 0 <= i < |changes| && changes[i].id == d.id && SidecarTruthy(changes[i].sidecar) ==>
              EffectiveSidecar(changes, d) == changes[i].sidecar
    ensures (forall i :: 0 <= i < |changes| && changes[i].id == d.id ==> !SidecarTruthy(changes[i].sidecar)) ==>
              EffectiveSidecar(changes, d) == d.sidecar
  {
    if UniqueIds(changes) {
      forall i | 0 <= i < |changes| && changes[i].id == d.id
        ensures Lookup(changes, d.id) == Some(changes[i])
      {
        UniqueLookup(changes, i);
      }
    }
  }

  /** The variants with a truthy label, as `(identifier, label)` pairs. */
  function ChildEntries(items: seq<VirtualItem>): (es: seq<Entry>)
    ensures forall e :: e in es <==> exists v :: v in items && Truthy(ItemAb(v)) && e == (v.id, ItemAb(v))
  {
    if items == [] then []
    else
      var rest := ChildEntries(items[1..]);
      assert forall v :: v in items[1..] ==> v in items;
      assert forall v :: v in items ==> v == items[0] || v in items[1..];
      if Truthy(ItemAb(items[0])) then [(items[0].id, ItemAb(items[0]))] + rest else rest
  }

  /** The display row a `Map` keyed by identifier holds for `k`. */
  function DisplayRow(rows: seq<Row>, k: string): Row
    requires k in Ids(rows)
  {
    LastById(rows, k).value
  }

  /** A real row whose effective sidecar is truthy but not a list makes
      `getFullABMap` throw on `forEach`. */
  predicate BadSidecar(changes: seq<Row>, rows: seq<Row>, k: string)
    requires k in Ids(rows)
  {
    var sc := EffectiveSidecar(changes, DisplayRow(rows, k));
    SidecarTruthy(sc) && !sc.Encoded?
  }

  /** The entries one real row contributes: its own label, then its
      variants' truthy labels. */
  function KeyEntries(changes: seq<Row>, rows: seq<Row>, k: string): seq<Entry>
    requires k in Ids(rows) && !BadSidecar(changes, rows, k)
  {
    var d := DisplayRow(rows, k);
    var sc := EffectiveSidecar(changes, d);
    [(k, EffectiveLabel(changes, d))] + ChildEntries(Listed(sc))
  }

  /** Every variant a real row's effective sidecar lists has a virtual
      identifier, as every generated variant does. */
  predicate ChildrenVirtual(changes: seq<Row>, rows: seq<Row>) {
    forall k, v :: k in Ids(rows) && v in Listed(EffectiveSidecar(changes, DisplayRow(rows, k))) ==> IsVirtualId(v.id)
  }

  /** The `set` calls of `getFullABMap` over the given keys, in order;
      `Throws` at the first real row whose sidecar is not a list. */
  function AllEntries(changes: seq<Row>, rows: seq<Row>, keys: seq<string>): (r: Outcome<seq<Entry>>)
    requires forall k :: k in keys ==> k in Ids(rows)
    ensures r.Throws? <==> exists k :: k in keys && BadSidecar(changes, rows, k)
    ensures r.Ok? ==> forall k :: k in keys ==> forall e :: e in KeyEntries(changes, rows, k) ==> e in r.value
    ensures r.Ok? ==> forall e :: e in r.value ==> exists k :: k in keys && e in KeyEntries(changes, rows, k)
  {
    if keys == [] then Ok([])
    else
      var k := keys[|keys| - 1];
      var prefix := keys[..|keys| - 1];
      assert forall x :: x in keys ==> x == k || x in prefix;
      var prev := AllEntries(changes, rows, prefix);
      if prev.Throws? || BadSidecar(changes, rows, k) then Throws
      else Ok(prev.value + KeyEntries(changes, rows, k))
  }

  /** A `Map` filled by `set` calls in order: the last value set for a key
      wins. */
  function BuildMap(es: seq<Entry>): (m: map<string, Slot>)
    ensures forall k :: k in m <==> exists i :: 0 <= i < |es| && es[i].0 == k
  {
    if es == [] then map[]
    else
      var prev := BuildMap(es[..|es| - 1]);
      assert forall i :: 0 <= i < |es| - 1 ==> es[..|es| - 1][i] == es[i];
      prev[es[|es| - 1].0 := es[|es| - 1].1]
  }

  /** The value a key ends with is the one of its last `set`. */
  lemma {:induction false} BuildMapLastWins(es: seq<Entry>, i: nat)
    requires i < |es| && forall j :: i < j < |es| ==> es[j].0 != es[i].0
    ensures es[i].0 in BuildMap(es) && BuildMap(es)[es[i].0] == es[i].1
    decreases |es|
  {
    if i < |es| - 1 {
      var prefix := es[..|es| - 1];
      forall j | i < j < |prefix| ensures prefix[j].0 != prefix[i].0 {
        assert prefix[j] == es[j];
      }
      BuildMapLastWins(prefix, i);
    }
  }

  /** Every value in the map is the value of some `set` of its key. */
  lemma {:induction false} BuildMapValues(es: seq<Entry>, k: string)
    requires k in BuildMap(es)
    ensures (k, BuildMap(es)[k]) in es
    decreases |es|
  {
    var n := |es| - 1;
    if es[n].0 != k {
      BuildMapValues(es[..n], k);
    }
  }

  /** The identifiers `getFullABMap` walks: those of the display rows,
      minus the virtual ones. */
  function FullMapKeys(rows: seq<Row>): (keys: seq<string>)
    ensures forall k :: k in keys <==> k in Ids(rows) && !IsVirtualId(k)
  {
    RealKeys(rows, |rows|)
  }

  /** `getFullABMap`: the `set` calls of every real display row, in order
      of first occurrence; it throws when a real row's effective sidecar is
      truthy but not a list. */
  function FullABMap(changes: seq<Row>, rows: seq<Row>): (r: Outcome<map<string, Slot>>)
    ensures r.Throws? <==> exists k :: k in Ids(rows) && !IsVirtualId(k) && BadSidecar(changes, rows, k)
  {
    var keys := FullMapKeys(rows);
    match AllEntries(changes, rows, keys)
    case Throws =>
      var k :| k in keys && BadSidecar(changes, rows, k);
      Throws
    case Ok(es) =>
      assert forall k :: k in Ids(rows) && !IsVirtualId(k) ==> k in keys && !BadSidecar(changes, rows, k);
      Ok(BuildMap(es))
  }

  /** The map holds every real display row, and every listed variant with a
      truthy label. */
  lemma FullABMapKeys(changes: seq<Row>, rows: seq<Row>)
    requires FullABMap(changes, rows).Ok?
    ensures forall k :: k in Ids(rows) && !IsVirtualId(k) ==> k in FullABMap(changes, rows).value
    ensures forall k, v ::
              (k in Ids(rows) && !IsVirtualId(k) &&
               v in Listed(EffectiveSidecar(changes, DisplayRow(rows, k))) && Truthy(ItemAb(v))) ==>
              v.id in FullABMap(changes, rows).value
  {
    var keys := FullMapKeys(rows);
    var es := AllEntries(changes, rows, keys).value;
    forall k | k in keys ensures k in BuildMap(es) { KeyInMap(changes, rows, keys, es, k); }
    forall k, v | k in keys && v in Listed(EffectiveSidecar(changes, DisplayRow(rows, k))) && Truthy(ItemAb(v))
      ensures v.id in BuildMap(es)
    {
      ChildInMap(changes, rows, keys, es, k, v);
    }
  }

  /** Every value in the map is a real row's effective label or a listed
      variant's truthy label. */
  lemma FullABMapValues(changes: seq<Row>, rows: seq<Row>)
    requires FullABMap(changes, rows).Ok?
    ensures var m := FullABMap(changes, rows).value;
            forall k :: k in m ==>
              exists k' :: k' in Ids(rows) && !IsVirtualId(k') && (k, m[k]) in KeyEntries(changes, rows, k')
  {
    var keys := FullMapKeys(rows);
    var es := AllEntries(changes, rows, keys).value;
    MapValuesFromKeys(changes, rows, keys, es);
  }

  /** When variant identifiers are virtual, every real display row is
      mapped to exactly its effective label. */
  lemma FullABMapRealLabels(changes: seq<Row>, rows: seq<Row>)
    requires FullABMap(changes, rows).Ok? && ChildrenVirtual(changes, rows)
    ensures forall k :: k in Ids(rows) && !IsVirtualId(k) ==>
              k in FullABMap(changes, rows).value &&
              FullABMap(changes, rows).value[k] == EffectiveLabel(changes, DisplayRow(rows, k))
  {
    var keys := FullMapKeys(rows);
    var es := AllEntries(changes, rows, keys).value;
    forall k | k in keys
      ensures k in BuildMap(es) && BuildMap(es)[k] == EffectiveLabel(changes, DisplayRow(rows, k))
    {
      RealKeyExact(changes, rows, keys, es, k);
    }
  }

  /** Every value in the map comes from the entries of some real key. */
  lemma MapValuesFromKeys(changes: seq<Row>, rows: seq<Row>, keys: seq<string>, es: seq<Entry>)
    requires forall k :: k in keys ==> k in Ids(rows) && !IsVirtualId(k)
    requires AllEntries(changes, rows, keys) == Ok(es)
    ensures forall k :: k in BuildMap(es) ==>
              exists k' :: k' in keys && (k, BuildMap(es)[k]) in KeyEntries(changes, rows, k')
  {
    forall k | k in BuildMap(es)
      ensures exists k' :: k' in keys && (k, BuildMap(es)[k]) in KeyEntries(changes, rows, k')
    {
      BuildMapValues(es, k);
    }
  }

  /** A key of the entry list ends up in the map. */
  lemma KeyInMap(changes: seq<Row>, rows: seq<Row>, keys: seq<string>, es: seq<Entry>, k: string)
    requires forall k :: k in keys ==> k in Ids(rows)
    requires AllEntries(changes, rows, keys) == Ok(es) && k in keys
    ensures k in BuildMap(es)
  {
    var e := (k, EffectiveLabel(changes, DisplayRow(rows, k)));
    assert e in KeyEntries(changes, rows, k);
    var i :| 0 <= i < |es| && es[i] == e;
  }

  /** A listed variant with a truthy label ends up in the map. */
  lemma ChildInMap(changes: seq<Row>, rows: seq<Row>, keys: seq<string>, es: seq<Entry>, k: string, v: VirtualItem)
    requires forall k :: k in keys ==> k in Ids(rows)
    requires AllEntries(changes, rows, keys) == Ok(es) && k in keys
    requires v in Listed(EffectiveSidecar(changes, DisplayRow(rows, k))) && Truthy(ItemAb(v))
    ensures v.id in BuildMap(es)
  {
    var sc := EffectiveSidecar(changes, DisplayRow(rows, k));
    assert (v.id, ItemAb(v)) in ChildEntries(Listed(sc));
    assert (v.id, ItemAb(v)) in KeyEntries(changes, rows, k);
    var i :| 0 <= i < |es| && es[i] == (v.id, ItemAb(v));
  }

  /** When variant identifiers are virtual, a real key's value is its
      effective label: no variant entry shares a real key. */
  lemma RealKeyExact(changes: seq<Row>, rows: seq<Row>, keys: seq<string>, es: seq<Entry>, k: string)
    requires forall k :: k in keys ==> k in Ids(rows) && !IsVirtualId(k)
    requires AllEntries(changes, rows, keys) == Ok(es)
    requires ChildrenVirtual(changes, rows) && k in keys
    ensures k in BuildMap(es) && BuildMap(es)[k] == EffectiveLabel(changes, DisplayRow(rows, k))
  {
    KeyInMap(changes, rows, keys, es, k);
    var m := BuildMap(es);
    BuildMapValues(es, k);
    var k' :| k' in keys && (k, m[k]) in KeyEntries(changes, rows, k');
    var sc := EffectiveSidecar(changes, DisplayRow(rows, k'));
    var children := ChildEntries(Listed(sc));
    assert KeyEntries(changes, rows, k') == [(k', EffectiveLabel(changes, DisplayRow(rows, k')))] + children;
  }

  // ---------------------------------------------------------------------
  // Checking the changeset

  /** The result of checking one changeset entry. */
  datatype Verdict = Pass | Fail | Crash

  /** Some identifier other than `self` carries a label loosely equal to
      `l` in the full map. */
  predicate TakenElsewhere(full: map<string, Slot>, self: string, l: Slot) {
    exists id :: id in full && id != self && LooseEq(l, full[id])
  }

  /** A variant of an entry is refused when its label is the empty text,
      equals the entry's label, or is carried by another identifier. */
  predicate VariantRefused(value: Row, v: VirtualItem, full: map<string, Slot>) {
    || ItemAb(v) == Text("")
    || LooseEq(Ab(value), ItemAb(v))
    || TakenElsewhere(full, v.id, ItemAb(v))
  }

  /** The displayed row for an entry carries a truthy A/B label. */
  predicate DisplayLabelled(rows: seq<Row>, id: string) {
    var d := LastById(rows, id);
    d.Some? && Truthy(Ab(d.value))
  }

  /** The displayed row for an entry has a truthy sidecar. */
  predicate DisplayHasVariants(rows: seq<Row>, id: string) {
    var d := LastById(rows, id);
    d.Some? && SidecarTruthy(d.value.sidecar)
  }

  /** One iteration of `validateABLabel`'s loop over the changeset. */
  function CheckEntry(value: Row, rows: seq<Row>, full: map<string, Slot>): (r: Verdict)
    ensures r == Crash ==> SidecarTruthy(value.sidecar) && !value.sidecar.Encoded?
    ensures r == Pass ==> Truthy(Ab(value)) ==> !TakenElsewhere(full, value.id, Ab(value))
  {
    var first :=
      if SidecarTruthy(value.sidecar) then
        if Truthy(Ab(value)) || DisplayLabelled(rows, value.id) then
          if !value.sidecar.Encoded? then Crash
          else if exists v :: v in value.sidecar.items && VariantRefused(value, v, full) then Fail
          else Pass
        else Fail
      else if Ab(value) == Text("") && DisplayHasVariants(rows, value.id) then Fail
      else Pass;
    if first != Pass then first
    else if Truthy(Ab(value)) && TakenElsewhere(full, value.id, Ab(value)) then Fail
    else Pass
  }

  /** What an accepted entry satisfies, stated as independent conditions:
      an entry with variants has a label (its own or the displayed one),
      decodes to a list, and none of its variants is refused; an entry that
      clears its label to the empty text has no displayed variants; a
      labelled entry's label is not carried by any other identifier. */
  predicate EntryAccepted(value: Row, rows: seq<Row>, full: map<string, Slot>) {
    && (SidecarTruthy(value.sidecar) ==>
          && (Truthy(Ab(value)) || DisplayLabelled(rows, value.id))
          && value.sidecar.Encoded?
          && forall v :: v in value.sidecar.items ==> !VariantRefused(value, v, full))
    && (!SidecarTruthy(value.sidecar) && Ab(value) == Text("") ==> !DisplayHasVariants(rows, value.id))
    && (Truthy(Ab(value)) ==> !TakenElsewhere(full, value.id, Ab(value)))
  }

  lemma CheckEntryPass(value: Row, rows: seq<Row>, full: map<string, Slot>)
    ensures CheckEntry(value, rows, full) == Pass <==> EntryAccepted(value, rows, full)
  {
  }

  /** The first verdict other than `Pass`, in changeset order. */
  function CheckEntries(changes: seq<Row>, rows: seq<Row>, full: map<string, Slot>): (r: Verdict)
    ensures r == Pass <==> forall i :: 0 <= i < |changes| ==> CheckEntry(changes[i], rows, full) == Pass
    ensures r != Pass ==>
              exists i :: (&& 0 <= i < |changes| && CheckEntry(changes[i], rows, full) == r
                           && forall j :: 0 <= j < i ==> CheckEntry(changes[j], rows, full) == Pass)
  {
    if changes == [] then Pass
    else
      var v := CheckEntry(changes[0], rows, full);
      if v != Pass then v
      else
        var rest := CheckEntries(changes[1..], rows, full);
        assert forall i :: 1 <= i < |changes| ==> changes[i] == changes[1..][i - 1];
        assert rest != Pass ==>
                 exists i :: (&& 0 <= i < |changes| && CheckEntry(changes[i], rows, full) == rest
                              && forall j :: 0 <= j < i ==> CheckEntry(changes[j], rows, full) == Pass) by {
          if rest != Pass {
            var i :| 0 <= i < |changes[1..]| && CheckEntry(changes[1..][i], rows, full) == rest &&
                     forall j :: 0 <= j < i ==> CheckEntry(changes[1..][j], rows, full) == Pass;
            assert CheckEntry(changes[i + 1], rows, full) == rest;
            forall j | 0 <= j < i + 1 ensures CheckEntry(changes[j], rows, full) == Pass {
              if j > 0 { assert changes[j] == changes[1..][j - 1]; }
            }
          }
        }
        rest
  }

  /** `validateABLabel`: `Ok(true)` lets the save go on, `Ok(false)` stops
      it with an error shown; building the full map or iterating a sidecar
      that is not a list throws. */
  function ValidateABLabel(changes: seq<Row>, rows: seq<Row>): (r: Outcome<bool>)
    ensures r == Ok(true) <==>
              (&& FullABMap(changes, rows).Ok?
               && forall i :: 0 <= i < |changes| ==> EntryAccepted(changes[i], rows, FullABMap(changes, rows).value))
    ensures r.Throws? <==>
              (|| FullABMap(changes, rows).Throws?
               || CheckEntries(changes, rows, FullABMap(changes, rows).value) == Crash)
  {
    match FullABMap(changes, rows)
    case Throws => Throws
    case Ok(full) =>
      assert forall i :: 0 <= i < |changes| ==> (CheckEntry(changes[i], rows, full) == Pass <==> EntryAccepted(changes[i], rows, full)) by {
        forall i | 0 <= i < |changes| { CheckEntryPass(changes[i], rows, full); }
      }
      match CheckEntries(changes, rows, full)
      case Pass => Ok(true)
      case Fail => Ok(false)
      case Crash => Throws
  }

  // ---------------------------------------------------------------------
  // What an accepted changeset guarantees

  /** The sidecar `getFullABMap` reads for the real row `k`. */
  function SidecarOf(changes: seq<Row>, rows: seq<Row>, k: string): Sidecar
    requires k in Ids(rows)
  {
    EffectiveSidecar(changes, DisplayRow(rows, k))
  }

  /** The label `getFullABMap` records for the real row `k`. */
  function LabelOf(changes: seq<Row>, rows: seq<Row>, k: string): Slot
    requires k in Ids(rows)
  {
    EffectiveLabel(changes, DisplayRow(rows, k))
  }

  /** `k` is a real row on display. */
  predicate IsRealKey(rows: seq<Row>, k: string) {
    k in Ids(rows) && !IsVirtualId(k)
  }

  /** A variant identifier is listed at most once, in one list. */
  ghost predicate VariantIdsDistinct(changes: seq<Row>, rows: seq<Row>) {
    forall k, k', v, v' ::
      (&& IsRealKey(rows, k) && IsRealKey(rows, k')
       && v in Listed(SidecarOf(changes, rows, k)) && v' in Listed(SidecarOf(changes, rows, k'))
       && v.id == v'.id) ==> v == v'
  }

  /** With distinct variant identifiers, a listed variant with a truthy label
      is mapped to exactly that label. */
  lemma VariantLabelInMap(changes: seq<Row>, rows: seq<Row>, k: string, v: VirtualItem)
    requires FullABMap(changes, rows).Ok? && ChildrenVirtual(changes, rows) && VariantIdsDistinct(changes, rows)
    requires IsRealKey(rows, k) && v in Listed(SidecarOf(changes, rows, k)) && Truthy(ItemAb(v))
    ensures v.id in FullABMap(changes, rows).value && FullABMap(changes, rows).value[v.id] == ItemAb(v)
  {
    var keys := FullMapKeys(rows);
    var es := AllEntries(changes, rows, keys).value;
    var full := BuildMap(es);
    ChildInMap(changes, rows, keys, es, k, v);
    BuildMapValues(es, v.id);
    var k' :| k' in keys && (v.id, full[v.id]) in KeyEntries(changes, rows, k');
    var w := VariantEntry(changes, rows, k', (v.id, full[v.id]));
    assert IsRealKey(rows, k') && w.id == v.id;
    assert w == v;
  }

  /** A virtual identifier's entry among a real row's `set` calls comes
      from a variant that row lists. */
  lemma VariantEntry(changes: seq<Row>, rows: seq<Row>, k: string, e: Entry) returns (w: VirtualItem)
    requires IsRealKey(rows, k) && !BadSidecar(changes, rows, k)
    requires e in KeyEntries(changes, rows, k) && IsVirtualId(e.0)
    ensures w in Listed(SidecarOf(changes, rows, k)) && Truthy(ItemAb(w)) && e == (w.id, ItemAb(w))
  {
    var children := ChildEntries(Listed(SidecarOf(changes, rows, k)));
    var head := (k, LabelOf(changes, rows, k));
    assert KeyEntries(changes, rows, k) == [head] + children;
    assert e != head;
    assert e in children;
    w :| w in Listed(SidecarOf(changes, rows, k)) && Truthy(ItemAb(w)) && e == (w.id, ItemAb(w));
  }

  /** An accepted changeset entry for a real row with a truthy label: no
      other real row's effective label and no listed variant's truthy label
      equals it. */
  lemma AcceptedEntryLabelUnique(changes: seq<Row>, rows: seq<Row>, i: nat)
    requires ValidateABLabel(changes, rows) == Ok(true)
    requires ChildrenVirtual(changes, rows) && VariantIdsDistinct(changes, rows) && UniqueIds(changes)
    requires i < |changes| && IsRealKey(rows, changes[i].id) && Truthy(Ab(changes[i]))
    ensures forall k :: IsRealKey(rows, k) && k != changes[i].id ==> !LooseEq(Ab(changes[i]), LabelOf(changes, rows, k))
    ensures forall k, v :: IsRealKey(rows, k) && v in Listed(SidecarOf(changes, rows, k)) && Truthy(ItemAb(v)) ==>
              !LooseEq(Ab(changes[i]), ItemAb(v))
  {
    var e := changes[i];
    var full := FullABMap(changes, rows).value;
    assert EntryAccepted(e, rows, full);
    FullABMapRealLabels(changes, rows);
    forall k | IsRealKey(rows, k) && k != e.id ensures !LooseEq(Ab(e), LabelOf(changes, rows, k)) {
      assert full[k] == LabelOf(changes, rows, k);
    }
    forall k, v | IsRealKey(rows, k) && v in Listed(SidecarOf(changes, rows, k)) && Truthy(ItemAb(v))
      ensures !LooseEq(Ab(e), ItemAb(v))
    {
      VariantLabelInMap(changes, rows, k, v);
      assert IsVirtualId(v.id);
      assert v.id != e.id;
    }
  }

  /** Every variant an accepted entry lists (when its sidecar is truthy):
      the label is not the empty text, differs from the entry's label, from
      every other real row's effective label and from every other listed
      variant's truthy label. */
  lemma AcceptedVariantLabelsUnique(changes: seq<Row>, rows: seq<Row>, i: nat, v: VirtualItem)
    requires ValidateABLabel(changes, rows) == Ok(true)
    requires ChildrenVirtual(changes, rows) && VariantIdsDistinct(changes, rows)
    requires i < |changes| && SidecarTruthy(changes[i].sidecar)
    requires changes[i].sidecar.Encoded? ==> v in changes[i].sidecar.items
    ensures changes[i].sidecar.Encoded?
    ensures ItemAb(v) != Text("") && !LooseEq(Ab(changes[i]), ItemAb(v))
    ensures forall k :: IsRealKey(rows, k) && k != v.id ==> !LooseEq(ItemAb(v), LabelOf(changes, rows, k))
    ensures forall k, w ::
              (IsRealKey(rows, k) && w in Listed(SidecarOf(changes, rows, k)) && Truthy(ItemAb(w)) && w.id != v.id) ==>
              !LooseEq(ItemAb(v), ItemAb(w))
  {
    var e := changes[i];
    var full := FullABMap(changes, rows).value;
    assert EntryAccepted(e, rows, full);
    assert !VariantRefused(e, v, full);
    FullABMapRealLabels(changes, rows);
    forall k | IsRealKey(rows, k) && k != v.id ensures !LooseEq(ItemAb(v), LabelOf(changes, rows, k)) {
      assert full[k] == LabelOf(changes, rows, k);
    }
    forall k, w | IsRealKey(rows, k) && w in Listed(SidecarOf(changes, rows, k)) && Truthy(ItemAb(w)) && w.id != v.id
      ensures !LooseEq(ItemAb(v), ItemAb(w))
    {
      VariantLabelInMap(changes, rows, k, w);
    }
  }

  /** An entry that lists variants while neither it nor its displayed row
      carries a truthy A/B label is refused. */
  lemma UnlabelledParentRejected(changes: seq<Row>, rows: seq<Row>, i: nat)
    requires i < |changes| && SidecarTruthy(changes[i].sidecar)
    requires !Truthy(Ab(changes[i])) && !DisplayLabelled(rows, changes[i].id)
    ensures ValidateABLabel(changes, rows) != Ok(true)
  {
  }

  /** Two sibling variants of an entry for a real row that carry the same
      truthy label are refused. */
  lemma SiblingDuplicateRejected(changes: seq<Row>, rows: seq<Row>, i: nat, a: VirtualItem, b: VirtualItem)
    requires ChildrenVirtual(changes, rows) && VariantIdsDistinct(changes, rows) && UniqueIds(changes)
    requires i < |changes| && IsRealKey(rows, changes[i].id) && changes[i].sidecar.Encoded?
    requires a in changes[i].sidecar.items && b in changes[i].sidecar.items && a.id != b.id
    requires Truthy(ItemAb(b)) && ItemAb(a) == ItemAb(b)
    ensures ValidateABLabel(changes, rows) != Ok(true)
  {
    if ValidateABLabel(changes, rows) == Ok(true) {
      var e := changes[i];
      UniqueLookup(changes, i);
      assert SidecarOf(changes, rows, e.id) == e.sidecar;
      AcceptedVariantLabelsUnique(changes, rows, i, a);
      assert false;
    }
  }

  /** Two entries for different real rows that both set the same truthy
      label are refused. */
  lemma TwinLabelsRejected(changes: seq<Row>, rows: seq<Row>, i: nat, j: nat)
    requires ChildrenVirtual(changes, rows) && VariantIdsDistinct(changes, rows) && UniqueIds(changes)
    requires i < |changes| && j < |changes| && i != j
    requires IsRealKey(rows, changes[i].id) && IsRealKey(rows, changes[j].id)
    requires Truthy(Ab(changes[i])) && Ab(changes[i]) == Ab(changes[j])
    ensures ValidateABLabel(changes, rows) != Ok(true)
  {
    if ValidateABLabel(changes, rows) == Ok(true) {
      AcceptedEntryLabelUnique(changes, rows, i);
      assert false;
    }
  }
}
