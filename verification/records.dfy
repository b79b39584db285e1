/** The records the evaluation grid works on: campaign-item rows of the
    display rowset, the sparse drafts keyed by the same identifiers, and the
    A/B-test ("virtual") items nested in a row's `Evaluation_JSON__c`. */
module Records {
  import opened Options
  import opened Strings

  /** What reading a property of a JavaScript object yields. */
  datatype Slot = Undefined | Null | Text(s: string)

  /** A record's properties other than `Id` and `Evaluation_JSON__c`: a
      property that is absent reads as `undefined`, `None` is `null`. */
  type Fields = map<string, Option<string>>

  /** One A/B-test variant stored in its parent's sidecar list. */
  datatype VirtualItem = VirtualItem(id: string, fields: Fields)

  /** The `Evaluation_JSON__c` property, decoded at the storage boundary.
      `Encoded` is a list that decodes cleanly, whether it is held as its JSON
      text or (in the display row after an add) as the array itself;
      `Malformed` is any other text, which does not decode to a list. */
  datatype Sidecar =
    | Missing
    | NullJson
    | Blank
    | Encoded(items: seq<VirtualItem>)
    | Malformed(raw: string)

  /** The variants a sidecar lists; any other sidecar lists none. */
  function Listed(sc: Sidecar): seq<VirtualItem> {
    if sc.Encoded? then sc.items else []
  }

  /** A display row, a draft, or a changeset entry. */
  datatype Row = Row(id: string, fields: Fields, sidecar: Sidecar)

  /** The result of a handler that may stop on a JavaScript `TypeError`
      (a property read on `undefined`, `push` or `forEach` on a value that
      is not a list). */
  datatype Outcome<+T> = Ok(value: T) | Throws

  const AbField := "ABTest__c"
  const NameField := "Name"

  /** The separator that marks a virtual identifier. */
  const Separator := '_'

  /** `id.search('_') !== -1`. */
  predicate IsVirtualId(id: string) {
    Separator in id
  }

  function Read(f: Fields, key: string): Slot {
    if key !in f then Undefined
    else match f[key]
      case None => Null
      case Some(s) => Text(s)
  }

  /** JavaScript truthiness of a string-or-null property. */
  predicate Truthy(v: Slot) {
    v.Text? && v.s != ""
  }

  /** JavaScript truthiness of the sidecar property: a list is truthy even
      when empty, text only when non-empty. */
  predicate SidecarTruthy(sc: Sidecar) {
    sc.Encoded? || (sc.Malformed? && sc.raw != "")
  }

  /** JavaScript `==` between two string-or-nullish values: `null` and
      `undefined` equal each other and nothing else. */
  predicate LooseEq(a: Slot, b: Slot) {
    if a.Text? && b.Text? then a.s == b.s else !a.Text? && !b.Text?
  }

  function Ab(r: Row): Slot {
    Read(r.fields, AbField)
  }

  function ItemAb(v: VirtualItem): Slot {
    Read(v.fields, AbField)
  }

  /** The row a virtual item becomes in the display rowset. */
  function AsRow(v: VirtualItem): (r: Row)
    ensures r.id == v.id && r.fields == v.fields && r.sidecar == Missing
  {
    Row(v.id, v.fields, Missing)
  }

  function Ids(rows: seq<Row>): (ids: seq<string>)
    ensures |ids| == |rows|
    ensures forall i :: 0 <= i < |rows| ==> ids[i] == rows[i].id
  {
    seq(|rows|, i requires 0 <= i < |rows| => rows[i].id)
  }

  function ItemIds(items: seq<VirtualItem>): (ids: seq<string>)
    ensures |ids| == |items|
    ensures forall i :: 0 <= i < |items| ==> ids[i] == items[i].id
  {
    seq(|items|, i requires 0 <= i < |items| => items[i].id)
  }

  /** At most one record per identifier. */
  predicate UniqueIds(rows: seq<Row>) {
    forall i, j :: 0 <= i < j < |rows| ==> rows[i].id != rows[j].id
  }

  /** Index of the first `x` in `s`, or -1: `Array.prototype.some` scanning
      until the first hit. */
  function FirstIndex(s: seq<string>, x: string): (r: int)
    ensures -1 <= r < |s|
    ensures r == -1 <==> x !in s
    ensures r >= 0 ==> s[r] == x && forall j :: 0 <= j < r ==> s[j] != x
  {
    if s == [] then -1
    else if s[0] == x then 0
    else
      var k := FirstIndex(s[1..], x);
      if k == -1 then -1 else k + 1
  }

  /** Index of the last `x` in `s`: a `forEach` that overwrites its result on
      every hit. */
  function LastIndex(s: seq<string>, x: string): (r: Option<nat>)
    ensures r.None? <==> x !in s
    ensures r.Some? ==> r.value < |s| && s[r.value] == x
    ensures r.Some? ==> forall j :: r.value < j < |s| ==> s[j] != x
  {
    if s == [] then None
    else if s[|s| - 1] == x then Some(|s| - 1)
    else LastIndex(s[..|s| - 1], x)
  }

  /** The row a JavaScript `Map` built from `rows` keyed by `Id` holds for
      `id`: the last row with that identifier. */
  function LastById(rows: seq<Row>, id: string): (r: Option<Row>)
    ensures r.None? <==> forall i :: 0 <= i < |rows| ==> rows[i].id != id
    ensures r.Some? ==> r.value.id == id && r.value in rows
  {
    match LastIndex(Ids(rows), id)
    case None => None
    case Some(i) => Some(rows[i])
  }

  /** The first record with identifier `id` (a `Map.get` on a map whose
      identifiers are unique). */
  function Lookup(rows: seq<Row>, id: string): (r: Option<Row>)
    ensures r.None? <==> forall i :: 0 <= i < |rows| ==> rows[i].id != id
    ensures r.Some? ==> r.value.id == id && r.value in rows
  {
    var k := FirstIndex(Ids(rows), id);
    if k == -1 then None else Some(rows[k])
  }

  /** On records with unique identifiers the first and the last match
      coincide. */
  lemma UniqueLookup(rows: seq<Row>, i: nat)
    requires UniqueIds(rows) && i < |rows|
    ensures Lookup(rows, rows[i].id) == Some(rows[i])
    ensures LastById(rows, rows[i].id) == Some(rows[i])
  {
    var k := FirstIndex(Ids(rows), rows[i].id);
    assert k == i;
    var l := LastIndex(Ids(rows), rows[i].id);
    assert l == Some(i);
  }
}
