/** The field-editing modal: the field list it renders (`setContent`) and
    the label of the link that opens it (`setLinkLabel`). */
module FieldModal {
  import opened Options
  import opened Strings
  import opened Records

  /** One entry of the component's `fieldContent` input; `caption` is its
      `label`. `order` is `None` when absent or `null`; `choices` is `None`
      when `picklistValues` is absent. */
  datatype Content = Content(
    caption: string, value: Slot, apiName: string, isPicklist: bool,
    order: Option<int>, choices: Option<seq<string>>)

  datatype PicklistOption = PicklistOption(caption: string, value: string)

  /** One rendered field; `order` is `None` for `null`. */
  datatype Field = Field(
    caption: string, value: Slot, apiName: string, isPicklist: bool,
    order: Option<int>, picklistValues: seq<PicklistOption>)

  const NoneOption := PicklistOption("--None--", "")

  // ---------------------------------------------------------------------
  // Building one field

  /** The options of a picklist field: the blank choice, then one option
      per value, labelled by the value itself. */
  function PicklistOptions(values: seq<string>): seq<PicklistOption> {
    [NoneOption] + seq(|values|, i requires 0 <= i < |values| => PicklistOption(values[i], values[i]))
  }

  /** The value a picklist option list offers after the blank choice. */
  function OfferedValues(opts: seq<PicklistOption>): seq<string>
    requires |opts| > 0
  {
    seq(|opts| - 1, i requires 0 <= i < |opts| - 1 => opts[i + 1].value)
  }

  /** The field built from one content entry. A picklist entry without
      `picklistValues` stops `setContent` with a `TypeError`. */
  function ToField(c: Content): (r: Outcome<Field>)
    ensures r.Throws? <==> c.isPicklist && c.choices.None?
    ensures r.Ok? ==>
              && r.value.caption == c.caption && r.value.value == c.value
              && r.value.apiName == c.apiName && r.value.isPicklist == c.isPicklist
    ensures r.Ok? ==> (r.value.order.None? <==> c.order.None? || c.order == Some(0))
    ensures r.Ok? && r.value.order.Some? ==> r.value.order == c.order
    ensures r.Ok? ==> |r.value.picklistValues| > 0 && r.value.picklistValues[0] == NoneOption
    ensures r.Ok? && !c.isPicklist ==> r.value.picklistValues == [NoneOption]
    ensures r.Ok? && c.isPicklist ==>
              && OfferedValues(r.value.picklistValues) == c.choices.value
              && forall i :: 1 <= i < |r.value.picklistValues| ==>
                   r.value.picklistValues[i].caption == r.value.picklistValues[i].value
  {
    if c.isPicklist && c.choices.None? then Throws
    else
      var order := if c.order.Some? && c.order.value != 0 then c.order else None;
      var opts := if c.isPicklist then PicklistOptions(c.choices.value) else [NoneOption];
      Ok(Field(c.caption, c.value, c.apiName, c.isPicklist, order, opts))
  }

  /** The fields of all entries, in input order, before the sort. */
  function BuildFields(contents: seq<Content>): (r: Outcome<seq<Field>>)
    ensures r.Throws? <==> exists i :: 0 <= i < |contents| && ToField(contents[i]).Throws?
    ensures r.Ok? ==> |r.value| == |contents|
    ensures r.Ok? ==> forall i :: 0 <= i < |contents| ==> ToField(contents[i]) == Ok(r.value[i])
  {
    if exists i :: 0 <= i < |contents| && ToField(contents[i]).Throws? then Throws
    else Ok(seq(|contents|, i requires 0 <= i < |contents| => ToField(contents[i]).value))
  }

  // ---------------------------------------------------------------------
  // The sort by order

  /** What the comparator `a.order - b.order` sees: `null` counts as 0. */
  function SortKey(f: Field): int {
    if f.order.Some? then f.order.value else 0
  }

  predicate Sorted(s: seq<Field>) {
    forall i, j :: 0 <= i < j < |s| ==> SortKey(s[i]) <= SortKey(s[j])
  }

  /** The fields of `s` with sort key `k`, in their order in `s`. */
  function WithKey(s: seq<Field>, k: int): seq<Field> {
    if s == [] then []
    else (if SortKey(s[0]) == k then [s[0]] else []) + WithKey(s[1..], k)
  }

  /** `x` placed before the first field whose key is not smaller. */
  function Insert(x: Field, s: seq<Field>): (r: seq<Field>)
    ensures |r| == |s| + 1
    ensures multiset(r) == multiset(s) + multiset{x}
  {
    if s == [] || SortKey(x) <= SortKey(s[0]) then [x] + s
    else
      var r := [s[0]] + Insert(x, s[1..]);
      assert s == [s[0]] + s[1..];
      r
  }

  /** `Array.prototype.sort` with the comparator `a.order - b.order`, which
      is stable: an insertion sort that keeps equal keys in input order. */
  function Sort(s: seq<Field>): (r: seq<Field>)
    ensures |r| == |s|
    ensures multiset(r) == multiset(s)
  {
    if s == [] then []
    else
      var r := Insert(s[0], Sort(s[1..]));
      assert s == [s[0]] + s[1..];
      r
  }

  lemma {:induction false} InsertSorted(x: Field, s: seq<Field>)
    requires Sorted(s)
    ensures Sorted(Insert(x, s))
  {
    if s != [] && SortKey(x) > SortKey(s[0]) {
      InsertSorted(x, s[1..]);
      var r := Insert(x, s);
      var t := Insert(x, s[1..]);
      assert r == [s[0]] + t;
      forall j | 0 < j < |r| ensures SortKey(s[0]) <= SortKey(r[j]) {
        assert r[j] in multiset(t);
        assert r[j] == x || r[j] in multiset(s[1..]);
      }
    }
  }

  lemma {:induction false} SortSorted(s: seq<Field>)
    ensures Sorted(Sort(s))
  {
    if s != [] {
      SortSorted(s[1..]);
      InsertSorted(s[0], Sort(s[1..]));
    }
  }

  lemma WithKeyCons(x: Field, s: seq<Field>, k: int)
    ensures WithKey([x] + s, k) == (if SortKey(x) == k then [x] else []) + WithKey(s, k)
  {
    assert ([x] + s)[1..] == s;
  }

  /** Inserting `x` adds it in front of the fields with its key: every
      field it passes has a smaller key. */
  lemma {:induction false} InsertWithKey(x: Field, s: seq<Field>, k: int)
    ensures WithKey(Insert(x, s), k) == (if SortKey(x) == k then [x] else []) + WithKey(s, k)
  {
    if s == [] || SortKey(x) <= SortKey(s[0]) {
      WithKeyCons(x, s, k);
    } else {
      var t := Insert(x, s[1..]);
      var own := if SortKey(x) == k then [x] else [];
      var first := if SortKey(s[0]) == k then [s[0]] else [];
      calc {
        WithKey(Insert(x, s), k);
        WithKey([s[0]] + t, k);
        { WithKeyCons(s[0], t, k); }
        first + WithKey(t, k);
        { InsertWithKey(x, s[1..], k); }
        first + (own + WithKey(s[1..], k));
        // `s[0]` has a smaller key than `x`, so one of the two is empty
        own + (first + WithKey(s[1..], k));
        { WithKeyCons(s[0], s[1..], k); assert [s[0]] + s[1..] == s; }
        own + WithKey(s, k);
      }
    }
  }

  /** Stability: for every key, the fields with that key keep their input
      order. */
  lemma {:induction false} SortStable(s: seq<Field>, k: int)
    ensures WithKey(Sort(s), k) == WithKey(s, k)
  {
    if s != [] {
      SortStable(s[1..], k);
      InsertWithKey(s[0], Sort(s[1..]), k);
    }
  }

  /** Index of the first field with the smallest key. */
  function FirstLowest(s: seq<Field>): (i: nat)
    requires |s| > 0
    ensures i < |s|
    ensures forall j :: 0 <= j < |s| ==> SortKey(s[i]) <= SortKey(s[j])
    ensures forall j :: 0 <= j < i ==> SortKey(s[i]) < SortKey(s[j])
  {
    if |s| == 1 then 0
    else
      var k := FirstLowest(s[1..]);
      if SortKey(s[0]) <= SortKey(s[1..][k]) then 0 else k + 1
  }

  /** The sorted list starts with the first field of smallest key. */
  lemma {:induction false} SortHead(s: seq<Field>)
    requires |s| > 0
    ensures Sort(s)[0] == s[FirstLowest(s)]
  {
    if |s| > 1 {
      SortHead(s[1..]);
      var t := Sort(s[1..]);
      assert t[0] == s[1..][FirstLowest(s[1..])];
    }
  }

  // ---------------------------------------------------------------------
  // The two handlers

  /** `setContent`: one field per content entry, sorted by order, entries
      of equal order (a falsy order counting as 0) in input order. */
  function SetContent(contents: seq<Content>): (r: Outcome<seq<Field>>)
    ensures r.Throws? <==> exists i :: 0 <= i < |contents| && contents[i].isPicklist && contents[i].choices.None?
    ensures r.Ok? ==> |r.value| == |contents|
  {
    match BuildFields(contents)
    case Throws => Throws
    case Ok(fields) => Ok(Sort(fields))
  }

  /** The sorted list holds exactly the fields built from the entries, in
      ascending order, and is stable. */
  lemma SetContentSorted(contents: seq<Content>, k: int)
    requires SetContent(contents).Ok?
    ensures Sorted(SetContent(contents).value)
    ensures multiset(SetContent(contents).value) == multiset(BuildFields(contents).value)
    ensures WithKey(SetContent(contents).value, k) == WithKey(BuildFields(contents).value, k)
  {
    SortSorted(BuildFields(contents).value);
    SortStable(BuildFields(contents).value, k);
  }

  /** Number of entries of `value.split(',').map(trim)`, or 0 when the
      value is falsy; trimming keeps the number of entries. */
  function TokenCount(v: Slot): nat {
    if Truthy(v) then |Split(v.s, ',')| else 0
  }

  /** `setLinkLabel`: the first entry's value (or "--None--") when the
      first entry is a picklist, otherwise "Stores (N)" counting the tokens
      of the first rendered field. With no entries, reading
      `fieldContent[0].isPicklist` throws. */
  function SetLinkLabel(contents: seq<Content>, fieldList: seq<Field>): (r: Outcome<string>)
    ensures r.Throws? <==> contents == [] || (!contents[0].isPicklist && fieldList == [])
    ensures r.Ok? && contents[0].isPicklist ==>
              (if Truthy(contents[0].value) then r.value == contents[0].value.s else r.value == "--None--")
    ensures r.Ok? && !contents[0].isPicklist ==>
              && |r.value| >= 10 && r.value[..8] == "Stores (" && r.value[|r.value| - 1] == ')'
              && AllDigits(r.value[8..|r.value| - 1])
              && ParseNat(r.value[8..|r.value| - 1]) ==
                   (if Truthy(fieldList[0].value) then Count(fieldList[0].value.s, ',') + 1 else 0)
              && (|r.value| == 10 || r.value[8] != '0')
  {
    if contents == [] then Throws
    else if contents[0].isPicklist then
      Ok(if Truthy(contents[0].value) then contents[0].value.s else "--None--")
    else if fieldList == [] then Throws
    else
      var n := NatToString(TokenCount(fieldList[0].value));
      ParseNatToString(TokenCount(fieldList[0].value));
      var text := "Stores (" + n + ")";
      assert text[8..|text| - 1] == n;
      Ok(text)
  }

  /** `connectedCallback`: the field list, then the link label over it. */
  function Connect(contents: seq<Content>): (r: Outcome<(seq<Field>, string)>)
    ensures r.Ok? ==> SetContent(contents) == Ok(r.value.0)
    ensures r.Ok? ==> SetLinkLabel(contents, r.value.0) == Ok(r.value.1)
    ensures r.Throws? <==> SetContent(contents).Throws? || contents == []
  {
    match SetContent(contents)
    case Throws => Throws
    case Ok(fields) =>
      match SetLinkLabel(contents, fields)
      case Throws => Throws
      case Ok(text) => Ok((fields, text))
  }

  /** The picklist test reads the first entry in input order, but the
      store count reads the first field after the sort: the entry with the
      smallest order, the earliest of those on a tie. */
  lemma ConnectCountsLowest(contents: seq<Content>)
    requires Connect(contents).Ok? && !contents[0].isPicklist
    ensures var i := FirstLowest(BuildFields(contents).value);
            Connect(contents).value.1 == "Stores (" + NatToString(TokenCount(contents[i].value)) + ")"
  {
    var fields := BuildFields(contents).value;
    SortHead(fields);
    assert ToField(contents[FirstLowest(fields)]) == Ok(fields[FirstLowest(fields)]);
  }
}
