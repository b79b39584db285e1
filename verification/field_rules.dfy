/** Per-field format rules applied to drafts at save time, and the
    canonicalisation of number-set fields that runs before them
    (`FIELD_VALIDATION`, `NUMBER_SET_FIELDS`, `validateItem`,
    `formatNumberSetFields`, `formatNumberSetFieldValue`). */
module FieldRules {
  import opened Options
  import opened Strings
  import opened Records

  // ---------------------------------------------------------------------
  // The regular expressions, written out as predicates.
  // ---------------------------------------------------------------------

  /** `^([0-9]{4}([,]?))+$`: one or more blocks of four digits, each
      optionally followed by a comma. */
  predicate StoreNumbersFormat(s: string)
    decreases |s|
  {
    && |s| >= 4
    && AllDigits(s[..4])
    && (|s| == 4
        || (s[4] == ',' && (|s| == 5 || StoreNumbersFormat(s[5..])))
        || (s[4] != ',' && StoreNumbersFormat(s[4..])))
  }

  /** `^[0-9,]+$`. */
  predicate NasaFormat(s: string) {
    |s| > 0 && forall i :: 0 <= i < |s| ==> IsDigit(s[i]) || s[i] == ','
  }

  predicate IsWeekDay(c: char) { '1' <= c <= '7' }

  /** `^(?:[1-7](?:;|$))+$`: digits 1 to 7, each followed by `;` or by the
      end of the text. */
  predicate WeekDaysFormat(s: string)
    decreases |s|
  {
    && |s| >= 1
    && IsWeekDay(s[0])
    && (|s| == 1 || (s[1] == ';' && (|s| == 2 || WeekDaysFormat(s[2..]))))
  }

  /** The characters `.` does not match in a JavaScript regular expression. */
  predicate IsLineTerminator(c: char) {
    c == '\n' || c == '\r' || c == '\U{2028}' || c == '\U{2029}'
  }

  /** `^.{2}$`. */
  predicate TwoCharacters(s: string) {
    |s| == 2 && !IsLineTerminator(s[0]) && !IsLineTerminator(s[1])
  }

  /** `/[0-9]{1}[A-Z]{1}/`, unanchored: a digit followed by an upper-case
      letter somewhere in the text. */
  predicate DigitThenUpper(s: string) {
    exists i :: 0 <= i < |s| - 1 && DigitUpperAt(s, i)
  }

  predicate DigitUpperAt(s: string, i: int)
    requires 0 <= i < |s| - 1
  {
    IsDigit(s[i]) && IsUpper(s[i + 1])
  }

  datatype Pattern = StoreNumbers | Nasa | WeekDays | ExactlyTwo | DigitUpper

  predicate Matches(p: Pattern, s: string) {
    match p
    case StoreNumbers => StoreNumbersFormat(s)
    case Nasa => NasaFormat(s)
    case WeekDays => WeekDaysFormat(s)
    case ExactlyTwo => TwoCharacters(s)
    case DigitUpper => DigitThenUpper(s)
  }

  /** The two A/B-label rules together accept exactly a digit followed by
      an upper-case letter. */
  lemma AbRulesAcceptDigitUpper(s: string)
    ensures Matches(ExactlyTwo, s) && Matches(DigitUpper, s)
            <==> |s| == 2 && IsDigit(s[0]) && IsUpper(s[1])
  {
    if |s| == 2 && DigitThenUpper(s) {
      var i :| 0 <= i < |s| - 1 && DigitUpperAt(s, i);
      assert i == 0;
    }
    if |s| == 2 && IsDigit(s[0]) && IsUpper(s[1]) {
      assert DigitThenUpper(s) by { assert DigitUpperAt(s, 0); }
    }
  }

  predicate IsStoreBlock(b: string) {
    |b| == 4 && AllDigits(b)
  }

  /** Any comma-separated list of four-digit store numbers has the store
      number format, with or without a trailing comma. */
  lemma {:induction false} StoreListHasFormat(blocks: seq<string>, trailing: bool)
    requires |blocks| > 0
    requires forall i :: 0 <= i < |blocks| ==> IsStoreBlock(blocks[i])
    ensures StoreNumbersFormat(Join(blocks, ',') + (if trailing then "," else ""))
    decreases |blocks|
  {
    var t := if trailing then "," else "";
    var s := Join(blocks, ',') + t;
    if |blocks| == 1 {
      assert s == blocks[0] + t;
      assert s[..4] == blocks[0];
    } else {
      var rest := Join(blocks[1..], ',') + t;
      StoreListHasFormat(blocks[1..], trailing);
      assert s == blocks[0] + [','] + rest;
      assert s[..4] == blocks[0];
      assert s[4] == ',';
      assert s[5..] == rest;
    }
  }

  /** Any `;`-separated list of week days has the week-day format. */
  lemma {:induction false} WeekDayListHasFormat(days: string)
    requires |days| > 0
    requires forall i :: 0 <= i < |days| ==> IsWeekDay(days[i])
    ensures WeekDaysFormat(Join(seq(|days|, i requires 0 <= i < |days| => [days[i]]), ';'))
    decreases |days|
  {
    var parts := seq(|days|, i requires 0 <= i < |days| => [days[i]]);
    if |days| > 1 {
      var restParts := seq(|days[1..]|, i requires 0 <= i < |days[1..]| => [days[1..][i]]);
      assert parts[1..] == restParts;
      WeekDayListHasFormat(days[1..]);
      var s := Join(parts, ';');
      assert s == [days[0]] + [';'] + Join(restParts, ';');
      assert s[2..] == Join(restParts, ';');
    }
  }

  // ---------------------------------------------------------------------
  // FIELD_VALIDATION and validateItem.
  // ---------------------------------------------------------------------

  datatype Rule = Rule(vciExclusive: bool, pattern: Pattern, errorMessage: string)

  const StoreNumbersMessage :=
    "Please add store numbers in correct format, separated by a comma. E.g., 1421,1123,2141"
  const AbMessage :=
    "Please follow the number and letter pattern (e.g. 1A, 2A etc.) in 1A/1B or 1V/2V field"

  /** The rule table, keyed by field name. The store-number rule is keyed by
      `storeNumbers`, which is not the name of any field of a campaign item. */
  const FieldValidation: map<string, seq<Rule>> := map[
    "storeNumbers" := [Rule(false, StoreNumbers, StoreNumbersMessage)],
    AbField := [Rule(true, ExactlyTwo, AbMessage), Rule(true, DigitUpper, AbMessage)],
    "ManualBlacklist__c" := [Rule(false, StoreNumbers, StoreNumbersMessage)],
    "CrossSellNASA__c" :=
      [Rule(false, Nasa, "Please enter the Cross-sell NASA number(s) separated by a comma")],
    "EvaluationNASA__c" :=
      [Rule(false, Nasa, "Please enter the Evaluation NASA number(s) separated by a comma")],
    "Days_of_the_Week__c" :=
      [Rule(false, WeekDays, "Days of the Week: bad value for restricted picklist field")]
  ]

  /** `regex.test(value)` converts its argument to text: `null` is tested as
      the four letters "null". */
  function TestedText(v: Option<string>): string {
    match v
    case None => "null"
    case Some(s) => s
  }

  /** A rule applies unless it is virtual-exclusive and the record is real. */
  predicate Applies(rule: Rule, id: string) {
    !(rule.vciExclusive && !IsVirtualId(id))
  }

  /** A rule passes when it does not apply, when the value is the empty
      string, or when the value matches. */
  predicate RulePasses(rule: Rule, id: string, v: Option<string>) {
    !Applies(rule, id) || v == Some("") || Matches(rule.pattern, TestedText(v))
  }

  predicate FieldPasses(id: string, key: string, v: Option<string>) {
    key !in FieldValidation
    || forall j :: 0 <= j < |FieldValidation[key]| ==> RulePasses(FieldValidation[key][j], id, v)
  }

  /** Every property of the draft passes every rule that applies to it.
      (`Id` and `Evaluation_JSON__c` have no rules.) */
  predicate ItemValid(item: Row) {
    forall k :: k in item.fields ==> FieldPasses(item.id, k, item.fields[k])
  }

  /** `validateItem`: walks the draft's properties and their rules and stops
      at the first applicable rule a non-empty value fails. */
  method ValidateItem(item: Row) returns (ok: bool)
    ensures ok <==> ItemValid(item)
    ensures !ok <==> exists k, j :: k in item.fields && k in FieldValidation
                      && 0 <= j < |FieldValidation[k]|
                      && Applies(FieldValidation[k][j], item.id)
                      && item.fields[k] != Some("")
                      && !Matches(FieldValidation[k][j].pattern, TestedText(item.fields[k]))
  {
    var keys := item.fields.Keys;
    while keys != {}
      invariant keys <= item.fields.Keys
      invariant forall k :: k in item.fields && k !in keys ==> FieldPasses(item.id, k, item.fields[k])
      decreases keys
    {
      var k :| k in keys;
      if k in FieldValidation {
        var rules := FieldValidation[k];
        var value := item.fields[k];
        var i := 0;
        while i < |rules|
          invariant 0 <= i <= |rules|
          invariant forall j :: 0 <= j < i ==> RulePasses(rules[j], item.id, value)
        {
          if !IsVirtualId(item.id) && rules[i].vciExclusive {
            i := i + 1;
            continue;
          }
          if value != Some("") && !Matches(rules[i].pattern, TestedText(value)) {
            assert !FieldPasses(item.id, k, value);
            return false;
          }
          i := i + 1;
        }
      }
      keys := keys - {k};
    }
    return true;
  }

  /** Empty strings pass every rule, and real rows skip the A/B-label
      rules whatever their value. */
  lemma EmptyAndRealBypass(id: string, key: string, v: Option<string>)
    ensures FieldPasses(id, key, Some(""))
    ensures !IsVirtualId(id) ==> FieldPasses(id, AbField, v)
  {
  }

  // ---------------------------------------------------------------------
  // NUMBER_SET_FIELDS and formatNumberSetFieldValue.
  // ---------------------------------------------------------------------

  const NumberSetFields: seq<string> := [
    "Store_Numbers__c",
    "Control_Stores__c",
    "ConfirmedStoreNumbers__c",
    "Nasa_number__c",
    "EvaluationNASA__c",
    "Sample_NASA__c",
    "CrossSellNASA__c",
    "ManualBlacklist__c"
  ]

  /** The characters the canonicaliser treats as list delimiters. */
  predicate IsDelimiter(c: char) {
    c == '\r' || c == '\n' || c == '\t' || c == ' ' || c == ';' || c == ','
  }

  /** The delimiters the canonicaliser removes entirely (everything but the
      comma). */
  predicate IsForeignDelimiter(c: char) {
    IsDelimiter(c) && c != ','
  }

  /** The text with every delimiter removed: the numbers themselves. */
  function Significant(s: string): (r: string)
    ensures |r| <= |s|
  {
    if s == [] then [] else (if IsDelimiter(s[0]) then [] else [s[0]]) + Significant(s[1..])
  }

  lemma {:induction false} SignificantAppend(a: string, b: string)
    ensures Significant(a + b) == Significant(a) + Significant(b)
    decreases |a|
  {
    if a != [] {
      var head := if IsDelimiter(a[0]) then [] else [a[0]];
      calc {
        Significant(a + b);
        { assert (a + b)[0] == a[0]; assert (a + b)[1..] == a[1..] + b; }
        head + Significant(a[1..] + b);
        { SignificantAppend(a[1..], b); }
        head + (Significant(a[1..]) + Significant(b));
        (head + Significant(a[1..])) + Significant(b);
        Significant(a) + Significant(b);
      }
    } else {
      assert a + b == b;
    }
  }

  lemma {:induction false} SignificantOfDelimiters(s: string)
    requires forall i :: 0 <= i < |s| ==> IsDelimiter(s[i])
    ensures Significant(s) == []
    decreases |s|
  {
    if s != [] {
      SignificantOfDelimiters(s[1..]);
    }
  }

  /** Replacing delimiters by delimiters keeps the numbers and their order. */
  lemma {:induction false} ReplaceAllKeepsSignificant(s: string, pat: string, rep: string)
    requires |pat| > 0
    requires forall i :: 0 <= i < |pat| ==> IsDelimiter(pat[i])
    requires forall i :: 0 <= i < |rep| ==> IsDelimiter(rep[i])
    ensures Significant(ReplaceAll(s, pat, rep)) == Significant(s)
    decreases |s|
  {
    if |s| >= |pat| {
      if s[..|pat|] == pat {
        ReplaceAllKeepsSignificant(s[|pat|..], pat, rep);
        SignificantAppend(rep, ReplaceAll(s[|pat|..], pat, rep));
        SignificantOfDelimiters(rep);
        assert s == pat + s[|pat|..];
        SignificantAppend(pat, s[|pat|..]);
        SignificantOfDelimiters(pat);
      } else {
        ReplaceAllKeepsSignificant(s[1..], pat, rep);
        SignificantAppend([s[0]], ReplaceAll(s[1..], pat, rep));
        assert s == [s[0]] + s[1..];
        SignificantAppend([s[0]], s[1..]);
      }
    }
  }

  /** The text with its leading delimiters removed. */
  function SkipDelimiters(s: string): (r: string)
    ensures |r| <= |s|
    ensures r == [] || !IsDelimiter(r[0])
    ensures s != [] && IsDelimiter(s[0]) ==> |r| < |s|
    ensures s == [] || !IsDelimiter(s[0]) ==> r == s
  {
    if s != [] && IsDelimiter(s[0]) then SkipDelimiters(s[1..]) else s
  }

  /** The shape of a number list: every maximal run of delimiters becomes a
      single comma. It lists the numbers (the maximal delimiter-free runs) in
      order, and records where they were separated and whether the text
      starts or ends with a separator. */
  function Squash(s: string): string
    decreases |s|
  {
    if s == [] then []
    else if IsDelimiter(s[0]) then [','] + Squash(SkipDelimiters(s))
    else [s[0]] + Squash(s[1..])
  }

  lemma {:induction false} SkipDelimitersAfterRun(d: string, x: string)
    requires forall i :: 0 <= i < |d| ==> IsDelimiter(d[i])
    ensures SkipDelimiters(d + x) == SkipDelimiters(x)
    decreases |d|
  {
    if d != [] {
      assert (d + x)[0] == d[0];
      assert (d + x)[1..] == d[1..] + x;
      SkipDelimitersAfterRun(d[1..], x);
    } else {
      assert d + x == x;
    }
  }

  lemma {:induction false} SkipDelimitersAppend(a: string, t: string)
    ensures SkipDelimiters(a) != [] ==> SkipDelimiters(a + t) == SkipDelimiters(a) + t
    ensures SkipDelimiters(a) == [] ==> SkipDelimiters(a + t) == SkipDelimiters(t)
    decreases |a|
  {
    if a == [] {
      assert a + t == t;
    } else if IsDelimiter(a[0]) {
      assert (a + t)[0] == a[0];
      assert (a + t)[1..] == a[1..] + t;
      SkipDelimitersAppend(a[1..], t);
    } else {
      assert (a + t)[0] == a[0];
    }
  }

  /** A run of delimiters squashes to one comma, whatever follows it. */
  lemma SquashAfterRun(d: string, x: string)
    requires |d| > 0
    requires forall i :: 0 <= i < |d| ==> IsDelimiter(d[i])
    ensures Squash(d + x) == [','] + Squash(SkipDelimiters(x))
  {
    assert (d + x)[0] == d[0];
    SkipDelimitersAfterRun(d, x);
  }

  lemma SquashAfterDigit(c: char, x: string)
    requires !IsDelimiter(c)
    ensures Squash([c] + x) == [c] + Squash(x)
  {
    assert ([c] + x)[1..] == x;
  }

  /** The shape is a leading comma (when the text starts with a delimiter)
      followed by a shape that never starts with one. */
  lemma SquashLead(x: string)
    ensures var b := Squash(SkipDelimiters(x));
            && (b == [] || b[0] != ',')
            && Squash(x) == if x != [] && IsDelimiter(x[0]) then [','] + b else b
  {
    var z := SkipDelimiters(x);
    if z != [] {
      assert Squash(z)[0] == z[0];
    }
  }

  /** Two texts of the same shape keep the same shape once their leading
      delimiters are dropped. */
  lemma SquashBody(x: string, y: string)
    requires Squash(x) == Squash(y)
    ensures Squash(SkipDelimiters(x)) == Squash(SkipDelimiters(y))
  {
    SquashLead(x);
    SquashLead(y);
    var sx := Squash(SkipDelimiters(x));
    var sy := Squash(SkipDelimiters(y));
    if x != [] && IsDelimiter(x[0]) && y != [] && IsDelimiter(y[0]) {
      assert sx == ([','] + sx)[1..] && sy == ([','] + sy)[1..];
    }
  }

  /** Replacing a run of delimiters by a non-empty run of delimiters keeps
      the shape: the same numbers, separated in the same places. */
  lemma {:induction false} ReplaceAllKeepsSquash(s: string, pat: string, rep: string)
    requires |pat| > 0 && |rep| > 0
    requires forall i :: 0 <= i < |pat| ==> IsDelimiter(pat[i])
    requires forall i :: 0 <= i < |rep| ==> IsDelimiter(rep[i])
    ensures Squash(ReplaceAll(s, pat, rep)) == Squash(s)
    decreases |s|
  {
    if |s| >= |pat| {
      if s[..|pat|] == pat {
        var rest := s[|pat|..];
        ReplaceAllKeepsSquash(rest, pat, rep);
        var t := ReplaceAll(rest, pat, rep);
        SquashBody(t, rest);
        SquashAfterRun(rep, t);
        assert s == pat + rest;
        SquashAfterRun(pat, rest);
      } else {
        ReplaceAllKeepsSquash(s[1..], pat, rep);
        var t := ReplaceAll(s[1..], pat, rep);
        assert s == [s[0]] + s[1..];
        if IsDelimiter(s[0]) {
          SquashBody(t, s[1..]);
          SquashAfterRun([s[0]], t);
          SquashAfterRun([s[0]], s[1..]);
        } else {
          SquashAfterDigit(s[0], t);
          SquashAfterDigit(s[0], s[1..]);
        }
      }
    }
  }

  /** Appending one comma adds at most a trailing separator to the shape. */
  lemma {:induction false} SquashTrailingComma(a: string)
    ensures Squash(a + [',']) == Squash(a) || Squash(a + [',']) == Squash(a) + [',']
    decreases |a|
  {
    assert SkipDelimiters([',']) == [] by {
      assert [','][1..] == [];
    }
    if a == [] {
      assert a + [','] == [','];
    } else if IsDelimiter(a[0]) {
      var b := SkipDelimiters(a);
      SkipDelimitersAppend(a, [',']);
      assert (a + [','])[0] == a[0];
      if b != [] {
        SquashTrailingComma(b);
      }
    } else {
      assert (a + [','])[0] == a[0];
      assert (a + [','])[1..] == a[1..] + [','];
      SquashTrailingComma(a[1..]);
    }
  }

  /** The chain of `replaceAll` calls, in the source's order. */
  function CollapseDelimiters(value: string): string {
    var s1 := ReplaceAll(value, "\r\n", ",");
    var s2 := ReplaceAll(s1, "\n", ",");
    var s3 := ReplaceAll(s2, "\r", ",");
    var s4 := ReplaceAll(s3, "\t", ",");
    var s5 := ReplaceAll(s4, " ,", ",");
    var s6 := ReplaceAll(s5, ", ", ",");
    var s7 := ReplaceAll(s6, " ;", ",");
    var s8 := ReplaceAll(s7, "; ", ",");
    var s9 := ReplaceAll(s8, " ", ",");
    var s10 := ReplaceAll(s9, ";", ",");
    ReplaceAll(s10, ",,", ",")
  }

  lemma CollapseDelimitersFacts(value: string)
    ensures |CollapseDelimiters(value)| <= |value|
    ensures forall c :: c in CollapseDelimiters(value) ==> !IsForeignDelimiter(c)
    ensures Significant(CollapseDelimiters(value)) == Significant(value)
    ensures Squash(CollapseDelimiters(value)) == Squash(value)
  {
    CollapseRemovesForeign(value);
    CollapseKeepsSignificant(value);
    CollapseKeepsSquash(value);
  }

  lemma CollapseRemovesForeign(value: string)
    ensures forall c :: c in CollapseDelimiters(value) ==> !IsForeignDelimiter(c)
  {
    var s1 := ReplaceAll(value, "\r\n", ",");
    var s2 := ReplaceAll(s1, "\n", ",");
    var s3 := ReplaceAll(s2, "\r", ",");
    var s4 := ReplaceAll(s3, "\t", ",");
    var s5 := ReplaceAll(s4, " ,", ",");
    var s6 := ReplaceAll(s5, ", ", ",");
    var s7 := ReplaceAll(s6, " ;", ",");
    var s8 := ReplaceAll(s7, "; ", ",");
    var s9 := ReplaceAll(s8, " ", ",");
    var s10 := ReplaceAll(s9, ";", ",");
    ReplaceAllChars(value, "\r\n", ",");
    ReplaceAllChars(s1, "\n", ",");
    ReplaceAllChars(s2, "\r", ",");
    ReplaceAllChars(s3, "\t", ",");
    ReplaceAllChars(s4, " ,", ",");
    ReplaceAllChars(s5, ", ", ",");
    ReplaceAllChars(s6, " ;", ",");
    ReplaceAllChars(s7, "; ", ",");
    ReplaceAllChars(s8, " ", ",");
    ReplaceAllChars(s9, ";", ",");
    ReplaceAllChars(s10, ",,", ",");
    ReplaceAllRemovesChar(s1, '\n', ",");
    ReplaceAllRemovesChar(s2, '\r', ",");
    ReplaceAllRemovesChar(s3, '\t', ",");
    ReplaceAllRemovesChar(s8, ' ', ",");
    ReplaceAllRemovesChar(s9, ';', ",");
  }

  lemma CollapseKeepsSignificant(value: string)
    ensures Significant(CollapseDelimiters(value)) == Significant(value)
  {
    var s1 := ReplaceAll(value, "\r\n", ",");
    var s2 := ReplaceAll(s1, "\n", ",");
    var s3 := ReplaceAll(s2, "\r", ",");
    var s4 := ReplaceAll(s3, "\t", ",");
    var s5 := ReplaceAll(s4, " ,", ",");
    var s6 := ReplaceAll(s5, ", ", ",");
    var s7 := ReplaceAll(s6, " ;", ",");
    var s8 := ReplaceAll(s7, "; ", ",");
    var s9 := ReplaceAll(s8, " ", ",");
    var s10 := ReplaceAll(s9, ";", ",");
    ReplaceAllKeepsSignificant(value, "\r\n", ",");
    ReplaceAllKeepsSignificant(s1, "\n", ",");
    ReplaceAllKeepsSignificant(s2, "\r", ",");
    ReplaceAllKeepsSignificant(s3, "\t", ",");
    ReplaceAllKeepsSignificant(s4, " ,", ",");
    ReplaceAllKeepsSignificant(s5, ", ", ",");
    ReplaceAllKeepsSignificant(s6, " ;", ",");
    ReplaceAllKeepsSignificant(s7, "; ", ",");
    ReplaceAllKeepsSignificant(s8, " ", ",");
    ReplaceAllKeepsSignificant(s9, ";", ",");
    ReplaceAllKeepsSignificant(s10, ",,", ",");
  }

  lemma CollapseKeepsSquash(value: string)
    ensures Squash(CollapseDelimiters(value)) == Squash(value)
  {
    var s1 := ReplaceAll(value, "\r\n", ",");
    var s2 := ReplaceAll(s1, "\n", ",");
    var s3 := ReplaceAll(s2, "\r", ",");
    var s4 := ReplaceAll(s3, "\t", ",");
    var s5 := ReplaceAll(s4, " ,", ",");
    var s6 := ReplaceAll(s5, ", ", ",");
    var s7 := ReplaceAll(s6, " ;", ",");
    var s8 := ReplaceAll(s7, "; ", ",");
    var s9 := ReplaceAll(s8, " ", ",");
    var s10 := ReplaceAll(s9, ";", ",");
    ReplaceAllKeepsSquash(value, "\r\n", ",");
    ReplaceAllKeepsSquash(s1, "\n", ",");
    ReplaceAllKeepsSquash(s2, "\r", ",");
    ReplaceAllKeepsSquash(s3, "\t", ",");
    ReplaceAllKeepsSquash(s4, " ,", ",");
    ReplaceAllKeepsSquash(s5, ", ", ",");
    ReplaceAllKeepsSquash(s6, " ;", ",");
    ReplaceAllKeepsSquash(s7, "; ", ",");
    ReplaceAllKeepsSquash(s8, " ", ",");
    ReplaceAllKeepsSquash(s9, ";", ",");
    ReplaceAllKeepsSquash(s10, ",,", ",");
  }

  /** `formatNumberSetFieldValue`: every line break, tab, space and `;`
      becomes a comma-delimited form, doubled commas are collapsed in a single
      pass, and one trailing comma is dropped. The numbers themselves are
      kept, in order. */
  function FormatNumberSetFieldValue(value: string): (r: string)
    ensures |r| <= |value|
    ensures forall c :: c in r ==> !IsForeignDelimiter(c)
    ensures Significant(r) == Significant(value)
  {
    CollapseDelimitersFacts(value);
    var s := CollapseDelimiters(value);
    if |s| > 0 && s[|s| - 1] == ',' then
      assert s == s[..|s| - 1] + [','];
      SignificantAppend(s[..|s| - 1], [',']);
      s[..|s| - 1]
    else s
  }

  /** The canonical form is the collapsed text with at most one trailing
      comma dropped. It keeps the numbers, in order, and keeps a separator
      wherever the original separated two numbers; only a separator at the
      very end may disappear. */
  lemma FormatKeepsShape(value: string)
    ensures var r, c := FormatNumberSetFieldValue(value), CollapseDelimiters(value);
            && (r == c || r + [','] == c)
            && (Squash(r) == Squash(value) || Squash(r) + [','] == Squash(value))
  {
    CollapseKeepsSquash(value);
    var c := CollapseDelimiters(value);
    if |c| > 0 && c[|c| - 1] == ',' {
      assert c == c[..|c| - 1] + [','];
      SquashTrailingComma(c[..|c| - 1]);
    }
  }

  /** `replaceAll` is the identity when some character of the pattern does
      not occur in the text. */
  lemma ReplaceAllMissingChar(s: string, pat: string, rep: string, k: nat)
    requires |pat| > 0 && k < |pat| && pat[k] !in s
    ensures ReplaceAll(s, pat, rep) == s
  {
    forall i: nat
      ensures !OccursAt(s, pat, i)
    {
      if i + |pat| <= |s| {
        assert s[i..i + |pat|][k] == s[i + k];
      }
    }
    ReplaceAllAbsent(s, pat, rep);
  }

  predicate DigitsAndCommas(s: string) {
    forall i :: 0 <= i < |s| ==> IsDigit(s[i]) || s[i] == ','
  }

  /** On text made of digits and commas only the final doubled-comma pass
      of the chain can change anything. */
  lemma CollapseOfDigitsAndCommas(s: string)
    requires DigitsAndCommas(s)
    ensures CollapseDelimiters(s) == ReplaceAll(s, ",,", ",")
  {
    assert '\r' !in s && '\n' !in s && '\t' !in s && ' ' !in s && ';' !in s;
    ReplaceAllMissingChar(s, "\r\n", ",", 0);
    ReplaceAllMissingChar(s, "\n", ",", 0);
    ReplaceAllMissingChar(s, "\r", ",", 0);
    ReplaceAllMissingChar(s, "\t", ",", 0);
    ReplaceAllMissingChar(s, " ,", ",", 0);
    ReplaceAllMissingChar(s, ", ", ",", 1);
    ReplaceAllMissingChar(s, " ;", ",", 0);
    ReplaceAllMissingChar(s, "; ", ",", 0);
    ReplaceAllMissingChar(s, " ", ",", 0);
    ReplaceAllMissingChar(s, ";", ",", 0);
  }

  /** The doubled-comma collapse is a single pass, so formatting is not
      idempotent. */
  lemma FormatIsNotIdempotent()
    ensures FormatNumberSetFieldValue(",,,,") == ","
    ensures FormatNumberSetFieldValue(",") == ""
  {
    var four := ",,,,";
    CollapseFourCommas();
    var c4 := CollapseDelimiters(four);
    assert |c4| > 0 && c4[|c4| - 1] == ',';
    assert FormatNumberSetFieldValue(four) == c4[..|c4| - 1];
    var one := ",";
    CollapseOneComma();
    var c1 := CollapseDelimiters(one);
    assert |c1| > 0 && c1[|c1| - 1] == ',';
    assert FormatNumberSetFieldValue(one) == c1[..|c1| - 1];
  }

  lemma CollapseFourCommas()
    ensures CollapseDelimiters(",,,,") == ",,"
  {
    CollapseCommaRun(2);
    assert Commas(4) == ",,,," && Commas(2) == ",,";
  }

  /** A run of `n` commas. */
  function Commas(n: nat): (s: string)
    ensures |s| == n && forall i :: 0 <= i < n ==> s[i] == ','
  {
    seq(n, _ => ',')
  }

  /** A run of `2n` commas collapses to `n` commas, not to one. */
  lemma CollapseCommaRun(n: nat)
    ensures CollapseDelimiters(Commas(2 * n)) == Commas(n)
  {
    assert DigitsAndCommas(Commas(2 * n));
    CollapseOfDigitsAndCommas(Commas(2 * n));
    PairedCommaRun(n);
  }

  lemma {:induction false} PairedCommaRun(n: nat)
    ensures ReplaceAll(Commas(2 * n), ",,", ",") == Commas(n)
  {
    if n > 0 {
      var s := Commas(2 * n);
      PairedCommaRun(n - 1);
      assert s[..2] == ",," && s[2..] == Commas(2 * (n - 1));
      assert Commas(n) == "," + Commas(n - 1);
    }
  }

  lemma CollapseOneComma()
    ensures CollapseDelimiters(",") == ","
  {
    var one := ",";
    assert DigitsAndCommas(one);
    CollapseOfDigitsAndCommas(one);
    assert ReplaceAll(one, ",,", ",") == one;
  }

  /** A value already in canonical form: digits and single commas, no
      trailing comma. */
  predicate Canonical(s: string) {
    && DigitsAndCommas(s)
    && (forall i :: 0 <= i < |s| - 1 ==> !(s[i] == ',' && s[i + 1] == ','))
    && (|s| > 0 ==> s[|s| - 1] != ',')
  }

  /** Formatting leaves an already canonical value unchanged. */
  lemma FormatKeepsCanonical(s: string)
    requires Canonical(s)
    ensures FormatNumberSetFieldValue(s) == s
  {
    CollapseOfDigitsAndCommas(s);
    forall i: nat
      ensures !OccursAt(s, ",,", i)
    {
      if i + 2 <= |s| {
        assert s[i..i + 2][0] == s[i] && s[i..i + 2][1] == s[i + 1];
      }
    }
    ReplaceAllAbsent(s, ",,", ",");
  }

  /** `formatNumberSetFields`: every number-set property whose value is not
      `''` is canonicalised; a `null` one makes `replaceAll` throw (`None`). */
  function FormatNumberSetFields(item: Row): (r: Option<Row>)
    ensures r.None? <==> exists k :: k in item.fields && k in NumberSetFields && item.fields[k].None?
    ensures r.Some? ==> r.value.id == item.id && r.value.sidecar == item.sidecar
    ensures r.Some? ==> r.value.fields.Keys == item.fields.Keys
    ensures r.Some? ==> forall k :: k in item.fields && k !in NumberSetFields ==>
                          r.value.fields[k] == item.fields[k]
    ensures r.Some? ==> forall k :: k in item.fields && k in NumberSetFields ==>
                          && r.value.fields[k].Some?
                          && Significant(r.value.fields[k].value) == Significant(item.fields[k].value)
                          && forall c :: c in r.value.fields[k].value ==> !IsForeignDelimiter(c)
    ensures r.Some? ==> forall k :: k in item.fields && k in NumberSetFields ==>
                          r.value.fields[k] == if item.fields[k] == Some("") then Some("")
                                               else Some(FormatNumberSetFieldValue(item.fields[k].value))
  {
    if exists k :: k in item.fields && k in NumberSetFields && item.fields[k].None? then None
    else
      Some(item.(fields := map k | k in item.fields ::
        if k in NumberSetFields && item.fields[k] != Some("")
        then Some(FormatNumberSetFieldValue(item.fields[k].value))
        else item.fields[k]))
  }
}
