/** The row validator and the validation run of `main`: the dispatch of each
    configured rule to its evaluator, the concatenation of their texts over the
    fields and rules of a row, and the pass over all rows that counts error rows
    and produces one annotation per error row. The spreadsheet is a sequence of
    rows of cells; the annotations written back are a map from cell address to
    text. */
module Validator {
  import opened GoStrings
  import opened Config
  import opened Evaluators

  predicate IsKnownKind(kind: string) {
    kind == NonNullKind || kind == InDictionaryKind || kind == NotInFieldKind
  }

  /** What evaluating `rule` on `row` needs so that the Go code does not index
      out of range or dereference a nil pointer. An unknown kind needs nothing. */
  predicate RuleApplicable(row: seq<string>, field: Field, rule: Rule) {
    if rule.kind == NonNullKind then 0 <= field.fieldID < |row|
    else if rule.kind == InDictionaryKind then MultiValueReady(row, field) && rule.dictionary.Some?
    else if rule.kind == NotInFieldKind then MultiValueReady(row, field) && RefFieldReady(row, rule)
    else true
  }

  predicate RulesApplicable(row: seq<string>, field: Field, rules: seq<Rule>) {
    forall j | 0 <= j < |rules| :: RuleApplicable(row, field, rules[j])
  }

  predicate FieldsApplicable(row: seq<string>, fields: seq<Field>) {
    forall i | 0 <= i < |fields| :: RulesApplicable(row, fields[i], fields[i].rules)
  }

  /** The `switch` on the rule type: the text one rule contributes. */
  function RuleText(row: seq<string>, field: Field, rule: Rule, headers: map<int, string>,
                    dictionaries: map<string, seq<string>>): string
    requires RuleApplicable(row, field, rule)
  {
    if rule.kind == NonNullKind then NonNullText(row, field, rule, headers)
    else if rule.kind == InDictionaryKind then InDictionaryText(row, field, rule, headers, dictionaries)
    else if rule.kind == NotInFieldKind then NotInFieldText(row, field, rule, headers)
    else ""
  }

  /** Texts written one after another into a builder, with nothing in between. */
  function Concat(texts: seq<string>): string {
    if texts == [] then "" else Concat(texts[..|texts| - 1]) + texts[|texts| - 1]
  }

  /** Writing one more text. */
  lemma ConcatSnoc(texts: seq<string>, t: string)
    ensures Concat(texts + [t]) == Concat(texts) + t
  {
    assert (texts + [t])[..|texts|] == texts;
  }

  /** Writing the first `i + 1` texts is writing the first `i` and then text `i`. */
  lemma ConcatPrefixStep(texts: seq<string>, i: nat)
    requires i < |texts|
    ensures Concat(texts[..i + 1]) == Concat(texts[..i]) + texts[i]
  {
    assert texts[..i + 1] == texts[..i] + [texts[i]];
    ConcatSnoc(texts[..i], texts[i]);
  }

  /** Writing two texts. */
  lemma ConcatPair(t1: string, t2: string)
    ensures Concat([t1, t2]) == t1 + t2
  {
    ConcatSnoc([t1], t2);
    assert [t1] + [t2] == [t1, t2];
    assert [t1][..0] == [];
  }

  /** Writing two runs of texts is writing each in turn. */
  lemma {:induction false} ConcatAppend(a: seq<string>, b: seq<string>)
    ensures Concat(a + b) == Concat(a) + Concat(b)
    decreases |b|
  {
    if b == [] {
      assert a + b == a;
    } else {
      var init, last := b[..|b| - 1], b[|b| - 1];
      assert b == init + [last];
      assert a + b == (a + init) + [last];
      calc {
        Concat(a + b);
        { ConcatSnoc(a + init, last); }
        Concat(a + init) + last;
        { ConcatAppend(a, init); }
        Concat(a) + Concat(init) + last;
        { ConcatSnoc(init, last); }
        Concat(a) + Concat(b);
      }
    }
  }

  /** Nothing is written exactly when every text is empty. */
  lemma {:induction false} ConcatEmptyIff(texts: seq<string>)
    ensures Concat(texts) == "" <==> forall i | 0 <= i < |texts| :: texts[i] == ""
  {
    if texts != [] {
      var init := texts[..|texts| - 1];
      ConcatEmptyIff(init);
      assert forall i | 0 <= i < |init| :: init[i] == texts[i];
    }
  }

  /** An empty text can be written anywhere without changing what is written. */
  lemma ConcatSkipsEmpty(pre: seq<string>, post: seq<string>)
    ensures Concat(pre + [""] + post) == Concat(pre + post)
  {
    ConcatSnoc(pre, "");
    assert pre + [""] + post == (pre + [""]) + post;
    ConcatAppend(pre + [""], post);
    ConcatAppend(pre, post);
  }

  /** The text each of a field's rules contributes, in configured order. */
  function RuleTexts(row: seq<string>, field: Field, rules: seq<Rule>, headers: map<int, string>,
                     dictionaries: map<string, seq<string>>): seq<string>
    requires RulesApplicable(row, field, rules)
  {
    seq(|rules|, j requires 0 <= j < |rules| => RuleText(row, field, rules[j], headers, dictionaries))
  }

  /** The texts of a field's rules, in configured order. */
  function RulesText(row: seq<string>, field: Field, rules: seq<Rule>, headers: map<int, string>,
                     dictionaries: map<string, seq<string>>): string
    requires RulesApplicable(row, field, rules)
  {
    Concat(RuleTexts(row, field, rules, headers, dictionaries))
  }

  /** The text each field contributes, in configured order. */
  function FieldTexts(row: seq<string>, fields: seq<Field>, headers: map<int, string>,
                      dictionaries: map<string, seq<string>>): seq<string>
    requires FieldsApplicable(row, fields)
  {
    seq(|fields|, i requires 0 <= i < |fields| => RulesText(row, fields[i], fields[i].rules, headers, dictionaries))
  }

  /** A row's text: the texts of every field's rules, fields in configured order. */
  function RowText(row: seq<string>, fields: seq<Field>, headers: map<int, string>,
                   dictionaries: map<string, seq<string>>): string
    requires FieldsApplicable(row, fields)
  {
    Concat(FieldTexts(row, fields, headers, dictionaries))
  }

  /** The rule texts of a field, each known only where that rule's own text is
      mentioned, so that a proof about the rule loop handles one rule at a time. */
  lemma RuleTextsOf(row: seq<string>, field: Field, rules: seq<Rule>, headers: map<int, string>,
                    dictionaries: map<string, seq<string>>) returns (texts: seq<string>)
    requires RulesApplicable(row, field, rules)
    ensures |texts| == |rules|
    ensures forall j {:trigger RuleText(row, field, rules[j], headers, dictionaries)} | 0 <= j < |rules| ::
      texts[j] == RuleText(row, field, rules[j], headers, dictionaries)
  {
    texts := RuleTexts(row, field, rules, headers, dictionaries);
  }

  /** Writing those texts in order is the field's text. */
  lemma RuleTextsConcat(row: seq<string>, field: Field, rules: seq<Rule>, headers: map<int, string>,
                        dictionaries: map<string, seq<string>>, texts: seq<string>)
    requires RulesApplicable(row, field, rules) && |texts| == |rules|
    requires forall j {:trigger RuleText(row, field, rules[j], headers, dictionaries)} | 0 <= j < |rules| ::
      texts[j] == RuleText(row, field, rules[j], headers, dictionaries)
    ensures Concat(texts) == RulesText(row, field, rules, headers, dictionaries)
  {
    assert texts == RuleTexts(row, field, rules, headers, dictionaries);
  }

  /** The field texts of a row, each known only where that field's own text is
      mentioned. */
  lemma FieldTextsOf(row: seq<string>, fields: seq<Field>, headers: map<int, string>,
                     dictionaries: map<string, seq<string>>) returns (texts: seq<string>)
    requires FieldsApplicable(row, fields)
    ensures |texts| == |fields|
    ensures forall i {:trigger RulesText(row, fields[i], fields[i].rules, headers, dictionaries)} | 0 <= i < |fields| ::
      texts[i] == RulesText(row, fields[i], fields[i].rules, headers, dictionaries)
  {
    texts := FieldTexts(row, fields, headers, dictionaries);
  }

  /** Writing those texts in order is the row's text. */
  lemma FieldTextsConcat(row: seq<string>, fields: seq<Field>, headers: map<int, string>,
                         dictionaries: map<string, seq<string>>, texts: seq<string>)
    requires FieldsApplicable(row, fields) && |texts| == |fields|
    requires forall i {:trigger RulesText(row, fields[i], fields[i].rules, headers, dictionaries)} | 0 <= i < |fields| ::
      texts[i] == RulesText(row, fields[i], fields[i].rules, headers, dictionaries)
    ensures Concat(texts) == RowText(row, fields, headers, dictionaries)
  {
    assert texts == FieldTexts(row, fields, headers, dictionaries);
  }

  /** A rule of an unknown kind contributes nothing. */
  lemma UnknownRuleSilent(row: seq<string>, field: Field, rule: Rule, headers: map<int, string>,
                          dictionaries: map<string, seq<string>>)
    requires !IsKnownKind(rule.kind)
    ensures RuleApplicable(row, field, rule)
    ensures RuleText(row, field, rule, headers, dictionaries) == ""
  {
  }

  /** Inserting a rule of an unknown kind anywhere in a field's rules leaves the
      text unchanged: it neither contributes nor stops the remaining rules. */
  lemma UnknownRuleSkipped(row: seq<string>, field: Field, rules: seq<Rule>, k: nat, rule: Rule,
                           headers: map<int, string>, dictionaries: map<string, seq<string>>)
    requires RulesApplicable(row, field, rules) && k <= |rules| && !IsKnownKind(rule.kind)
    ensures RulesApplicable(row, field, rules[..k] + [rule] + rules[k..])
    ensures RulesText(row, field, rules[..k] + [rule] + rules[k..], headers, dictionaries)
      == RulesText(row, field, rules, headers, dictionaries)
  {
    var extended := rules[..k] + [rule] + rules[k..];
    UnknownRuleSilent(row, field, rule, headers, dictionaries);
    assert RulesApplicable(row, field, extended);
    var texts := RuleTextsOf(row, field, rules, headers, dictionaries);
    var pieces := texts[..k] + [""] + texts[k..];
    forall j | 0 <= j < |extended|
      ensures pieces[j] == RuleText(row, field, extended[j], headers, dictionaries)
    {
      if j < k {
        assert extended[j] == rules[j];
      } else if k < j {
        assert extended[j] == rules[j - 1];
      }
    }
    RuleTextsConcat(row, field, extended, headers, dictionaries, pieces);
    ConcatSkipsEmpty(texts[..k], texts[k..]);
    assert texts[..k] + texts[k..] == texts;
    RuleTextsConcat(row, field, rules, headers, dictionaries, texts);
  }

  /** Two rules on one field contribute their texts in configured order, the
      second immediately after the first. */
  lemma TwoRulesInOrder(row: seq<string>, field: Field, first: Rule, second: Rule,
                        headers: map<int, string>, dictionaries: map<string, seq<string>>)
    requires RuleApplicable(row, field, first) && RuleApplicable(row, field, second)
    ensures RulesApplicable(row, field, [first, second])
    ensures RulesText(row, field, [first, second], headers, dictionaries)
      == RuleText(row, field, first, headers, dictionaries) + RuleText(row, field, second, headers, dictionaries)
  {
    var t1, t2 := RuleText(row, field, first, headers, dictionaries), RuleText(row, field, second, headers, dictionaries);
    assert RulesApplicable(row, field, [first, second]);
    RuleTextsConcat(row, field, [first, second], headers, dictionaries, [t1, t2]);
    ConcatPair(t1, t2);
  }

  /** Field texts are concatenated in configured order with nothing in between. */
  lemma RowTextAppend(row: seq<string>, a: seq<Field>, b: seq<Field>,
                      headers: map<int, string>, dictionaries: map<string, seq<string>>)
    requires FieldsApplicable(row, a) && FieldsApplicable(row, b)
    ensures FieldsApplicable(row, a + b)
    ensures RowText(row, a + b, headers, dictionaries) == RowText(row, a, headers, dictionaries) + RowText(row, b, headers, dictionaries)
  {
    assert FieldsApplicable(row, a + b);
    assert FieldTexts(row, a + b, headers, dictionaries)
      == FieldTexts(row, a, headers, dictionaries) + FieldTexts(row, b, headers, dictionaries);
    ConcatAppend(FieldTexts(row, a, headers, dictionaries), FieldTexts(row, b, headers, dictionaries));
  }

  /** A row passes (its text is empty) exactly when no rule of any field contributes text. */
  lemma RowTextEmptyIff(row: seq<string>, fields: seq<Field>,
                        headers: map<int, string>, dictionaries: map<string, seq<string>>)
    requires FieldsApplicable(row, fields)
    ensures RowText(row, fields, headers, dictionaries) == ""
      <==> forall i, j | 0 <= i < |fields| && 0 <= j < |fields[i].rules| ::
             RuleText(row, fields[i], fields[i].rules[j], headers, dictionaries) == ""
  {
    var fieldTexts := FieldTextsOf(row, fields, headers, dictionaries);
    FieldTextsConcat(row, fields, headers, dictionaries, fieldTexts);
    ConcatEmptyIff(fieldTexts);
    forall i | 0 <= i < |fields|
      ensures fieldTexts[i] == "" <==>
        forall j | 0 <= j < |fields[i].rules| :: RuleText(row, fields[i], fields[i].rules[j], headers, dictionaries) == ""
    {
      var texts := RuleTextsOf(row, fields[i], fields[i].rules, headers, dictionaries);
      RuleTextsConcat(row, fields[i], fields[i].rules, headers, dictionaries, texts);
      ConcatEmptyIff(texts);
      assert forall j | 0 <= j < |texts| :: texts[j] == RuleText(row, fields[i], fields[i].rules[j], headers, dictionaries);
    }
  }

  /** The `switch` on the rule type: the matching evaluator appends its text to the
      row's builder; a rule of any other type appends nothing. */
  method ApplyRule(row: seq<string>, field: Field, rule: Rule, rowResult: Builder,
                   headersMap: map<int, string>, dictionaries: map<string, seq<string>>)
    requires RuleApplicable(row, field, rule)
    modifies rowResult
    ensures rowResult.text == old(rowResult.text) + RuleText(row, field, rule, headersMap, dictionaries)
  {
    if rule.kind == NonNullKind {
      CheckNonNull(row, rule, field, rowResult, headersMap);
    } else if rule.kind == InDictionaryKind {
      CheckInDictionary(row, rule, field, rowResult, headersMap, dictionaries);
    } else if rule.kind == NotInFieldKind {
      CheckNotInField(row, rule, field, rowResult, headersMap);
    }
  }

  /** The rule loop of `main` for one field: each rule's evaluator appends to the
      row's builder, in configured order; an unknown kind is passed over. */
  method ValidateField(row: seq<string>, fieldVal: Field, rowResult: Builder,
                       headersMap: map<int, string>, dictionaries: map<string, seq<string>>)
    requires RulesApplicable(row, fieldVal, fieldVal.rules)
    modifies rowResult
    ensures rowResult.text == old(rowResult.text) + RulesText(row, fieldVal, fieldVal.rules, headersMap, dictionaries)
  {
    var rules := fieldVal.rules;
    ghost var texts := RuleTextsOf(row, fieldVal, rules, headersMap, dictionaries);
    for ri := 0 to |rules|
      invariant rowResult.text == old(rowResult.text) + Concat(texts[..ri])
    {
      ConcatPrefixStep(texts, ri);
      AppendAssoc(old(rowResult.text), Concat(texts[..ri]), texts[ri]);
      ApplyRule(row, fieldVal, rules[ri], rowResult, headersMap, dictionaries);
    }
    assert texts[..|rules|] == texts;
    RuleTextsConcat(row, fieldVal, rules, headersMap, dictionaries, texts);
  }

  /** The field loop of `main` for one row, appending to a fresh builder: the
      row's text is every field's rule texts, fields in configured order. */
  method ValidateRow(row: seq<string>, validation: Validation, headersMap: map<int, string>) returns (rowResult: Builder)
    requires FieldsApplicable(row, validation.fields)
    ensures fresh(rowResult)
    ensures rowResult.text == RowText(row, validation.fields, headersMap, validation.dictionaries)
  {
    var fields, dictionaries := validation.fields, validation.dictionaries;
    rowResult := new Builder();
    ghost var texts := FieldTextsOf(row, fields, headersMap, dictionaries);
    for fi := 0 to |fields|
      invariant rowResult.text == Concat(texts[..fi])
    {
      ConcatPrefixStep(texts, fi);
      ValidateField(row, fields[fi], rowResult, headersMap, dictionaries);
    }
    assert texts[..|fields|] == texts;
    FieldTextsConcat(row, fields, headersMap, dictionaries, texts);
  }

  /** The header names taken from row 0, keyed by column index. */
  function HeaderMap(header: seq<string>): map<int, string> {
    map i | 0 <= i < |header| :: header[i]
  }

  /** A header lookup gives row 0's cell, or "" past the end of row 0. */
  lemma HeaderNameOf(header: seq<string>, i: int)
    ensures HeaderName(HeaderMap(header), i) == if 0 <= i < |header| then header[i] else ""
  {
  }

  /** The loop filling `headersMap` from row 0. */
  method BuildHeaders(header: seq<string>) returns (headersMap: map<int, string>)
    ensures forall i :: i in headersMap <==> 0 <= i < |header|
    ensures forall i | 0 <= i < |header| :: headersMap[i] == header[i]
  {
    headersMap := map[];
    for idx := 0 to |header|
      invariant forall i :: i in headersMap <==> 0 <= i < idx
      invariant forall i | 0 <= i < idx :: headersMap[i] == header[i]
    {
      headersMap := headersMap[idx := header[idx]];
    }
  }

  /** Row 0 is evaluated as data unless the header is skipped. */
  predicate Processed(validation: Validation, iRow: int) {
    !(iRow == 0 && validation.skipHeader)
  }

  /** What the run needs: a header row, and every rule evaluable on every
      processed row. */
  predicate RunReady(rows: seq<seq<string>>, validation: Validation) {
    |rows| >= 1
    && forall iRow | 0 <= iRow < |rows| && Processed(validation, iRow) :: FieldsApplicable(rows[iRow], validation.fields)
  }

  /** The text of every row: the row validator's text for a processed row, and
      "" for a skipped header. */
  function RowResults(rows: seq<seq<string>>, validation: Validation): (results: seq<string>)
    requires RunReady(rows, validation)
    ensures |results| == |rows|
  {
    seq(|rows|, iRow requires 0 <= iRow < |rows| =>
      if Processed(validation, iRow) then
        RowText(rows[iRow], validation.fields, HeaderMap(rows[0]), validation.dictionaries)
      else "")
  }

  /** The row texts, each known only where that row's own text is mentioned, so
      that a proof about the row loop handles one row at a time. */
  lemma RowResultsOf(rows: seq<seq<string>>, validation: Validation) returns (results: seq<string>)
    requires RunReady(rows, validation)
    ensures |results| == |rows|
    ensures forall iRow {:trigger RowText(rows[iRow], validation.fields, HeaderMap(rows[0]), validation.dictionaries)}
      | 0 <= iRow < |rows| && Processed(validation, iRow) ::
        results[iRow] == RowText(rows[iRow], validation.fields, HeaderMap(rows[0]), validation.dictionaries)
    ensures forall iRow | 0 <= iRow < |rows| && !Processed(validation, iRow) :: results[iRow] == ""
  {
    results := RowResults(rows, validation);
  }

  /** Those are exactly the row texts. */
  lemma RowResultsIs(rows: seq<seq<string>>, validation: Validation, results: seq<string>)
    requires RunReady(rows, validation) && |results| == |rows|
    requires forall iRow {:trigger RowText(rows[iRow], validation.fields, HeaderMap(rows[0]), validation.dictionaries)}
      | 0 <= iRow < |rows| && Processed(validation, iRow) ::
        results[iRow] == RowText(rows[iRow], validation.fields, HeaderMap(rows[0]), validation.dictionaries)
    requires forall iRow | 0 <= iRow < |rows| && !Processed(validation, iRow) :: results[iRow] == ""
    ensures results == RowResults(rows, validation)
  {
  }

  /** A row has text exactly when it is processed and some rule of some field
      contributes text to it; a skipped header never has any. */
  lemma RowResultsMeaning(rows: seq<seq<string>>, validation: Validation, iRow: nat)
    requires RunReady(rows, validation) && iRow < |rows|
    ensures RowResults(rows, validation)[iRow] != ""
      <==> Processed(validation, iRow)
           && exists i, j | 0 <= i < |validation.fields| && 0 <= j < |validation.fields[i].rules| ::
                RuleText(rows[iRow], validation.fields[i], validation.fields[i].rules[j], HeaderMap(rows[0]),
                         validation.dictionaries) != ""
  {
    if Processed(validation, iRow) {
      RowTextEmptyIff(rows[iRow], validation.fields, HeaderMap(rows[0]), validation.dictionaries);
    }
  }

  /** The key column exists in every row that has text to annotate. */
  predicate KeysPresent(rows: seq<seq<string>>, keyField: int, results: seq<string>) {
    |results| == |rows|
    && forall iRow | 0 <= iRow < |rows| && results[iRow] != "" :: 0 <= keyField < |rows[iRow]|
  }

  /** The annotation text written for a row with text. */
  function Annotation(rows: seq<seq<string>>, validation: Validation, results: seq<string>, iRow: nat): string
    requires |rows| >= 1 && KeysPresent(rows, validation.keyField, results) && iRow < |rows| && results[iRow] != ""
  {
    HeaderName(HeaderMap(rows[0]), validation.keyField) + ": " + rows[iRow][validation.keyField] + "."
    + results[iRow] + "\n"
  }

  /** The spreadsheet address of a cell: the column string, then the row number. */
  function CellName(column: string, rowNumber: nat): string {
    column + DecimalString(rowNumber)
  }

  /** Different rows of the same column have different addresses. */
  lemma CellNameInjective(column: string, a: nat, b: nat)
    ensures CellName(column, a) == CellName(column, b) ==> a == b
  {
    if CellName(column, a) == CellName(column, b) {
      assert CellName(column, a)[|column|..] == DecimalString(a);
      assert CellName(column, b)[|column|..] == DecimalString(b);
      DecimalStringInjective(a, b);
    }
  }

  /** Earlier row numbers of a column have addresses other than row `n`'s. */
  lemma CellNamesDistinct(column: string, n: nat)
    ensures forall r | 0 <= r < n :: CellName(column, r) != CellName(column, n)
  {
    forall r | 0 <= r < n
      ensures CellName(column, r) != CellName(column, n)
    {
      CellNameInjective(column, r, n);
    }
  }

  /** The number of rows with text among the first `n`. */
  function ErrorCount(results: seq<string>, n: nat): nat
    requires n <= |results|
  {
    if n == 0 then 0 else ErrorCount(results, n - 1) + (if results[n - 1] != "" then 1 else 0)
  }

  /** The rows with text among the first `n`. */
  function ErrorRows(results: seq<string>, n: nat): set<int>
    requires n <= |results|
  {
    set iRow | 0 <= iRow < n && results[iRow] != ""
  }

  /** The error count is the number of rows with text. */
  lemma {:induction false} ErrorCountIsNumberOfErrorRows(results: seq<string>, n: nat)
    requires n <= |results|
    ensures ErrorCount(results, n) == |ErrorRows(results, n)|
  {
    if n > 0 {
      ErrorCountIsNumberOfErrorRows(results, n - 1);
      var before := ErrorRows(results, n - 1);
      if results[n - 1] != "" {
        assert ErrorRows(results, n) == before + {n - 1};
      } else {
        assert ErrorRows(results, n) == before;
      }
    }
  }

  /** The annotations written for the first `n` rows. */
  function Annotations(rows: seq<seq<string>>, validation: Validation, results: seq<string>, n: nat): map<string, string>
    requires |rows| >= 1 && KeysPresent(rows, validation.keyField, results) && n <= |rows|
  {
    if n == 0 then map[]
    else if results[n - 1] != "" then
      Annotations(rows, validation, results, n - 1)[CellName(validation.errorMessageColumn, n) :=
        Annotation(rows, validation, results, n - 1)]
    else
      Annotations(rows, validation, results, n - 1)
  }

  /** Row number `r` (1-based, so row r-1 counted from 0) of the error column is
      annotated exactly when that row has text, and no other cell is written. */
  lemma {:induction false} AnnotationsDomain(rows: seq<seq<string>>, validation: Validation, results: seq<string>, n: nat)
    requires |rows| >= 1 && KeysPresent(rows, validation.keyField, results) && n <= |rows|
    ensures forall r | 1 <= r <= n ::
      (CellName(validation.errorMessageColumn, r) in Annotations(rows, validation, results, n) <==> results[r - 1] != "")
    ensures forall cell | cell in Annotations(rows, validation, results, n) ::
      exists r | 1 <= r <= n :: cell == CellName(validation.errorMessageColumn, r)
  {
    if n > 0 {
      AnnotationsDomain(rows, validation, results, n - 1);
      CellNamesDistinct(validation.errorMessageColumn, n);
    }
  }

  /** The cell of a row with text holds that row's annotation: a later row never
      overwrites it. */
  lemma {:induction false} AnnotationsValues(rows: seq<seq<string>>, validation: Validation, results: seq<string>, n: nat)
    requires |rows| >= 1 && KeysPresent(rows, validation.keyField, results) && n <= |rows|
    ensures forall r | 1 <= r <= n && results[r - 1] != "" ::
      CellName(validation.errorMessageColumn, r) in Annotations(rows, validation, results, n)
      && Annotations(rows, validation, results, n)[CellName(validation.errorMessageColumn, r)]
         == Annotation(rows, validation, results, r - 1)
  {
    if n > 0 {
      AnnotationsValues(rows, validation, results, n - 1);
      CellNamesDistinct(validation.errorMessageColumn, n);
    }
  }

  /** Each row with text gets its own cell, so there are exactly as many
      annotations as the error count. */
  lemma {:induction false} AnnotationsCount(rows: seq<seq<string>>, validation: Validation, results: seq<string>, n: nat)
    requires |rows| >= 1 && KeysPresent(rows, validation.keyField, results) && n <= |rows|
    ensures |Annotations(rows, validation, results, n)| == ErrorCount(results, n)
  {
    if n > 0 {
      AnnotationsCount(rows, validation, results, n - 1);
      AnnotationsDomain(rows, validation, results, n - 1);
      CellNamesDistinct(validation.errorMessageColumn, n);
      assert CellName(validation.errorMessageColumn, n) !in Annotations(rows, validation, results, n - 1);
    }
  }

  /** The row validator applied to row `iRow`, seen from the row loop: its text
      is that row's entry of the row texts. */
  method ValidateRowAt(rows: seq<seq<string>>, iRow: nat, validation: Validation, headersMap: map<int, string>,
                       ghost results: seq<string>) returns (rowResult: Builder)
    requires RunReady(rows, validation) && |results| == |rows| && iRow < |rows| && Processed(validation, iRow)
    requires headersMap == HeaderMap(rows[0])
    requires forall i {:trigger RowText(rows[i], validation.fields, HeaderMap(rows[0]), validation.dictionaries)}
      | 0 <= i < |rows| && Processed(validation, i) ::
        results[i] == RowText(rows[i], validation.fields, HeaderMap(rows[0]), validation.dictionaries)
    ensures fresh(rowResult) && rowResult.text == results[iRow]
  {
    rowResult := ValidateRow(rows[iRow], validation, headersMap);
  }

  /** The row loop of `main`: header names from row 0, then every processed row
      validated, counted and annotated when its text is non-empty. */
  method Run(rows: seq<seq<string>>, validation: Validation) returns (annotations: map<string, string>, errorCount: nat)
    requires RunReady(rows, validation) && KeysPresent(rows, validation.keyField, RowResults(rows, validation))
    ensures annotations == Annotations(rows, validation, RowResults(rows, validation), |rows|)
    ensures errorCount == ErrorCount(RowResults(rows, validation), |rows|)
    ensures errorCount == |annotations|
  {
    var headersMap := BuildHeaders(rows[0]);
    assert headersMap == HeaderMap(rows[0]);
    ghost var results := RowResultsOf(rows, validation);
    assert KeysPresent(rows, validation.keyField, results) by {
      RowResultsIs(rows, validation, results);
    }
    annotations, errorCount := map[], 0;
    for iRow := 0 to |rows|
      invariant annotations == Annotations(rows, validation, results, iRow)
      invariant errorCount == ErrorCount(results, iRow)
    {
      if iRow == 0 && validation.skipHeader {
        assert results[iRow] == "";
        continue;
      }
      var row := rows[iRow];
      var rowResult := ValidateRowAt(rows, iRow, validation, headersMap, results);
      if rowResult.Len() > 0 {
        errorCount := errorCount + 1;
        annotations := annotations[CellName(validation.errorMessageColumn, iRow + 1) :=
          HeaderName(headersMap, validation.keyField) + ": " + row[validation.keyField] + "." + rowResult.String() + "\n"];
      }
    }
    AnnotationsCount(rows, validation, results, |rows|);
    RowResultsIs(rows, validation, results);
  }
}
