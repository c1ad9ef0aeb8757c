/** The three rule evaluators of the validator and the `contains` membership
    test they share. Each evaluator has a specification function giving the text
    it appends for a row, and a method that appends that text to the row's
    `Builder`, filling a local builder token by token as the Go code does. */
module Evaluators {
  import opened GoStrings
  import opened Config

  /** The `contains` closure: scans the raw list for an exactly equal string. */
  function Contains(list: seq<string>, s: string): bool {
    if list == [] then false else list[0] == s || Contains(list[1..], s)
  }

  /** `contains` is plain membership: no trimming or case folding of the entries. */
  lemma {:induction false} ContainsIsMembership(list: seq<string>, s: string)
    ensures Contains(list, s) <==> s in list
  {
    if list != [] {
      ContainsIsMembership(list[1..], s);
      assert list == [list[0]] + list[1..];
    }
  }

  /** The comparison key of a token: trimmed, then upper-cased. */
  function Normalize(token: string): string {
    ToUpper(TrimSpace(token))
  }

  predicate IsBlank(token: string) {
    |TrimSpace(token)| == 0
  }

  /** Whether a token is echoed by a multi-value evaluator: it is not blank, and
      its key is found in `list` when `flagListed` holds (NOT_IN_FIELD), or is not
      found in it otherwise (IN_DICTIONARY). */
  predicate Flagged(token: string, list: seq<string>, flagListed: bool) {
    Contains(list, Normalize(token)) == flagListed && !IsBlank(token)
  }

  /** The tokens `keep` accepts, as written, in their original order. */
  function Filter(tokens: seq<string>, keep: string -> bool): seq<string> {
    if tokens == [] then []
    else
      var last := tokens[|tokens| - 1];
      Filter(tokens[..|tokens| - 1], keep) + (if keep(last) then [last] else [])
  }

  /** The test a multi-value evaluator applies to each token. */
  function Flagging(list: seq<string>, flagListed: bool): string -> bool {
    t => Flagged(t, list, flagListed)
  }

  /** The flagged tokens, as written in the cell (untrimmed), in cell order. */
  function Selected(tokens: seq<string>, list: seq<string>, flagListed: bool): seq<string> {
    Filter(tokens, Flagging(list, flagListed))
  }

  /** Every value followed by ";", concatenated. */
  function Terminated(values: seq<string>): (r: string)
    ensures r == [] <==> values == []
  {
    if values == [] then [] else Terminated(values[..|values| - 1]) + values[|values| - 1] + ";"
  }

  const IsNonBlank: string -> bool := t => !IsBlank(t)

  lemma TerminatedSnoc(values: seq<string>, v: string)
    ensures Terminated(values + [v]) == Terminated(values) + v + ";"
  {
    assert (values + [v])[..|values|] == values;
  }

  /** One more token processed by an evaluator's loop: its text grows by the
      token and ";" exactly when the token passes the loop's test. */
  lemma ListedStep(tokens: seq<string>, val: string, list: seq<string>, flagListed: bool)
    ensures Terminated(Selected(tokens + [val], list, flagListed))
      == Terminated(Selected(tokens, list, flagListed))
         + (if Contains(list, ToUpper(TrimSpace(val))) == flagListed && |TrimSpace(val)| > 0 then val + ";" else "")
  {
    FilterSnoc(tokens, val, Flagging(list, flagListed));
    if Flagged(val, list, flagListed) {
      TerminatedSnoc(Selected(tokens, list, flagListed), val);
    } else {
      assert Selected(tokens, list, flagListed) + [] == Selected(tokens, list, flagListed);
    }
  }

  /** The tokens that are not blank, in order. */
  function NonBlank(tokens: seq<string>): seq<string> {
    Filter(tokens, IsNonBlank)
  }

  /** A token is echoed exactly when it has a non-space character and its key's
      membership in the list is the one the rule flags. */
  lemma FlaggedMeaning(token: string, list: seq<string>, flagListed: bool)
    ensures Flagged(token, list, flagListed) <==> !AllSpace(token) && ((Normalize(token) in list) == flagListed)
  {
    ContainsIsMembership(list, Normalize(token));
    TrimSpaceSpec(token);
  }

  /** Filtering one more token. */
  lemma FilterSnoc(tokens: seq<string>, x: string, keep: string -> bool)
    ensures Filter(tokens + [x], keep) == Filter(tokens, keep) + (if keep(x) then [x] else [])
  {
    assert (tokens + [x])[..|tokens|] == tokens;
  }

  /** Nothing is kept exactly when no token passes the test. */
  lemma {:induction false} FilterEmptyIff(tokens: seq<string>, keep: string -> bool)
    ensures Filter(tokens, keep) == [] <==> forall i | 0 <= i < |tokens| :: !keep(tokens[i])
  {
    if tokens != [] {
      var init := tokens[..|tokens| - 1];
      FilterEmptyIff(init, keep);
      assert forall i | 0 <= i < |init| :: init[i] == tokens[i];
    }
  }

  /** A string is kept exactly when it is one of the tokens and passes the test. */
  lemma {:induction false} FilterMembers(tokens: seq<string>, keep: string -> bool)
    ensures forall t :: t in Filter(tokens, keep) <==> t in tokens && keep(t)
  {
    if tokens != [] {
      var init := tokens[..|tokens| - 1];
      FilterMembers(init, keep);
      assert tokens == init + [tokens[|tokens| - 1]];
    }
  }

  /** Filtering keeps order: filtering two runs of tokens is filtering each in turn. */
  lemma {:induction false} FilterAppend(a: seq<string>, b: seq<string>, keep: string -> bool)
    ensures Filter(a + b, keep) == Filter(a, keep) + Filter(b, keep)
    decreases |b|
  {
    if b == [] {
      assert a + b == a;
    } else {
      var init, last := b[..|b| - 1], b[|b| - 1];
      FilterAppend(a, init, keep);
      assert a + b == (a + init) + [last];
      assert b == init + [last];
      FilterSnoc(a + init, last, keep);
      FilterSnoc(init, last, keep);
    }
  }

  /** Two tests that agree on every token keep the same tokens. */
  lemma {:induction false} FilterAgrees(tokens: seq<string>, p: string -> bool, q: string -> bool)
    requires forall i | 0 <= i < |tokens| :: p(tokens[i]) == q(tokens[i])
    ensures Filter(tokens, p) == Filter(tokens, q)
  {
    if tokens != [] {
      var init := tokens[..|tokens| - 1];
      assert forall i | 0 <= i < |init| :: init[i] == tokens[i];
      FilterAgrees(init, p, q);
    }
  }

  /** The key of a token is a fixed point of normalisation. */
  lemma NormalizeIdempotent(token: string)
    ensures Normalize(Normalize(token)) == Normalize(token)
  {
    var w := TrimSpace(token);
    var u := ToUpper(w);
    TrimSpaceSpec(token);
    ToUpperProperties(w);
    TrimSpaceOfTrimmed(u);
    ToUpperProperties(u);
  }

  /** The strings that can equal some token's key are exactly those with no
      lower-case ASCII letter and no whitespace at either end. */
  lemma NormalizedForm(e: string)
    ensures (exists t :: Normalize(t) == e) <==> Normalize(e) == e
    ensures Normalize(e) == e <==>
      (forall i | 0 <= i < |e| :: !IsLowerAscii(e[i])) && (e != [] ==> !IsSpace(e[0]) && !IsSpace(e[|e| - 1]))
  {
    if exists t :: Normalize(t) == e {
      var t :| Normalize(t) == e;
      NormalizeIdempotent(t);
    }
    TrimSpaceSpec(e);
    ToUpperProperties(TrimSpace(e));
    if (forall i | 0 <= i < |e| :: !IsLowerAscii(e[i])) && (e != [] ==> !IsSpace(e[0]) && !IsSpace(e[|e| - 1])) {
      TrimSpaceOfTrimmed(e);
      ToUpperPointwise(e);
      assert ToUpper(e) == e;
    }
  }

  /** Entries that are not in normalised form never match any token: compared
      verbatim, a lower-case or space-padded entry is dead. Against such a list
      IN_DICTIONARY reports every non-blank token and NOT_IN_FIELD reports none. */
  lemma UnnormalizedListNeverMatches(tokens: seq<string>, list: seq<string>)
    requires forall e | e in list :: Normalize(e) != e
    ensures Selected(tokens, list, false) == NonBlank(tokens)
    ensures Selected(tokens, list, true) == []
  {
    forall i | 0 <= i < |tokens|
      ensures Flagging(list, false)(tokens[i]) == IsNonBlank(tokens[i])
      ensures !Flagging(list, true)(tokens[i])
    {
      NormalizeIdempotent(tokens[i]);
      ContainsIsMembership(list, Normalize(tokens[i]));
    }
    FilterAgrees(tokens, Flagging(list, false), IsNonBlank);
    FilterEmptyIff(tokens, Flagging(list, true));
  }

  /** A dictionary name that is not configured behaves as an empty dictionary:
      every non-blank token is reported. */
  lemma MissingDictionaryFlagsAll(tokens: seq<string>, dictionaries: map<string, seq<string>>, name: string)
    requires name !in dictionaries
    ensures Selected(tokens, DictionaryValues(dictionaries, name), false) == NonBlank(tokens)
  {
    UnnormalizedListNeverMatches(tokens, []);
  }

  /** A cell made of whitespace runs joined by the separator lists nothing,
      whatever the list and the separator: every token is blank. */
  lemma BlankCellListsNothing(cell: string, sep: string, pieces: seq<string>, list: seq<string>, flagListed: bool)
    requires sep != [] && |pieces| >= 1 && cell == Join(pieces, sep)
    requires forall j | 0 <= j < |pieces| :: AllSpace(pieces[j])
    ensures Selected(Split(cell, sep), list, flagListed) == []
  {
    var tokens := Split(cell, sep);
    if AllSpace(sep) {
      JoinAllSpace(pieces, sep);
      SplitPieceChars(cell, sep);
      forall j | 0 <= j < |tokens|
        ensures AllSpace(tokens[j])
      {
        forall k | 0 <= k < |tokens[j]|
          ensures IsSpace(tokens[j][k])
        {
          var m :| 0 <= m < |cell| && cell[m] == tokens[j][k];
        }
      }
    } else {
      SplitJoinBlank(pieces, sep);
    }
    forall j | 0 <= j < |tokens|
      ensures !Flagging(list, flagListed)(tokens[j])
    {
      TrimSpaceSpec(tokens[j]);
    }
    FilterEmptyIff(tokens, Flagging(list, flagListed));
  }

  /** Such a cell draws no IN_DICTIONARY and no NOT_IN_FIELD text. */
  lemma BlankCellReportsNothing(row: seq<string>, field: Field, rule: Rule, headers: map<int, string>,
                                dictionaries: map<string, seq<string>>, pieces: seq<string>)
    requires MultiValueReady(row, field) && |pieces| >= 1
    requires row[field.fieldID] == Join(pieces, field.separator.value)
    requires forall j | 0 <= j < |pieces| :: AllSpace(pieces[j])
    ensures rule.dictionary.Some? ==> InDictionaryText(row, field, rule, headers, dictionaries) == []
    ensures RefFieldReady(row, rule) ==> NotInFieldText(row, field, rule, headers) == []
  {
    var cell, sep := row[field.fieldID], field.separator.value;
    if rule.dictionary.Some? {
      BlankCellListsNothing(cell, sep, pieces, DictionaryValues(dictionaries, rule.dictionary.value), false);
    }
    if RefFieldReady(row, rule) {
      BlankCellListsNothing(cell, sep, pieces, Split(row[rule.refField.value], sep), true);
    }
  }

  /** The cell split into tokens with the field's separator. */
  function Tokens(row: seq<string>, field: Field): seq<string>
    requires MultiValueReady(row, field)
  {
    Split(row[field.fieldID], field.separator.value)
  }

  /** What a multi-value rule needs of the row and field: an in-range column and
      a non-empty separator. */
  predicate MultiValueReady(row: seq<string>, field: Field) {
    0 <= field.fieldID < |row| && field.separator.Some? && field.separator.value != []
  }

  predicate RefFieldReady(row: seq<string>, rule: Rule) {
    rule.refField.Some? && 0 <= rule.refField.value < |row|
  }

  /** NON_NULL: the text appended when the cell is blank after trimming. */
  function NonNullText(row: seq<string>, field: Field, rule: Rule, headers: map<int, string>): string
    requires 0 <= field.fieldID < |row|
  {
    if |TrimSpace(row[field.fieldID])| == 0 then
      " Field " + HeaderName(headers, field.fieldID) + " " + rule.errorMessage
    else
      ""
  }

  /** NON_NULL reports a cell exactly when all of it is whitespace (the empty
      cell included), naming the field's header and the rule's message. */
  lemma NonNullTextSpec(row: seq<string>, field: Field, rule: Rule, headers: map<int, string>)
    requires 0 <= field.fieldID < |row|
    ensures var r := NonNullText(row, field, rule, headers);
      (r != [] <==> AllSpace(row[field.fieldID]))
      && (r != [] ==> r == " Field " + HeaderName(headers, field.fieldID) + " " + rule.errorMessage)
  {
    TrimSpaceSpec(row[field.fieldID]);
  }

  /** IN_DICTIONARY: the flagged tokens, if any, after the field's header and the
      rule's message. */
  function InDictionaryText(row: seq<string>, field: Field, rule: Rule, headers: map<int, string>,
                            dictionaries: map<string, seq<string>>): string
    requires MultiValueReady(row, field) && rule.dictionary.Some?
  {
    var values := Terminated(Selected(Tokens(row, field), DictionaryValues(dictionaries, rule.dictionary.value), false));
    if values != [] then
      " Field " + HeaderName(headers, field.fieldID) + " " + rule.errorMessage + ", values not in dictionary: " + values
    else
      ""
  }

  /** IN_DICTIONARY reports a cell exactly when some token is flagged (not blank,
      and its key is missing from the dictionary), and then lists every flagged
      token, each followed by ";". */
  lemma InDictionaryTextSpec(row: seq<string>, field: Field, rule: Rule, headers: map<int, string>,
                             dictionaries: map<string, seq<string>>)
    requires MultiValueReady(row, field) && rule.dictionary.Some?
    ensures var r := InDictionaryText(row, field, rule, headers, dictionaries);
      var list := DictionaryValues(dictionaries, rule.dictionary.value);
      && (r != [] <==> exists i | 0 <= i < |Tokens(row, field)| :: Flagged(Tokens(row, field)[i], list, false))
      && (r != [] ==>
           r == " Field " + HeaderName(headers, field.fieldID) + " " + rule.errorMessage
                + ", values not in dictionary: " + Terminated(Selected(Tokens(row, field), list, false)))
  {
    var list := DictionaryValues(dictionaries, rule.dictionary.value);
    FilterEmptyIff(Tokens(row, field), Flagging(list, false));
  }

  /** NOT_IN_FIELD: the tokens found in the reference cell, if any, after both
      fields' headers and the rule's message. */
  function NotInFieldText(row: seq<string>, field: Field, rule: Rule, headers: map<int, string>): string
    requires MultiValueReady(row, field) && RefFieldReady(row, rule)
  {
    var refTokens := Split(row[rule.refField.value], field.separator.value);
    var values := Terminated(Selected(Tokens(row, field), refTokens, true));
    if values != [] then
      " Fields " + HeaderName(headers, field.fieldID) + " and " + HeaderName(headers, rule.refField.value)
      + " " + rule.errorMessage + ", error values: " + values
    else
      ""
  }

  /** NOT_IN_FIELD reports a cell exactly when some non-blank token's key equals a
      raw token of the reference cell, split with the evaluated field's separator,
      and then lists every such token, each followed by ";". */
  lemma NotInFieldTextSpec(row: seq<string>, field: Field, rule: Rule, headers: map<int, string>)
    requires MultiValueReady(row, field) && RefFieldReady(row, rule)
    ensures var r := NotInFieldText(row, field, rule, headers);
      var refTokens := Split(row[rule.refField.value], field.separator.value);
      && (r != [] <==> exists i | 0 <= i < |Tokens(row, field)| :: Flagged(Tokens(row, field)[i], refTokens, true))
      && (r != [] ==>
           r == " Fields " + HeaderName(headers, field.fieldID) + " and "
                + HeaderName(headers, rule.refField.value) + " " + rule.errorMessage + ", error values: "
                + Terminated(Selected(Tokens(row, field), refTokens, true)))
  {
    var refTokens := Split(row[rule.refField.value], field.separator.value);
    FilterEmptyIff(Tokens(row, field), Flagging(refTokens, true));
  }

  /** In plain terms: IN_DICTIONARY reports a cell exactly when one of its tokens
      has a non-space character and, trimmed and upper-cased, is not an entry of
      the named dictionary (entries compared as written). */
  lemma InDictionaryReports(row: seq<string>, field: Field, rule: Rule, headers: map<int, string>,
                            dictionaries: map<string, seq<string>>)
    requires MultiValueReady(row, field) && rule.dictionary.Some?
    ensures var tokens, list := Tokens(row, field), DictionaryValues(dictionaries, rule.dictionary.value);
      InDictionaryText(row, field, rule, headers, dictionaries) != []
      <==> exists i | 0 <= i < |tokens| :: !AllSpace(tokens[i]) && Normalize(tokens[i]) !in list
  {
    var tokens, list := Tokens(row, field), DictionaryValues(dictionaries, rule.dictionary.value);
    InDictionaryTextSpec(row, field, rule, headers, dictionaries);
    forall i | 0 <= i < |tokens|
      ensures Flagged(tokens[i], list, false) <==> !AllSpace(tokens[i]) && Normalize(tokens[i]) !in list
    {
      FlaggedMeaning(tokens[i], list, false);
    }
  }

  /** In plain terms: NOT_IN_FIELD reports a cell exactly when one of its tokens
      has a non-space character and, trimmed and upper-cased, equals a raw token
      of the reference cell. */
  lemma NotInFieldReports(row: seq<string>, field: Field, rule: Rule, headers: map<int, string>)
    requires MultiValueReady(row, field) && RefFieldReady(row, rule)
    ensures var tokens, refTokens := Tokens(row, field), Split(row[rule.refField.value], field.separator.value);
      NotInFieldText(row, field, rule, headers) != []
      <==> exists i | 0 <= i < |tokens| :: !AllSpace(tokens[i]) && Normalize(tokens[i]) in refTokens
  {
    var tokens, refTokens := Tokens(row, field), Split(row[rule.refField.value], field.separator.value);
    NotInFieldTextSpec(row, field, rule, headers);
    forall i | 0 <= i < |tokens|
      ensures Flagged(tokens[i], refTokens, true) <==> !AllSpace(tokens[i]) && Normalize(tokens[i]) in refTokens
    {
      FlaggedMeaning(tokens[i], refTokens, true);
    }
  }

  /** `checkNonNull`: appends the NON_NULL text to the row's builder. */
  method CheckNonNull(row: seq<string>, rule: Rule, field: Field, rowResult: Builder, headers: map<int, string>)
    requires 0 <= field.fieldID < |row|
    modifies rowResult
    ensures rowResult.text == old(rowResult.text) + NonNullText(row, field, rule, headers)
  {
    if |TrimSpace(row[field.fieldID])| == 0 {
      rowResult.WriteString(" Field " + HeaderName(headers, field.fieldID) + " " + rule.errorMessage);
    }
  }

  /** The token loop of `checkInDictionary` and `checkNotInField`: every token
      that passes the evaluator's test is written to the evaluator's own builder, followed by
      ";". The two Go loops differ only in the polarity of the `contains` test,
      which `flagListed` selects. */
  method ListFlagged(fieldValues: seq<string>, list: seq<string>, flagListed: bool, result: Builder)
    modifies result
    ensures result.text == old(result.text) + Terminated(Selected(fieldValues, list, flagListed))
  {
    ghost var start := result.text;
    for i := 0 to |fieldValues|
      invariant result.text == start + Terminated(Selected(fieldValues[..i], list, flagListed))
    {
      var val := fieldValues[i];
      ghost var listed := Terminated(Selected(fieldValues[..i], list, flagListed));
      assert fieldValues[..i + 1] == fieldValues[..i] + [val];
      ListedStep(fieldValues[..i], val, list, flagListed);
      if Contains(list, ToUpper(TrimSpace(val))) == flagListed && |TrimSpace(val)| > 0 {
        result.WriteString(val);
        result.WriteString(";");
        AppendAssoc(start, listed, val);
        AppendAssoc(start, listed + val, ";");
        AppendAssoc(listed, val, ";");
      } else {
        assert listed + "" == listed;
      }
    }
    assert fieldValues[..|fieldValues|] == fieldValues;
  }

  /** `checkInDictionary`: lists the tokens whose key is not in the dictionary,
      then appends the IN_DICTIONARY text to the row's builder. */
  method CheckInDictionary(row: seq<string>, rule: Rule, field: Field, rowResult: Builder,
                           headers: map<int, string>, dictionaries: map<string, seq<string>>)
    requires MultiValueReady(row, field) && rule.dictionary.Some?
    modifies rowResult
    ensures rowResult.text == old(rowResult.text) + InDictionaryText(row, field, rule, headers, dictionaries)
  {
    var inDictionary := DictionaryValues(dictionaries, rule.dictionary.value);
    var fieldValues := Split(row[field.fieldID], field.separator.value);
    var fieldDictionaryResult := new Builder();
    ListFlagged(fieldValues, inDictionary, false, fieldDictionaryResult);
    if fieldDictionaryResult.Len() > 0 {
      rowResult.WriteString(" Field " + HeaderName(headers, field.fieldID) + " " + rule.errorMessage
        + ", values not in dictionary: " + fieldDictionaryResult.String());
    }
  }

  /** `checkNotInField`: lists the tokens whose key is a raw token of the
      reference cell, then appends the NOT_IN_FIELD text. */
  method CheckNotInField(row: seq<string>, rule: Rule, field: Field, rowResult: Builder, headers: map<int, string>)
    requires MultiValueReady(row, field) && RefFieldReady(row, rule)
    modifies rowResult
    ensures rowResult.text == old(rowResult.text) + NotInFieldText(row, field, rule, headers)
  {
    var inRefField := Split(row[rule.refField.value], field.separator.value);
    var fieldValues := Split(row[field.fieldID], field.separator.value);
    var notInFieldResult := new Builder();
    ListFlagged(fieldValues, inRefField, true, notInFieldResult);
    if notInFieldResult.Len() > 0 {
      rowResult.WriteString(" Fields " + HeaderName(headers, field.fieldID) + " and "
        + HeaderName(headers, rule.refField.value) + " " + rule.errorMessage
        + ", error values: " + notInFieldResult.String());
    }
  }
}
