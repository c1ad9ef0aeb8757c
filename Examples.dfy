/** Small rows worked through the evaluators, as the code computes them. */
module Examples {
  import opened GoStrings
  import opened Config
  import opened Evaluators
  import opened Validator

  lemma SplitColours()
    ensures Split("red;green;BLUE", ";") == ["red", "green", "BLUE"]
  {
    assert Join(["red", "green", "BLUE"], ";") == "red;green;BLUE";
    SplitJoinChar(["red", "green", "BLUE"], ';');
  }

  /** A word without whitespace is not blank, and its key is its upper-cased form. */
  lemma WordKey(word: string, key: string)
    requires word != [] && |key| == |word|
    requires forall i | 0 <= i < |word| :: !IsSpace(word[i]) && UpperAscii(word[i]) == key[i]
    ensures !IsBlank(word) && Normalize(word) == key
  {
    TrimSpaceOfTrimmed(word);
    ToUpperPointwise(word);
    assert ToUpper(word) == key;
  }

  /** Only "green" fails a dictionary of RED and BLUE: the other two match once
      upper-cased. */
  lemma ColoursFlagged()
    ensures !Flagged("red", ["RED", "BLUE"], false)
    ensures Flagged("green", ["RED", "BLUE"], false)
    ensures !Flagged("BLUE", ["RED", "BLUE"], false)
  {
    WordKey("red", "RED");
    WordKey("green", "GREEN");
    WordKey("BLUE", "BLUE");
  }

  lemma ColoursSelected()
    ensures Selected(["red", "green", "BLUE"], ["RED", "BLUE"], false) == ["green"]
  {
    var keep := Flagging(["RED", "BLUE"], false);
    ColoursFlagged();
    FilterSnoc([], "red", keep);
    FilterSnoc(["red"], "green", keep);
    FilterSnoc(["red", "green"], "BLUE", keep);
    assert [] + ["red"] == ["red"] && ["red"] + ["green"] == ["red", "green"];
    assert ["red", "green"] + ["BLUE"] == ["red", "green", "BLUE"];
  }

  const ColourRule := Rule(InDictionaryKind, Some("COLOURS"), None, "unknown colour")
  const ColourField := Field(0, "string", "text", Some(";"), [ColourRule])

  /** A dictionary of RED and BLUE and a cell whose tokens are "red", "green" and
      "BLUE" (the cell "red;green;BLUE", by `ColourTokens`): only "green" is
      listed, as written. */
  lemma InDictionaryExample(row: seq<string>, dictionaries: map<string, seq<string>>)
    requires MultiValueReady(row, ColourField) && Tokens(row, ColourField) == ["red", "green", "BLUE"]
    requires dictionaries == map["COLOURS" := ["RED", "BLUE"]]
    ensures InDictionaryText(row, ColourField, ColourRule, map[0 := "Colour"], dictionaries)
            == " Field " + "Colour" + " " + "unknown colour" + ", values not in dictionary: " + "green;"
  {
    ColourList(dictionaries);
    ColoursSelected();
    assert Terminated(["green"]) == "green;";
    assert HeaderName(map[0 := "Colour"], ColourField.fieldID) == "Colour";
    assert ColourRule.errorMessage == "unknown colour";
  }

  /** The cell "red;green;BLUE" has the tokens "red", "green" and "BLUE". */
  lemma ColourTokens(row: seq<string>)
    requires row == ["red;green;BLUE"]
    ensures MultiValueReady(row, ColourField)
    ensures Tokens(row, ColourField) == ["red", "green", "BLUE"]
  {
    SplitColours();
  }

  lemma ColourList(dictionaries: map<string, seq<string>>)
    requires dictionaries == map["COLOURS" := ["RED", "BLUE"]]
    ensures DictionaryValues(dictionaries, ColourRule.dictionary.value) == ["RED", "BLUE"]
  {
  }

  /** Splitting "A; b ; ;C" on ";" keeps every token as written, the blank one
      included. */
  lemma TokenizeExample()
    ensures Split("A; b ; ;C", ";") == ["A", " b ", " ", "C"]
  {
    assert Join(["A", " b ", " ", "C"], ";") == "A; b ; ;C";
    SplitJoinChar(["A", " b ", " ", "C"], ';');
  }

  /** Of those tokens only " " is blank; the keys of the others are A, B and C. */
  lemma TokenKeysExample()
    ensures IsBlank(" ") && !IsBlank("A") && !IsBlank(" b ") && !IsBlank("C")
    ensures Normalize("A") == "A" && Normalize(" b ") == "B" && Normalize("C") == "C"
  {
    TrimSpaceSpec(" ");
    TrimSpaceSpec("A");
    TrimSpaceSpec(" b ");
    TrimSpaceSpec("C");
    assert TrimSpace(" b ") == "b";
  }

  const NameRule := Rule(NonNullKind, None, None, "is required")
  const NameField := Field(0, "string", "text", None, [NameRule])

  /** A cell of spaces is reported with the field's header and the rule's
      message; a cell with a character in it is not. */
  lemma NonNullExample(blank: seq<string>, filled: seq<string>)
    requires blank == ["   "] && filled == ["x"]
    ensures NonNullText(blank, NameField, NameRule, map[0 := "Name"]) == " Field " + "Name" + " " + "is required"
    ensures NonNullText(filled, NameField, NameRule, map[0 := "Name"]) == ""
  {
    NonNullTextSpec(blank, NameField, NameRule, map[0 := "Name"]);
    NonNullTextSpec(filled, NameField, NameRule, map[0 := "Name"]);
    assert !IsSpace(filled[0][0]);
  }

  const RefRule := Rule(NotInFieldKind, None, Some(1), "repeats")
  const LetterField := Field(0, "string", "text", Some(";"), [RefRule])

  lemma SplitLetters()
    ensures Split("A;B", ";") == ["A", "B"]
    ensures Split("b;C", ";") == ["b", "C"]
    ensures Split("B;C", ";") == ["B", "C"]
  {
    assert Join(["A", "B"], ";") == "A;B";
    SplitJoinChar(["A", "B"], ';');
    assert Join(["b", "C"], ";") == "b;C";
    SplitJoinChar(["b", "C"], ';');
    assert Join(["B", "C"], ";") == "B;C";
    SplitJoinChar(["B", "C"], ';');
  }

  lemma LetterKeys()
    ensures Normalize("A") == "A" && Normalize("B") == "B"
    ensures !Flagged("A", ["b", "C"], true) && !Flagged("B", ["b", "C"], true)
    ensures !Flagged("A", ["B", "C"], true) && Flagged("B", ["B", "C"], true)
  {
    TrimSpaceSpec("A");
    TrimSpaceSpec("B");
  }

  /** NOT_IN_FIELD compares each token's key with the reference cell's tokens as
      written: against "b;C" neither "A" nor "B" is found, since "b" is not
      upper-cased, so nothing is reported. */
  lemma NotInFieldRawReference(row: seq<string>)
    requires row == ["A;B", "b;C"]
    ensures NotInFieldText(row, LetterField, RefRule, map[0 := "Letters", 1 := "Others"]) == ""
  {
    SplitLetters();
    LetterKeys();
    var tokens, refTokens := ["A", "B"], ["b", "C"];
    assert Tokens(row, LetterField) == tokens;
    var keep := Flagging(refTokens, true);
    FilterSnoc([], "A", keep);
    FilterSnoc(["A"], "B", keep);
    assert [] + ["A"] == ["A"] && ["A"] + ["B"] == tokens;
    assert Selected(tokens, refTokens, true) == [];
  }

  lemma LettersSelected()
    ensures Selected(["A", "B"], ["B", "C"], true) == ["B"]
  {
    LetterKeys();
    var keep := Flagging(["B", "C"], true);
    FilterSnoc([], "A", keep);
    FilterSnoc(["A"], "B", keep);
    assert [] + ["A"] == ["A"] && ["A"] + ["B"] == ["A", "B"];
  }

  /** Against "B;C", written in upper case, the token "B" is found and listed. */
  lemma NotInFieldUpperReference(row: seq<string>)
    requires row == ["A;B", "B;C"]
    ensures NotInFieldText(row, LetterField, RefRule, map[0 := "Letters", 1 := "Others"])
            == " Fields " + "Letters" + " and " + "Others" + " " + "repeats" + ", error values: " + "B;"
  {
    SplitLetters();
    assert Tokens(row, LetterField) == ["A", "B"];
    LettersSelected();
    assert Terminated(["B"]) == "B;";
  }
}
