# xlsx-validator rule engine in Dafny

This project models the rule-evaluation engine of the xlsx validator (`Main.go`).

The validator reads a `Validation` configuration and checks every row of a spreadsheet against it. The configuration holds:
- named dictionaries;
- a list of fields, each with a column index, an optional separator and a list of rules;
- a key column;
- an error-message column;
- a flag saying whether to skip the header row.

There are three rule types:
- `NON_NULL` reports a cell that is blank after trimming.
- `IN_DICTIONARY` splits the cell on the field's separator. It reports every non-blank token whose trimmed, upper-cased form is not an entry of the named dictionary.
- `NOT_IN_FIELD` splits a second (reference) cell of the same row with the same separator. It reports every non-blank token whose trimmed, upper-cased form is one of the reference tokens.

Each evaluator appends its text to the row's `strings.Builder`. A row with any text is counted as an error row. It is then annotated in the error-message column at its 1-based row number with `"{key header}: {key cell}.{text}\n"`.

The model has five modules:
- `GoStrings` covers the Go library behaviour the engine depends on:
  - `strings.TrimSpace` with `unicode.IsSpace` whitespace;
  - `strings.ToUpper` on ASCII letters;
  - `strings.Split` (Main.go:119, 120, 135), together with `strings.Index`, which Go's `Split` uses to find each separator, and `strings.Join`, which the program never calls but which is the round-trip partner that pins `Split` down;
  - the `%d` rendering of the row number;
  - `strings.Builder` as a class whose text only grows.
- `Config` holds the `Validation`, `Field` and `Rule` shapes. Go's nullable pointers become `Option`s. A Go map lookup of a missing key yields the zero value.
- `Evaluators` covers `contains` and the three evaluators. Each evaluator has:
  - a specification function, which gives the text it appends;
  - lemmas stating what that text means;
  - a method proved to append exactly that text to the row's builder. For `IN_DICTIONARY` and `NOT_IN_FIELD`, the token loop that fills the evaluator's own builder (`ListFlagged`) is modelled once; the evaluator then tests that builder's `Len()`, as Go does. The two Go loops differ only in the polarity of the `contains` test, which becomes a parameter.
- `Validator` covers the body of `main` from the header map onwards:
  - the `switch` on the rule type;
  - the field and rule loops for one row;
  - the loop that fills the header map;
  - the row loop, which counts error rows and produces a map from cell address to annotation text.
- `Examples` works small rows through the evaluators: tokenisation, `NON_NULL`, `IN_DICTIONARY` and `NOT_IN_FIELD`.

The spreadsheet is a `seq<seq<string>>` of rows, as `GetRows` returns them. The configuration is a value passed in. The annotations written back are a `map<string, string>` from cell address to text, together with the error count.

Where Go would panic, the model has preconditions (`RuleApplicable`, `RunReady`):
- an index out of range: field, reference or key column;
- a nil separator, dictionary name or reference field;
- an empty sheet.

### Which side is normalised

One might expect dictionary entries and reference tokens to be normalised like the tokens they are compared with, so that `"A;B"` against the reference cell `"b;C"` would report `"B;"`. The code does not normalise either side:
- `contains` compares the token's trimmed, upper-cased key with the entries exactly as written (Main.go:134, 156).
- The reference cell's tokens are used raw (Main.go:119).

The model follows the code. `Examples.NotInFieldRawReference` proves that `"A;B"` against `"b;C"` produces no text. `Examples.NotInFieldUpperReference` proves that against `"B;C"` the token `"B"` is listed. `Evaluators.UnnormalizedListNeverMatches` states the general consequence: an entry with lower-case letters or surrounding spaces can never match.

## Model

| member | source | states |
|---|---|---|
| GoStrings.TrimLeadingSpaceSpec | Main.go:148 | the leading trim drops exactly a whitespace prefix: the result is a suffix of the input that does not start with whitespace |
| GoStrings.TrimTrailingSpaceSpec | Main.go:148 | the trailing trim drops exactly a whitespace suffix: the result is a prefix of the input that does not end with whitespace |
| GoStrings.TrimSpaceSpec | Main.go:148 | `TrimSpace` is empty iff every character is whitespace; otherwise its result starts and ends with a non-space |
| GoStrings.TrimSpaceOfTrimmed | Main.go:122 | a string whose ends are not whitespace is unchanged by `TrimSpace` |
| GoStrings.ToUpperPointwise | Main.go:122 | upper-casing keeps the length and maps every character on its own |
| GoStrings.ToUpperProperties | Main.go:137 | upper-casing leaves no lower-case ASCII letter, keeps whitespace in place, and is idempotent |
| GoStrings.IndexSpec | Main.go:119-120 | `strings.Index` is -1 iff the separator occurs nowhere; otherwise it is the first position where it occurs |
| GoStrings.Split | Main.go:135 | splitting always yields at least one piece |
| GoStrings.JoinSplit | Main.go:119-120 | joining the pieces of a split with the same separator gives back the cell |
| GoStrings.SplitJoinChar | Main.go:135 | for a one-character separator, splitting the join of separator-free pieces gives back those pieces |
| GoStrings.SplitJoinBlank | Main.go:135 | for a separator with a non-space character, splitting the join of all-whitespace pieces gives back those pieces |
| GoStrings.SplitPiecesFree | Main.go:120 | no piece of a split contains the separator |
| GoStrings.SplitPieceChars | Main.go:135 | every character of every piece is a character of the cell |
| GoStrings.DecimalString | Main.go:100 | `%d` of a row number is a non-empty digit string without a leading zero |
| GoStrings.ParseDecimalString | Main.go:100 | the `%d` rendering reads back as the same number |
| GoStrings.DecimalStringInjective | Main.go:100 | different row numbers render differently |
| GoStrings.Builder.constructor | Main.go:78 | a fresh builder is empty |
| GoStrings.Builder.WriteString | Main.go:123-124 | writing appends the string and keeps the previous text as a prefix |
| Evaluators.ContainsIsMembership | Main.go:153-162 | the `contains` closure holds iff the string is an element of the raw list: exact equality, no normalisation of entries |
| Evaluators.Terminated | Main.go:123-124 | the listed text is empty iff no token is listed |
| Evaluators.ListedStep | Main.go:121-126 | one loop iteration grows the local text by the token and ";" exactly when the token passes the loop's test, and by nothing otherwise |
| Evaluators.FilterAppend | Main.go:121-126 | the tokens listed from two runs of tokens are those listed from the first run followed by those listed from the second: the loop keeps cell order |
| Evaluators.FlaggedMeaning | Main.go:137 | a token is listed iff it has a non-space character and membership of its trimmed, upper-cased key in the list is the one the rule reports |
| Evaluators.NormalizeIdempotent | Main.go:122 | trimming then upper-casing a key again changes nothing |
| Evaluators.NormalizedForm | Main.go:134 | an entry can equal some token's key iff it is its own key, i.e. it has no lower-case ASCII letter and no whitespace at either end |
| Evaluators.UnnormalizedListNeverMatches | Main.go:153-161 | against a list of entries none of which is in key form, IN_DICTIONARY lists every non-blank token and NOT_IN_FIELD lists none |
| Evaluators.MissingDictionaryFlagsAll | Main.go:134 | a dictionary name missing from the map behaves as an empty list: every non-blank token is listed |
| Evaluators.BlankCellListsNothing | Main.go:135-137 | a cell made of whitespace runs joined by the separator, for any non-empty separator, lists no token, whatever the list |
| Evaluators.BlankCellReportsNothing | Main.go:117-145 | such a cell draws no IN_DICTIONARY text and no NOT_IN_FIELD text |
| Evaluators.NonNullTextSpec | Main.go:147-151 | NON_NULL produces text iff the cell is all whitespace, and that text is " Field {header} {message}" |
| Evaluators.InDictionaryTextSpec | Main.go:132-145 | IN_DICTIONARY produces text iff some token is listed, and that text is " Field {header} {message}, values not in dictionary: " followed by every listed token, untrimmed, each followed by ";", in cell order |
| Evaluators.InDictionaryReports | Main.go:136-137 | IN_DICTIONARY produces text iff some token has a non-space character and its trimmed, upper-cased form is not a raw dictionary entry |
| Evaluators.NotInFieldTextSpec | Main.go:117-130 | NOT_IN_FIELD produces text iff some token is listed, and that text is " Fields {header} and {reference header} {message}, error values: " followed by every listed token, untrimmed, each followed by ";" |
| Evaluators.NotInFieldReports | Main.go:119-122 | NOT_IN_FIELD produces text iff some token has a non-space character and its trimmed, upper-cased form equals a raw token of the reference cell split with the evaluated field's separator |
| Evaluators.ListFlagged | Main.go:136-141 | the token loop (the same in both multi-value evaluators, up to the polarity of the `contains` test) appends to the evaluator's builder exactly the listed tokens, each followed by ";", in cell order |
| Evaluators.CheckNonNull | Main.go:147-151 | the row builder's new text is its old text followed by the NON_NULL text |
| Evaluators.CheckInDictionary | Main.go:132-145 | the row builder's new text is its old text followed by the IN_DICTIONARY text |
| Evaluators.CheckNotInField | Main.go:117-130 | the row builder's new text is its old text followed by the NOT_IN_FIELD text |
| Validator.UnknownRuleSilent | Main.go:92-93 | a rule of any type other than the three known ones can always be evaluated and contributes no text |
| Validator.UnknownRuleSkipped | Main.go:84-95 | inserting a rule of unknown type anywhere in a field's rules leaves the field's text unchanged: the rules after it still run |
| Validator.TwoRulesInOrder | Main.go:84-95 | two rules contribute their texts in configured order, the second immediately after the first |
| Validator.ConcatAppend | Main.go:78-96 | writing two runs of texts into a builder is writing the first run and then the second |
| Validator.ConcatEmptyIff | Main.go:98 | a builder written with a run of texts is empty iff every text is empty |
| Validator.RowTextAppend | Main.go:79-96 | the row's text over two runs of fields is the text of the first followed by the text of the second |
| Validator.RowTextEmptyIff | Main.go:79-98 | a row has no text iff no rule of any field contributes text |
| Validator.ApplyRule | Main.go:85-94 | the `switch` appends the matching evaluator's text to the row builder, and nothing for an unknown type |
| Validator.ValidateField | Main.go:84-95 | the rule loop appends the field's rule texts in configured order |
| Validator.ValidateRow | Main.go:78-96 | the field loop leaves a fresh builder holding exactly the row's text |
| Validator.HeaderNameOf | Main.go:68-71 | a header lookup gives row 0's cell at that index, or "" past the end of row 0 |
| Validator.BuildHeaders | Main.go:68-71 | the header map's keys are exactly the column indices of row 0, each mapped to row 0's cell |
| Validator.CellNameInjective | Main.go:100 | different row numbers give different cell addresses in the same column |
| Validator.CellNamesDistinct | Main.go:100 | every earlier row number of a column has a different address from row n |
| Validator.RowResultsMeaning | Main.go:73-98 | a row has text iff it is not the skipped header and some rule of some field contributes text to it |
| Validator.ErrorCountIsNumberOfErrorRows | Main.go:98-99 | the error count is the number of rows with non-empty text |
| Validator.AnnotationsDomain | Main.go:98-101 | the cell at row number r of the error column is written iff row r-1 is an error row, and no other cell is written |
| Validator.AnnotationsValues | Main.go:100-101 | the cell of an error row holds "{key header}: {key cell}.{text}\n" for that row; no later row overwrites it |
| Validator.AnnotationsCount | Main.go:98-101 | there are exactly as many annotations as the error count |
| Validator.Run | Main.go:68-108 | the row loop's annotations are exactly those of the error rows (rows whose validator text is non-empty, the skipped header never one), and its count is the number of error rows, equal to the number of annotations |
| Examples.TokenizeExample | Main.go:135 | "A; b ; ;C" split on ";" gives "A", " b ", " " and "C", untrimmed |
| Examples.TokenKeysExample | Main.go:137 | of those tokens only " " is blank, and the keys of the others are A, B and C |
| Examples.NonNullExample | Main.go:147-151 | a cell of spaces gets " Field Name is required"; the cell "x" gets nothing |
| Examples.ColourTokens | Main.go:135 | the cell "red;green;BLUE" splits into "red", "green" and "BLUE" |
| Examples.InDictionaryExample | Main.go:132-145 | against a dictionary of RED and BLUE, a cell with the tokens "red", "green" and "BLUE" lists only "green;" |
| Examples.NotInFieldRawReference | Main.go:117-130 | "A;B" against the reference cell "b;C" produces no text, because the reference tokens are not upper-cased |
| Examples.NotInFieldUpperReference | Main.go:117-130 | "A;B" against the reference cell "B;C" lists "B;" |

## Left out

- `readValidation` (Main.go:164-186), which opens the configuration file and unmarshals JSON, is not modelled. The configuration is an input value. Its error result is ignored at Main.go:44, so any `Validation`, including the zero value, is accepted.
- Spreadsheet I/O is not modelled: `OpenFile`, `GetRows`, `SetCellValue`, `SaveAs` and `Close` (Main.go:47-66, 100-105, 110-112). Rows are an input sequence, and the cell writes are the returned annotation map.
- The name of the result file, which contains the error count (Main.go:110), is not modelled.
- Console output is not modelled: command-line handling and the `fmt.Println` diagnostics (Main.go:36-40, 93, 104, 111, 114).
- The `if err != nil` check at Main.go:80-82 is left out. `err` is always nil there, so it has no effect.
- `GoStrings.ToUpper` maps only ASCII letters. Go's `strings.ToUpper` also maps other Unicode letters.
- Strings are sequences of code points. Go's strings are UTF-8 bytes, and invalid UTF-8 is not modelled. The byte length `len(...)` is only compared with 0 in the source, so counting code points gives the same answer.
- `GoStrings.Split` requires a non-empty separator. With an empty separator, Go splits the cell into single characters.
- `Validator.Run` and `Validator.ValidateRow` require that every rule can be evaluated (`RuleApplicable`), and `Validator.Run` that the key column exists in every row with text (`KeysPresent`). Where these fail, Go panics on an out-of-range index or a nil pointer. The panic itself is not modelled.
- `Validator.Run` models only a sheet with at least one row. An empty sheet makes Go panic at Main.go:69.
- The spreadsheet cell address is the column string followed by the row number, as `%s%d` builds it. No column-letter arithmetic is involved.
