/** The configuration shapes the validator reads from its JSON file: the whole
    `Validation`, the `Field`s it checks and the `Rule`s attached to each field.
    Go's nullable pointers (`*string`, `*int`) become `Option`s. */
module Config {

  datatype Option<T> = None | Some(value: T)

  /** One check on a field. `kind` is the raw `type` string; only the three
      names below are acted on. */
  datatype Rule = Rule(kind: string, dictionary: Option<string>, refField: Option<int>, errorMessage: string)

  /** One column to validate: its 0-based index, two informational strings, the
      separator that splits a multi-value cell, and the rules in configured order. */
  datatype Field = Field(fieldID: int, fieldType: string, storage: string, separator: Option<string>, rules: seq<Rule>)

  datatype Validation = Validation(
    dictionaries: map<string, seq<string>>,
    fields: seq<Field>,
    keyField: int,
    errorMessageColumn: string,
    skipHeader: bool)

  const NonNullKind: string := "NON_NULL"
  const InDictionaryKind: string := "IN_DICTIONARY"
  const NotInFieldKind: string := "NOT_IN_FIELD"

  /** Go's lookup in a `map[string][]string`: an absent name yields the empty (nil) list. */
  function DictionaryValues(dictionaries: map<string, seq<string>>, name: string): seq<string> {
    if name in dictionaries then dictionaries[name] else []
  }

  /** Go's lookup in the `map[int]string` of header names: an absent index yields "". */
  function HeaderName(headers: map<int, string>, i: int): string {
    if i in headers then headers[i] else ""
  }
}
