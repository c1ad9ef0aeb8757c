/** The parts of Go's `strings`, `unicode` and `fmt` packages that the validator
    relies on: whitespace trimming, upper-casing, splitting on a separator, the
    `%d` rendering of a row number, and the `strings.Builder` the evaluators
    append to. Strings are sequences of Unicode code points. */
module GoStrings {

  /** Go's `unicode.IsSpace`: the Unicode White_Space characters. */
  predicate IsSpace(c: char) {
    ('\t' <= c <= '\r') || c == ' ' || c == '\U{0085}' || c == '\U{00A0}' || c == '\U{1680}'
    || ('\U{2000}' <= c <= '\U{200A}') || c == '\U{2028}' || c == '\U{2029}'
    || c == '\U{202F}' || c == '\U{205F}' || c == '\U{3000}'
  }

  predicate AllSpace(s: string) {
    forall i | 0 <= i < |s| :: IsSpace(s[i])
  }

  /** Drops the leading run of whitespace. */
  function TrimLeadingSpace(s: string): string {
    if s != [] && IsSpace(s[0]) then TrimLeadingSpace(s[1..]) else s
  }

  /** Drops the trailing run of whitespace. */
  function TrimTrailingSpace(s: string): string {
    if s != [] && IsSpace(s[|s| - 1]) then TrimTrailingSpace(s[..|s| - 1]) else s
  }

  /** Go's `strings.TrimSpace`. Its properties are stated by the lemmas below
      rather than as postconditions, which keeps the evaluators' proofs cheap. */
  function TrimSpace(s: string): string {
    TrimTrailingSpace(TrimLeadingSpace(s))
  }

  /** What is left after the leading whitespace is dropped is a suffix of the
      input, everything dropped was whitespace, and it does not start with any. */
  lemma {:induction false} TrimLeadingSpaceSpec(s: string)
    ensures var r := TrimLeadingSpace(s);
      |r| <= |s| && r == s[|s| - |r|..]
      && (forall i | 0 <= i < |s| - |r| :: IsSpace(s[i]))
      && (r != [] ==> !IsSpace(r[0]))
  {
    if s != [] && IsSpace(s[0]) {
      var t := s[1..];
      TrimLeadingSpaceSpec(t);
      var r := TrimLeadingSpace(t);
      assert TrimLeadingSpace(s) == r;
      assert t[|t| - |r|..] == s[|s| - |r|..];
      forall i | 0 <= i < |s| - |r|
        ensures IsSpace(s[i])
      {
        if i > 0 {
          assert s[i] == t[i - 1];
        }
      }
    }
  }

  /** What is left after the trailing whitespace is dropped is a prefix of the
      input, everything dropped was whitespace, and it does not end with any. */
  lemma {:induction false} TrimTrailingSpaceSpec(s: string)
    ensures var r := TrimTrailingSpace(s);
      |r| <= |s| && r == s[..|r|]
      && (forall i | |r| <= i < |s| :: IsSpace(s[i]))
      && (r != [] ==> !IsSpace(r[|r| - 1]))
  {
    if s != [] && IsSpace(s[|s| - 1]) {
      TrimTrailingSpaceSpec(s[..|s| - 1]);
    }
  }

  /** `TrimSpace` yields the empty string exactly when every character is
      whitespace; otherwise its result starts and ends with a non-space. */
  lemma TrimSpaceSpec(s: string)
    ensures TrimSpace(s) == [] <==> AllSpace(s)
    ensures var r := TrimSpace(s); r != [] ==> !IsSpace(r[0]) && !IsSpace(r[|r| - 1])
  {
    var l := TrimLeadingSpace(s);
    TrimLeadingSpaceSpec(s);
    TrimTrailingSpaceSpec(l);
    var r := TrimSpace(s);
    if r != [] {
      assert r[0] == l[0];
    }
  }

  /** A string whose ends are not whitespace is left as it is by `TrimSpace`. */
  lemma TrimSpaceOfTrimmed(s: string)
    requires s != [] ==> !IsSpace(s[0]) && !IsSpace(s[|s| - 1])
    ensures TrimSpace(s) == s
  {
    TrimLeadingSpaceSpec(s);
    TrimTrailingSpaceSpec(s);
  }

  /** `unicode.ToUpper` restricted to ASCII letters; every other character is kept. */
  function UpperAscii(c: char): char {
    if 'a' <= c <= 'z' then (c as int - 32) as char else c
  }

  predicate IsLowerAscii(c: char) {
    'a' <= c <= 'z'
  }

  /** Go's `strings.ToUpper`, character by character. */
  function ToUpper(s: string): string {
    if s == [] then [] else [UpperAscii(s[0])] + ToUpper(s[1..])
  }

  /** Upper-casing maps each character on its own and keeps the length. */
  lemma {:induction false} ToUpperPointwise(s: string)
    ensures |ToUpper(s)| == |s|
    ensures forall i | 0 <= i < |s| :: ToUpper(s)[i] == UpperAscii(s[i])
  {
    if s != [] {
      ToUpperPointwise(s[1..]);
    }
  }

  /** Upper-casing removes every lower-case ASCII letter, keeps whitespace where it
      was, and a second application changes nothing. */
  lemma ToUpperProperties(s: string)
    ensures |ToUpper(s)| == |s|
    ensures forall i | 0 <= i < |s| :: !IsLowerAscii(ToUpper(s)[i])
    ensures forall i | 0 <= i < |s| :: IsSpace(ToUpper(s)[i]) <==> IsSpace(s[i])
    ensures ToUpper(ToUpper(s)) == ToUpper(s)
  {
    ToUpperPointwise(s);
    ToUpperPointwise(ToUpper(s));
  }

  /** `sep` occurs in `s` starting at position `i`. */
  predicate OccursAt(s: string, sep: string, i: int) {
    0 <= i && i + |sep| <= |s| && s[i..i + |sep|] == sep
  }

  lemma OccursAtShift(s: string, sep: string, i: int)
    requires s != [] && i >= 0
    ensures OccursAt(s, sep, i + 1) <==> OccursAt(s[1..], sep, i)
  {
    if 0 <= i && i + |sep| <= |s[1..]| {
      assert s[1..][i..i + |sep|] == s[i + 1..i + 1 + |sep|];
    }
  }

  /** Go's `strings.Index`: the first position at which `sep` occurs, or -1. */
  function Index(s: string, sep: string): (r: int)
    ensures r == -1 || 0 <= r <= |s| - |sep|
    decreases |s|
  {
    if |s| < |sep| then -1
    else if s[..|sep|] == sep then 0
    else
      var r := Index(s[1..], sep);
      if r < 0 then -1 else r + 1
  }

  /** `Index` is -1 exactly when `sep` occurs nowhere in `s`; otherwise it is
      the first position at which `sep` occurs. */
  lemma {:induction false} IndexSpec(s: string, sep: string)
    ensures Index(s, sep) == -1 <==> forall i :: !OccursAt(s, sep, i)
    ensures Index(s, sep) >= 0 ==>
      OccursAt(s, sep, Index(s, sep)) && forall i | 0 <= i < Index(s, sep) :: !OccursAt(s, sep, i)
    decreases |s|
  {
    if |s| < |sep| {
    } else if s[..|sep|] == sep {
      assert Index(s, sep) == 0;
      assert OccursAt(s, sep, 0) by { assert s[0..|sep|] == s[..|sep|]; }
    } else {
      assert Index(s, sep) == if Index(s[1..], sep) < 0 then -1 else Index(s[1..], sep) + 1;
      IndexSpec(s[1..], sep);
      assert !OccursAt(s, sep, 0);
      forall i | i >= 0
        ensures OccursAt(s, sep, i + 1) <==> OccursAt(s[1..], sep, i)
      {
        OccursAtShift(s, sep, i);
      }
      forall i | OccursAt(s, sep, i) && i != 0
        ensures OccursAt(s[1..], sep, i - 1)
      {
        OccursAtShift(s, sep, i - 1);
      }
    }
  }

  /** Go's `strings.Split` for a non-empty separator: the pieces between the
      leftmost non-overlapping occurrences of `sep`, scanning from the left. */
  function Split(s: string, sep: string): (parts: seq<string>)
    requires sep != []
    ensures |parts| >= 1
    decreases |s|
  {
    var i := Index(s, sep);
    if i < 0 then [s] else [s[..i]] + Split(s[i + |sep|..], sep)
  }

  /** Go's `strings.Join`. */
  function Join(parts: seq<string>, sep: string): string
    requires |parts| >= 1
  {
    if |parts| == 1 then parts[0] else parts[0] + sep + Join(parts[1..], sep)
  }

  lemma SliceThree(s: string, i: nat, j: nat)
    requires i <= j <= |s|
    ensures s == s[..i] + s[i..j] + s[j..]
  {
  }

  lemma JoinCons(head: string, parts: seq<string>, sep: string)
    requires |parts| >= 1
    ensures Join([head] + parts, sep) == head + sep + Join(parts, sep)
  {
    assert ([head] + parts)[1..] == parts;
  }

  /** Joining the pieces of a split with the same separator gives back the input. */
  lemma {:induction false} JoinSplit(s: string, sep: string)
    requires sep != []
    ensures Join(Split(s, sep), sep) == s
    decreases |s|
  {
    var i := Index(s, sep);
    if i >= 0 {
      var rest := s[i + |sep|..];
      JoinSplit(rest, sep);
      JoinCons(s[..i], Split(rest, sep), sep);
      assert Split(s, sep) == [s[..i]] + Split(rest, sep);
      assert Join(Split(s, sep), sep) == s[..i] + sep + rest;
      assert s[i..i + |sep|] == sep by { IndexSpec(s, sep); }
      SliceThree(s, i, i + |sep|);
    } else {
      assert Split(s, sep) == [s];
    }
  }

  /** For a one-character separator the round trip also holds the other way:
      pieces free of the separator come back from splitting their join. */
  lemma {:induction false} SplitJoinChar(pieces: seq<string>, c: char)
    requires |pieces| >= 1 && forall j | 0 <= j < |pieces| :: c !in pieces[j]
    ensures Split(Join(pieces, [c]), [c]) == pieces
    decreases |pieces|
  {
    var s, p := Join(pieces, [c]), pieces[0];
    IndexSpec(s, [c]);
    if |pieces| == 1 {
      forall i
        ensures !OccursAt(s, [c], i)
      {
        if 0 <= i < |s| {
          assert s[i..i + 1] == [s[i]];
        }
      }
    } else {
      var rest := Join(pieces[1..], [c]);
      assert s == p + [c] + rest;
      assert OccursAt(s, [c], |p|) by { assert s[|p|..|p| + 1] == [c]; }
      forall i | 0 <= i < |p|
        ensures !OccursAt(s, [c], i)
      {
        assert s[i..i + 1] == [p[i]];
      }
      assert s[..|p|] == p && s[|p| + 1..] == rest;
      SplitJoinChar(pieces[1..], c);
    }
  }

  /** The position of the first non-space character of `s`. */
  function FirstNonSpace(s: string): (f: nat)
    requires !AllSpace(s)
    ensures f < |s| && !IsSpace(s[f]) && forall g | 0 <= g < f :: IsSpace(s[g])
  {
    if !IsSpace(s[0]) then 0 else 1 + FirstNonSpace(s[1..])
  }

  /** A separator with a non-space character cannot occur in a string that is
      all whitespace up to `n`, at any position before `n`, when it occurs at
      `n`: its first non-space character would land on whitespace or on an
      earlier, space, character of its own copy at `n`. */
  lemma NoEarlierOccurrence(s: string, sep: string, n: nat, i: int)
    requires !AllSpace(sep) && OccursAt(s, sep, n) && AllSpace(s[..n]) && i < n
    ensures !OccursAt(s, sep, i)
  {
    if 0 <= i && i + |sep| <= |s| {
      var f := FirstNonSpace(sep);
      if i + f < n {
        assert s[..n][i + f] == s[i + f];
      } else {
        assert s[n..n + |sep|][i + f - n] == s[i + f];
      }
      assert s[i..i + |sep|][f] == s[i + f];
    }
  }

  /** When the separator has a non-space character, splitting the join of
      all-whitespace pieces gives back those pieces. */
  lemma {:induction false} SplitJoinBlank(pieces: seq<string>, sep: string)
    requires !AllSpace(sep) && |pieces| >= 1 && forall j | 0 <= j < |pieces| :: AllSpace(pieces[j])
    ensures Split(Join(pieces, sep), sep) == pieces
    decreases |pieces|
  {
    var s, p := Join(pieces, sep), pieces[0];
    IndexSpec(s, sep);
    if |pieces| == 1 {
      forall i
        ensures !OccursAt(s, sep, i)
      {
        if 0 <= i && i + |sep| <= |s| {
          var f := FirstNonSpace(sep);
          assert s[i..i + |sep|][f] == s[i + f];
        }
      }
    } else {
      var rest := Join(pieces[1..], sep);
      assert s == p + sep + rest;
      assert OccursAt(s, sep, |p|) by { assert s[|p|..|p| + |sep|] == sep; }
      assert s[..|p|] == p;
      forall i | 0 <= i < |p|
        ensures !OccursAt(s, sep, i)
      {
        NoEarlierOccurrence(s, sep, |p|, i);
      }
      assert s[|p| + |sep|..] == rest;
      SplitJoinBlank(pieces[1..], sep);
    }
  }

  /** Joining whitespace with a whitespace separator gives whitespace. */
  lemma {:induction false} JoinAllSpace(pieces: seq<string>, sep: string)
    requires AllSpace(sep) && |pieces| >= 1 && forall j | 0 <= j < |pieces| :: AllSpace(pieces[j])
    ensures AllSpace(Join(pieces, sep))
    decreases |pieces|
  {
    if |pieces| > 1 {
      JoinAllSpace(pieces[1..], sep);
    }
  }

  /** No piece of a split contains the separator. */
  lemma {:induction false} SplitPiecesFree(s: string, sep: string)
    requires sep != []
    ensures forall j, k | 0 <= j < |Split(s, sep)| :: !OccursAt(Split(s, sep)[j], sep, k)
    decreases |s|
  {
    var i := Index(s, sep);
    IndexSpec(s, sep);
    if i >= 0 {
      var rest := s[i + |sep|..];
      SplitPiecesFree(rest, sep);
      var head := s[..i];
      forall k
        ensures !OccursAt(head, sep, k)
      {
        if 0 <= k && k + |sep| <= |head| {
          assert head[k..k + |sep|] == s[k..k + |sep|];
          assert !OccursAt(s, sep, k);
        }
      }
      var parts := Split(s, sep);
      assert parts == [head] + Split(rest, sep);
      forall j, k | 0 <= j < |parts|
        ensures !OccursAt(parts[j], sep, k)
      {
        if j > 0 {
          assert parts[j] == Split(rest, sep)[j - 1];
        }
      }
    }
  }

  /** Every character of every piece of a split is a character of the input. */
  lemma {:induction false} SplitPieceChars(s: string, sep: string)
    requires sep != []
    ensures forall j, k | 0 <= j < |Split(s, sep)| && 0 <= k < |Split(s, sep)[j]| :: Split(s, sep)[j][k] in s
    decreases |s|
  {
    var i := Index(s, sep);
    if i >= 0 {
      var rest := s[i + |sep|..];
      SplitPieceChars(rest, sep);
      var parts := Split(s, sep);
      forall j, k | 0 <= j < |parts| && 0 <= k < |parts[j]|
        ensures parts[j][k] in s
      {
        if j == 0 {
          assert parts[j][k] == s[k];
        } else {
          assert parts[j] == Split(rest, sep)[j - 1];
          assert parts[j][k] in rest;
          var m :| 0 <= m < |rest| && rest[m] == parts[j][k];
          assert s[i + |sep| + m] == parts[j][k];
        }
      }
    }
  }

  /** A digit value as its character. */
  function DigitChar(d: nat): char
    requires d < 10
  {
    ('0' as int + d) as char
  }

  predicate IsDigits(s: string) {
    forall i | 0 <= i < |s| :: '0' <= s[i] <= '9'
  }

  /** Go's `fmt` rendering `%d` of a non-negative integer. */
  function DecimalString(n: nat): (r: string)
    ensures r != [] && IsDigits(r)
    ensures |r| > 1 ==> r[0] != '0'
    decreases n
  {
    if n < 10 then [DigitChar(n)] else DecimalString(n / 10) + [DigitChar(n % 10)]
  }

  /** Reads a string of decimal digits back as a number. */
  function ParseDecimal(s: string): nat
    requires IsDigits(s)
  {
    if s == [] then 0 else ParseDecimal(s[..|s| - 1]) * 10 + (s[|s| - 1] as int - '0' as int)
  }

  lemma {:induction false} ParseDecimalString(n: nat)
    ensures ParseDecimal(DecimalString(n)) == n
    decreases n
  {
    if n >= 10 {
      ParseDecimalString(n / 10);
      var r := DecimalString(n);
      assert r[..|r| - 1] == DecimalString(n / 10);
    }
  }

  /** Distinct numbers are rendered differently. */
  lemma DecimalStringInjective(a: nat, b: nat)
    ensures DecimalString(a) == DecimalString(b) ==> a == b
  {
    ParseDecimalString(a);
    ParseDecimalString(b);
  }

  /** Appending to a builder in two steps, grouped either way. */
  lemma AppendAssoc(x: string, y: string, z: string)
    ensures (x + y) + z == x + (y + z)
  {
  }

  /** Go's `strings.Builder`: text that only grows. */
  class Builder {
    var text: string

    constructor ()
      ensures text == []
    {
      text := [];
    }

    method WriteString(s: string)
      modifies this
      ensures text == old(text) + s
    {
      text := text + s;
    }

    function Len(): nat
      reads this
    {
      |text|
    }

    function String(): string
      reads this
    {
      text
    }
  }
}
