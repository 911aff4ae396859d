/** Column-letter arithmetic: spreadsheet column labels "A".."ZZ" are bijective
    base-26 numerals (A = 1, ..., Z = 26, AA = 27, ..., ZZ = 702). */
module ExcelHelper {
  import opened Wrappers
  import opened Exceptions

  const MaxColumnIndex: int := 702

  predicate IsAsciiLetter(c: char) {
    'A' <= c <= 'Z' || 'a' <= c <= 'z'
  }

  predicate IsUpperLetters(s: string) {
    forall i :: 0 <= i < |s| ==> 'A' <= s[i] <= 'Z'
  }

  /** Upper-casing of one character in a culture that maps the ASCII letters to their ASCII
      capitals (not tr-TR, where 'i' becomes U+0130); other characters are left alone. */
  function ToUpper(c: char): (u: char)
    ensures IsAsciiLetter(c) ==> 'A' <= u <= 'Z'
    ensures 'A' <= c <= 'Z' ==> u == c
  {
    if 'a' <= c <= 'z' then (c as int - 32) as char else c
  }

  function Upper(s: string): (u: string)
    ensures |u| == |s|
    ensures forall i :: 0 <= i < |s| ==> u[i] == ToUpper(s[i])
  {
    if s == [] then [] else [ToUpper(s[0])] + Upper(s[1..])
  }

  /** The shape the source accepts: one or two letters. */
  predicate IsColumnLetter(s: string) {
    0 < |s| <= 2 && forall i :: 0 <= i < |s| ==> IsAsciiLetter(s[i])
  }

  /** The value of an upper-case label read as a bijective base-26 numeral. */
  function ColumnNumber(s: string): nat
    requires IsUpperLetters(s)
  {
    if s == [] then 0
    else ColumnNumber(s[..|s| - 1]) * 26 + (s[|s| - 1] as int - 'A' as int + 1)
  }

  /** The bijective base-26 numeral of `n`, most significant letter first. */
  function ColumnLetters(n: nat): (s: string)
    ensures IsUpperLetters(s)
    ensures n == 0 <==> s == []
  {
    if n == 0 then []
    else ColumnLetters((n - 1) / 26) + [(('A' as int) + (n - 1) % 26) as char]
  }

  /** Reading back the letters of a number gives the number. */
  lemma {:induction false} NumberOfLetters(n: nat)
    ensures ColumnNumber(ColumnLetters(n)) == n
  {
    if n > 0 {
      var s := ColumnLetters(n);
      NumberOfLetters((n - 1) / 26);
      assert s[..|s| - 1] == ColumnLetters((n - 1) / 26);
    }
  }

  /** Every upper-case label is the numeral of its value: the numbering is a bijection. */
  lemma {:induction false} LettersOfNumber(s: string)
    requires IsUpperLetters(s)
    ensures ColumnLetters(ColumnNumber(s)) == s
  {
    if s != [] {
      var init, d := s[..|s| - 1], s[|s| - 1] as int - 'A' as int + 1;
      LettersOfNumber(init);
      var n := ColumnNumber(s);
      assert n == ColumnNumber(init) * 26 + d;
      assert (n - 1) / 26 == ColumnNumber(init);
      assert (n - 1) % 26 == d - 1;
      assert ((('A' as int) + (n - 1) % 26) as char) == s[|s| - 1];
      assert ColumnLetters(n) == ColumnLetters(ColumnNumber(init)) + [s[|s| - 1]];
      assert s == init + [s[|s| - 1]];
    }
  }

  /** A one- or two-letter label numbers a column in 1..702. */
  lemma ColumnNumberRange(s: string)
    requires IsUpperLetters(s) && 0 < |s| <= 2
    ensures 1 <= ColumnNumber(s) <= MaxColumnIndex
  {
    if |s| == 2 {
      assert ColumnNumber(s[..1]) == s[0] as int - 'A' as int + 1;
    }
  }

  /** Every column in 1..702 has a one- or two-letter label. */
  lemma ColumnLettersLength(n: nat)
    requires 1 <= n <= MaxColumnIndex
    ensures 1 <= |ColumnLetters(n)| <= 2
  {
    var m := (n - 1) / 26;
    assert m <= 26;
    assert m > 0 ==> (m - 1) / 26 == 0;
  }

  /** Upper-casing a valid label yields upper-case letters only. */
  lemma UpperOfLetters(s: string)
    requires IsColumnLetter(s)
    ensures IsUpperLetters(Upper(s)) && |Upper(s)| == |s|
  {
  }

  /** ExcelHelper.ColumnLetterToColumnIndex: null fails with an argument-null error,
      a string that is not one or two letters fails with an out-of-range error, and a
      valid label gives its 1-based column index, ignoring case. */
  method ColumnLetterToColumnIndex(columnLetter: Option<string>) returns (r: Result<int, Error>)
    ensures columnLetter.None? ==> r == Failure(ArgumentNull("columnLetter"))
    ensures columnLetter.Some? && !IsColumnLetter(columnLetter.value) ==>
              r == Failure(ArgumentOutOfRange("columnLetter", "Must only be 1-2 alpha characters"))
    ensures columnLetter.Some? && IsColumnLetter(columnLetter.value) ==>
              IsUpperLetters(Upper(columnLetter.value)) &&
              r == Success(ColumnNumber(Upper(columnLetter.value)))
    ensures r.Success? ==> 1 <= r.value <= MaxColumnIndex
  {
    if columnLetter.None? {
      return Failure(ArgumentNull("columnLetter"));
    }
    var letters := columnLetter.value;
    var isValid := |letters| > 0 && |letters| <= 2 && forall i :: 0 <= i < |letters| ==> IsAsciiLetter(letters[i]);
    if !isValid {
      return Failure(ArgumentOutOfRange("columnLetter", "Must only be 1-2 alpha characters"));
    }
    letters := Upper(letters);
    var sum := 0;
    for i := 0 to |letters|
      invariant sum == ColumnNumber(letters[..i])
    {
      assert letters[..i + 1][..i] == letters[..i];
      sum := sum * 26;
      sum := sum + (letters[i] as int - 'A' as int + 1);
    }
    assert letters[..|letters|] == letters;
    ColumnNumberRange(letters);
    return Success(sum);
  }

  /** ExcelHelper.ColumnIndexToColumnLetter: an index outside 1..702 fails with an
      out-of-range error; a valid index gives its one- or two-letter upper-case label,
      which reads back as the same index. */
  method ColumnIndexToColumnLetter(colIndex: int) returns (r: Result<string, Error>)
    ensures !(0 < colIndex <= MaxColumnIndex) ==>
              r == Failure(ArgumentOutOfRange("colIndex", "Must be between 1 and 702"))
    ensures 0 < colIndex <= MaxColumnIndex ==>
              r == Success(ColumnLetters(colIndex)) &&
              1 <= |r.value| <= 2 && IsUpperLetters(r.value) &&
              ColumnNumber(r.value) == colIndex
  {
    var isValid := colIndex > 0 && colIndex <= MaxColumnIndex;
    if !isValid {
      return Failure(ArgumentOutOfRange("colIndex", "Must be between 1 and 702"));
    }
    var div := colIndex;
    var colLetter := "";
    while div > 0
      invariant 0 <= div
      invariant ColumnLetters(div) + colLetter == ColumnLetters(colIndex)
      decreases div
    {
      var mod := (div - 1) % 26;
      ghost var prev := div;
      colLetter := [(65 + mod) as char] + colLetter;
      div := (div - mod) / 26;
      assert div == (prev - 1) / 26;
      assert ColumnLetters(prev) == ColumnLetters(div) + [(65 + mod) as char];
    }
    assert ColumnLetters(div) == [];
    assert colLetter == ColumnLetters(colIndex);
    ColumnLettersLength(colIndex);
    NumberOfLetters(colIndex);
    return Success(colLetter);
  }

  /** Round trip through both conversions: a valid label comes back upper-cased, and
      every index in 1..702 comes back unchanged. */
  lemma RoundTrips(s: string, n: int)
    ensures IsColumnLetter(s) ==>
              IsUpperLetters(Upper(s)) && ColumnLetters(ColumnNumber(Upper(s))) == Upper(s)
    ensures 1 <= n <= MaxColumnIndex ==>
              1 <= |ColumnLetters(n)| <= 2 && ColumnNumber(ColumnLetters(n)) == n
  {
    if IsColumnLetter(s) {
      LettersOfNumber(Upper(s));
    }
    if 1 <= n <= MaxColumnIndex {
      ColumnLettersLength(n);
      NumberOfLetters(n);
    }
  }

  /** The values the source's own examples pin down. */
  lemma Examples()
    ensures ColumnNumber("A") == 1 && ColumnNumber("AG") == 33
    ensures ColumnNumber("ZZ") == 702 && ColumnNumber("XZ") == 650
    ensures Upper("ag") == "AG"
    ensures ColumnLetters(1) == "A" && ColumnLetters(33) == "AG"
    ensures ColumnLetters(702) == "ZZ" && ColumnLetters(633) == "XI"
  {
    assert "AG"[..1] == "A";
    assert "ZZ"[..1] == "Z";
    assert "XZ"[..1] == "X";
  }
}
