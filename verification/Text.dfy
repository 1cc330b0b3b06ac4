/**
  The text helpers of src/common/util.c, on C strings as `string` values
  (a C string holds no NUL; one `char` stands for one byte).
*/
module Text {
  import opened Wrappers

  const NUL: char := '\0'
  const INT_MIN := -0x8000_0000
  const INT_MAX := 0x7fff_ffff

  /** `isspace` in the C locale. */
  predicate IsSpace(c: char) {
    c == ' ' || '\t' <= c <= '\r'
  }

  predicate IsDigit(c: char) {
    '0' <= c <= '9'
  }

  predicate IsLineEnd(c: char) {
    c == '\n' || c == '\r'
  }

  // ----- The characters, one by one ------------------------------------------

  /** The white space of the C locale (section 7.4.1.10 of ISO/IEC 9899:2011). */
  const SPACES := " \t\n\U{0B}\U{0C}\r"
  const DIGITS := "0123456789"
  const LARGE := "ABCDEFGHIJKLMNOPQRSTUVWXYZ"
  const SMALL := "abcdefghijklmnopqrstuvwxyz"

  lemma CharacterClasses(c: char)
    ensures IsSpace(c) <==> c in SPACES
    ensures IsDigit(c) <==> c in DIGITS
    ensures IsLineEnd(c) <==> c in "\r\n"
  {
  }

  /** The same character, or the two cases of one letter. */
  predicate SameLetter(a: char, b: char) {
    a == b || exists k: nat :: k < 26 && TwoCases(a, b, k)
  }

  predicate TwoCases(a: char, b: char, k: nat)
    requires k < 26
  {
    (a == LARGE[k] && b == SMALL[k]) || (a == SMALL[k] && b == LARGE[k])
  }

  lemma TwoCasesMean(a: char, b: char, k: nat)
    requires k < 26
    ensures TwoCases(a, b, k) <==> {a as int, b as int} == {'A' as int + k, 'a' as int + k}
  {
    LettersInOrder(k);
  }

  // ----- Trimming ------------------------------------------------------------

  function TrimLeft(s: string): string {
    if s != [] && IsSpace(s[0]) then TrimLeft(s[1..]) else s
  }

  function TrimRight(s: string): string {
    if s != [] && IsSpace(s[|s| - 1]) then TrimRight(s[..|s| - 1]) else s
  }

  function Trim(s: string): string {
    TrimRight(TrimLeft(s))
  }

  lemma {:induction false} TrimLeftStep(s: string, i: nat)
    requires i <= |s| && forall j :: 0 <= j < i ==> IsSpace(s[j])
    ensures TrimLeft(s) == TrimLeft(s[i..])
  {
    if i > 0 {
      TrimLeftStep(s[1..], i - 1);
      assert s[1..][i - 1..] == s[i..];
    }
  }

  lemma {:induction false} TrimRightStep(s: string, n: nat)
    requires n <= |s| && forall j :: n <= j < |s| ==> IsSpace(s[j])
    ensures TrimRight(s) == TrimRight(s[..n])
    decreases |s|
  {
    if n < |s| {
      TrimRightStep(s[..|s| - 1], n);
      assert s[..|s| - 1][..n] == s[..n];
    } else {
      assert s[..n] == s;
    }
  }

  /** `trim_whitespace`, whose pointer and terminator become the bounds of a slice. */
  method TrimWhitespace(text: string) returns (r: string)
    ensures r == Trim(text)
  {
    var start := 0;
    while start < |text| && IsSpace(text[start])
      invariant start <= |text| && forall j :: 0 <= j < start ==> IsSpace(text[j])
    {
      start := start + 1;
    }
    TrimLeftStep(text, start);
    var end := |text|;
    while end > start && IsSpace(text[end - 1])
      invariant start <= end <= |text| && forall j :: end <= j < |text| ==> IsSpace(text[j])
    {
      end := end - 1;
    }
    TrimRightStep(text[start..], end - start);
    r := text[start..end];
    assert text[start..][..end - start] == r;
  }

  /** What is left begins and ends with a visible character, and only space was cut off. */
  lemma {:induction false} TrimmedEnds(s: string)
    ensures Trim(s) != [] ==> !IsSpace(Trim(s)[0]) && !IsSpace(Trim(s)[|Trim(s)| - 1])
    ensures Trim(s) == [] <==> forall i :: 0 <= i < |s| ==> IsSpace(s[i])
    ensures forall c :: c in Trim(s) ==> c in s
  {
    TrimLeftEnds(s);
    TrimRightEnds(TrimLeft(s));
  }

  lemma {:induction false} TrimLeftEnds(s: string)
    ensures TrimLeft(s) != [] ==> !IsSpace(TrimLeft(s)[0])
    ensures TrimLeft(s) == [] <==> forall i :: 0 <= i < |s| ==> IsSpace(s[i])
    ensures forall c :: c in TrimLeft(s) ==> c in s
  {
    if s != [] && IsSpace(s[0]) {
      TrimLeftEnds(s[1..]);
      assert forall i :: 0 < i < |s| ==> s[i] == s[1..][i - 1];
    }
  }

  lemma {:induction false} TrimRightEnds(s: string)
    ensures TrimRight(s) <= s
    ensures TrimRight(s) != [] ==> !IsSpace(TrimRight(s)[|TrimRight(s)| - 1])
    ensures TrimRight(s) == [] <==> forall i :: 0 <= i < |s| ==> IsSpace(s[i])
  {
    if s != [] && IsSpace(s[|s| - 1]) {
      TrimRightEnds(s[..|s| - 1]);
      assert forall i :: 0 <= i < |s| - 1 ==> s[i] == s[..|s| - 1][i];
    }
  }

  /** Trimming cuts off nothing but space, at both ends. */
  lemma TrimCuts(s: string) returns (from: nat, to: nat)
    ensures from <= to <= |s| && Trim(s) == s[from..to]
    ensures forall i :: 0 <= i < from || to <= i < |s| ==> IsSpace(s[i])
  {
    from := TrimLeftCuts(s);
    var n := TrimRightCuts(TrimLeft(s));
    to := from + n;
    assert forall i :: to <= i < |s| ==> s[i] == TrimLeft(s)[i - from];
  }

  lemma {:induction false} TrimLeftCuts(s: string) returns (from: nat)
    ensures from <= |s| && TrimLeft(s) == s[from..] && forall i :: 0 <= i < from ==> IsSpace(s[i])
  {
    from := 0;
    if s != [] && IsSpace(s[0]) {
      var k := TrimLeftCuts(s[1..]);
      from := k + 1;
      assert forall i :: 0 < i < from ==> s[i] == s[1..][i - 1];
    }
  }

  lemma {:induction false} TrimRightCuts(s: string) returns (to: nat)
    ensures to <= |s| && TrimRight(s) == s[..to] && forall i :: to <= i < |s| ==> IsSpace(s[i])
  {
    to := |s|;
    if s != [] && IsSpace(s[|s| - 1]) {
      to := TrimRightCuts(s[..|s| - 1]);
      assert forall i :: to <= i < |s| - 1 ==> s[i] == s[..|s| - 1][i];
    }
  }

  lemma TrimIdempotent(s: string)
    ensures Trim(Trim(s)) == Trim(s)
  {
    TrimmedEnds(s);
  }

  // ----- Line endings --------------------------------------------------------

  function Strip(s: string): (r: string)
    ensures r <= s && (forall i :: |r| <= i < |s| ==> IsLineEnd(s[i]))
    ensures r != "" ==> !IsLineEnd(r[|r| - 1])
  {
    if s != [] && IsLineEnd(s[|s| - 1]) then Strip(s[..|s| - 1]) else s
  }

  method StripLineEndings(text: string) returns (r: string)
    ensures r == Strip(text)
  {
    r := text;
    while |r| > 0 && (r[|r| - 1] == '\n' || r[|r| - 1] == '\r')
      invariant Strip(r) == Strip(text)
    {
      r := r[..|r| - 1];
    }
  }

  lemma StripIgnoresNewline(s: string)
    ensures Strip(s + "\n") == Strip(s)
  {
  }

  // ----- Lists and comparison ------------------------------------------------

  /** `string_list_index_of`: the first position of the value, or -1. */
  method IndexOf(list: seq<string>, value: string) returns (index: int)
    ensures index == FirstIndex(list, value)
  {
    index := 0;
    while index < |list|
      invariant 0 <= index <= |list| && value !in list[..index]
    {
      if list[index] == value {
        FirstIndexIs(list, value, index);
        return;
      }
      index := index + 1;
    }
    assert list[..|list|] == list;
    index := -1;
  }

  function FirstIndex(list: seq<string>, value: string): (i: int)
    ensures i == -1 <==> value !in list
    ensures i != -1 ==> 0 <= i < |list| && list[i] == value && value !in list[..i]
  {
    if list == [] then -1
    else if list[0] == value then 0
    else
      var i := FirstIndex(list[1..], value);
      if i == -1 then -1
      else
        assert list[..i + 1] == [list[0]] + list[1..][..i];
        i + 1
  }

  /** At `p` stands the first occurrence of the value. */
  predicate StandsAt(list: seq<string>, value: string, p: nat) {
    p < |list| && list[p] == value && value !in list[..p]
  }

  lemma FirstIndexIs(list: seq<string>, value: string, i: nat)
    requires i < |list| && list[i] == value && value !in list[..i]
    ensures FirstIndex(list, value) == i
  {
  }

  function Lower(c: char): char {
    if 'A' <= c <= 'Z' then c - 'A' + 'a' else c
  }

  predicate SameIgnoringCase(left: string, right: string) {
    |left| == |right| && forall i :: 0 <= i < |left| ==> Lower(left[i]) == Lower(right[i])
  }

  lemma LettersInOrder(k: nat)
    requires k < 26
    ensures LARGE[k] == 'A' + k as char && SMALL[k] == 'a' + k as char
  {
  }

  lemma LowerMeans(a: char, b: char)
    ensures Lower(a) == Lower(b) <==> SameLetter(a, b)
  {
    hide TwoCases;
    if SameLetter(a, b) && a != b {
      var k: nat :| k < 26 && TwoCases(a, b, k);
      TwoCasesMean(a, b, k);
    }
    if Lower(a) == Lower(b) && a != b {
      TwoCasesMean(a, b, ((if 'A' <= a <= 'Z' then a else b) - 'A') as int);
    }
  }

  /** Two texts are the same but for case when they are so letter by letter. */
  lemma IgnoringCaseMeans(left: string, right: string)
    ensures SameIgnoringCase(left, right) <==>
      |left| == |right| && forall i :: 0 <= i < |left| ==> SameLetter(left[i], right[i])
  {
    hide Lower, SameLetter;
    forall i | 0 <= i < |left| && i < |right|
      ensures Lower(left[i]) == Lower(right[i]) <==> SameLetter(left[i], right[i])
    {
      LowerMeans(left[i], right[i]);
    }
  }

  /** `strings_equal_ignore_case`. */
  method StringsEqualIgnoreCase(left: string, right: string) returns (same: bool)
    ensures same == SameIgnoringCase(left, right)
  {
    var i := 0;
    while i < |left| && i < |right|
      invariant i <= |left| && i <= |right|
      invariant forall j :: 0 <= j < i ==> Lower(left[j]) == Lower(right[j])
    {
      if Lower(left[i]) != Lower(right[i]) {
        return false;
      }
      i := i + 1;
    }
    same := i == |left| && i == |right|;
  }

  // ----- Integers ------------------------------------------------------------

  function Digit(d: nat): char
    requires d < 10
  {
    '0' + d as char
  }

  function DigitValue(c: char): nat
    requires IsDigit(c)
  {
    (c - '0') as nat
  }

  function Digits(n: nat): string {
    if n < 10 then [Digit(n)] else Digits(n / 10) + [Digit(n % 10)]
  }

  /** What `snprintf` writes for `%d`. */
  function Decimal(n: int): string {
    if n < 0 then "-" + Digits(-n) else Digits(n)
  }

  predicate AllDigits(s: string) {
    forall i :: 0 <= i < |s| ==> IsDigit(s[i])
  }

  function ReadDigits(s: string): nat
    requires AllDigits(s)
  {
    if s == [] then 0 else 10 * ReadDigits(s[..|s| - 1]) + DigitValue(s[|s| - 1])
  }

  /**
    `parse_int_strict`: an optional run of spaces, an optional sign and at least
    one digit, with nothing after them, whose value fits an `int`.
  */
  function ParseIntStrict(text: string): Option<int> {
    var t := TrimLeft(text);
    var negative := t != [] && t[0] == '-';
    var digits := if t != [] && (t[0] == '-' || t[0] == '+') then t[1..] else t;
    if digits == [] || !AllDigits(digits) then None
    else
      var magnitude: int := ReadDigits(digits);
      var n := if negative then -magnitude else magnitude;
      if INT_MIN <= n <= INT_MAX then Some(n) else None
  }

  lemma {:induction false} DigitsReadBack(n: nat)
    ensures Digits(n) != [] && AllDigits(Digits(n)) && ReadDigits(Digits(n)) == n
  {
    if n >= 10 {
      DigitsReadBack(n / 10);
      assert Digits(n)[..|Digits(n)| - 1] == Digits(n / 10);
    }
  }

  /** Every `int` that is printed is read back. */
  lemma DecimalReadBack(n: int)
    ensures ParseIntStrict(Decimal(n)) == if INT_MIN <= n <= INT_MAX then Some(n) else None
  {
    DigitsReadBack(if n < 0 then -n else n);
    assert IsDigit(Digits(if n < 0 then -n else n)[0]);
    if n < 0 {
      assert Decimal(n)[1..] == Digits(-n);
    }
  }

  /** A printed integer has a minus sign or none, and no leading zero. */
  lemma DecimalForm(n: int)
    ensures var d := Digits(if n < 0 then -n else n);
      && Decimal(n) == (if n < 0 then "-" else "") + d
      && d != "" && (forall i :: 0 <= i < |d| ==> d[i] in DIGITS) && (d[0] == '0' ==> d == "0" && n == 0)
  {
    var k := if n < 0 then -n else n;
    DigitsReadBack(k);
    NoLeadingZero(k);
    forall i | 0 <= i < |Digits(k)| ensures Digits(k)[i] in DIGITS {
      CharacterClasses(Digits(k)[i]);
    }
    assert "" + Digits(k) == Digits(k);
  }

  lemma {:induction false} NoLeadingZero(n: nat)
    ensures Digits(n) != "" && (Digits(n)[0] == '0' ==> n == 0)
    decreases n
  {
    if n >= 10 {
      NoLeadingZero(n / 10);
    }
  }

  // ----- Which texts are integers --------------------------------------------

  predicate AllZeros(s: string) {
    forall i :: 0 <= i < |s| ==> s[i] == '0'
  }

  /** White space, a sign or none, zeros, and the printed magnitude. */
  predicate IntParts(text: string, n: int, blanks: string, sign: string, zeros: string, k: nat) {
    && (forall i :: 0 <= i < |blanks| ==> blanks[i] in SPACES) && sign in ["", "+", "-"] && AllZeros(zeros)
    && text == blanks + sign + zeros + Digits(k)
    && var magnitude: int := k; n == if sign == "-" then -magnitude else magnitude
  }

  ghost predicate WritesInt(text: string, n: int) {
    exists blanks, sign, zeros, k: nat :: IntParts(text, n, blanks, sign, zeros, k)
  }

  lemma {:induction false} ReadZeros(zeros: string, rest: string)
    requires AllZeros(zeros) && AllDigits(rest)
    ensures AllDigits(zeros + rest) && ReadDigits(zeros + rest) == ReadDigits(rest)
    decreases |zeros + rest|
  {
    var s := zeros + rest;
    if rest != "" {
      assert s[..|s| - 1] == zeros + rest[..|rest| - 1];
      ReadZeros(zeros, rest[..|rest| - 1]);
    } else if zeros != "" {
      assert s[..|s| - 1] == zeros[..|zeros| - 1] + rest;
      ReadZeros(zeros[..|zeros| - 1], rest);
    }
  }

  lemma {:induction false} SplitDigits(s: string) returns (zeros: string, k: nat)
    requires s != "" && AllDigits(s)
    ensures AllZeros(zeros) && s == zeros + Digits(k)
    decreases |s|
  {
    var init, last := s[..|s| - 1], s[|s| - 1];
    var d := DigitValue(last);
    assert s == init + [last] && [last] == [Digit(d)] == Digits(d);
    zeros, k := "", d;
    if init != "" {
      zeros, k := SplitDigits(init);
      if k == 0 {
        assert zeros + "0" + Digits(d) == zeros + Digits(0) + [last];
        zeros, k := zeros + "0", d;
      } else {
        assert Digits(10 * k + d) == Digits(k) + [last];
        assert zeros + (Digits(k) + [last]) == zeros + Digits(k) + [last];
        k := 10 * k + d;
      }
    }
  }

  /** `parse_int_strict` reads exactly the texts of integers, within the range of `int`, and reads them right. */
  lemma ParsesExactly(text: string, n: int)
    ensures ParseIntStrict(text) == Some(n) <==> WritesInt(text, n) && -2147483648 <= n <= 2147483647
  {
    if ParseIntStrict(text) == Some(n) {
      ParsedIsWritten(text, n);
    }
    if WritesInt(text, n) {
      var blanks, sign, zeros, k: nat :| IntParts(text, n, blanks, sign, zeros, k);
      WrittenIsParsed(text, n, blanks, sign, zeros, k);
    }
  }

  /** The sign and the digits of a text that is read as an integer. */
  lemma ParsedShape(text: string) returns (blanks: string, sign: string, digits: string)
    requires ParseIntStrict(text).Some?
    ensures text == blanks + (sign + digits) && sign in ["", "+", "-"] && digits != "" && AllDigits(digits)
    ensures forall i :: 0 <= i < |blanks| ==> IsSpace(blanks[i])
    ensures var magnitude: int := ReadDigits(digits);
      ParseIntStrict(text).value == if sign == "-" then -magnitude else magnitude
  {
    hide ReadDigits, TrimLeft, IsDigit, IsSpace;
    var from := TrimLeftCuts(text);
    var t := TrimLeft(text);
    blanks := text[..from];
    sign := if t[0] == '-' then "-" else if t[0] == '+' then "+" else "";
    digits := t[|sign|..];
    assert t == sign + digits;
  }

  lemma ParsedIsWritten(text: string, n: int)
    requires ParseIntStrict(text) == Some(n)
    ensures WritesInt(text, n)
  {
    hide ParseIntStrict, ReadDigits, Digits, IsSpace, AllDigits;
    var blanks, sign, digits := ParsedShape(text);
    var zeros, k := SplitDigits(digits);
    DigitsReadBack(k);
    ReadZeros(zeros, Digits(k));
    forall i | 0 <= i < |blanks| ensures blanks[i] in SPACES {
      CharacterClasses(blanks[i]);
    }
    assert blanks + (sign + (zeros + Digits(k))) == blanks + sign + zeros + Digits(k);
    assert IntParts(text, n, blanks, sign, zeros, k);
  }

  /** Reading a sign and digits behind white space. */
  lemma ParsedFrom(text: string, sign: string, digits: string)
    requires TrimLeft(text) == sign + digits && sign in ["", "+", "-"] && digits != "" && AllDigits(digits)
    ensures var magnitude: int := ReadDigits(digits);
      var n := if sign == "-" then -magnitude else magnitude;
      ParseIntStrict(text) == if INT_MIN <= n <= INT_MAX then Some(n) else None
  {
    hide ReadDigits, TrimLeft;
    var t := sign + digits;
    assert t[|sign|..] == digits && IsDigit(digits[0]);
    assert sign == "" ==> t == digits;
  }

  lemma WrittenIsParsed(text: string, n: int, blanks: string, sign: string, zeros: string, k: nat)
    requires IntParts(text, n, blanks, sign, zeros, k)
    ensures ParseIntStrict(text) == if INT_MIN <= n <= INT_MAX then Some(n) else None
  {
    hide ReadDigits, Digits, ParseIntStrict, AllZeros, IsSpace;
    var digits := zeros + Digits(k);
    DigitsReadBack(k);
    ReadZeros(zeros, Digits(k));
    assert text == blanks + (sign + digits);
    BlanksAreCut(text, blanks, sign, digits);
    ParsedFrom(text, sign, digits);
  }

  lemma BlanksAreCut(text: string, blanks: string, sign: string, digits: string)
    requires text == blanks + (sign + digits) && forall i :: 0 <= i < |blanks| ==> blanks[i] in SPACES
    requires sign in ["", "+", "-"] && digits != "" && AllDigits(digits)
    ensures TrimLeft(text) == sign + digits
  {
    forall j | 0 <= j < |blanks| ensures IsSpace(text[j]) {
      CharacterClasses(blanks[j]);
    }
    TrimLeftStep(text, |blanks|);
    var t := sign + digits;
    assert text[|blanks|..] == t && IsDigit(digits[0]);
    assert t[0] == if sign == "" then digits[0] else sign[0];
  }
}
