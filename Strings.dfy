/**
 * PHP's string helpers as the plugin uses them: trim(), explode()/implode(),
 * TYPO3's trimExplode() and inList(), intval(), substr() with offset 0,
 * the character-class filters of preg_replace() and ASCII case shifting.
 * PHP strings are byte strings; here a string is a sequence of characters,
 * each standing for one byte.
 */
module PhpStrings {

  // ---------------------------------------------------------------- trim()

  /** The characters PHP's trim() strips by default: " \t\n\r\0\x0B". */
  predicate IsTrimChar(c: char) {
    c == ' ' || c == '\t' || c == '\n' || c == '\r' || c == '\0' || c == '\U{000B}'
  }

  function TrimLeft(s: string): string {
    if |s| > 0 && IsTrimChar(s[0]) then TrimLeft(s[1..]) else s
  }

  function TrimRight(s: string): string {
    if |s| > 0 && IsTrimChar(s[|s| - 1]) then TrimRight(s[..|s| - 1]) else s
  }

  /** ltrim($s) removes exactly the whitespace at the front: what is left is a
      suffix of s that does not start with whitespace, and everything before
      it is whitespace. */
  lemma {:induction false} TrimLeftSpec(s: string)
    ensures var r := TrimLeft(s);
      |r| <= |s| && (forall i {:trigger r[i]} :: 0 <= i < |r| ==> r[i] == s[|s| - |r| + i])
      && (r == [] || !IsTrimChar(r[0]))
      && (forall i :: 0 <= i < |s| - |r| ==> IsTrimChar(s[i]))
  {
    if |s| > 0 && IsTrimChar(s[0]) {
      TrimLeftSpec(s[1..]);
    }
  }

  /** rtrim($s) removes exactly the whitespace at the end. */
  lemma {:induction false} TrimRightSpec(s: string)
    ensures var r := TrimRight(s);
      |r| <= |s| && (forall i {:trigger r[i]} :: 0 <= i < |r| ==> r[i] == s[i])
      && (r == [] || !IsTrimChar(r[|r| - 1]))
      && (forall i :: |r| <= i < |s| ==> IsTrimChar(s[i]))
  {
    if |s| > 0 && IsTrimChar(s[|s| - 1]) {
      TrimRightSpec(s[..|s| - 1]);
    }
  }

  /** The number of whitespace characters trim() removes from the front. */
  function TrimStart(s: string): (n: nat)
    ensures n <= |s|
  {
    TrimLeftSpec(s);
    |s| - |TrimLeft(s)|
  }

  /** trim($s). */
  function Trim(s: string): string {
    TrimRight(TrimLeft(s))
  }

  /** trim($s): neither end of the result is a whitespace character, and the
      result is the middle of s once the whitespace at both ends is gone. */
  lemma TrimSpec(s: string)
    ensures var r := Trim(s);
      (r == [] || (!IsTrimChar(r[0]) && !IsTrimChar(r[|r| - 1])))
      && TrimStart(s) + |r| <= |s|
      && (forall i {:trigger r[i]} :: 0 <= i < |r| ==> r[i] == s[TrimStart(s) + i])
  {
    var l := TrimLeft(s);
    var r := TrimRight(l);
    TrimLeftSpec(s);
    TrimRightSpec(l);
    forall i | 0 <= i < |r| ensures r[i] == s[|s| - |l| + i] {
      assert r[i] == l[i];
    }
  }

  /** trim() keeps one slice of its argument. */
  lemma TrimSlice(s: string)
    ensures TrimStart(s) + |Trim(s)| <= |s| && Trim(s) == s[TrimStart(s)..TrimStart(s) + |Trim(s)|]
  {
    var r := Trim(s);
    TrimSpec(s);
    assert forall i | 0 <= i < |r| :: r[i] == s[TrimStart(s)..TrimStart(s) + |r|][i];
  }

  /** trim() only removes characters: it never introduces one. */
  lemma TrimKeepsAbsent(s: string, c: char)
    requires c !in s
    ensures c !in Trim(s)
  {
    TrimSpec(s);
  }

  lemma TrimLeftNoop(s: string)
    requires s == [] || !IsTrimChar(s[0])
    ensures TrimLeft(s) == s
  {}

  lemma TrimRightNoop(s: string)
    requires s == [] || !IsTrimChar(s[|s| - 1])
    ensures TrimRight(s) == s
  {}

  /** Trimming twice is trimming once. */
  lemma TrimIdempotent(s: string)
    ensures Trim(Trim(s)) == Trim(s)
  {
    var t := Trim(s);
    TrimSpec(s);
    TrimLeftNoop(t);
    TrimRightNoop(t);
  }

  // ------------------------------------------------------- explode/implode

  /** explode($d, $s) for a one-character delimiter: never empty, and no
      piece contains the delimiter. */
  function Explode(d: char, s: string): (r: seq<string>)
    ensures |r| >= 1
    ensures forall i :: 0 <= i < |r| ==> d !in r[i]
  {
    if |s| == 0 then [""]
    else if s[0] == d then [""] + Explode(d, s[1..])
    else
      var rest := Explode(d, s[1..]);
      [[s[0]] + rest[0]] + rest[1..]
  }

  /** implode($sep, $xs). */
  function Implode(sep: string, xs: seq<string>): string
  {
    if |xs| == 0 then ""
    else if |xs| == 1 then xs[0]
    else xs[0] + sep + Implode(sep, xs[1..])
  }

  /** Joining the pieces of explode() with the same delimiter gives back the
      original string. */
  lemma {:induction false} ImplodeExplode(d: char, s: string)
    ensures Implode([d], Explode(d, s)) == s
  {
    if |s| == 0 {
    } else if s[0] == d {
      ImplodeExplode(d, s[1..]);
      assert s == [d] + s[1..];
    } else {
      var rest := Explode(d, s[1..]);
      ImplodeExplode(d, s[1..]);
      if |rest| == 1 {
        assert s == [s[0]] + rest[0];
      } else {
        assert Implode([d], rest) == rest[0] + [d] + Implode([d], rest[1..]);
        assert s == [s[0]] + s[1..];
      }
    }
  }

  /** Splitting an implode() of delimiter-free pieces gives back the pieces. */
  lemma {:induction false} ExplodeImplode(d: char, xs: seq<string>)
    requires |xs| >= 1
    requires forall i :: 0 <= i < |xs| ==> d !in xs[i]
    ensures Explode(d, Implode([d], xs)) == xs
  {
    if |xs| == 1 {
      ExplodeNoDelim(d, xs[0]);
    } else {
      ExplodeImplode(d, xs[1..]);
      ExplodeAppend(d, xs[0], Implode([d], xs[1..]));
      assert [xs[0]] + xs[1..] == xs;
    }
  }

  lemma {:induction false} ExplodeNoDelim(d: char, s: string)
    requires d !in s
    ensures Explode(d, s) == [s]
  {
    if |s| > 0 {
      ExplodeNoDelim(d, s[1..]);
      assert s == [s[0]] + s[1..];
    }
  }

  lemma {:induction false} ExplodeAppend(d: char, a: string, b: string)
    requires d !in a
    ensures Explode(d, a + [d] + b) == [a] + Explode(d, b)
  {
    if |a| == 0 {
      assert a + [d] + b == [d] + b;
      assert ([d] + b)[1..] == b;
    } else {
      ExplodeAppend(d, a[1..], b);
      assert (a + [d] + b)[1..] == a[1..] + [d] + b;
      assert [a[0]] + a[1..] == a;
    }
  }

  // ----------------------------------------------------------- trimExplode

  function MapTrim(xs: seq<string>): (r: seq<string>)
    ensures |r| == |xs|
    ensures forall i :: 0 <= i < |xs| ==> r[i] == Trim(xs[i])
  {
    if |xs| == 0 then [] else [Trim(xs[0])] + MapTrim(xs[1..])
  }

  function NonEmpty(xs: seq<string>): (r: seq<string>)
    ensures forall x {:trigger x in r} :: x in r <==> x in xs && x != ""
  {
    if |xs| == 0 then []
    else (if xs[0] == "" then [] else [xs[0]]) + NonEmpty(xs[1..])
  }

  /** TYPO3's GeneralUtility::trimExplode($d, $s, $removeEmpty): explode,
      trim every piece, and drop the empty pieces when asked to. */
  function TrimExplode(d: char, s: string, removeEmpty: bool): seq<string>
  {
    var pieces := MapTrim(Explode(d, s));
    if removeEmpty then NonEmpty(pieces) else pieces
  }

  /** Every piece of trimExplode() is trimmed and free of the delimiter, and
      with removeEmpty set none is empty. */
  lemma TrimExplodePieces(d: char, s: string, removeEmpty: bool, x: string)
    requires x in TrimExplode(d, s, removeEmpty)
    ensures Trim(x) == x && d !in x
    ensures removeEmpty ==> x != ""
  {
    var parts := Explode(d, s);
    var pieces := MapTrim(parts);
    assert x in pieces;
    var i :| 0 <= i < |pieces| && pieces[i] == x;
    TrimIdempotent(parts[i]);
    TrimKeepsAbsent(parts[i], d);
  }

  // -------------------------------------------------------- list functions

  /** array_intersect($a, $b) on lists: the elements of a, in a's order,
      that also occur in b. */
  function Intersect(a: seq<string>, b: seq<string>): (r: seq<string>)
    ensures forall x {:trigger x in r} :: x in r <==> x in a && x in b
    ensures |r| <= |a|
  {
    if |a| == 0 then []
    else (if a[0] in b then [a[0]] else []) + Intersect(a[1..], b)
  }

  /** array_unique() / array_keys(array_flip()): first occurrences in order. */
  function Dedup(xs: seq<string>): (r: seq<string>)
    ensures forall x {:trigger x in r} :: x in r <==> x in xs
    ensures forall i, j :: 0 <= i < j < |r| ==> r[i] != r[j]
  {
    if |xs| == 0 then []
    else
      Dedup(xs[..|xs| - 1]) + (if xs[|xs| - 1] in Dedup(xs[..|xs| - 1]) then [] else [xs[|xs| - 1]])
  }

  /** Every occurrence of x removed, the rest kept in order. */
  function RemoveAll(xs: seq<string>, x: string): (r: seq<string>)
    ensures forall y :: y in r <==> y in xs && y != x
    ensures |r| <= |xs|
  {
    if |xs| == 0 then []
    else (if xs[0] == x then [] else [xs[0]]) + RemoveAll(xs[1..], x)
  }

  // ------------------------------------------------------ character classes

  /** The classes kept by the nospace, alpha, num, alphanum and alphanum_x
      directives: everything but ' ', [a-zA-Z], [0-9], [a-zA-Z0-9] and
      [a-zA-Z0-9_-]. */
  datatype CharClass = NotSpace | Alpha | Digit | AlNum | AlNumX

  predicate IsLetter(c: char) { 'a' <= c <= 'z' || 'A' <= c <= 'Z' }

  predicate IsDigit(c: char) { '0' <= c <= '9' }

  predicate InClass(k: CharClass, c: char) {
    match k
    case NotSpace => c != ' '
    case Alpha => IsLetter(c)
    case Digit => IsDigit(c)
    case AlNum => IsLetter(c) || IsDigit(c)
    case AlNumX => IsLetter(c) || IsDigit(c) || c == '_' || c == '-'
  }

  /** preg_replace('/[^class]/', '', $s) (or str_replace(' ', '', $s)):
      the characters of s in the class, in order. */
  function Keep(k: CharClass, s: string): (r: string)
    ensures forall i :: 0 <= i < |r| ==> InClass(k, r[i])
    ensures |r| <= |s|
  {
    if |s| == 0 then []
    else (if InClass(k, s[0]) then [s[0]] else []) + Keep(k, s[1..])
  }

  /** A filter changes a string exactly when the string has a character
      outside the class. */
  lemma {:induction false} KeepFixedIff(k: CharClass, s: string)
    ensures Keep(k, s) == s <==> forall i :: 0 <= i < |s| ==> InClass(k, s[i])
  {
    if |s| > 0 {
      KeepFixedIff(k, s[1..]);
      assert s == [s[0]] + s[1..];
      if !InClass(k, s[0]) {
        assert |Keep(k, s)| < |s|;
      } else if Keep(k, s) == s {
        assert Keep(k, s[1..]) == s[1..];
      }
    }
  }

  /** Applying a filter twice is applying it once. */
  lemma KeepIdempotent(k: CharClass, s: string)
    ensures Keep(k, Keep(k, s)) == Keep(k, s)
  {
    KeepFixedIff(k, Keep(k, s));
  }

  // ----------------------------------------------------------- case shift

  function LowerChar(c: char): char {
    if 'A' <= c <= 'Z' then (c as int + 32) as char else c
  }

  function UpperChar(c: char): char {
    if 'a' <= c <= 'z' then (c as int - 32) as char else c
  }

  /** strtolower() on ASCII letters. */
  function ToLower(s: string): (r: string)
    ensures |r| == |s|
    ensures forall i :: 0 <= i < |s| ==> r[i] == LowerChar(s[i])
  {
    if |s| == 0 then [] else [LowerChar(s[0])] + ToLower(s[1..])
  }

  /** strtoupper() on ASCII letters. */
  function ToUpper(s: string): (r: string)
    ensures |r| == |s|
    ensures forall i :: 0 <= i < |s| ==> r[i] == UpperChar(s[i])
  {
    if |s| == 0 then [] else [UpperChar(s[0])] + ToUpper(s[1..])
  }

  // ------------------------------------------------------------- integers

  const PHP_INT_MAX: int := 0x7FFF_FFFF_FFFF_FFFF
  const PHP_INT_MIN: int := -0x8000_0000_0000_0000

  /** PHP's intval() saturates at the 64-bit bounds. */
  function Clamp64(n: int): (r: int)
    ensures PHP_INT_MIN <= r <= PHP_INT_MAX
    ensures PHP_INT_MIN <= n <= PHP_INT_MAX ==> r == n
  {
    if n > PHP_INT_MAX then PHP_INT_MAX else if n < PHP_INT_MIN then PHP_INT_MIN else n
  }

  /** The whitespace strtol() skips. */
  predicate IsSpaceC(c: char) {
    c == ' ' || c == '\t' || c == '\n' || c == '\r' || c == '\U{000B}' || c == '\U{000C}'
  }

  function SkipSpaces(s: string): string {
    if |s| > 0 && IsSpaceC(s[0]) then SkipSpaces(s[1..]) else s
  }

  function LeadingDigits(s: string): (r: string)
    ensures |r| <= |s| && r == s[..|r|]
    ensures forall i :: 0 <= i < |r| ==> IsDigit(r[i])
  {
    if |s| > 0 && IsDigit(s[0]) then [s[0]] + LeadingDigits(s[1..]) else []
  }

  function DigitVal(c: char): nat {
    if IsDigit(c) then c as int - '0' as int else 0
  }

  /** The value of a string of decimal digits. */
  function DigitsValue(ds: string): nat {
    if |ds| == 0 then 0 else DigitsValue(ds[..|ds| - 1]) * 10 + DigitVal(ds[|ds| - 1])
  }

  /** intval($s) for a string: optional leading whitespace, an optional sign,
      then the longest run of digits; anything else stops the scan. */
  function IntVal(s: string): (r: int)
    ensures PHP_INT_MIN <= r <= PHP_INT_MAX
  {
    var t := SkipSpaces(s);
    if |t| > 0 && t[0] == '-' then Clamp64(-(DigitsValue(LeadingDigits(t[1..])) as int))
    else if |t| > 0 && t[0] == '+' then Clamp64(DigitsValue(LeadingDigits(t[1..])))
    else Clamp64(DigitsValue(LeadingDigits(t)))
  }

  /** A PHP integer numeric string: optional leading whitespace, an optional
      sign, then one or more digits and nothing after them. */
  predicate IsIntNumeric(s: string) {
    var t := SkipSpaces(s);
    var u := if |t| > 0 && (t[0] == '-' || t[0] == '+') then t[1..] else t;
    |u| > 0 && LeadingDigits(u) == u
  }

  function Pow10(n: nat): (p: nat)
    ensures p >= 1
  {
    if n == 0 then 1 else 10 * Pow10(n - 1)
  }

  /** The string without its sign, if it has one. */
  function Unsigned(t: string): string {
    if |t| > 0 && (t[0] == '-' || t[0] == '+') then t[1..] else t
  }

  /** The exponent part of a numeric string: empty, or e or E, an optional
      sign and at least one digit, with nothing after them. */
  predicate IsExponent(e: string) {
    |e| == 0
    || ((e[0] == 'e' || e[0] == 'E') && |Unsigned(e[1..])| > 0 && LeadingDigits(Unsigned(e[1..])) == Unsigned(e[1..]))
  }

  function ExponentValue(e: string): int {
    if |e| < 2 then 0
    else if e[1] == '-' then -(DigitsValue(e[2..]) as int)
    else DigitsValue(Unsigned(e[1..]))
  }

  /** The digits after the point of an unsigned number, and what follows
      them; both empty when there is no point. */
  function Fraction(u: string): string {
    var r := u[|LeadingDigits(u)|..];
    if |r| > 0 && r[0] == '.' then LeadingDigits(r[1..]) else ""
  }

  function AfterMantissa(u: string): string {
    var r := u[|LeadingDigits(u)|..];
    if |r| > 0 && r[0] == '.' then r[1..][|LeadingDigits(r[1..])|..] else r
  }

  /** An unsigned decimal number, as PHP 7's is_numeric_string() accepts it:
      digits with an optional point and fraction digits, or a point and at
      least one fraction digit, then an optional exponent, and nothing else. */
  predicate IsUnsignedNumeric(u: string) {
    |LeadingDigits(u)| + |Fraction(u)| > 0 && IsExponent(AfterMantissa(u))
      && (|Fraction(u)| == 0 ==> |LeadingDigits(u)| > 0)
  }

  /** The exact value of an unsigned decimal number. */
  function UnsignedValue(u: string): real {
    var f := Fraction(u);
    var m := DigitsValue(LeadingDigits(u)) as real + DigitsValue(f) as real / Pow10(|f|) as real;
    var x := ExponentValue(AfterMantissa(u));
    if x >= 0 then m * Pow10(x) as real else m / Pow10(-x) as real
  }

  /** A PHP 7 numeric string: leading whitespace, an optional sign, then an
      unsigned decimal number, with no trailing whitespace. */
  predicate IsNumeric(s: string) {
    IsUnsignedNumeric(Unsigned(SkipSpaces(s)))
  }

  /** The value of a numeric string, as an exact real. */
  function NumericValue(s: string): real {
    var t := SkipSpaces(s);
    var v := UnsignedValue(Unsigned(t));
    if |t| > 0 && t[0] == '-' then -v else v
  }

  /** PHP's loose $a == $b on two strings: two numeric strings compare as
      numbers, any other pair character by character. */
  predicate LooseEq(a: string, b: string) {
    if IsNumeric(a) && IsNumeric(b) then NumericValue(a) == NumericValue(b) else a == b
  }

  /** An integer numeric string is numeric, and its value is what intval()
      reads from it when that fits in a PHP integer. */
  lemma IntNumericValue(s: string)
    requires IsIntNumeric(s)
    ensures IsNumeric(s)
    ensures PHP_INT_MIN as real <= NumericValue(s) <= PHP_INT_MAX as real ==> NumericValue(s) == IntVal(s) as real
  {
    var t := SkipSpaces(s);
    var u := Unsigned(t);
    assert LeadingDigits(u) == u;
    assert u[|u|..] == "";
    assert Fraction(u) == "" && AfterMantissa(u) == "";
    assert UnsignedValue(u) == DigitsValue(u) as real;
  }

  lemma DigitsFive()
    ensures SkipSpaces("5") == "5" && LeadingDigits("5") == "5" && DigitsValue("5") == 5
  {
    assert "5"[1..] == "";
    assert "5"[..0] == "";
  }

  lemma DigitsZeroFive()
    ensures SkipSpaces("05") == "05" && LeadingDigits("05") == "05" && DigitsValue("05") == 5
  {
    assert "05"[1..] == "5";
    assert "05"[..1] == "0";
    DigitsFive();
    assert DigitsValue("0") == 0 by {
      assert "0"[..0] == "";
    }
  }

  lemma DigitsZero()
    ensures SkipSpaces("0") == "0" && Unsigned("0") == "0" && LeadingDigits("0") == "0" && DigitsValue("0") == 0
  {
    assert "0"[1..] == "";
    assert "0"[..0] == "";
  }

  lemma NumericFive()
    ensures IsNumeric("5") && NumericValue("5") == 5.0
  {
    DigitsFive();
    assert Unsigned("5") == "5";
    assert "5"[1..] == "";
    assert Fraction("5") == "" && AfterMantissa("5") == "";
  }

  lemma NumericZeroFive()
    ensures IsNumeric("05") && NumericValue("05") == 5.0
  {
    DigitsZeroFive();
    assert Unsigned("05") == "05";
    assert "05"[2..] == "";
    assert Fraction("05") == "" && AfterMantissa("05") == "";
  }

  lemma NumericFivePointZero()
    ensures IsNumeric("5.0") && NumericValue("5.0") == 5.0
  {
    DigitsZero();
    assert SkipSpaces("5.0") == "5.0" && Unsigned("5.0") == "5.0";
    assert "5.0"[1..] == ".0" && ".0"[1..] == "0";
    assert LeadingDigits("5.0") == "5";
    assert DigitsValue("5") == 5 by {
      DigitsFive();
    }
    assert Fraction("5.0") == "0";
    assert "0"[1..] == "";
    assert AfterMantissa("5.0") == "";
  }

  lemma NumericFiveExp()
    ensures IsNumeric("5e0") && NumericValue("5e0") == 5.0
  {
    DigitsZero();
    assert SkipSpaces("5e0") == "5e0" && Unsigned("5e0") == "5e0";
    assert "5e0"[1..] == "e0" && "e0"[1..] == "0";
    assert LeadingDigits("5e0") == "5";
    assert DigitsValue("5") == 5 by {
      DigitsFive();
    }
    assert Fraction("5e0") == "" && AfterMantissa("5e0") == "e0";
    assert IsExponent("e0") && ExponentValue("e0") == 0;
  }

  lemma NotNumericFiveA()
    ensures !IsNumeric("5a")
  {
    assert SkipSpaces("5a") == "5a" && Unsigned("5a") == "5a";
    assert "5a"[1..] == "a";
    assert LeadingDigits("5a") == "5";
    assert Fraction("5a") == "" && AfterMantissa("5a") == "a";
  }

  /** Loose equality is wider than string equality: "05", "5.0" and "5e0"
      are all loosely equal to "5", while "5a" is not, "5a" not being
      numeric. */
  lemma LooseEqByValue()
    ensures LooseEq("05", "5") && "05" != "5"
    ensures LooseEq("5.0", "5") && LooseEq("5e0", "5")
    ensures !LooseEq("5", "5a")
  {
    NumericFive();
    NumericZeroFive();
    NumericFivePointZero();
    NumericFiveExp();
    NotNumericFiveA();
  }

  function DigitChar(d: nat): char
    requires d < 10
  {
    ('0' as int + d) as char
  }

  function NatToStr(n: nat): (r: string)
    ensures |r| >= 1
    ensures forall i :: 0 <= i < |r| ==> IsDigit(r[i])
  {
    if n < 10 then [DigitChar(n)] else NatToStr(n / 10) + [DigitChar(n % 10)]
  }

  /** The decimal text of an integer, as PHP converts an int to a string. */
  function IntToStr(n: int): string {
    if n < 0 then "-" + NatToStr(-n) else NatToStr(n)
  }

  /** Reading back the digits of a natural number gives the number. */
  lemma {:induction false} NatToStrValue(n: nat)
    ensures DigitsValue(NatToStr(n)) == n
  {
    if n >= 10 {
      NatToStrValue(n / 10);
      var s := NatToStr(n);
      assert s[..|s| - 1] == NatToStr(n / 10);
    }
  }

  /** intval() reads back the decimal text of a natural number. */
  lemma IntValNatToStr(n: nat)
    requires n <= PHP_INT_MAX
    ensures IntVal(NatToStr(n)) == n
    ensures IntVal(IntToStr(n)) == n
  {
    var s := NatToStr(n);
    assert SkipSpaces(s) == s;
    LeadingAllDigits(s);
    NatToStrValue(n);
  }

  lemma {:induction false} LeadingAllDigits(s: string)
    requires forall i :: 0 <= i < |s| ==> IsDigit(s[i])
    ensures LeadingDigits(s) == s
  {
    if |s| > 0 {
      LeadingAllDigits(s[1..]);
      assert s == [s[0]] + s[1..];
    }
  }

  // --------------------------------------------------------------- substr

  /** substr($s, 0, $l): a prefix of s; a negative l drops that many
      characters from the end. */
  function Prefix(s: string, l: int): (r: string)
    ensures |r| <= |s| && r == s[..|r|]
    ensures l >= 0 ==> |r| == if l < |s| then l else |s|
    ensures l < 0 ==> |r| == if |s| + l > 0 then |s| + l else 0
  {
    if l >= 0 then (if l < |s| then s[..l] else s)
    else if |s| + l > 0 then s[..|s| + l] else ""
  }

  /** substr($s, -$n): the last n characters, or all of s if it is shorter. */
  function Suffix(s: string, n: nat): (r: string)
    ensures |r| == if |s| < n then |s| else n
    ensures r == s[|s| - |r|..]
  {
    if |s| <= n then s else s[|s| - n..]
  }

  // ------------------------------------------------------- search and lists

  predicate StartsWith(s: string, p: string) {
    |p| <= |s| && s[..|p|] == p
  }

  /** strstr($hay, $needle) !== false. */
  predicate Contains(hay: string, needle: string)
    decreases |hay|
  {
    StartsWith(hay, needle) || (|hay| > 0 && Contains(hay[1..], needle))
  }

  lemma {:induction false} ContainsAfter(a: string, b: string, needle: string)
    requires Contains(b, needle)
    ensures Contains(a + b, needle)
    decreases |a|
  {
    if |a| == 0 {
      assert a + b == b;
    } else {
      ContainsAfter(a[1..], b, needle);
      assert (a + b)[1..] == a[1..] + b;
    }
  }

  lemma StartsWithContains(s: string, p: string)
    requires StartsWith(s, p)
    ensures Contains(s, p)
  {}

  /** TYPO3's GeneralUtility::inList($list, $item): item is one of the
      comma-separated entries of list. */
  predicate InList(list: string, item: string) {
    Contains("," + list + ",", "," + item + ",")
  }

  /** Every entry of an implode(',') list is found by inList(). */
  lemma {:induction false} InListImplode(xs: seq<string>, x: string)
    requires x in xs
    ensures InList(Implode(",", xs), x)
  {
    ImplodeContains(xs, x);
  }

  lemma {:induction false} ImplodeContains(xs: seq<string>, x: string)
    requires x in xs
    ensures Contains("," + Implode(",", xs) + ",", "," + x + ",")
  {
    var whole := "," + Implode(",", xs) + ",";
    if |xs| == 1 {
      assert whole == "," + x + ",";
      StartsWithContains(whole, "," + x + ",");
    } else if xs[0] == x {
      assert whole == ("," + x + ",") + (Implode(",", xs[1..]) + ",");
      StartsWithContains(whole, "," + x + ",");
    } else {
      ImplodeContains(xs[1..], x);
      assert whole == ("," + xs[0]) + ("," + Implode(",", xs[1..]) + ",");
      ContainsAfter("," + xs[0], "," + Implode(",", xs[1..]) + ",", "," + x + ",");
    }
  }

  /** Joining a list with an empty last entry adds one separator. */
  lemma {:induction false} ImplodeAppendEmpty(sep: string, xs: seq<string>)
    requires |xs| > 0
    ensures Implode(sep, xs + [""]) == Implode(sep, xs) + sep
  {
    if |xs| == 1 {
      assert Implode(sep, xs + [""]) == xs[0] + sep + Implode(sep, [""]);
    } else {
      ImplodeAppendEmpty(sep, xs[1..]);
      assert (xs + [""])[1..] == xs[1..] + [""];
    }
  }

  // -------------------------------------------------------------- escaping

  /** The characters rawurlencode() leaves alone. */
  predicate Unreserved(c: char) {
    IsLetter(c) || IsDigit(c) || c == '-' || c == '_' || c == '.' || c == '~'
  }

  function HexDigit(n: nat): (c: char)
    requires n < 16
    ensures IsDigit(c) || 'A' <= c <= 'F'
  {
    if n < 10 then ('0' as int + n) as char else ('A' as int + n - 10) as char
  }

  predicate IsHexDigit(c: char) {
    IsDigit(c) || 'A' <= c <= 'F' || 'a' <= c <= 'f'
  }

  function HexDigitValue(c: char): (n: nat)
    ensures n < 16
  {
    if IsDigit(c) then c as int - '0' as int
    else if 'A' <= c <= 'F' then c as int - 'A' as int + 10
    else if 'a' <= c <= 'f' then c as int - 'a' as int + 10
    else 0
  }

  /** One byte as rawurlencode() writes it. */
  function UrlEscape(c: char): (r: string)
    ensures Unreserved(c) ==> r == [c]
    ensures !Unreserved(c) ==> |r| == 3 && r[0] == '%' && IsHexDigit(r[1]) && IsHexDigit(r[2])
  {
    if Unreserved(c) then [c]
    else ['%', HexDigit(c as int / 16 % 16), HexDigit(c as int % 16)]
  }

  /** rawurlencode($s). Each character stands for one byte. */
  function RawUrlEncode(s: string): (r: string)
    ensures forall i :: 0 <= i < |r| ==> Unreserved(r[i]) || r[i] == '%'
  {
    if |s| == 0 then "" else UrlEscape(s[0]) + RawUrlEncode(s[1..])
  }

  /** rawurldecode($s): "%" followed by two hex digits is the byte they
      spell; anything else stays. */
  function RawUrlDecode(s: string): string
    decreases |s|
  {
    if |s| >= 3 && s[0] == '%' && IsHexDigit(s[1]) && IsHexDigit(s[2]) then
      [(16 * HexDigitValue(s[1]) + HexDigitValue(s[2])) as char] + RawUrlDecode(s[3..])
    else if |s| > 0 then [s[0]] + RawUrlDecode(s[1..])
    else ""
  }

  /** Decoding reads one escaped byte back off the front. */
  lemma DecodeEscapeHead(c: char, rest: string)
    requires c as int < 256
    ensures RawUrlDecode(UrlEscape(c) + rest) == [c] + RawUrlDecode(rest)
  {
    var e := UrlEscape(c);
    if Unreserved(c) {
      assert (e + rest)[0] == c && (e + rest)[1..] == rest;
    } else {
      var hi := c as int / 16 % 16;
      var lo := c as int % 16;
      assert HexDigitValue(HexDigit(hi)) == hi;
      assert HexDigitValue(HexDigit(lo)) == lo;
      assert 16 * hi + lo == c as int;
      assert (e + rest)[3..] == rest;
    }
  }

  /** Decoding undoes the encoding of every byte string. */
  lemma {:induction false} RawUrlRoundTrip(s: string)
    requires forall i :: 0 <= i < |s| ==> s[i] as int < 256
    ensures RawUrlDecode(RawUrlEncode(s)) == s
  {
    if |s| > 0 {
      var rest := RawUrlEncode(s[1..]);
      RawUrlRoundTrip(s[1..]);
      assert RawUrlEncode(s) == UrlEscape(s[0]) + rest;
      DecodeEscapeHead(s[0], rest);
      assert s == [s[0]] + s[1..];
    }
  }

  // ----------------------------------------------------------------- UTF-8

  predicate InByteRange(c: char, lo: int, hi: int) {
    lo <= c as int <= hi
  }

  /** The length of the well-formed UTF-8 sequence at the front of s, or 0
      when there is none: the UTF8-char rule of section 4 of RFC 3629, which
      leaves out overlong forms, surrogates and code points above U+10FFFF. */
  function Utf8Head(s: string): (n: nat)
    requires |s| > 0
    ensures n <= |s|
  {
    var b := s[0] as int;
    if b < 0x80 then 1
    else if 0xC2 <= b <= 0xDF then
      if |s| >= 2 && InByteRange(s[1], 0x80, 0xBF) then 2 else 0
    else if 0xE0 <= b <= 0xEF then
      var lo := if b == 0xE0 then 0xA0 else 0x80;
      var hi := if b == 0xED then 0x9F else 0xBF;
      if |s| >= 3 && InByteRange(s[1], lo, hi) && InByteRange(s[2], 0x80, 0xBF) then 3 else 0
    else if 0xF0 <= b <= 0xF4 then
      var lo := if b == 0xF0 then 0x90 else 0x80;
      var hi := if b == 0xF4 then 0x8F else 0xBF;
      if |s| >= 4 && InByteRange(s[1], lo, hi) && InByteRange(s[2], 0x80, 0xBF) && InByteRange(s[3], 0x80, 0xBF)
      then 4 else 0
    else 0
  }

  /** The byte string is a sequence of well-formed UTF-8 characters. */
  predicate ValidUtf8(s: string)
    decreases |s|
  {
    |s| == 0 || (Utf8Head(s) > 0 && ValidUtf8(s[Utf8Head(s)..]))
  }

  /** A string of ASCII bytes is well-formed UTF-8. */
  lemma {:induction false} AsciiValidUtf8(s: string)
    requires forall i :: 0 <= i < |s| ==> s[i] as int < 0x80
    ensures ValidUtf8(s)
  {
    if |s| > 0 {
      AsciiValidUtf8(s[1..]);
    }
  }

  /** The decimal string of an integer is ASCII, so well-formed UTF-8. */
  lemma IntToStrValidUtf8(n: int)
    ensures ValidUtf8(IntToStr(n))
  {
    AsciiValidUtf8(IntToStr(n));
  }

  /** One character as htmlspecialchars() writes it; a double quote is
      escaped unless ENT_NOQUOTES is given. */
  function HtmlEscape(c: char, quotes: bool): (r: string)
    ensures |r| > 0
    ensures c !in "&<>" && (c != '"' || !quotes) ==> r == [c]
  {
    if c == '&' then "&amp;"
    else if c == '<' then "&lt;"
    else if c == '>' then "&gt;"
    else if c == '"' && quotes then "&quot;"
    else [c]
  }

  /** Every character escaped in turn. */
  function EscapeChars(s: string, quotes: bool): (r: string)
    ensures forall i :: 0 <= i < |r| ==> r[i] != '<' && r[i] != '>'
    ensures quotes ==> forall i :: 0 <= i < |r| ==> r[i] != '"'
    ensures |r| >= |s|
  {
    if |s| == 0 then "" else HtmlEscape(s[0], quotes) + EscapeChars(s[1..], quotes)
  }

  /** htmlspecialchars($s) (quotes: the default flags of PHP 7, ENT_COMPAT)
      and htmlspecialchars($s, ENT_NOQUOTES) (no quotes), with the UTF-8
      charset and neither ENT_IGNORE nor ENT_SUBSTITUTE: a string that is
      not well-formed UTF-8 gives "", any other is escaped character by
      character. The result holds no '<' or '>', so it cannot open a tag. */
  function SpecialChars(s: string, quotes: bool): (r: string)
    ensures forall i :: 0 <= i < |r| ==> r[i] != '<' && r[i] != '>'
    ensures quotes ==> forall i :: 0 <= i < |r| ==> r[i] != '"'
  {
    if ValidUtf8(s) then EscapeChars(s, quotes) else ""
  }

  /** htmlspecialchars() gives "" exactly for "" and for a string that is
      not well-formed UTF-8, such as the single byte 0xFF. */
  lemma SpecialCharsEmptyIff(s: string, quotes: bool)
    ensures SpecialChars(s, quotes) == "" <==> s == "" || !ValidUtf8(s)
    ensures SpecialChars("\U{00FF}", quotes) == ""
  {
    assert Utf8Head("\U{00FF}") == 0;
  }

  /** htmlspecialchars_decode(): the named entities back to characters. */
  function SpecialCharsDecode(s: string): string
    decreases |s|
  {
    if StartsWith(s, "&amp;") then "&" + SpecialCharsDecode(s[5..])
    else if StartsWith(s, "&lt;") then "<" + SpecialCharsDecode(s[4..])
    else if StartsWith(s, "&gt;") then ">" + SpecialCharsDecode(s[4..])
    else if StartsWith(s, "&quot;") then "\"" + SpecialCharsDecode(s[6..])
    else if |s| > 0 then [s[0]] + SpecialCharsDecode(s[1..])
    else ""
  }

  /** Escaping a well-formed UTF-8 text loses nothing: decoding gives it
      back. */
  lemma SpecialCharsRoundTrip(s: string, quotes: bool)
    requires ValidUtf8(s)
    ensures SpecialCharsDecode(SpecialChars(s, quotes)) == s
  {
    EscapeCharsRoundTrip(s, quotes);
  }

  lemma {:induction false} EscapeCharsRoundTrip(s: string, quotes: bool)
    ensures SpecialCharsDecode(EscapeChars(s, quotes)) == s
  {
    if |s| > 0 {
      var rest := EscapeChars(s[1..], quotes);
      EscapeCharsRoundTrip(s[1..], quotes);
      assert EscapeChars(s, quotes) == HtmlEscape(s[0], quotes) + rest;
      DecodeEscaped(s[0], quotes, rest);
      assert s == [s[0]] + s[1..];
    }
  }

  /** Decoding reads one escaped character back and goes on after it. */
  lemma DecodeEscaped(c: char, quotes: bool, rest: string)
    ensures SpecialCharsDecode(HtmlEscape(c, quotes) + rest) == [c] + SpecialCharsDecode(rest)
  {
    var e := HtmlEscape(c, quotes);
    var s := e + rest;
    assert s[|e|..] == rest;
    if e == [c] {
      assert s[0] == c && c != '&';
      NoEntityAt(s);
      assert s[1..] == rest;
    } else if c == '&' {
      assert s[..5] == "&amp;";
    } else if c == '<' {
      assert s[..4] == "&lt;" && s[1] == 'l';
    } else if c == '>' {
      assert s[..4] == "&gt;" && s[1] == 'g';
    } else {
      assert s[..6] == "&quot;" && s[1] == 'q';
    }
  }

  /** A string that does not start with '&' starts with no entity. */
  lemma NoEntityAt(s: string)
    requires |s| > 0 && s[0] != '&'
    ensures !StartsWith(s, "&amp;") && !StartsWith(s, "&lt;") && !StartsWith(s, "&gt;") && !StartsWith(s, "&quot;")
  {
    assert forall p :: |p| > 0 && |p| <= |s| && s[..|p|] == p ==> p[0] == s[0];
  }

  /** A joined list is at least as long as its last entry. */
  lemma {:induction false} ImplodeLast(sep: string, xs: seq<string>)
    requires |xs| > 0
    ensures |Implode(sep, xs)| >= |xs[|xs| - 1]|
  {
    if |xs| > 1 {
      ImplodeLast(sep, xs[1..]);
    }
  }
}
