/** Printing of non-negative decimal numbers with a fixed number of places, and reading of numbers in general. */
module Decimals {
  import opened Wrappers
  import opened Text

  /** The number units / 10^places. */
  datatype Decimal = Decimal(units: int, places: int)

  /** What text can stand for: a number, an infinity, or "nan". */
  datatype Number = Finite(value: Decimal) | Infinity(negative: bool) | NotANumber

  predicate IsDigit(c: char) {
    '0' <= c <= '9'
  }

  predicate AllDigits(s: string) {
    forall k :: 0 <= k < |s| ==> IsDigit(s[k])
  }

  function Digit(n: nat): (c: char)
    requires n < 10
    ensures IsDigit(c) && c as int - '0' as int == n
  {
    '0' + n as char
  }

  function PrintNat(n: nat): (s: string)
    ensures s != "" && AllDigits(s)
  {
    if n < 10 then [Digit(n)] else PrintNat(n / 10) + [Digit(n % 10)]
  }

  /** The last k digits of n. */
  function PrintPadded(n: nat, k: nat): (s: string)
    ensures |s| == k && AllDigits(s)
  {
    if k == 0 then "" else PrintPadded(n / 10, k - 1) + [Digit(n % 10)]
  }

  /** n without its last k digits. */
  function DropDigits(n: nat, k: nat): nat {
    if k == 0 then n else DropDigits(n / 10, k - 1)
  }

  function PrintFixed(units: nat, places: nat): string {
    PrintNat(DropDigits(units, places)) + "." + PrintPadded(units, places)
  }

  function Value(s: string): nat
    requires AllDigits(s)
  {
    if s == "" then 0 else Value(s[..|s| - 1]) * 10 + (s[|s| - 1] as int - '0' as int)
  }

  /** One or more digits, with single underscores between digits. */
  predicate IsDigitPart(s: string) {
    && s != ""
    && IsDigit(s[0]) && IsDigit(s[|s| - 1])
    && (forall k :: 0 <= k < |s| ==> IsDigit(s[k]) || s[k] == '_')
    && (forall k :: 0 < k < |s| ==> s[k - 1] != '_' || s[k] != '_')
  }

  function WithoutUnderscores(s: string): (r: string)
    ensures (forall k :: 0 <= k < |s| ==> IsDigit(s[k]) || s[k] == '_') ==> AllDigits(r)
  {
    if s == "" then "" else (if s[0] == '_' then "" else [s[0]]) + WithoutUnderscores(s[1..])
  }

  /** The text is the given lower-case word, in any case. */
  predicate IsWord(s: string, word: string)
    requires forall k :: 0 <= k < |word| ==> 'a' <= word[k] <= 'z'
  {
    |s| == |word| && forall k :: 0 <= k < |s| ==> s[k] == word[k] || s[k] == word[k] - 32 as char
  }

  /** A sign in front of the text, if any, and the rest. */
  function Signed(s: string): (bool, string) {
    if s != "" && s[0] == '-' then (true, s[1..])
    else if s != "" && s[0] == '+' then (false, s[1..])
    else (false, s)
  }

  /** Splits at the first e or E. */
  function SplitExponent(s: string): (string, Option<string>) {
    if s == "" then ("", None)
    else if s[0] == 'e' || s[0] == 'E' then ("", Some(s[1..]))
    else
      var (mantissa, exponent) := SplitExponent(s[1..]);
      ([s[0]] + mantissa, exponent)
  }

  function ParseExponent(s: Option<string>): Option<int> {
    match s
    case None => Some(0)
    case Some(s) =>
      var (negative, digits) := Signed(s);
      if !IsDigitPart(digits) then None
      else
        var e: int := Value(WithoutUnderscores(digits));
        Some(if negative then -e else e)
  }

  /** Digits with at most one decimal point, which may lack digits on one of its sides. */
  function ParseMantissa(s: string): Option<Decimal> {
    var (whole, _, fraction) := Partition(s, ".");
    if whole + fraction != "" && (whole == "" || IsDigitPart(whole)) && (fraction == "" || IsDigitPart(fraction)) then
      var digits := WithoutUnderscores(fraction);
      Some(Decimal(Value(WithoutUnderscores(whole) + digits), |digits|))
    else None
  }

  function Combined(negative: bool, mantissa: Option<Decimal>, exponent: Option<int>): Option<Number> {
    if mantissa.None? || exponent.None? then None
    else
      var units := mantissa.value.units;
      Some(Finite(Decimal(if negative then -units else units, mantissa.value.places - exponent.value)))
  }

  /** A mantissa, and possibly an exponent. */
  function ParseNumber(negative: bool, s: string): Option<Number> {
    var (mantissa, exponent) := SplitExponent(s);
    Combined(negative, ParseMantissa(mantissa), ParseExponent(exponent))
  }

  /** Reads what Python's `float` reads, with the digits 0 to 9; whitespace around it is ignored. */
  function ParseFloat(s: string): Option<Number> {
    var (negative, t) := Signed(Strip(s));
    if IsWord(t, "inf") || IsWord(t, "infinity") then Some(Infinity(negative))
    else if IsWord(t, "nan") then Some(NotANumber)
    else ParseNumber(negative, t)
  }

  /** The sign and the case of the letters do not matter. */
  predicate IsNanText(s: string) {
    IsWord(Signed(Strip(s)).1, "nan")
  }

  lemma NanIsRead(s: string)
    ensures ParseFloat(s) == Some(NotANumber) <==> IsNanText(s)
  {
    assert "nan"[0] == 'n' && "inf"[0] == 'i' && "infinity"[0] == 'i';
  }

  lemma {:induction false} ValueOfPrinted(n: nat)
    ensures Value(PrintNat(n)) == n
  {
    if n < 10 {
    } else {
      ValueOfPrinted(n / 10);
      assert PrintNat(n)[..|PrintNat(n)| - 1] == PrintNat(n / 10);
    }
  }

  /** No number is printed with more digits than it needs: only a single digit may be a zero in front. */
  lemma {:induction false} NoLeadingZero(n: nat)
    ensures n < 10 <==> |PrintNat(n)| == 1
    ensures n >= 10 ==> PrintNat(n)[0] != '0'
  {
    if n < 10 {
    } else {
      NoLeadingZero(n / 10);
      if n / 10 < 10 {
        assert PrintNat(n)[0] == Digit(n / 10);
      } else {
        assert PrintNat(n)[0] == PrintNat(n / 10)[0];
      }
    }
  }

  /** A printed number has a decimal point and as many digits behind it as asked for, and no needless zero in front. */
  lemma FixedFormat(units: nat, places: nat)
    ensures var s, whole := PrintFixed(units, places), PrintNat(DropDigits(units, places));
            && |s| == |whole| + 1 + places && s[..|whole|] == whole && s[|whole|] == '.'
            && (forall k :: 0 <= k < |s| && k != |whole| ==> IsDigit(s[k]))
            && (|whole| > 1 ==> s[0] != '0')
  {
    var s, whole := PrintFixed(units, places), PrintNat(DropDigits(units, places));
    NoLeadingZero(DropDigits(units, places));
    assert s[0] == whole[0];
  }

  /** The digits before and after the point, read as one number, are the units. */
  lemma {:induction false} ValueOfFixed(n: nat, k: nat)
    ensures Value(PrintNat(DropDigits(n, k)) + PrintPadded(n, k)) == n
  {
    var whole := PrintNat(DropDigits(n, k));
    var s := whole + PrintPadded(n, k);
    if k == 0 {
      assert s == whole;
      ValueOfPrinted(n);
    } else {
      ValueOfFixed(n / 10, k - 1);
      assert s[..|s| - 1] == whole + PrintPadded(n / 10, k - 1);
    }
  }

  lemma {:induction false} PartitionAfterDigits(a: string, tail: string)
    requires AllDigits(a)
    ensures Partition(a + "." + tail, ".") == (a, ".", tail)
  {
    var s := a + "." + tail;
    if a == "" {
      assert "." <= s && s[1..] == tail;
    } else {
      PartitionAfterDigits(a[1..], tail);
      assert s[1..] == a[1..] + "." + tail;
      assert [s[0]] + a[1..] == a;
    }
  }

  lemma DigitIsNotSpace(c: char)
    requires IsDigit(c)
    ensures !IsSpace(c)
  {
  }

  lemma NumberEnds(whole: string, fraction: string)
    requires AllDigits(whole) && AllDigits(fraction) && whole != "" && fraction != ""
    ensures var s := whole + "." + fraction;
            && !IsSpace(s[0]) && !IsSpace(s[|s| - 1])
            && forall c :: c in s ==> IsDigit(c) || c == '.'
  {
    var s := whole + "." + fraction;
    assert s[0] == whole[0];
    assert s[|s| - 1] == fraction[|fraction| - 1];
    DigitIsNotSpace(s[0]);
    DigitIsNotSpace(s[|s| - 1]);
  }

  lemma {:induction false} UnderscoreIsSkipped(a: string, b: string)
    ensures WithoutUnderscores(a + "_" + b) == WithoutUnderscores(a) + WithoutUnderscores(b)
  {
    if a == "" {
      assert (a + "_" + b)[1..] == b;
    } else {
      var s, first := a + "_" + b, if a[0] == '_' then "" else [a[0]];
      var rest, last := WithoutUnderscores(a[1..]), WithoutUnderscores(b);
      UnderscoreIsSkipped(a[1..], b);
      assert s[0] == a[0] && s[1..] == a[1..] + "_" + b;
      assert first + (rest + last) == first + rest + last;
    }
  }

  /** An underscore between digits does not count. */
  lemma GroupedDigits(a: string, b: string, s: string)
    requires AllDigits(a) && AllDigits(b) && a != "" && b != "" && s == a + "_" + b
    ensures IsDigitPart(s) && WithoutUnderscores(s) == a + b
    ensures !IsDigitPart("_" + a) && !IsDigitPart(a + "_") && !IsDigitPart(a + "_" + s[|a|..])
  {
    UnderscoreIsSkipped(a, b);
    NoUnderscores(a);
    NoUnderscores(b);
    assert s[|s| - 1] == b[|b| - 1];
    var twice := a + "_" + s[|a|..];
    assert twice[|a|] == '_' && twice[|a| + 1] == '_';
    assert (a + "_")[|a|] == '_';
  }

  /** The infinities are read, with either sign, in any case, short or long. */
  lemma InfinityIsRead(s: string)
    ensures (exists negative :: ParseFloat(s) == Some(Infinity(negative))) <==>
            IsWord(Signed(Strip(s)).1, "inf") || IsWord(Signed(Strip(s)).1, "infinity")
    ensures forall negative :: ParseFloat(s) == Some(Infinity(negative)) ==> Signed(Strip(s)).0 == negative
  {
    assert "nan"[0] == 'n' && "inf"[0] == 'i' && "infinity"[0] == 'i';
    if IsWord(Signed(Strip(s)).1, "inf") || IsWord(Signed(Strip(s)).1, "infinity") {
      assert ParseFloat(s) == Some(Infinity(Signed(Strip(s)).0));
    }
  }

  lemma {:induction false} NoUnderscores(s: string)
    requires AllDigits(s)
    ensures WithoutUnderscores(s) == s
  {
    if s == "" {
    } else {
      NoUnderscores(s[1..]);
      assert [s[0]] + s[1..] == s;
    }
  }

  lemma {:induction false} NoExponent(s: string)
    requires forall k :: 0 <= k < |s| ==> s[k] != 'e' && s[k] != 'E'
    ensures SplitExponent(s) == (s, None)
  {
    if s == "" {
    } else {
      NoExponent(s[1..]);
      assert [s[0]] + s[1..] == s;
    }
  }

  /** Text that begins with a digit has no sign and is no word. */
  lemma NumberIsNoWord(s: string)
    requires s != "" && IsDigit(s[0])
    ensures Signed(s) == (false, s)
    ensures !IsWord(s, "inf") && !IsWord(s, "infinity") && !IsWord(s, "nan")
  {
    assert "inf"[0] == 'i' && "infinity"[0] == 'i' && "nan"[0] == 'n';
  }

  lemma MantissaOfPieces(whole: string, fraction: string)
    requires AllDigits(whole) && AllDigits(fraction) && whole != "" && fraction != ""
    ensures ParseMantissa(whole + "." + fraction) == Some(Decimal(Value(whole + fraction), |fraction|))
  {
    PartitionAfterDigits(whole, fraction);
    NoUnderscores(whole);
    NoUnderscores(fraction);
  }

  lemma PlusIsRead(t: string, s: string)
    requires t != "" && IsDigit(t[0]) && IsDigit(t[|t| - 1]) && s == "+" + t
    ensures ParseFloat(s) == ParseNumber(false, t)
  {
    DigitIsNotSpace(t[|t| - 1]);
    StripKeeps(s);
    NumberIsNoWord(t);
    assert s[1..] == t;
  }

  lemma WholeMantissa(s: string)
    requires s != "" && AllDigits(s)
    ensures ParseMantissa(s) == Some(Decimal(Value(s), 0))
  {
    NoUnderscores(s);
    PartitionOfDigits(s);
    assert s + "" == s;
  }

  lemma MantissaWithPoint(digits: string, s: string)
    requires digits != "" && AllDigits(digits) && s == digits + "." + ""
    ensures ParseMantissa(s) == Some(Decimal(Value(digits), 0))
  {
    NoUnderscores(digits);
    PartitionAfterDigits(digits, "");
    assert digits + "" == digits;
  }

  lemma FractionOnly(digits: string, s: string)
    requires digits != "" && AllDigits(digits) && s == "." + digits
    ensures ParseMantissa(s) == Some(Decimal(Value(digits), |digits|))
  {
    NoUnderscores(digits);
    assert s[1..] == digits;
    assert Partition(s, ".") == ("", ".", digits);
    assert "" + digits == digits;
  }

  /** The digits on one side of the decimal point may be missing, and the point with them, but not on both sides. */
  lemma PartialMantissa(digits: string, withPoint: string, fraction: string)
    requires digits != "" && AllDigits(digits) && withPoint == digits + "." + "" && fraction == "." + digits
    ensures ParseMantissa(digits) == ParseMantissa(withPoint) == Some(Decimal(Value(digits), 0))
    ensures ParseMantissa(fraction) == Some(Decimal(Value(digits), |digits|))
    ensures ParseMantissa(".") == ParseMantissa("") == None
  {
    WholeMantissa(digits);
    MantissaWithPoint(digits, withPoint);
    FractionOnly(digits, fraction);
  }

  lemma {:induction false} PartitionOfDigits(digits: string)
    requires AllDigits(digits)
    ensures Partition(digits, ".") == (digits, "", "")
  {
    if digits == "" {
    } else {
      PartitionOfDigits(digits[1..]);
      assert [digits[0]] + digits[1..] == digits;
    }
  }

  /** The exponent may follow a capital letter, too. */
  lemma {:induction false} CapitalExponent(mantissa: string, exponent: string)
    requires forall k :: 0 <= k < |mantissa| ==> mantissa[k] != 'e' && mantissa[k] != 'E'
    ensures SplitExponent(mantissa + "E" + exponent) == (mantissa, Some(exponent))
  {
    var s := mantissa + "E" + exponent;
    if mantissa == "" {
      assert s[1..] == exponent;
    } else {
      CapitalExponent(mantissa[1..], exponent);
      assert s[1..] == mantissa[1..] + "E" + exponent;
      assert [s[0]] + mantissa[1..] == mantissa;
    }
  }

  /** Some spellings of "nan", and some that are none. */
  lemma NanSpellings()
    ensures IsNanText("nan") && IsNanText("NaN") && IsNanText("-NAN") && IsNanText(" +nAn ")
    ensures !IsNanText("na") && !IsNanText("nano") && !IsNanText("--nan")
  {
    StripKeeps("nan");
    StripKeeps("NaN");
    StripKeeps("-NAN");
    StripKeeps("na");
    StripKeeps("nano");
    StripKeeps("--nan");
    StripTakesSpaces(" ", "+nAn", " ");
    assert " " + "+nAn" + " " == " +nAn ";
    assert "-NAN"[1..] == "NAN" && "+nAn"[1..] == "nAn" && "--nan"[1..] == "-nan";
  }

  function WithSign(negative: bool, n: int): int {
    if negative then -n else n
  }

  function PrintSign(negative: bool): string {
    if negative then "-" else ""
  }

  lemma SignedDigits(negative: bool, digits: string)
    requires digits != "" && AllDigits(digits)
    ensures Signed(PrintSign(negative) + digits) == (negative, digits)
  {
    var s := PrintSign(negative) + digits;
    assert negative ==> s[0] == '-' && s[1..] == digits;
    assert !negative ==> s == digits;
  }

  lemma ExponentOf(s: string, negative: bool, digits: string)
    requires Signed(s) == (negative, digits) && digits != "" && AllDigits(digits)
    ensures ParseExponent(Some(s)) == Some(WithSign(negative, Value(digits)))
  {
    NoUnderscores(digits);
  }

  lemma {:induction false} ExponentIsSplit(mantissa: string, exponent: string)
    requires forall k :: 0 <= k < |mantissa| ==> mantissa[k] != 'e' && mantissa[k] != 'E'
    ensures SplitExponent(mantissa + "e" + exponent) == (mantissa, Some(exponent))
  {
    var s := mantissa + "e" + exponent;
    if mantissa == "" {
      assert s[1..] == exponent;
    } else {
      ExponentIsSplit(mantissa[1..], exponent);
      assert s[1..] == mantissa[1..] + "e" + exponent;
      assert [s[0]] + mantissa[1..] == mantissa;
    }
  }

  lemma SignIsRead(negative: bool, t: string, s: string)
    requires t != "" && IsDigit(t[0]) && IsDigit(t[|t| - 1]) && s == PrintSign(negative) + t
    ensures ParseFloat(s) == ParseNumber(negative, t)
  {
    DigitIsNotSpace(t[0]);
    DigitIsNotSpace(t[|t| - 1]);
    StripKeeps(s);
    NumberIsNoWord(t);
    assert negative ==> s[1..] == t;
    assert !negative ==> s == t;
  }

  lemma NumberOfParts(
      negative: bool, t: string, mantissa: string, units: int, places: int, exponent: string, e: int, x: Number)
    requires SplitExponent(t) == (mantissa, Some(exponent))
    requires ParseMantissa(mantissa) == Some(Decimal(units, places)) && ParseExponent(Some(exponent)) == Some(e)
    requires x == Finite(Decimal(WithSign(negative, units), places - e))
    ensures ParseNumber(negative, t) == Some(x)
  {
  }

  lemma EndsInDigits(mantissa: string, exponent: string)
    requires mantissa != "" && IsDigit(mantissa[0]) && exponent != "" && IsDigit(exponent[|exponent| - 1])
    ensures var t := mantissa + "e" + exponent;
            IsDigit(t[0]) && IsDigit(t[|t| - 1])
  {
    var t := mantissa + "e" + exponent;
    assert t[0] == mantissa[0] && t[|t| - 1] == exponent[|exponent| - 1];
  }

  lemma MantissaIsReadBack(units: nat, places: nat)
    requires places > 0
    ensures var mantissa := PrintFixed(units, places);
            && ParseMantissa(mantissa) == Some(Decimal(units, places))
            && mantissa != "" && IsDigit(mantissa[0])
            && forall k :: 0 <= k < |mantissa| ==> mantissa[k] != 'e' && mantissa[k] != 'E'
  {
    var whole, fraction := PrintNat(DropDigits(units, places)), PrintPadded(units, places);
    var mantissa := PrintFixed(units, places);
    MantissaOfPieces(whole, fraction);
    ValueOfFixed(units, places);
    assert mantissa[0] == whole[0];
    NumberEnds(whole, fraction);
    assert forall k :: 0 <= k < |mantissa| ==> mantissa[k] in mantissa;
  }

  lemma ScientificPieces(
      negative: bool, mantissa: string, units: int, places: int, exponent: string, e: int, t: string, x: Number)
    requires ParseMantissa(mantissa) == Some(Decimal(units, places)) && mantissa != "" && IsDigit(mantissa[0])
    requires forall k :: 0 <= k < |mantissa| ==> mantissa[k] != 'e' && mantissa[k] != 'E'
    requires exponent != "" && IsDigit(exponent[|exponent| - 1]) && ParseExponent(Some(exponent)) == Some(e)
    requires t == mantissa + "e" + exponent && x == Finite(Decimal(WithSign(negative, units), places - e))
    ensures ParseNumber(negative, t) == Some(x) && t != "" && IsDigit(t[0]) && IsDigit(t[|t| - 1])
  {
    EndsInDigits(mantissa, exponent);
    ExponentIsSplit(mantissa, exponent);
    NumberOfParts(negative, t, mantissa, units, places, exponent, e, x);
  }

  function PrintExponent(down: bool, digits: string): string {
    PrintSign(down) + digits
  }

  lemma ExponentIsRead(down: bool, digits: string)
    requires digits != "" && AllDigits(digits)
    ensures var exponent := PrintExponent(down, digits);
            && exponent != "" && IsDigit(exponent[|exponent| - 1])
            && ParseExponent(Some(exponent)) == Some(WithSign(down, Value(digits)))
  {
    var exponent := PrintExponent(down, digits);
    assert exponent[|exponent| - 1] == digits[|digits| - 1];
    SignedDigits(down, digits);
    ExponentOf(exponent, down, digits);
  }

  lemma SignedNumberIsRead(negative: bool, t: string, x: Number, s: string)
    requires t != "" && IsDigit(t[0]) && IsDigit(t[|t| - 1]) && s == PrintSign(negative) + t
    requires ParseNumber(negative, t) == Some(x)
    ensures ParseFloat(s) == Some(x)
  {
    SignIsRead(negative, t, s);
  }

  /** A number printed as mantissa and exponent, each with its sign, is read exactly. */
  lemma ScientificIsRead(
      negative: bool, units: nat, places: nat, mantissa: string, down: bool, digits: string, exponent: string,
      s: string, x: Number)
    requires places > 0 && mantissa == PrintFixed(units, places)
    requires digits != "" && AllDigits(digits) && exponent == PrintExponent(down, digits)
    requires s == PrintSign(negative) + (mantissa + "e" + exponent)
    requires x == Finite(Decimal(WithSign(negative, units), places - WithSign(down, Value(digits))))
    ensures ParseFloat(s) == Some(x)
  {
    var t := mantissa + "e" + exponent;
    MantissaIsReadBack(units, places);
    ExponentIsRead(down, digits);
    ScientificPieces(negative, mantissa, units, places, exponent, WithSign(down, Value(digits)), t, x);
    SignedNumberIsRead(negative, t, x, s);
  }

  /** A printed number is read back exactly. */
  lemma ParsePrinted(units: nat, places: nat)
    requires places > 0
    ensures ParseFloat(PrintFixed(units, places)) == Some(Finite(Decimal(units, places)))
  {
    var s, x := PrintFixed(units, places), Finite(Decimal(units, places));
    MantissaIsReadBack(units, places);
    PlainNumber(s, units, places, x);
    PrintedEndsInDigit(units, places);
    assert PrintSign(false) + s == s;
    SignedNumberIsRead(false, s, x, s);
  }

  lemma PlainNumber(s: string, units: nat, places: nat, x: Number)
    requires ParseMantissa(s) == Some(Decimal(units, places)) && x == Finite(Decimal(units, places))
    requires forall k :: 0 <= k < |s| ==> s[k] != 'e' && s[k] != 'E'
    ensures ParseNumber(false, s) == Some(x)
  {
    NoExponent(s);
  }

  lemma PrintedEndsInDigit(units: nat, places: nat)
    requires places > 0
    ensures var s := PrintFixed(units, places);
            s != "" && IsDigit(s[|s| - 1])
  {
    var s, fraction := PrintFixed(units, places), PrintPadded(units, places);
    assert s[|s| - 1] == fraction[|fraction| - 1];
  }

  lemma PrintedEnds(units: nat, places: nat)
    requires places > 0
    ensures var s := PrintFixed(units, places);
            && s != "" && !IsSpace(s[0]) && !IsSpace(s[|s| - 1])
            && forall c :: c in s ==> IsDigit(c) || c == '.'
  {
    NumberEnds(PrintNat(DropDigits(units, places)), PrintPadded(units, places));
  }
}
