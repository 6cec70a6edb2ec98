/** The pieces of the Java and log4j string library that the configuration
    resolver relies on: `Strings.isBlank` and the decimal form of an `int`
    that `String.format("%s", instanceId)` produces. */
module JavaText {
  import opened Wrappers

  /** A Java `String` reference: `None` stands for `null`. */
  type JString = Option<string>

  /** `java.lang.Character.isWhitespace` on one character: the Unicode space,
      line and paragraph separators other than the non-breaking ones
      (U+00A0, U+2007, U+202F), and the ASCII controls TAB, LF, VT, FF, CR
      and FS, GS, RS, US. */
  predicate IsWhitespace(c: char) {
    || c == ' '
    || ('\t' <= c <= '\r')
    || ('\U{1C}' <= c <= '\U{1F}')
    || c == '\U{1680}'
    || ('\U{2000}' <= c <= '\U{2006}')
    || ('\U{2008}' <= c <= '\U{200A}')
    || c == '\U{2028}' || c == '\U{2029}'
    || c == '\U{205F}' || c == '\U{3000}'
  }

  /** Every character of `s` is whitespace (vacuously so for ""). */
  predicate AllWhitespace(s: string) {
    forall i :: 0 <= i < |s| ==> IsWhitespace(s[i])
  }

  /** log4j `Strings.isBlank`: null, empty, or whitespace only. */
  predicate IsBlank(s: JString) {
    match s
    case None => true
    case Some(t) => AllWhitespace(t)
  }

  /** "", " \t\n" and null are blank; "grpc" and " x " are not. */
  lemma BlankExamples()
    ensures IsBlank(Some("")) && IsBlank(Some(" \t\n")) && IsBlank(None)
    ensures !IsBlank(Some("grpc")) && !IsBlank(Some(" x "))
  {
    assert !IsWhitespace('x');
    assert Some(" x ").value[1] == 'x';
    assert Some("grpc").value[0] == 'g';
  }

  // ---------------------------------------------------------------------
  // Decimal form of an int (Integer.toString), and its parser.
  // ---------------------------------------------------------------------

  /** Java's 32-bit `int`. */
  newtype int32 = x: int | -0x8000_0000 <= x < 0x8000_0000

  predicate IsDigit(c: char) { '0' <= c <= '9' }

  function DigitChar(d: int): (c: char)
    requires 0 <= d < 10
    ensures IsDigit(c)
  {
    ('0' as int + d) as char
  }

  function DigitValue(c: char): (d: int)
    requires IsDigit(c)
    ensures 0 <= d < 10
  {
    c as int - '0' as int
  }

  /** Digits of `n` without sign or leading zeros, most significant first. */
  function NatToDecimal(n: nat): (s: string)
    decreases n
  {
    if n < 10 then [DigitChar(n)] else NatToDecimal(n / 10) + [DigitChar(n % 10)]
  }

  /** `Integer.toString(n)`: a leading '-' exactly for negative values,
      then at least one digit and nothing else. */
  function IntToDecimal(n: int): (s: string)
    ensures s != [] && (s[0] == '-' <==> n < 0)
    ensures n < 0 ==> |s| > 1 && AllDigits(s[1..])
    ensures n >= 0 ==> AllDigits(s)
  {
    NatToDecimalDigits(if n < 0 then -n else n);
    if n < 0 then "-" + NatToDecimal(-n) else NatToDecimal(n)
  }

  predicate AllDigits(s: string) {
    forall i :: 0 <= i < |s| ==> IsDigit(s[i])
  }

  /** The value of a non-empty string of decimal digits. */
  function DigitsValue(s: string): (n: nat)
    requires s != [] && AllDigits(s)
    decreases |s|
  {
    if |s| == 1 then DigitValue(s[0])
    else DigitsValue(s[..|s| - 1]) * 10 + DigitValue(s[|s| - 1])
  }

  /** ASCII digits without leading zeros: "0", or digits starting with one
      of '1'..'9'. */
  predicate CanonicalDigits(s: string) {
    s != [] && AllDigits(s) && (s[0] == '0' ==> |s| == 1)
  }

  /** Reads exactly the strings `Integer.toString` writes: canonical digits,
      led by '-' when the value is not 0. No '+', no "-0", no leading
      zeros and no digits other than ASCII; `None` for anything else. */
  function ParseDecimal(s: string): (r: Option<int>) {
    if s != [] && s[0] == '-' then
      if CanonicalDigits(s[1..]) && s[1] != '0' then Some(-(DigitsValue(s[1..]) as int)) else None
    else if CanonicalDigits(s) then Some(DigitsValue(s))
    else None
  }

  lemma {:induction false} NatToDecimalDigits(n: nat)
    ensures NatToDecimal(n) != [] && AllDigits(NatToDecimal(n))
    ensures DigitsValue(NatToDecimal(n)) == n
    ensures NatToDecimal(n)[0] == '0' ==> n == 0 && |NatToDecimal(n)| == 1
    decreases n
  {
    if n >= 10 {
      NatToDecimalDigits(n / 10);
      var s := NatToDecimal(n);
      assert s[..|s| - 1] == NatToDecimal(n / 10);
    }
  }

  /** Parsing the decimal form of an integer gives the integer back. */
  lemma IntToDecimalRoundTrip(n: int)
    ensures ParseDecimal(IntToDecimal(n)) == Some(n)
  {
    var s := IntToDecimal(n);
    if n < 0 {
      var digits := NatToDecimal(-n);
      NatToDecimalDigits(-n);
      assert s[1..] == digits;
      assert CanonicalDigits(digits) && digits[0] != '0';
      assert ParseDecimal(s) == Some(-(DigitsValue(digits) as int));
    } else {
      NatToDecimalDigits(n);
      assert CanonicalDigits(s) && s[0] != '-';
    }
  }

  /** A non-empty digit string that does not start with '0' has a positive
      value. */
  lemma {:induction false} DigitsValuePositive(s: string)
    requires s != [] && AllDigits(s) && s[0] != '0'
    ensures DigitsValue(s) > 0
    decreases |s|
  {
    if |s| > 1 {
      DigitsValuePositive(s[..|s| - 1]);
    }
  }

  /** Canonical digits are the decimal form of their value. */
  lemma {:induction false} CanonicalDigitsAreDecimal(s: string)
    requires CanonicalDigits(s)
    ensures NatToDecimal(DigitsValue(s)) == s
    decreases |s|
  {
    if |s| > 1 {
      var init := s[..|s| - 1];
      assert CanonicalDigits(init);
      CanonicalDigitsAreDecimal(init);
      DigitsValuePositive(init);
      var v := DigitsValue(s);
      assert v / 10 == DigitsValue(init) && v % 10 == DigitValue(s[|s| - 1]);
      assert s == init + [s[|s| - 1]];
    }
  }

  /** The converse of the round trip: what `ParseDecimal` accepts is exactly
      the decimal form of the value it returns, so `Integer.toString` is
      the only form it reads. */
  lemma ParseDecimalCanonical(s: string, n: int)
    requires ParseDecimal(s) == Some(n)
    ensures s == IntToDecimal(n)
  {
    if s[0] == '-' {
      CanonicalDigitsAreDecimal(s[1..]);
      DigitsValuePositive(s[1..]);
      assert s == "-" + s[1..];
    } else {
      CanonicalDigitsAreDecimal(s);
    }
  }

  /** The decimal form of an integer holds only digits and a leading '-',
      so in particular never a ':'. */
  lemma IntToDecimalHasNoColon(n: int)
    ensures ':' !in IntToDecimal(n)
  {
    var s := IntToDecimal(n);
    if n < 0 {
      NatToDecimalDigits(-n);
      assert forall i :: 1 <= i < |s| ==> s[i] == NatToDecimal(-n)[i - 1];
    } else {
      NatToDecimalDigits(n);
    }
  }

  /** Integer.toString values that identify Grafana Cloud instances. */
  lemma DecimalExamples()
    ensures IntToDecimal(123) == "123" && IntToDecimal(-7) == "-7" && IntToDecimal(0) == "0"
  {
  }

  // ---------------------------------------------------------------------
  // Splitting at the first occurrence of a character.
  // ---------------------------------------------------------------------

  /** Splits `s` at the first `sep`: the part before it and the part after. */
  function SplitAtFirst(s: string, sep: char): (r: Option<(string, string)>)
    decreases |s|
  {
    if s == [] then None
    else if s[0] == sep then Some(([], s[1..]))
    else match SplitAtFirst(s[1..], sep)
      case None => None
      case Some(p) => Some(([s[0]] + p.0, p.1))
  }

  /** A split puts the string back together: the first part, the
      separator, the second part. */
  lemma {:induction false} SplitAtFirstJoins(s: string, sep: char)
    requires SplitAtFirst(s, sep).Some?
    ensures var p := SplitAtFirst(s, sep).value; s == p.0 + [sep] + p.1
    decreases |s|
  {
    if s[0] != sep {
      SplitAtFirstJoins(s[1..], sep);
      assert s == [s[0]] + s[1..];
    }
  }

  /** Joining two parts around a separator the first part lacks is undone by
      splitting at the first separator, whatever the second part holds. */
  lemma {:induction false} SplitAtFirstOfJoin(a: string, sep: char, b: string)
    requires sep !in a
    ensures SplitAtFirst(a + [sep] + b, sep) == Some((a, b))
    decreases |a|
  {
    if a != [] {
      assert (a + [sep] + b)[1..] == a[1..] + [sep] + b;
      SplitAtFirstOfJoin(a[1..], sep, b);
      assert [a[0]] + a[1..] == a;
    }
  }
}
