/**
 * The java.lang.String and java.lang.Integer operations that the handlers
 * rely on: `startsWith`, `trim`, `compareTo`, `Integer.parseInt` and the
 * decimal rendering of an int inside a string concatenation.
 */
module Strings {
  import opened Common

  const MinInt: int := -0x8000_0000
  const MaxInt: int := 0x7fff_ffff

  /** `s.startsWith(prefix)`. */
  predicate StartsWith(s: string, prefix: string) {
    |prefix| <= |s| && s[..|prefix|] == prefix
  }

  /** `String.trim` treats every character up to U+0020 as blank. */
  predicate IsBlank(c: char) {
    c <= ' '
  }

  /** Drops the leading blanks: what is left is a suffix that starts with a non-blank. */
  function TrimStart(s: string): (r: string)
    ensures |r| <= |s| && r == s[|s| - |r|..]
    ensures r == [] || !IsBlank(r[0])
    ensures forall k :: 0 <= k < |s| - |r| ==> IsBlank(s[k])
  {
    if s == [] || !IsBlank(s[0]) then s else TrimStart(s[1..])
  }

  /** Drops the trailing blanks: what is left is a prefix that ends with a non-blank. */
  function TrimEnd(s: string): (r: string)
    ensures |r| <= |s| && r == s[..|r|]
    ensures r == [] || !IsBlank(r[|r| - 1])
    ensures forall k :: |r| <= k < |s| ==> IsBlank(s[k])
  {
    if s == [] || !IsBlank(s[|s| - 1]) then s else TrimEnd(s[..|s| - 1])
  }

  /** How many leading blanks `trim` removes. */
  function LeadingBlanks(s: string): (n: nat)
    ensures n <= |s|
  {
    |s| - |TrimStart(s)|
  }

  /**
   * `s.trim()`: the longest infix of `s` that neither starts nor ends with a
   * blank, everything cut away on either side being blank.
   */
  function Trim(s: string): (r: string)
    ensures LeadingBlanks(s) + |r| <= |s|
    ensures r == s[LeadingBlanks(s)..LeadingBlanks(s) + |r|]
    ensures r == [] || (!IsBlank(r[0]) && !IsBlank(r[|r| - 1]))
    ensures forall k :: 0 <= k < LeadingBlanks(s) ==> IsBlank(s[k])
    ensures forall k :: LeadingBlanks(s) + |r| <= k < |s| ==> IsBlank(s[k])
  {
    var t := TrimStart(s);
    var r := TrimEnd(t);
    var i := |s| - |t|;
    assert forall k :: i + |r| <= k < |s| ==> s[k] == t[k - i];
    r
  }

  predicate IsDigit(c: char) {
    '0' <= c <= '9'
  }

  predicate AllDigits(s: string) {
    forall i :: 0 <= i < |s| ==> IsDigit(s[i])
  }

  /** The value of a string of decimal digits, most significant first. */
  function DigitsValue(ds: string): nat
    requires AllDigits(ds)
  {
    if ds == [] then 0
    else DigitsValue(ds[..|ds| - 1]) * 10 + (ds[|ds| - 1] as int - '0' as int)
  }

  function DigitChar(d: nat): (c: char)
    requires d < 10
    ensures IsDigit(c) && c as int - '0' as int == d
  {
    ('0' as int + d) as char
  }

  /**
   * The decimal text of a non-negative int, as string concatenation renders
   * it: at least one digit, no leading zero, and reading it back gives `n`.
   */
  function Decimal(n: nat): (r: string)
    ensures |r| >= 1 && AllDigits(r)
    ensures r[0] == '0' ==> n == 0
    ensures DigitsValue(r) == n
  {
    if n < 10 then [DigitChar(n)]
    else
      var r := Decimal(n / 10) + [DigitChar(n % 10)];
      assert r[..|r| - 1] == Decimal(n / 10);
      r
  }

  /**
   * `Integer.parseInt(s)` for ASCII digits: an optional `+` or `-`, then at
   * least one digit, and a value that fits in a 32-bit int; anything else
   * is a NumberFormatException, modelled as None.
   */
  function ParseInt(s: string): (r: Option<int>)
    ensures r.Some? ==> MinInt <= r.value <= MaxInt
  {
    if s == [] then None
    else
      var signed := s[0] == '-' || s[0] == '+';
      var digits := if signed then s[1..] else s;
      if digits == [] || !AllDigits(digits) then None
      else
        var magnitude: int := DigitsValue(digits);
        var v := if s[0] == '-' then -magnitude else magnitude;
        if MinInt <= v <= MaxInt then Some(v) else None
  }

  /** `s` is a decimal numeral for `v`: an optional `+` or `-`, then one or more digits. */
  ghost predicate Numeral(s: string, v: int) {
    || (s != [] && AllDigits(s) && v == DigitsValue(s))
    || (|s| >= 2 && s[0] == '+' && AllDigits(s[1..]) && v == DigitsValue(s[1..]))
    || (|s| >= 2 && s[0] == '-' && AllDigits(s[1..]) && v == -(DigitsValue(s[1..]) as int))
  }

  /** A numeral has one value. */
  lemma NumeralUnique(s: string, v: int, w: int)
    requires Numeral(s, v) && Numeral(s, w)
    ensures v == w
  {
    assert !IsDigit('+') && !IsDigit('-');
  }

  /**
   * `Integer.parseInt` accepts exactly the numerals whose value is an int,
   * and returns that value; every other text is rejected.
   */
  lemma ParseIntIsNumeral(s: string)
    ensures ParseInt(s).Some? <==> exists v :: Numeral(s, v) && MinInt <= v <= MaxInt
    ensures ParseInt(s).Some? ==> Numeral(s, ParseInt(s).value)
  {
    assert !IsDigit('+') && !IsDigit('-');
    if ParseInt(s).Some? {
      var v := ParseInt(s).value;
      if s[0] == '-' || s[0] == '+' {
        assert Numeral(s, v);
      } else {
        assert Numeral(s, v);
      }
    }
    if v :| Numeral(s, v) && MinInt <= v <= MaxInt {
      assert ParseInt(s) == Some(v);
    }
  }

  /** Leading zeros, a plus sign and a negative zero are accepted. */
  lemma ParseIntAccepts()
    ensures ParseInt("007") == Some(7) && ParseInt("+5") == Some(5) && ParseInt("-0") == Some(0)
  {
    assert "007"[..2] == "00" && "00"[..1] == "0" && "0"[..0] == "";
    assert DigitsValue("007") == 7;
    assert "+5"[1..] == "5" && "5"[..0] == "";
    assert "-0"[1..] == "0";
  }

  /** An empty text, a lone sign and a stray character are rejected. */
  lemma ParseIntRejects()
    ensures ParseInt("") == None && ParseInt("+") == None && ParseInt("12a") == None
  {
    assert !IsDigit("12a"[2]);
  }

  /** The digits of 2^31. */
  lemma PowerDigits()
    ensures AllDigits("2147483648") && DigitsValue("2147483648") == 2147483648
  {
    assert "2147483648"[..9] == "214748364";
    assert "214748364"[..8] == "21474836";
    assert "21474836"[..7] == "2147483";
    assert "2147483"[..6] == "214748";
    assert "214748"[..5] == "21474";
    assert "21474"[..4] == "2147";
    assert "2147"[..3] == "214";
    assert "214"[..2] == "21";
    assert "21"[..1] == "2";
  }

  /** 2^31 overflows an int, but its negation is the least int. */
  lemma ParseIntRange()
    ensures ParseInt("2147483648") == None && ParseInt("-2147483648") == Some(MinInt)
  {
    PowerDigits();
    assert "-2147483648"[1..] == "2147483648";
  }

  /** Rendering a non-negative int and parsing it back is the identity. */
  lemma ParseDecimal(n: nat)
    requires n <= MaxInt
    ensures ParseInt(Decimal(n)) == Some(n)
  {
    var r := Decimal(n);
    assert r[0] != '-' && r[0] != '+' by { assert IsDigit(r[0]); }
  }

  /** A minus sign in front of the rendering parses to the negated value. */
  lemma ParseNegativeDecimal(n: nat)
    requires n <= -MinInt
    ensures ParseInt("-" + Decimal(n)) == Some(-(n as int))
  {
    var s := "-" + Decimal(n);
    assert s[1..] == Decimal(n);
  }

  /**
   * `s.length()`: the number of UTF-16 code units, in which a character
   * beyond the Basic Multilingual Plane takes two.
   */
  function Utf16Length(s: string): (n: nat)
    ensures |s| <= n <= 2 * |s|
  {
    if s == [] then 0
    else Utf16Length(s[..|s| - 1]) + (if s[|s| - 1] as int > 0xFFFF then 2 else 1)
  }

  /** Within the Basic Multilingual Plane, `length()` counts characters. */
  lemma {:induction false} Utf16LengthInPlane(s: string)
    requires forall i :: 0 <= i < |s| ==> s[i] as int <= 0xFFFF
    ensures Utf16Length(s) == |s|
  {
    if s != [] {
      Utf16LengthInPlane(s[..|s| - 1]);
    }
  }

  /** `a.compareTo(b) < 0`: the first differing character decides, else the shorter string is smaller. */
  predicate LexLess(a: string, b: string) {
    if a == [] then b != []
    else if b == [] then false
    else if a[0] != b[0] then a[0] < b[0]
    else LexLess(a[1..], b[1..])
  }

  lemma {:induction false} LexLessIrreflexive(a: string)
    ensures !LexLess(a, a)
  {
    if a != [] {
      LexLessIrreflexive(a[1..]);
    }
  }

  lemma {:induction false} LexLessTransitive(a: string, b: string, c: string)
    requires LexLess(a, b) && LexLess(b, c)
    ensures LexLess(a, c)
  {
    if a != [] && b != [] && c != [] && a[0] == b[0] && b[0] == c[0] {
      LexLessTransitive(a[1..], b[1..], c[1..]);
    }
  }

  lemma {:induction false} LexLessTotal(a: string, b: string)
    requires a != b
    ensures LexLess(a, b) || LexLess(b, a)
  {
    if a != [] && b != [] && a[0] == b[0] {
      assert a == [a[0]] + a[1..] && b == [b[0]] + b[1..];
      LexLessTotal(a[1..], b[1..]);
    }
  }

  lemma {:induction false} LexLessAsymmetric(a: string, b: string)
    requires LexLess(a, b)
    ensures !LexLess(b, a)
  {
    if LexLess(b, a) {
      LexLessTransitive(a, b, a);
      LexLessIrreflexive(a);
    }
  }
}
