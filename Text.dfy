/** String primitives the page relies on: ASCII `toLowerCase`, `includes`,
    `trim`, the decimal spelling of an integer, and the integer and decimal
    literals that an SQLite INTEGER column recognises. */
module Text {

  /** `toLowerCase` restricted to ASCII letters. */
  function LowerChar(c: char): (r: char)
    ensures ('A' <= c <= 'Z') ==> r as int == c as int + 32
    ensures !('A' <= c <= 'Z') ==> r == c
  {
    if 'A' <= c <= 'Z' then (c as int + 32) as char else c
  }

  function Lower(s: string): (r: string)
    ensures |r| == |s|
    ensures forall i :: 0 <= i < |s| ==> r[i] == LowerChar(s[i])
  {
    seq(|s|, i requires 0 <= i < |s| => LowerChar(s[i]))
  }

  /** Lowering a slice is slicing the lowered string. */
  lemma LowerSlice(s: string, i: nat, j: nat)
    requires i <= j <= |s|
    ensures Lower(s)[i..j] == Lower(s[i..j])
  {
  }

  /** `text.includes(term)`: `term` occurs in `text` at offset `i`. */
  predicate OccursAt(text: string, term: string, i: nat)
  {
    i + |term| <= |text| && text[i..i + |term|] == term
  }

  predicate Contains(text: string, term: string)
  {
    exists i: nat | i <= |text| :: OccursAt(text, term, i)
  }

  /** An occurrence anywhere in a suffix is an occurrence in the whole. */
  lemma ContainsTail(text: string, term: string)
    requires text != []
    ensures Contains(text, term) <==> OccursAt(text, term, 0) || Contains(text[1..], term)
  {
    if Contains(text, term) && !OccursAt(text, term, 0) {
      var i: nat :| i <= |text| && OccursAt(text, term, i);
      assert i >= 1;
      assert text[1..][i - 1..i - 1 + |term|] == text[i..i + |term|];
      assert OccursAt(text[1..], term, i - 1);
    }
    if Contains(text[1..], term) {
      var i: nat :| i <= |text[1..]| && OccursAt(text[1..], term, i);
      assert i + |term| <= |text| - 1;
      assert text[1..][i..i + |term|] == text[i + 1..i + 1 + |term|];
      assert OccursAt(text, term, i + 1);
    }
  }

  /** The characters `String.prototype.trim` removes: ECMAScript WhiteSpace
      and LineTerminator code points. */
  predicate IsWhitespace(c: char)
  {
    || '\t' <= c <= '\r' || c == ' ' || c == '\U{00A0}' || c == '\U{1680}'
    || '\U{2000}' <= c <= '\U{200A}' || c == '\U{2028}' || c == '\U{2029}'
    || c == '\U{202F}' || c == '\U{205F}' || c == '\U{3000}' || c == '\U{FEFF}'
  }

  predicate AllWhitespace(s: string)
  {
    forall i :: 0 <= i < |s| ==> IsWhitespace(s[i])
  }

  function TrimStart(s: string): (r: string)
    ensures |r| <= |s| && r == s[|s| - |r|..]
    ensures AllWhitespace(s[..|s| - |r|])
    ensures r == [] || !IsWhitespace(r[0])
  {
    if s != [] && IsWhitespace(s[0]) then TrimStart(s[1..]) else s
  }

  function TrimEnd(s: string): (r: string)
    ensures |r| <= |s| && r == s[..|r|]
    ensures AllWhitespace(s[|r|..])
    ensures r == [] || !IsWhitespace(r[|r| - 1])
  {
    if s != [] && IsWhitespace(s[|s| - 1]) then TrimEnd(s[..|s| - 1]) else s
  }

  /** `r` is a slice of `s` with only whitespace before and after it. */
  predicate SliceBetweenWhitespace(s: string, r: string)
  {
    exists a :: 0 <= a <= |s| - |r| && r == s[a..a + |r|]
      && AllWhitespace(s[..a]) && AllWhitespace(s[a + |r|..])
  }

  /** `String.prototype.trim`: the input with its leading and trailing
      whitespace removed. The result is a slice of the input between two
      all-whitespace ends, it is empty exactly when the input is all
      whitespace, and otherwise starts and ends with a non-whitespace
      character, so no more whitespace could be removed. */
  function Trim(s: string): (r: string)
    ensures SliceBetweenWhitespace(s, r)
    ensures r == [] <==> AllWhitespace(s)
    ensures r != [] ==> !IsWhitespace(r[0]) && !IsWhitespace(r[|r| - 1])
  {
    var t := TrimStart(s);
    var r := TrimEnd(t);
    TrimSlice(s, t, r);
    r
  }

  /** The ends that TrimStart and then TrimEnd cut off are whitespace, what
      is left is a slice of the input, and it is empty exactly when the input
      is all whitespace. */
  lemma TrimSlice(s: string, t: string, r: string)
    requires |t| <= |s| && t == s[|s| - |t|..] && AllWhitespace(s[..|s| - |t|])
    requires t == [] || !IsWhitespace(t[0])
    requires |r| <= |t| && r == t[..|r|] && AllWhitespace(t[|r|..])
    requires r == [] || !IsWhitespace(r[|r| - 1])
    ensures SliceBetweenWhitespace(s, r)
    ensures r == [] <==> AllWhitespace(s)
    ensures r != [] ==> !IsWhitespace(r[0]) && !IsWhitespace(r[|r| - 1])
  {
    var a := |s| - |t|;
    assert s[a + |r|..] == t[|r|..];
    assert r == s[a..a + |r|];
    if r == [] {
      assert s == s[..a] + t[|r|..];
    } else {
      assert r[0] == t[0] == s[a];
    }
  }

  /** Trimming twice is trimming once. */
  lemma TrimIdempotent(s: string)
    ensures Trim(Trim(s)) == Trim(s)
  {
  }

  predicate IsDigit(c: char)
  {
    '0' <= c <= '9'
  }

  predicate AllDigits(s: string)
  {
    forall i :: 0 <= i < |s| ==> IsDigit(s[i])
  }

  function DigitChar(d: nat): (c: char)
    requires d < 10
    ensures IsDigit(c) && c as int - '0' as int == d
  {
    ('0' as int + d) as char
  }

  /** Decimal spelling of a natural number, without leading zeros. */
  function NatDigits(n: nat): (r: string)
    ensures r != [] && AllDigits(r)
    ensures |r| > 1 ==> r[0] != '0'
    ensures r == "0" <==> n == 0
  {
    if n < 10 then [DigitChar(n)] else NatDigits(n / 10) + [DigitChar(n % 10)]
  }

  /** Value of a string of decimal digits, most significant first. */
  function DigitsValue(s: string): nat
    requires AllDigits(s)
  {
    if s == [] then 0
    else DigitsValue(s[..|s| - 1]) * 10 + (s[|s| - 1] as int - '0' as int)
  }

  lemma {:induction false} NatDigitsRoundTrip(n: nat)
    ensures DigitsValue(NatDigits(n)) == n
  {
    var r := NatDigits(n);
    if n >= 10 {
      NatDigitsRoundTrip(n / 10);
      assert r[..|r| - 1] == NatDigits(n / 10);
    }
  }

  /** How the JavaScript `Number` to string conversion and SQLite's integer to
      TEXT conversion spell an integer. */
  function DecimalString(n: int): (r: string)
    ensures r != []
  {
    if n < 0 then "-" + NatDigits(-n) else NatDigits(n)
  }

  /** The text an SQLite column of INTEGER affinity converts to an integer:
      an optional sign followed by at least one decimal digit. */
  predicate IsIntegerLiteral(s: string)
  {
    if s != [] && (s[0] == '+' || s[0] == '-') then |s| >= 2 && AllDigits(s[1..])
    else s != [] && AllDigits(s)
  }

  function ParseInteger(s: string): int
    requires IsIntegerLiteral(s)
  {
    if s[0] == '-' then 0 - DigitsValue(s[1..])
    else if s[0] == '+' then DigitsValue(s[1..])
    else DigitsValue(s)
  }

  /** The literal without its leading sign, if it has one. */
  function Unsigned(s: string): (u: string)
    ensures |u| <= |s|
  {
    if s != [] && (s[0] == '+' || s[0] == '-') then s[1..] else s
  }

  /** The position of the first decimal point, or the length when there is
      none. */
  function PointIndex(s: string): (d: nat)
    ensures d <= |s|
    ensures d < |s| ==> s[d] == '.'
    ensures forall i :: 0 <= i < d ==> s[i] != '.'
  {
    if s == [] || s[0] == '.' then 0 else 1 + PointIndex(s[1..])
  }

  /** A real literal without exponent, as SQLite reads one: an optional sign,
      then digits with one decimal point among them and at least one digit
      (`1.50`, `-.5`, `3.`). */
  predicate IsDecimalLiteral(s: string)
  {
    var u := Unsigned(s);
    var d := PointIndex(u);
    d < |u| && |u| >= 2 && AllDigits(u[..d]) && AllDigits(u[d + 1..])
  }

  /** After a run of digits, the first decimal point is the one that
      follows them. */
  lemma PointIndexAfterDigits(digits: string, rest: string)
    requires AllDigits(digits)
    ensures PointIndex(digits + "." + rest) == |digits|
  {
    var u := digits + "." + rest;
    assert u[|digits|] == '.';
    assert forall i :: 0 <= i < |digits| ==> u[i] == digits[i];
    assert forall i :: 0 <= i < |digits| ==> u[i] != '.';
    PointIndexFirst(u, |digits|);
  }

  /** PointIndex finds the first point. */
  lemma {:induction false} PointIndexFirst(s: string, d: nat)
    requires d < |s| && s[d] == '.'
    requires forall i :: 0 <= i < d ==> s[i] != '.'
    ensures PointIndex(s) == d
  {
    if d > 0 {
      PointIndexFirst(s[1..], d - 1);
    }
  }

  /** A sign written in front of a digit string is the only sign. */
  lemma SignedSpelling(negative: bool, u: string)
    requires u != [] && IsDigit(u[0])
    ensures var t := (if negative then "-" else "") + u;
      t != [] && Unsigned(t) == u && (t[0] == '-' <==> negative)
  {
    var t := (if negative then "-" else "") + u;
    if negative {
      assert t[1..] == u;
    } else {
      assert t[0] == u[0];
    }
  }

  /** Digits, a point and digits make a decimal literal, split at that
      point. */
  lemma PointedDigits(digits: string, fraction: string)
    requires digits != [] && AllDigits(digits) && AllDigits(fraction)
    ensures var u := digits + "." + fraction;
      && PointIndex(u) == |digits| && u[..|digits|] == digits && u[|digits| + 1..] == fraction
      && IsDecimalLiteral(u)
  {
    var u := digits + "." + fraction;
    PointIndexAfterDigits(digits, fraction);
    assert u[..|digits|] == digits;
    assert u[|digits| + 1..] == fraction;
    assert Unsigned(u) == u;
  }

  /** No integer literal is a decimal literal. */
  lemma IntegerNotDecimal(s: string)
    requires IsIntegerLiteral(s)
    ensures !IsDecimalLiteral(s)
  {
    var u := Unsigned(s);
    if PointIndex(u) < |u| {
      assert !IsDigit(u[PointIndex(u)]);
    }
  }

  /** Digits with the trailing zeros removed. */
  function StripTrailingZeros(s: string): (r: string)
    ensures |r| <= |s| && r == s[..|r|]
    ensures forall i :: |r| <= i < |s| ==> s[i] == '0'
    ensures r == [] || r[|r| - 1] != '0'
  {
    if s != [] && s[|s| - 1] == '0' then StripTrailingZeros(s[..|s| - 1]) else s
  }

  /** A number and its decimal spelling land in an INTEGER column as the same
      integer. */
  lemma DecimalRoundTrip(n: int)
    ensures IsIntegerLiteral(DecimalString(n))
    ensures ParseInteger(DecimalString(n)) == n
  {
    var s := DecimalString(n);
    if n < 0 {
      var digits := NatDigits(-n);
      assert s == "-" + digits;
      assert s[0] == '-' && s[1..] == digits;
      NatDigitsRoundTrip(-n);
    } else {
      var digits := NatDigits(n);
      assert s == digits;
      assert IsDigit(s[0]);
      NatDigitsRoundTrip(n);
    }
  }
}
