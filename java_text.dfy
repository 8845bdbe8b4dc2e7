/**
 * The few pieces of java.lang behaviour the helpers rely on: String.trim,
 * the regular-expression class \s, Integer.parseInt (behind Integer.valueOf)
 * and Long.toString (behind String.format("%s", long)).
 */
module JavaText {
  import opened Wrappers

  const MinInt: int := -0x8000_0000
  const MaxInt: int := 0x7FFF_FFFF

  /** The values of a Java long, such as the result of System.nanoTime(). */
  type Long = x: int | -0x8000_0000_0000_0000 <= x < 0x8000_0000_0000_0000

  /** String.trim removes every leading and trailing char whose code is at most U+0020. */
  predicate IsTrimmable(c: char) {
    c <= ' '
  }

  /** The regular-expression class \s without UNICODE_CHARACTER_CLASS: [ \t\n\x0B\f\r]. */
  predicate IsRegexSpace(c: char) {
    c == ' ' || c == '\t' || c == '\n' || c as int == 0x0B || c as int == 0x0C || c == '\r'
  }

  predicate NoRegexSpace(s: string) {
    forall i :: 0 <= i < |s| ==> !IsRegexSpace(s[i])
  }

  predicate IsDigit(c: char) {
    '0' <= c <= '9'
  }

  predicate AllDigits(s: string) {
    forall i :: 0 <= i < |s| ==> IsDigit(s[i])
  }

  /** Drops the leading trimmable chars. */
  function TrimStart(s: string): (r: string)
    ensures |r| <= |s| && r == s[|s| - |r|..]
    ensures r == [] || !IsTrimmable(r[0])
    ensures forall i :: 0 <= i < |s| - |r| ==> IsTrimmable(s[i])
  {
    if s != [] && IsTrimmable(s[0]) then TrimStart(s[1..]) else s
  }

  /** Drops the trailing trimmable chars. */
  function TrimEnd(s: string): (r: string)
    ensures |r| <= |s| && r == s[..|r|]
    ensures r == [] || !IsTrimmable(r[|r| - 1])
    ensures forall i :: |r| <= i < |s| ==> IsTrimmable(s[i])
  {
    if s != [] && IsTrimmable(s[|s| - 1]) then TrimEnd(s[..|s| - 1]) else s
  }

  /** Where String.trim starts: the number of leading trimmable chars. */
  function TrimOffset(s: string): (a: nat)
    ensures a <= |s|
  {
    |s| - |TrimStart(s)|
  }

  /**
   * String.trim: the slice of s between its first and its last char above
   * U+0020, or the empty string when there is no such char.
   */
  function Trim(s: string): (r: string)
    ensures TrimOffset(s) + |r| <= |s| && r == s[TrimOffset(s)..TrimOffset(s) + |r|]
    ensures forall i :: 0 <= i < TrimOffset(s) ==> IsTrimmable(s[i])
    ensures forall i :: TrimOffset(s) + |r| <= i < |s| ==> IsTrimmable(s[i])
    ensures r == [] || (!IsTrimmable(r[0]) && !IsTrimmable(r[|r| - 1]))
  {
    var t := TrimStart(s);
    var r := TrimEnd(t);
    assert forall i :: TrimOffset(s) + |r| <= i < |s| ==> s[i] == t[i - TrimOffset(s)];
    r
  }

  /** A char outside the Basic Multilingual Plane, which UTF-16 stores as a surrogate pair. */
  predicate IsSupplementary(c: char) {
    c as int >= 0x10000
  }

  /** The UTF-16 code units of one char. */
  function CodeUnits(c: char): nat {
    if IsSupplementary(c) then 2 else 1
  }

  /** String.length(): the number of UTF-16 code units, one or two per char. */
  function Utf16Length(s: string): (n: nat)
    ensures |s| <= n <= 2 * |s|
    ensures n == |s| <==> forall i :: 0 <= i < |s| ==> !IsSupplementary(s[i])
  {
    if s == [] then 0
    else
      var rest := Utf16Length(s[1..]);
      assert forall i :: 1 <= i < |s| ==> s[i] == s[1..][i - 1];
      CodeUnits(s[0]) + rest
  }

  /** trim().length() > 0 exactly when s holds a char above U+0020. */
  lemma {:induction false} TrimLengthPositive(s: string)
    ensures Utf16Length(Trim(s)) > 0 <==> exists i :: 0 <= i < |s| && !IsTrimmable(s[i])
  {
    var r, a := Trim(s), TrimOffset(s);
    if |r| > 0 {
      assert s[a] == r[0];
    }
  }

  /**
   * trim().length() > 1 exactly when s holds two UTF-16 code units above
   * U+0020: two chars above U+0020, or one char outside the Basic
   * Multilingual Plane (both its surrogates lie above U+0020).
   */
  lemma {:induction false} TrimLengthAboveOne(s: string)
    ensures Utf16Length(Trim(s)) > 1 <==>
      (exists i, j :: 0 <= i < j < |s| && !IsTrimmable(s[i]) && !IsTrimmable(s[j])) ||
      (exists i :: 0 <= i < |s| && IsSupplementary(s[i]))
  {
    var r, a := Trim(s), TrimOffset(s);
    if |r| > 1 {
      assert s[a] == r[0] && s[a + |r| - 1] == r[|r| - 1];
    } else if |r| == 1 {
      assert r[1..] == [];
      assert Utf16Length(r) == CodeUnits(s[a]);
      if IsSupplementary(s[a]) {
        assert 0 <= a < |s|;
      }
    }
  }

  /* ---- Decimal text of integers ---- */

  function DigitChar(d: nat): (c: char)
    requires d < 10
    ensures IsDigit(c) && c as int - '0' as int == d
  {
    ('0' as int + d) as char
  }

  /** The value of a string of ASCII decimal digits, most significant first. */
  function DigitsValue(s: string): nat
    requires AllDigits(s)
  {
    if s == [] then 0 else DigitsValue(s[..|s| - 1]) * 10 + (s[|s| - 1] as int - '0' as int)
  }

  /** Decimal text of a natural number without leading zeros. */
  function NatToString(n: nat): (r: string)
    ensures |r| >= 1 && AllDigits(r)
    ensures |r| > 1 ==> r[0] != '0'
  {
    if n < 10 then [DigitChar(n)] else NatToString(n / 10) + [DigitChar(n % 10)]
  }

  /** Long.toString / Integer.toString: an optional minus sign and the decimal digits. */
  function IntToString(n: int): (r: string)
    ensures |r| >= 1 && NoRegexSpace(r)
    ensures (n < 0) == (r[0] == '-')
    ensures n < 0 ==> AllDigits(r[1..])
    ensures n >= 0 ==> AllDigits(r)
  {
    if n < 0 then "-" + NatToString(-n) else NatToString(n)
  }

  /** Keeps v only if it is a Java int. */
  function AsInt(v: int): (r: Option<int>)
    ensures r.Some? <==> MinInt <= v <= MaxInt
    ensures r.Some? ==> r.value == v
  {
    if MinInt <= v <= MaxInt then Some(v) else None
  }

  /**
   * Integer.parseInt(s, 10), None standing for NumberFormatException: an
   * optional '+' or '-', then one or more decimal digits, the value within
   * the range of int.
   */
  function ParseInt(s: string): (r: Option<int>)
    ensures r.Some? ==> MinInt <= r.value <= MaxInt
    ensures r.Some? ==> |s| >= 1 && (IsDigit(s[0]) || s[0] == '+' || s[0] == '-')
    ensures r.Some? ==> forall i :: 1 <= i < |s| ==> IsDigit(s[i])
  {
    if |s| == 0 then None
    else if s[0] == '-' || s[0] == '+' then
      if |s| == 1 || !AllDigits(s[1..]) then None
      else if s[0] == '-' then AsInt(-(DigitsValue(s[1..]) as int))
      else AsInt(DigitsValue(s[1..]))
    else if AllDigits(s) then AsInt(DigitsValue(s))
    else None
  }

  lemma {:induction false} DigitsOfNat(n: nat)
    ensures DigitsValue(NatToString(n)) == n
  {
    var s := NatToString(n);
    if n >= 10 {
      DigitsOfNat(n / 10);
      assert s[..|s| - 1] == NatToString(n / 10);
    }
  }

  /** Integer.parseInt inverts Integer.toString on every int. */
  lemma ParseIntToString(n: int)
    requires MinInt <= n <= MaxInt
    ensures ParseInt(IntToString(n)) == Some(n)
  {
    var s := IntToString(n);
    if n < 0 {
      DigitsOfNat(-n);
      assert s[1..] == NatToString(-n);
    } else {
      DigitsOfNat(n);
    }
  }

  /** Distinct numbers have distinct decimal text, so a nonce keeps its identity in a string. */
  lemma IntToStringInjective(m: int, n: int)
    requires IntToString(m) == IntToString(n)
    ensures m == n
  {
    if m < 0 && n < 0 {
      assert IntToString(m)[1..] == NatToString(-m);
      assert IntToString(n)[1..] == NatToString(-n);
      DigitsOfNat(-m);
      DigitsOfNat(-n);
    } else if m >= 0 && n >= 0 {
      DigitsOfNat(m);
      DigitsOfNat(n);
    }
  }
}
