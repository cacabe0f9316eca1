/** The integer conversions of Go's strconv package that the processors use:
    ParseUint and ParseInt with an explicit base of 2, 10 or 16 and a bit size of 64,
    Atoi, and FormatInt in base 10. Values are unbounded integers; the 64-bit limits are
    stated as constants and every range check is written out. */
module Numbers {

  import opened Wrappers
  import opened Text

  const MaxInt64: int := 0x7FFF_FFFF_FFFF_FFFF
  const MinInt64: int := -0x8000_0000_0000_0000
  const MaxUint64: int := 0xFFFF_FFFF_FFFF_FFFF

  /** The value of c as a digit (0-9, then a-z or A-Z as 10-35), or 36 for any other char. */
  function DigitValue(c: char): (d: nat)
    ensures d <= 36
    ensures d < 10 <==> IsDigit(c)
  {
    if IsDigit(c) then (c as int - '0' as int)
    else if IsLower(c) then (c as int - 'a' as int) + 10
    else if IsUpper(c) then (c as int - 'A' as int) + 10
    else 36
  }

  /** Every char of s is a digit of the base. */
  predicate AllDigits(s: string, base: nat)
  {
    forall k :: 0 <= k < |s| ==> DigitValue(s[k]) < base
  }

  /** The value of a digit string, most significant digit first. */
  function Value(s: string, base: nat): nat
    requires AllDigits(s, base)
  {
    if |s| == 0 then 0 else Value(s[..|s| - 1], base) * base + DigitValue(s[|s| - 1])
  }

  /** The outcome of strconv.ParseInt: a value, a range error carrying the clamped value
      that Go returns beside the error, or a syntax error (value 0). */
  datatype IntResult = Ok(v: int) | RangeErr(clamped: int) | SyntaxErr

  /** strconv.ParseUint(s, base, 64) for base 2, 10 or 16. */
  function ParseUint(s: string, base: nat): (r: Option<nat>)
    ensures r.Some? <==> |s| > 0 && AllDigits(s, base) && Value(s, base) <= MaxUint64
    ensures r.Some? ==> r.value == Value(s, base)
  {
    if |s| == 0 || !AllDigits(s, base) then None
    else if Value(s, base) > MaxUint64 then None
    else Some(Value(s, base))
  }

  /** strconv.ParseInt(s, base, 64): an optional sign, then a non-empty run of digits of
      the base, in the range of int64; outside it, the clamped value and a range error. */
  function ParseIntFull(s: string, base: nat): IntResult
  {
    var neg := |s| > 0 && s[0] == '-';
    var body := if |s| > 0 && (s[0] == '-' || s[0] == '+') then s[1..] else s;
    if |body| == 0 || !AllDigits(body, base) then SyntaxErr
    else
      var u: int := Value(body, base);
      if !neg && u > MaxInt64 then RangeErr(MaxInt64)
      else if neg && u > -MinInt64 then RangeErr(MinInt64)
      else
        Ok(if neg then -u else u)
  }

  /** strconv.ParseInt with the error mapped to None. */
  function ParseInt(s: string, base: nat): (r: Option<int>)
    ensures r.Some? ==> MinInt64 <= r.value <= MaxInt64
  {
    match ParseIntFull(s, base)
    case Ok(v) => Some(v)
    case _ => None
  }

  /** strconv.Atoi, keeping the value Go returns beside any error: the clamped bound on a
      range error and 0 on a syntax error. */
  function Atoi(s: string): (n: int)
    ensures MinInt64 <= n <= MaxInt64
  {
    match ParseIntFull(s, 10)
    case Ok(v) => v
    case RangeErr(c) => c
    case SyntaxErr => 0
  }

  /** The lower-case digit char of a value below 16. */
  function DigitChar(d: nat): (c: char)
    requires d < 16
    ensures DigitValue(c) == d
  {
    if d < 10 then ('0' as int + d) as char else ('a' as int + d - 10) as char
  }

  /** The digits of n in the base, most significant first, without leading zeros. */
  function FormatNat(n: nat, base: nat): (r: string)
    requires 2 <= base <= 16
    ensures |r| > 0 && AllDigits(r, base)
    ensures forall k :: 0 <= k < |r| ==> r[k] != '-' && r[k] != '+'
  {
    if n < base then [DigitChar(n)]
    else
      var q, d := n / base, n % base;
      DivShrinks(n, base);
      var p := FormatNat(q, base);
      assert DigitValue(DigitChar(d)) < base;
      var r := p + [DigitChar(d)];
      assert forall k :: 0 <= k < |p| ==> r[k] == p[k];
      r
  }

  lemma DivShrinks(n: nat, b: nat)
    requires 2 <= b <= n
    ensures n / b < n && n % b < b
    ensures (n / b) * b + n % b == n
  {
  }

  /** strconv.FormatInt(v, 10) */
  function FormatInt(v: int): (r: string)
    ensures |r| > 0
    ensures v < 0 <==> r[0] == '-'
  {
    if v < 0 then "-" + FormatNat(-v, 10) else FormatNat(v, 10)
  }

  /** Reading back the digits FormatNat writes gives the number. */
  lemma {:induction false} ValueOfFormat(n: nat, base: nat)
    requires 2 <= base <= 16
    ensures Value(FormatNat(n, base), base) == n
    decreases n
  {
    var r := FormatNat(n, base);
    if n >= base {
      var q, d := n / base, n % base;
      DivShrinks(n, base);
      var p := FormatNat(q, base);
      assert Value(r, base) == Value(p, base) * base + d by {
        assert r == p + [DigitChar(d)];
        assert r[..|r| - 1] == p;
      }
      ValueOfFormat(q, base);
    }
  }

  /** ParseInt accepts what FormatNat writes for every value of int64 or above 0. */
  lemma ParseFormatNat(n: nat, base: nat)
    requires 2 <= base <= 16
    requires n <= MaxInt64
    ensures ParseInt(FormatNat(n, base), base) == Some(n)
  {
    ValueOfFormat(n, base);
  }

  lemma ParseFormatNeg(v: int)
    requires MinInt64 <= v < 0
    ensures ParseIntFull(FormatInt(v), 10) == Ok(v)
  {
    var s := FormatInt(v);
    ValueOfFormat(-v, 10);
    assert s[1..] == FormatNat(-v, 10);
  }

  lemma ParseFormatNonNeg(v: int)
    requires 0 <= v <= MaxInt64
    ensures ParseIntFull(FormatInt(v), 10) == Ok(v)
  {
    ValueOfFormat(v, 10);
  }

  /** ParseInt in base 10 is the inverse of FormatInt over the whole int64 range. */
  lemma ParseFormatInt(v: int)
    requires MinInt64 <= v <= MaxInt64
    ensures ParseInt(FormatInt(v), 10) == Some(v)
    ensures Atoi(FormatInt(v)) == v
  {
    if v < 0 {
      ParseFormatNeg(v);
    } else {
      ParseFormatNonNeg(v);
    }
  }

  /** A string with a char that is neither a sign nor a digit of the base is refused,
      and so is the empty string and a lone sign. */
  lemma ParseIntRejects(s: string, base: nat)
    requires |s| == 0 || s == "-" || s == "+"
             || (exists k :: 1 <= k < |s| && DigitValue(s[k]) >= base)
             || (|s| > 0 && s[0] != '-' && s[0] != '+' && DigitValue(s[0]) >= base)
    ensures ParseIntFull(s, base) == SyntaxErr
  {
    if |s| > 0 && (exists k :: 1 <= k < |s| && DigitValue(s[k]) >= base) {
      var k :| 1 <= k < |s| && DigitValue(s[k]) >= base;
      if s[0] == '-' || s[0] == '+' {
        assert s[1..][k - 1] == s[k];
      } else {
        assert s[k] == s[k];
      }
    }
  }

  /** Atoi clamps: a digit string above the int64 range gives MaxInt64, with a minus sign MinInt64;
      so a count written with a minus sign is never positive. */
  lemma AtoiClamps(s: string)
    requires |s| > 0 && AllDigits(s, 10)
    ensures Value(s, 10) > MaxInt64 ==> Atoi(s) == MaxInt64
    ensures Value(s, 10) <= MaxInt64 ==> Atoi(s) == Value(s, 10)
    ensures Atoi("-" + s) <= 0
  {
    assert ("-" + s)[1..] == s;
  }
}
