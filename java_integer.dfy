/**
 * `Integer.parseInt(s)` with radix 10, restricted to ASCII digits, and its
 * inverse on the 32-bit range.
 */
module JavaInteger {
  import opened Wrappers
  import opened JavaText

  const MinInt: int := -0x8000_0000
  const MaxInt: int := 0x7FFF_FFFF

  predicate InIntRange(v: int) {
    MinInt <= v <= MaxInt
  }

  function DigitValue(c: char): nat
    requires IsDigit(c)
  {
    c as int - '0' as int
  }

  function DigitChar(d: nat): (c: char)
    requires d < 10
    ensures IsDigit(c) && DigitValue(c) == d
  {
    ('0' as int + d) as char
  }

  /** The number written by the digits of `acc` followed by the digits `ds`. */
  function Extend(acc: nat, ds: string): nat
    requires AllDigits(ds)
    decreases |ds|
  {
    if ds == [] then acc else Extend(acc * 10 + DigitValue(ds[0]), ds[1..])
  }

  /** The value of a decimal numeral (leading zeros allowed). */
  function Value(ds: string): nat
    requires AllDigits(ds)
  {
    Extend(0, ds)
  }

  /** What `parseInt` accepts syntactically: an optional sign, then one or more digits. */
  predicate IsIntLiteral(s: string) {
    |s| > 0 && (if s[0] == '+' || s[0] == '-' then IsDigits(s[1..]) else IsDigits(s))
  }

  /** The mathematical value of a literal, with no range limit. */
  function LiteralValue(s: string): int
    requires IsIntLiteral(s)
  {
    if s[0] == '-' then -(Value(s[1..]) as int)
    else if s[0] == '+' then Value(s[1..])
    else Value(s)
  }

  lemma {:induction false} ExtendAtLeast(acc: nat, ds: string)
    requires AllDigits(ds)
    ensures Extend(acc, ds) >= acc
    decreases |ds|
  {
    if ds != [] {
      ExtendAtLeast(acc * 10 + DigitValue(ds[0]), ds[1..]);
    }
  }

  /**
   * Java's digit loop on the magnitude: it fails on a non-digit, and it fails
   * as soon as the partial magnitude passes `limit`, never computing a value
   * that does not fit.
   */
  function Accumulate(ds: string, acc: nat, limit: nat): (r: Option<nat>)
    requires acc <= limit
    ensures r.Some? <==> AllDigits(ds) && Extend(acc, ds) <= limit
    ensures r.Some? ==> r.value == Extend(acc, ds)
    decreases |ds|
  {
    if ds == [] then Some(acc)
    else if !IsDigit(ds[0]) then None
    else
      var next := acc * 10 + DigitValue(ds[0]);
      if next > limit then
        if AllDigits(ds[1..]) then ExtendAtLeast(next, ds[1..]); None else None
      else Accumulate(ds[1..], next, limit)
  }

  /**
   * `Integer.parseInt`: succeeds exactly on literals whose value fits in 32
   * bits, and then returns that value. Zero and negative numbers are accepted.
   */
  function ParseInt(s: string): (r: Option<int>)
    ensures r.Some? <==> IsIntLiteral(s) && InIntRange(LiteralValue(s))
    ensures r.Some? ==> r.value == LiteralValue(s)
  {
    if s == [] then None
    else
      var negative := s[0] == '-';
      var digits := if s[0] == '-' || s[0] == '+' then s[1..] else s;
      if digits == [] then None
      else
        match Accumulate(digits, 0, if negative then -MinInt else MaxInt)
        case None => None
        case Some(m) => Some(if negative then -(m as int) else m)
  }

  /** `Integer.toString` for a non-negative number. */
  function Decimal(n: nat): (s: string)
    ensures IsDigits(s)
  {
    if n < 10 then [DigitChar(n)] else Decimal(n / 10) + [DigitChar(n % 10)]
  }

  lemma {:induction false} ExtendAppend(acc: nat, a: string, b: string)
    requires AllDigits(a) && AllDigits(b)
    ensures AllDigits(a + b)
    ensures Extend(acc, a + b) == Extend(Extend(acc, a), b)
    decreases |a|
  {
    if a == [] {
      assert a + b == b;
    } else {
      assert (a + b)[0] == a[0];
      assert (a + b)[1..] == a[1..] + b;
      ExtendAppend(acc * 10 + DigitValue(a[0]), a[1..], b);
    }
  }

  lemma {:induction false} ValueOfDecimal(n: nat)
    ensures Value(Decimal(n)) == n
  {
    if n < 10 {
      var c := DigitChar(n);
      assert Decimal(n) == [c];
      assert Extend(0, [c]) == Extend(DigitValue(c), [c][1..]);
      assert [c][1..] == [];
    } else {
      var q, d := n / 10, DigitChar(n % 10);
      assert n == q * 10 + n % 10;
      assert Decimal(n) == Decimal(q) + [d];
      ValueOfDecimal(q);
      ExtendAppend(0, Decimal(q), [d]);
      assert Value(Decimal(n)) == Extend(q, [d]);
      assert Extend(q, [d]) == Extend(q * 10 + DigitValue(d), [d][1..]);
      assert [d][1..] == [];
    }
  }

  /** `Integer.toString`. */
  function IntToString(v: int): (s: string)
    ensures IsIntLiteral(s)
  {
    if v >= 0 then Decimal(v) else "-" + Decimal(-v)
  }

  /** Every 32-bit number is read back from its decimal form. */
  lemma ParseIntToString(v: int)
    requires InIntRange(v)
    ensures ParseInt(IntToString(v)) == Some(v)
  {
    if v >= 0 {
      ValueOfDecimal(v);
    } else {
      ValueOfDecimal(-v);
      assert ("-" + Decimal(-v))[1..] == Decimal(-v);
    }
  }

  /** A literal starts and ends with a char that `trim` keeps, and has no line terminator. */
  lemma IntLiteralShape(s: string)
    requires IsIntLiteral(s)
    ensures IsTrimmed(s) && SingleLine(s)
  {
    var ds := if s[0] == '+' || s[0] == '-' then s[1..] else s;
    assert forall i :: 0 <= i < |ds| ==> IsDigit(ds[i]);
    assert s[|s| - 1] == ds[|ds| - 1];
    forall i | 0 <= i < |s| ensures !IsLineTerminator(s[i]) {
      if ds != s && i > 0 { assert s[i] == ds[i - 1]; }
    }
  }
}
