/** nx_snmp_object_compare: how the SNMP agent orders object identifiers written as text, and how
    far that is the lexicographic order of RFC 3416. The code reads the first differing digit twice
    and computes modulo 2^32. */
module SnmpCompare {
  import opened Common

  datatype Status = Success | NextEntry | Error | SizeError

  const MAX_STRING_LENGTH := 1024

  // ----- the code, on the text that is left of each name -----

  /** value * 10 + digit in UINT arithmetic. */
  function Accumulate(v: int, ch: char): nat {
    (v * 10 + (ch as int - '0' as int)) % UINT_SIZE
  }

  function AfterChar(v: int, ch: char): nat {
    if ch == '.' then 0 else Accumulate(v, ch)
  }

  /** The value of the rest of a component. */
  function Remainder(s: string, v: int): int {
    if s == [] || s[0] == '.' then v else Remainder(s[1..], Accumulate(v, s[0]))
  }

  /** The tests after the scan. */
  function Verdict(r: string, a: string): Status {
    if a == [] then Success else if r == [] then NextEntry else Error
  }

  function Scan(r: string, a: string, rv: int, av: int): Status {
    if r == [] || a == [] then Verdict(r, a)
    else
      var rv', av' := AfterChar(rv, r[0]), AfterChar(av, a[0]);
      if r[0] == a[0] then Scan(r[1..], a[1..], rv', av')
      else if Remainder(r, rv') < Remainder(a, av') then NextEntry
      else Verdict(r, a)
  }

  function Compare(r: string, a: string): Status {
    if |r| > MAX_STRING_LENGTH || |a| > MAX_STRING_LENGTH then SizeError else Scan(r, a, 0, 0)
  }

  /** The value of a component from position i on. */
  method FinishComponent(s: string, i: nat, v: int) returns (value: int)
    requires i <= |s|
    ensures value == Remainder(s[i..], v)
  {
    var j := i;
    value := v;
    while j < |s| && s[j] != '.'
      invariant i <= j <= |s|
      invariant Remainder(s[j..], value) == Remainder(s[i..], v)
    {
      value := (value * 10 + (s[j] as int - '0' as int)) % UINT_SIZE;
      j := j + 1;
    }
  }

  method ObjectCompare(requested: string, actual: string) returns (status: Status)
    ensures status == Compare(requested, actual)
  {
    if |requested| > MAX_STRING_LENGTH || |actual| > MAX_STRING_LENGTH {
      return SizeError;
    }
    var i, requestValue, actualValue := 0, 0, 0;
    while i < |requested| && i < |actual|
      invariant i <= |requested| && i <= |actual|
      invariant Scan(requested[i..], actual[i..], requestValue, actualValue) == Scan(requested, actual, 0, 0)
    {
      requestValue := if requested[i] == '.' then 0 else Accumulate(requestValue, requested[i]);
      actualValue := if actual[i] == '.' then 0 else Accumulate(actualValue, actual[i]);
      if requested[i] != actual[i] {
        requestValue := FinishComponent(requested, i, requestValue);
        actualValue := FinishComponent(actual, i, actualValue);
        if requestValue < actualValue {
          return NextEntry;
        }
        break;
      }
      i := i + 1;
    }
    if i == |actual| {
      return Success;
    }
    if i == |requested| {
      return NextEntry;
    }
    return Error;
  }

  // ----- object identifiers and their text -----

  type Oid = p: seq<nat> | |p| > 0 witness [0]

  /** Lexicographic order: the first difference decides, and a prefix comes first. */
  predicate Less(p: seq<nat>, q: seq<nat>) {
    q != [] && (p == [] || p[0] < q[0] || (p[0] == q[0] && Less(p[1..], q[1..])))
  }

  function Digit(n: nat): char
    requires n < 10
  {
    ('0' as int + n) as char
  }

  function Decimal(n: nat): string {
    if n < 10 then [Digit(n)] else Decimal(n / 10) + [Digit(n % 10)]
  }

  /** The components in decimal, separated by dots. */
  function Text(p: Oid): string
    decreases |p|, 1
  {
    Decimal(p[0]) + Rest(p)
  }

  /** What follows the first component. */
  function Rest(p: Oid): string
    decreases |p|, 0
  {
    if |p| == 1 then "" else "." + Text(p[1..])
  }

  // ----- digit strings -----

  predicate Digits(s: string) {
    forall i :: 0 <= i < |s| ==> '0' <= s[i] <= '9'
  }

  /** Decimal notation without superfluous leading zeros. */
  predicate Canonical(s: string) {
    |s| > 0 && Digits(s) && (|s| > 1 ==> s[0] != '0')
  }

  function DigitValue(ch: char): int {
    ch as int - '0' as int
  }

  function Value(s: string): int {
    if s == [] then 0 else Value(s[..|s| - 1]) * 10 + DigitValue(s[|s| - 1])
  }

  function Pow10(n: nat): nat {
    if n == 0 then 1 else 10 * Pow10(n - 1)
  }

  lemma DecimalIsCanonical(n: nat)
    ensures Canonical(Decimal(n)) && Value(Decimal(n)) == n
    ensures n > 0 ==> Decimal(n)[0] != '0'
  {
    if n < 10 {
      assert [Digit(n)][..0] == [];
    } else {
      DecimalIsCanonical(n / 10);
      assert Decimal(n)[..|Decimal(n)| - 1] == Decimal(n / 10);
    }
  }

  lemma ShiftByTen(x: int, p: nat, y: int)
    ensures (x * p + y) * 10 == x * (10 * p) + y * 10
  {
  }

  lemma {:induction false} ValueOfConcat(s: string, t: string)
    ensures Value(s + t) == Value(s) * Pow10(|t|) + Value(t)
  {
    if t == [] {
      assert s + t == s;
    } else {
      var u := t[..|t| - 1];
      ValueOfConcat(s, u);
      assert (s + t)[..|s + t| - 1] == s + u;
      ShiftByTen(Value(s), Pow10(|u|), Value(u));
    }
  }

  lemma ValueBound(s: string)
    requires Digits(s)
    ensures 0 <= Value(s) < Pow10(|s|)
  {
    if s != [] {
      ValueBound(s[..|s| - 1]);
    }
  }

  /** The first digit fixes the value up to the digits after it. */
  lemma LeadingDigit(s: string)
    requires Digits(s) && s != []
    ensures DigitValue(s[0]) * Pow10(|s| - 1) <= Value(s) < (DigitValue(s[0]) + 1) * Pow10(|s| - 1)
  {
    ValueOfConcat(s[..1], s[1..]);
    assert s[..1] + s[1..] == s;
    assert s[..1][..0] == [];
    assert Value(s[..1]) == DigitValue(s[0]);
    ValueBound(s[1..]);
    assert (DigitValue(s[0]) + 1) * Pow10(|s| - 1) == DigitValue(s[0]) * Pow10(|s| - 1) + Pow10(|s| - 1);
  }

  lemma Pow10Monotone(m: nat, n: nat)
    requires m <= n
    ensures Pow10(m) <= Pow10(n)
  {
    if m < n {
      Pow10Monotone(m, n - 1);
    }
  }

  lemma MultipliesMonotone(x: int, y: int, p: nat)
    requires x <= y
    ensures x * p <= y * p
  {
  }

  lemma LongIsLarge(s: string, n: nat)
    requires Digits(s) && |s| > n && s[0] != '0'
    ensures Value(s) >= Pow10(n)
  {
    LeadingDigit(s);
    MultipliesMonotone(1, DigitValue(s[0]), Pow10(|s| - 1));
    Pow10Monotone(n, |s| - 1);
  }

  lemma LongerIsLarger(s: string, t: string)
    requires Digits(s) && Digits(t) && |s| < |t| && t[0] != '0'
    ensures Value(s) < Value(t)
  {
    ValueBound(s);
    LongIsLarge(t, |s|);
  }

  lemma LargerDigitDecides(s: string, t: string)
    requires Digits(s) && Digits(t) && |s| == |t| > 0 && s[0] < t[0]
    ensures Value(s) < Value(t)
  {
    LeadingDigit(s);
    LeadingDigit(t);
    MultipliesMonotone(DigitValue(s[0]) + 1, DigitValue(t[0]), Pow10(|s| - 1));
  }

  lemma FirstDifferenceDecides(m: string, s: string, t: string)
    requires Digits(m) && Digits(s) && Digits(t) && |s| == |t| > 0 && s[0] < t[0]
    ensures Value(m + s) < Value(m + t)
  {
    LargerDigitDecides(s, t);
    ValueOfConcat(m, s);
    ValueOfConcat(m, t);
  }

  lemma DigitsOfParts(m: string, s: string)
    requires Digits(m + s) && s != []
    ensures Digits(m) && Digits(s) && Digits(s[..1] + s)
    ensures m + s[..1] + s == m + (s[..1] + s) && Digits(m + s[..1] + s)
  {
    assert forall i :: 0 <= i < |m| ==> m[i] == (m + s)[i];
    assert forall i :: 0 <= i < |s| ==> s[i] == (m + s)[|m| + i];
  }

  /** Two numbers that differ first where s and t begin, and the same with that digit doubled. */
  lemma DoublingKeepsOrder(m: string, s: string, t: string)
    requires s != [] && t != [] && s[0] != t[0] && Canonical(m + s) && Canonical(m + t)
    ensures Digits(m + s[..1] + s) && Digits(m + t[..1] + t)
    ensures Value(m + s) < Value(m + t) <==> Value(m + s[..1] + s) < Value(m + t[..1] + t)
  {
    DigitsOfParts(m, s);
    DigitsOfParts(m, t);
    if |s| < |t| {
      DoublingKeepsLonger(m, s, t);
    } else if |t| < |s| {
      DoublingKeepsLonger(m, t, s);
    } else if s[0] < t[0] {
      DoublingKeepsDigit(m, s, t);
    } else {
      DoublingKeepsDigit(m, t, s);
    }
  }

  lemma DoublingKeepsDigit(m: string, s: string, t: string)
    requires |s| == |t| > 0 && s[0] < t[0] && Digits(m + s) && Digits(m + t)
    ensures Value(m + s) < Value(m + t) && Value(m + s[..1] + s) < Value(m + t[..1] + t)
  {
    DigitsOfParts(m, s);
    DigitsOfParts(m, t);
    FirstDifferenceDecides(m, s, t);
    FirstDifferenceDecides(m, s[..1] + s, t[..1] + t);
  }

  lemma DoublingKeepsLonger(m: string, s: string, t: string)
    requires Digits(m) && Digits(s) && Digits(t) && 0 < |s| < |t| && Canonical(m + t)
    ensures Value(m + s) < Value(m + t) && Value(m + s[..1] + s) < Value(m + t[..1] + t)
  {
    LongerIsLarger(m + s, m + t);
    LongerIsLarger(m + s[..1] + s, m + t[..1] + t);
  }

  /** Below 400000000 a doubled digit still leaves the value inside a UINT. */
  const LIMIT := 400_000_000

  lemma DoublingFits(m: string, s: string)
    requires s != [] && Canonical(m + s) && Value(m + s) < LIMIT
    ensures Digits(m + s[..1] + s) && 0 <= Value(m + s[..1] + s) < UINT_SIZE
  {
    var n, d := m + s, m + s[..1] + s;
    DigitsOfParts(m, s);
    ValueBound(d);
    assert |n| <= 9 by {
      PowersOfTen();
      if |n| > 9 {
        LongIsLarge(n, 9);
      }
    }
    if |n| == 9 {
      assert d[0] == n[0];
      NineDigits(n, d);
    } else {
      Pow10Monotone(|d|, 9);
      PowersOfTen();
    }
  }

  lemma NineDigits(n: string, d: string)
    requires Digits(n) && Digits(d) && |n| == 9 && |d| == 10 && n[0] == d[0] && Value(n) < LIMIT
    ensures Value(d) < UINT_SIZE
  {
    PowersOfTen();
    LeadingDigit(n);
    LeadingDigit(d);
  }

  lemma PowersOfTen()
    ensures Pow10(8) == 100_000_000 && Pow10(9) == 1_000_000_000
  {
    assert Pow10(2) == 100;
    assert Pow10(4) == 10_000;
    assert Pow10(6) == 1_000_000;
    assert Pow10(8) == 100_000_000;
  }
}
