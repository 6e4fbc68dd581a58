/** nx_snmp_object_compare against the lexicographic order of object identifiers. */
module SnmpOrder {
  import opened Common
  import opened SnmpCompare

  function Accumulated(v: int, d: string): int
    decreases d
  {
    if d == [] then v else Accumulated(Accumulate(v, d[0]), d[1..])
  }

  lemma ModStep(x: int, y: int)
    ensures ((x % UINT_SIZE) * 10 + y) % UINT_SIZE == (x * 10 + y) % UINT_SIZE
  {
    var q := x / UINT_SIZE;
    assert x * 10 + y == (x % UINT_SIZE) * 10 + y + (10 * q) * UINT_SIZE;
  }

  lemma AccumulateIsValue(v: int, m: string, ch: char)
    requires v == Value(m) % UINT_SIZE
    ensures Accumulate(v, ch) == Value(m + [ch]) % UINT_SIZE
  {
    ModStep(Value(m), DigitValue(ch));
    assert (m + [ch])[..|m|] == m;
  }

  /** Accumulating digits computes their value modulo 2^32. */
  lemma AccumulatedIsValue(v: int, m: string, d: string)
    requires v == Value(m) % UINT_SIZE
    ensures Accumulated(v, d) == Value(m + d) % UINT_SIZE
    decreases d
  {
    if d == [] {
      assert m + d == m;
    } else {
      AccumulateIsValue(v, m, d[0]);
      AccumulatedIsValue(Accumulate(v, d[0]), m + [d[0]], d[1..]);
      assert m + [d[0]] + d[1..] == m + d;
    }
  }

  lemma RemainderOfDigits(d: string, rest: string, v: int)
    requires Digits(d) && (rest == [] || rest[0] == '.')
    ensures Remainder(d + rest, v) == Accumulated(v, d)
  {
    if d == [] {
      assert d + rest == rest;
    } else {
      assert (d + rest)[1..] == d[1..] + rest;
      RemainderOfDigits(d[1..], rest, Accumulate(v, d[0]));
    }
  }

  lemma ScanCommonDigits(d: string, r: string, a: string, v: int)
    requires Digits(d)
    ensures Scan(d + r, d + a, v, v) == Scan(r, a, Accumulated(v, d), Accumulated(v, d))
  {
    if d == [] {
      assert d + r == r && d + a == a;
    } else {
      assert (d + r)[1..] == d[1..] + r && (d + a)[1..] == d[1..] + a;
      ScanCommonDigits(d[1..], r, a, Accumulate(v, d[0]));
    }
  }

  function CommonPrefix(s: string, t: string): (n: nat)
    ensures n <= |s| && n <= |t| && s[..n] == t[..n]
    ensures n < |s| && n < |t| ==> s[n] != t[n]
  {
    if s == [] || t == [] || s[0] != t[0] then 0
    else
      var n := CommonPrefix(s[1..], t[1..]);
      assert s[..n + 1] == [s[0]] + s[1..][..n];
      assert t[..n + 1] == [t[0]] + t[1..][..n];
      n + 1
  }

  predicate Below(p: seq<nat>, bound: nat) {
    forall i :: 0 <= i < |p| ==> p[i] < bound
  }

  /** What is left of a name after some digits of a component. */
  predicate Follows(rest: string) {
    rest == [] || rest[0] == '.'
  }

  /** The value the code compares once a component differs: the digit at the difference is counted twice. */
  lemma DoubledModulo(m: string, s: string, rest: string)
    requires s != [] && Digits(s) && Follows(rest)
    ensures Remainder(s + rest, Accumulate(Accumulated(0, m), s[0])) == Value(m + s[..1] + s) % UINT_SIZE
  {
    AccumulatedIsValue(0, [], m);
    assert [] + m == m;
    AccumulateIsValue(Accumulated(0, m), m, s[0]);
    assert [s[0]] == s[..1];
    DoubledFrom(Accumulate(Accumulated(0, m), s[0]), m + s[..1], s, rest);
  }

  lemma DoubledFrom(v: int, m: string, s: string, rest: string)
    requires v == Value(m) % UINT_SIZE && Digits(s) && Follows(rest)
    ensures Remainder(s + rest, v) == Value(m + s) % UINT_SIZE
  {
    RemainderOfDigits(s, rest, v);
    AccumulatedIsValue(v, m, s);
  }

  lemma DoubledValue(m: string, s: string, rest: string)
    requires s != [] && Canonical(m + s) && Value(m + s) < LIMIT && Follows(rest)
    ensures Remainder(s + rest, Accumulate(Accumulated(0, m), s[0])) == Value(m + s[..1] + s)
  {
    DigitsOfParts(m, s);
    DoubledModulo(m, s, rest);
    DoublingFits(m, s);
  }

  /** Two components that differ are ordered by value, whatever follows them. */
  lemma ComponentsOrdered(d: string, e: string, r: string, a: string)
    requires Canonical(d) && Canonical(e) && d != e
    requires Value(d) < LIMIT && Value(e) < LIMIT && Follows(r) && Follows(a)
    ensures Scan(d + r, e + a, 0, 0) == NextEntry <==> Value(d) < Value(e)
  {
    var m, s, t := SplitAtDifference(d, e);
    if s == [] {
      PrefixOrdered(d, t, r, a);
    } else if t == [] {
      ExtensionOrdered(e, s, r, a);
    } else {
      DigitOrdered(m, s, t, r, a);
    }
  }

  lemma SplitAtDifference(d: string, e: string) returns (m: string, s: string, t: string)
    requires d != e
    ensures d == m + s && e == m + t && (s != [] || t != [])
    ensures s == [] ==> e == d + t
    ensures t == [] ==> d == e + s
    ensures s != [] && t != [] ==> s[0] != t[0]
  {
    var n := CommonPrefix(d, e);
    m, s, t := d[..n], d[n..], e[n..];
  }

  lemma DigitOrdered(m: string, s: string, t: string, r: string, a: string)
    requires s != [] && t != [] && s[0] != t[0] && Canonical(m + s) && Canonical(m + t)
    requires Value(m + s) < LIMIT && Value(m + t) < LIMIT && Follows(r) && Follows(a)
    ensures Scan(m + s + r, m + t + a, 0, 0) == NextEntry <==> Value(m + s) < Value(m + t)
  {
    DigitsOfParts(m, s);
    ScanFromDifference(m, s, t, r, a);
    DifferingScans(m, s, t, r, a);
  }

  lemma PrefixOrdered(d: string, t: string, r: string, a: string)
    requires t != [] && Canonical(d) && Canonical(d + t) && Value(d + t) < LIMIT && Follows(r) && Follows(a)
    ensures Scan(d + r, d + t + a, 0, 0) == NextEntry && Value(d) < Value(d + t)
  {
    ScanFromDifference(d, [], t, r, a);
    assert d + [] + r == d + r;
    ShorterScans(d, t, r, a);
  }

  lemma ExtensionOrdered(e: string, s: string, r: string, a: string)
    requires s != [] && Canonical(e) && Canonical(e + s) && Value(e + s) < LIMIT && Follows(r) && Follows(a)
    ensures Scan(e + s + r, e + a, 0, 0) != NextEntry && Value(e) < Value(e + s)
  {
    ScanFromDifference(e, s, [], r, a);
    assert e + [] + a == e + a;
    LongerScans(e, s, r, a);
  }

  lemma ScanFromDifference(m: string, s: string, t: string, r: string, a: string)
    requires Digits(m)
    ensures Scan(m + s + r, m + t + a, 0, 0) == Scan(s + r, t + a, Accumulated(0, m), Accumulated(0, m))
  {
    assert m + s + r == m + (s + r) && m + t + a == m + (t + a);
    ScanCommonDigits(m, s + r, t + a, 0);
  }

  /** The components differ in a digit. */
  lemma DifferingScans(m: string, s: string, t: string, r: string, a: string)
    requires s != [] && t != [] && s[0] != t[0] && Canonical(m + s) && Canonical(m + t)
    requires Value(m + s) < LIMIT && Value(m + t) < LIMIT && Follows(r) && Follows(a)
    ensures Scan(s + r, t + a, Accumulated(0, m), Accumulated(0, m)) == NextEntry <==> Value(m + s) < Value(m + t)
  {
    DoubledValue(m, s, r);
    DoubledValue(m, t, a);
    DoublingKeepsOrder(m, s, t);
    assert (m + s)[|m|] == s[0] && (m + t)[|m|] == t[0];
  }

  /** The requested component is a proper prefix of the actual one. */
  lemma ShorterScans(m: string, t: string, r: string, a: string)
    requires t != [] && Canonical(m) && Canonical(m + t) && Value(m + t) < LIMIT && Follows(r) && Follows(a)
    ensures Value(m) < Value(m + t)
    ensures Scan([] + r, t + a, Accumulated(0, m), Accumulated(0, m)) == NextEntry
  {
    LongerIsLarger(m, m + t);
    assert [] + r == r;
    if r != [] {
      DoubledValue(m, t, a);
      DoubledIsPositive(m, t);
      assert '0' <= (m + t)[|m|] == t[0];
    }
  }

  /** The actual component is a proper prefix of the requested one. */
  lemma LongerScans(m: string, s: string, r: string, a: string)
    requires s != [] && Canonical(m) && Canonical(m + s) && Value(m + s) < LIMIT && Follows(r) && Follows(a)
    ensures Value(m) < Value(m + s)
    ensures Scan(s + r, [] + a, Accumulated(0, m), Accumulated(0, m)) != NextEntry
  {
    LongerIsLarger(m, m + s);
    assert [] + a == a;
    if a != [] {
      DoubledValue(m, s, r);
      DoubledIsPositive(m, s);
      assert '0' <= (m + s)[|m|] == s[0];
    }
  }

  lemma DoubledIsPositive(m: string, s: string)
    requires m != [] && s != [] && Canonical(m + s)
    ensures Digits(m + s[..1] + s) && Value(m + s[..1] + s) > 0
  {
    var n, d := m + s, m + s[..1] + s;
    DigitsOfParts(m, s);
    assert d[0] == n[0];
    LongIsLarge(d, 0);
  }

  /** The scan is the lexicographic order. */
  lemma {:induction false} ScanIsLess(p: Oid, q: Oid)
    requires Below(p, LIMIT) && Below(q, LIMIT)
    ensures Scan(Text(p), Text(q), 0, 0) == NextEntry <==> Less(p, q)
    decreases |p|
  {
    DecimalIsCanonical(p[0]);
    DecimalIsCanonical(q[0]);
    var d, e, r, a := Decimal(p[0]), Decimal(q[0]), Rest(p), Rest(q);
    if p[0] != q[0] {
      ComponentsOrdered(d, e, r, a);
    } else {
      ScanCommonDigits(d, r, a, 0);
      if |p| > 1 && |q| > 1 {
        assert r[1..] == Text(p[1..]) && a[1..] == Text(q[1..]);
        ScanIsLess(p[1..], q[1..]);
      }
    }
  }

  /** Names the comparison accepts: components below the bound, text within the agent's limit. */
  predicate Comparable(p: Oid, bound: nat) {
    Below(p, bound) && |Text(p)| <= MAX_STRING_LENGTH
  }

  /** nx_snmp_object_compare answers "next entry" exactly when the requested identifier comes before
      the actual one in lexicographic order, for components below 400000000. */
  lemma CompareIsLexicographic(p: Oid, q: Oid)
    requires Comparable(p, LIMIT) && Comparable(q, LIMIT)
    ensures Compare(Text(p), Text(q)) == NextEntry <==> Less(p, q)
  {
    ScanIsLess(p, q);
  }

  /** It answers "success" exactly when the actual name, as text, is a prefix of the requested one. */
  lemma {:induction false} ScanSuccess(r: string, a: string, rv: int, av: int)
    ensures Scan(r, a, rv, av) == Success <==> a <= r
  {
    if r != [] && a != [] && r[0] == a[0] {
      ScanSuccess(r[1..], a[1..], AfterChar(rv, r[0]), AfterChar(av, a[0]));
      assert a <= r <==> a[1..] <= r[1..] by {
        assert a == [a[0]] + a[1..] && r == [r[0]] + r[1..];
      }
    }
  }

  /** So a request for 1.3.6.1.71 is answered with "success" by the entry 1.3.6.1.7. */
  lemma SuccessOnPrefix()
    ensures Compare("1.3.6.1.71", "1.3.6.1.7") == Success
  {
    ScanSuccess("1.3.6.1.71", "1.3.6.1.7", 0, 0);
  }

  lemma LessIsTransitive(p: seq<nat>, q: seq<nat>, s: seq<nat>)
    requires Less(p, q) && Less(q, s)
    ensures Less(p, s)
  {
  }

  lemma LessIsTotal(p: seq<nat>, q: seq<nat>)
    ensures Less(p, q) || p == q || Less(q, p)
    ensures !(Less(p, q) && Less(q, p)) && !Less(p, p)
  {
    if p != [] && q != [] && p[0] == q[0] {
      LessIsTotal(p[1..], q[1..]);
      assert p == [p[0]] + p[1..] && q == [q[0]] + q[1..];
    }
  }

  lemma {:induction false} ScanNeverRefuses(r: string, a: string, rv: int, av: int)
    ensures Scan(r, a, rv, av) != SizeError
  {
    if r != [] && a != [] && r[0] == a[0] {
      ScanNeverRefuses(r[1..], a[1..], AfterChar(rv, r[0]), AfterChar(av, a[0]));
    }
  }

  /** All four answers: too long, prefix, before, or neither. */
  lemma CompareStatus(p: Oid, q: Oid)
    requires Below(p, LIMIT) && Below(q, LIMIT)
    ensures var status := Compare(Text(p), Text(q));
            && (status == SizeError <==> |Text(p)| > MAX_STRING_LENGTH || |Text(q)| > MAX_STRING_LENGTH)
            && (status == Success ==> Text(q) <= Text(p)) && (status == NextEntry ==> Less(p, q))
            && (status == Error ==> Less(q, p) && !(Text(q) <= Text(p)))
  {
    ScanNeverRefuses(Text(p), Text(q), 0, 0);
    ScanSuccess(Text(p), Text(q), 0, 0);
    ScanIsLess(p, q);
    LessIsTotal(p, q);
  }

  // ----- the limit is exact -----

  lemma TextOfLimit(lead: nat)
    requires 0 < lead < 10
    ensures Text([lead * 100_000_000]) == [Digit(lead)] + "00000000"
  {
    var n := lead * 100_000_000;
    assert Decimal(lead) == [Digit(lead)];
    assert Decimal(lead * 100) == [Digit(lead)] + "00" by {
      assert Decimal(lead * 10) == [Digit(lead)] + "0";
    }
    assert Decimal(lead * 10_000) == [Digit(lead)] + "0000" by {
      assert Decimal(lead * 1_000) == [Digit(lead)] + "000";
    }
    assert Decimal(lead * 1_000_000) == [Digit(lead)] + "000000" by {
      assert Decimal(lead * 100_000) == [Digit(lead)] + "00000";
    }
    assert Decimal(n) == [Digit(lead)] + "00000000" by {
      assert Decimal(lead * 10_000_000) == [Digit(lead)] + "0000000";
    }
  }

  lemma ZeroValue(s: string)
    requires forall i :: 0 <= i < |s| ==> s[i] == '0'
    ensures Value(s) == 0
  {
  }

  lemma TwiceLead(lead: nat)
    requires 0 < lead < 10
    ensures Value([Digit(lead), Digit(lead)] + "00000000") == lead * 1_100_000_000
  {
    var two := [Digit(lead), Digit(lead)];
    assert two[..1] == [Digit(lead)] && two[..1][..0] == [];
    assert Value(two[..1]) == lead;
    assert Value(two) == 11 * lead;
    ValueOfConcat(two, "00000000");
    ZeroValue("00000000");
    PowersOfTen();
  }

  lemma DoubledLead(lead: nat, s: string)
    requires 0 < lead < 10 && s == [Digit(lead)] + "00000000"
    ensures Remainder(s, Accumulate(0, s[0])) == (lead * 1_100_000_000) % UINT_SIZE
  {
    DoubledModulo([], s, []);
    assert s + [] == s;
    assert [] + s[..1] + s == [Digit(lead), Digit(lead)] + "00000000";
    TwiceLead(lead);
  }

  lemma ScanLeads(s: string, t: string)
    requires s != [] && t != [] && s[0] != t[0] && s[0] != '.' && t[0] != '.'
    requires Remainder(s, Accumulate(0, s[0])) < Remainder(t, Accumulate(0, t[0]))
    ensures Scan(s, t, 0, 0) == NextEntry
  {
  }

  /** 400000000 doubles to 4400000000, which wraps below 3300000000: it is taken to precede 300000000. */
  lemma LimitFails()
    ensures Comparable([400_000_000], 400_000_001) && Comparable([300_000_000], 400_000_001)
    ensures Compare(Text([400_000_000]), Text([300_000_000])) == NextEntry
    ensures !Less([400_000_000], [300_000_000])
  {
    TextOfLimit(4);
    TextOfLimit(3);
    var s, t := [Digit(4)] + "00000000", [Digit(3)] + "00000000";
    DoubledLead(4, s);
    DoubledLead(3, t);
    ScanLeads(s, t);
  }

  /** The bound is exact: the comparison is the lexicographic order on all names with components
      below a bound if and only if the bound is at most 400000000. */
  lemma CompareLimit(bound: nat)
    ensures bound <= LIMIT <==>
              forall p: Oid, q: Oid :: Comparable(p, bound) && Comparable(q, bound) ==>
                (Compare(Text(p), Text(q)) == NextEntry <==> Less(p, q))
  {
    if bound <= LIMIT {
      forall p: Oid, q: Oid | Comparable(p, bound) && Comparable(q, bound)
        ensures Compare(Text(p), Text(q)) == NextEntry <==> Less(p, q)
      {
        CompareIsLexicographic(p, q);
      }
    } else {
      LimitFails();
      assert Comparable([400_000_000], bound) && Comparable([300_000_000], bound);
    }
  }
}
