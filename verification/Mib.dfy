/** GET and GETNEXT over the MIB table of the SNMP sample, and what a manager sees that walks the
    table with repeated GETNEXT. */
module Mib {
  import opened SnmpCompare
  import opened SnmpOrder

  /** The answer of a get callback: its status, and whether it reports the end of the MIB. */
  datatype Answer = Answer(status: nat, endOfMib: bool)

  datatype Getter = NoGetter | Getter(answer: Answer)

  /** A table entry; `value` is what its value pointer reads as a name. */
  datatype Entry = Entry(name: string, getter: Getter, value: string)

  const NO_SUCH_NAME: nat := 2
  const NO_ACCESS: nat := 6

  /** The first entry the comparison answers with `wanted`, or the table length. */
  function First(table: seq<Entry>, requested: string, wanted: Status): (i: nat)
    ensures i <= |table|
    ensures i < |table| ==> Compare(requested, table[i].name) == wanted
    ensures forall j :: 0 <= j < i ==> Compare(requested, table[j].name) != wanted
  {
    if table == [] || Compare(requested, table[0].name) == wanted then 0
    else 1 + First(table[1..], requested, wanted)
  }

  /** What an entry's callback answers, or that it has none. */
  function StatusOf(e: Entry): nat {
    match e.getter
    case NoGetter => NO_ACCESS
    case Getter(a) => a.status
  }

  /** The entry reports the end of the MIB and puts its value in place of its name. */
  predicate Renames(e: Entry) {
    e.getter.Getter? && e.getter.answer.endOfMib && |e.value| <= MAX_STRING_LENGTH
  }

  /** Status and name after a GETNEXT; a refused request leaves the name alone. */
  function NextOf(table: seq<Entry>, requested: string): (nat, string) {
    var i := First(table, requested, NextEntry);
    if i == |table| then (NO_SUCH_NAME, requested)
    else
      match table[i].getter
      case NoGetter => (NO_ACCESS, table[i].name)
      case Getter(a) =>
        (a.status, if a.endOfMib && |table[i].value| <= MAX_STRING_LENGTH then table[i].value else table[i].name)
  }

  /** The object name buffer the agent passes in. */
  class ObjectName {
    var name: string

    constructor (name: string)
      ensures this.name == name
    {
      this.name := name;
    }

    /** nx_snmp_object_copy: an overlong source is not copied. */
    method Copy(source: string)
      modifies this
      ensures name == if |source| <= MAX_STRING_LENGTH then source else old(name)
    {
      if |source| <= MAX_STRING_LENGTH {
        name := source;
      }
    }
  }

  /** mib2_get_processing: the first entry whose name is a prefix, as text, of the one requested. */
  method GetProcessing(table: seq<Entry>, requested: string) returns (status: nat, found: nat)
    ensures found <= |table|
    ensures found == |table| ==> status == NO_SUCH_NAME
    ensures found == First(table, requested, Success)
    ensures found < |table| ==> status == StatusOf(table[found])
    ensures |requested| <= MAX_STRING_LENGTH ==>
              && (found < |table| ==> table[found].name <= requested)
              && forall j :: 0 <= j < found && |table[j].name| <= MAX_STRING_LENGTH ==> !(table[j].name <= requested)
  {
    var i := 0;
    var compared := Error;
    while i < |table|
      invariant i <= |table|
      invariant compared != Success
      invariant forall j :: 0 <= j < i ==> Compare(requested, table[j].name) != Success
    {
      compared := ObjectCompare(requested, table[i].name);
      if compared == Success {
        break;
      }
      i := i + 1;
    }
    forall j | 0 <= j < |table|
      ensures Scan(requested, table[j].name, 0, 0) == Success <==> table[j].name <= requested
    {
      ScanSuccess(requested, table[j].name, 0, 0);
    }
    if compared != Success {
      return NO_SUCH_NAME, |table|;
    }
    found := i;
    match table[i].getter
    case Getter(a) => status := a.status;
    case NoGetter => status := NO_ACCESS;
  }

  /** A GET for the name of an entry is answered by that entry if and only if no entry before it has
      a name that is a prefix, as text, of that name. */
  lemma GetFindsEntry(table: seq<Entry>, k: nat)
    requires k < |table| && |table[k].name| <= MAX_STRING_LENGTH
    ensures First(table, table[k].name, Success) == k <==>
              forall j :: 0 <= j < k ==> !(table[j].name <= table[k].name)
  {
    forall j | 0 <= j <= k
      ensures Compare(table[k].name, table[j].name) == Success <==> table[j].name <= table[k].name
    {
      ScanSuccess(table[k].name, table[j].name, 0, 0);
    }
  }

  /** 1.3.6.1.71 behind 1.3.6.1.7 is never answered for: the GET finds the entry before it. */
  lemma GetFindsPrefix(table: seq<Entry>)
    requires |table| == 2 && table[0].name == "1.3.6.1.7" && table[1].name == "1.3.6.1.71"
    ensures First(table, table[1].name, Success) == 0
  {
    SuccessOnPrefix();
  }

  /** mib2_getnext_processing: scan for the first entry after the name, then overwrite the name. */
  method GetNextProcessing(table: seq<Entry>, request: ObjectName) returns (status: nat)
    modifies request
    ensures (status, request.name) == NextOf(table, old(request.name))
    ensures var i := First(table, old(request.name), NextEntry);
            if i == |table| then status == NO_SUCH_NAME && request.name == old(request.name)
            else status == StatusOf(table[i])
                 && request.name == if Renames(table[i]) then table[i].value else table[i].name
  {
    var i := 0;
    var compared := Error;
    while i < |table|
      invariant i <= |table|
      invariant compared != NextEntry && request.name == old(request.name)
      invariant First(table, request.name, NextEntry) == i + First(table[i..], request.name, NextEntry)
    {
      compared := ObjectCompare(request.name, table[i].name);
      if compared == NextEntry {
        break;
      }
      i := i + 1;
    }
    if compared != NextEntry {
      assert table[i..] == [];
      return NO_SUCH_NAME;
    }
    request.Copy(table[i].name);
    match table[i].getter
    case Getter(a) =>
      status := a.status;
      if a.endOfMib {
        request.Copy(table[i].value);
      }
    case NoGetter =>
      status := NO_ACCESS;
  }

  // ----- the walk, on identifiers -----

  /** The first entry after q. */
  function FirstAfter(oids: seq<Oid>, q: Oid): (i: nat)
    ensures i <= |oids|
    ensures i < |oids| ==> Less(q, oids[i])
    ensures forall j :: 0 <= j < i ==> !Less(q, oids[j])
  {
    if oids == [] || Less(q, oids[0]) then 0 else 1 + FirstAfter(oids[1..], q)
  }

  /** After the entry found, the search moves on: everything up to it is no greater. */
  lemma WalkAdvances(oids: seq<Oid>, q: Oid)
    requires FirstAfter(oids, q) < |oids|
    ensures FirstAfter(oids, oids[FirstAfter(oids, q)]) > FirstAfter(oids, q)
  {
    var i := FirstAfter(oids, q);
    var j := FirstAfter(oids, oids[i]);
    if j <= i {
      LessIsTotal(oids[i], oids[i]);
      LessIsTransitive(q, oids[i], oids[j]);
    }
  }

  /** The entries repeated GETNEXT visits, by index. */
  function Walk(oids: seq<Oid>, q: Oid): (visited: seq<nat>)
    ensures forall m :: 0 <= m < |visited| ==> visited[m] < |oids|
    decreases |oids| - FirstAfter(oids, q)
  {
    var i := FirstAfter(oids, q);
    if i == |oids| then []
    else
      WalkAdvances(oids, q);
      [i] + Walk(oids, oids[i])
  }

  /** Greater than q and than every entry before it. */
  predicate Record(oids: seq<Oid>, q: Oid, k: nat)
    requires k < |oids|
  {
    Less(q, oids[k]) && forall i :: 0 <= i < k ==> Less(oids[i], oids[k])
  }

  /** Being a record is inherited from the first entry visited. */
  lemma RecordFrom(oids: seq<Oid>, q: Oid, k: nat)
    requires k < |oids| && FirstAfter(oids, q) < |oids|
    ensures var i := FirstAfter(oids, q);
            Record(oids, q, k) <==> k == i || Record(oids, oids[i], k)
  {
    var i := FirstAfter(oids, q);
    LessIsTotal(oids[i], oids[i]);
    if Record(oids, q, k) && k != i {
      assert i < k;
    }
    forall j | 0 <= j < |oids| ensures Less(q, oids[j]) ==> i <= j {}
    forall j | 0 <= j < i ensures Less(oids[j], oids[i]) {
      LessIsTotal(q, oids[j]);
      if oids[j] != q {
        LessIsTransitive(oids[j], q, oids[i]);
      }
    }
    if Record(oids, oids[i], k) {
      LessIsTransitive(q, oids[i], oids[k]);
    }
  }

  lemma {:induction false} WalkIsIncreasing(oids: seq<Oid>, q: Oid)
    ensures forall m :: 0 <= m < |Walk(oids, q)| ==> FirstAfter(oids, q) <= Walk(oids, q)[m] < |oids|
    ensures forall m, n :: 0 <= m < n < |Walk(oids, q)| ==> Walk(oids, q)[m] < Walk(oids, q)[n]
    decreases |oids| - FirstAfter(oids, q)
  {
    var i := FirstAfter(oids, q);
    if i < |oids| {
      WalkAdvances(oids, q);
      WalkIsIncreasing(oids, oids[i]);
    }
  }

  /** A walk visits, in table order and once each, exactly the entries greater than its start and
      greater than every earlier entry of the table. */
  lemma {:induction false} WalkVisitsRecords(oids: seq<Oid>, q: Oid)
    ensures forall m, n :: 0 <= m < n < |Walk(oids, q)| ==> Walk(oids, q)[m] < Walk(oids, q)[n] < |oids|
    ensures forall k :: 0 <= k < |oids| ==> (k in Walk(oids, q) <==> Record(oids, q, k))
    decreases |oids| - FirstAfter(oids, q)
  {
    WalkIsIncreasing(oids, q);
    var i := FirstAfter(oids, q);
    if i < |oids| {
      WalkAdvances(oids, q);
      WalkVisitsRecords(oids, oids[i]);
      forall k | 0 <= k < |oids| ensures k in Walk(oids, q) <==> Record(oids, q, k) {
        RecordFrom(oids, q, k);
        assert Walk(oids, q) == [i] + Walk(oids, oids[i]);
      }
    }
  }

  predicate StrictlySorted(oids: seq<Oid>) {
    forall i, j :: 0 <= i < j < |oids| ==> Less(oids[i], oids[j])
  }

  predicate Complete(oids: seq<Oid>, q: Oid) {
    forall k :: 0 <= k < |oids| ==> k in Walk(oids, q)
  }

  /** Started below all entries, a walk visits the whole table if and only if the table is sorted. */
  lemma WalkIsCompleteIffSorted(oids: seq<Oid>, q: Oid)
    requires forall i :: 0 <= i < |oids| ==> Less(q, oids[i])
    ensures Complete(oids, q) <==> StrictlySorted(oids)
  {
    WalkVisitsRecords(oids, q);
    if Complete(oids, q) {
      forall i, j | 0 <= i < j < |oids| ensures Less(oids[i], oids[j]) {
        assert j in Walk(oids, q);
        assert Record(oids, q, j);
      }
    }
    if StrictlySorted(oids) {
      forall k | 0 <= k < |oids| ensures k in Walk(oids, q) {
        assert Record(oids, q, k);
      }
    }
  }

  // ----- the walk, on the agent's buffer -----

  /** The table holds these identifiers, and an entry that reports the end of the MIB names itself. */
  ghost predicate Holds(table: seq<Entry>, oids: seq<Oid>) {
    && |table| == |oids|
    && forall i :: 0 <= i < |table| ==>
         && Comparable(oids[i], LIMIT) && table[i].name == Text(oids[i])
         && (table[i].getter.Getter? && table[i].getter.answer.endOfMib ==> table[i].value == table[i].name)
  }

  lemma {:induction false} FirstIsFirstAfter(table: seq<Entry>, oids: seq<Oid>, q: Oid)
    requires Holds(table, oids) && Comparable(q, LIMIT)
    ensures First(table, Text(q), NextEntry) == FirstAfter(oids, q)
    decreases |table|
  {
    if table != [] {
      CompareIsLexicographic(q, oids[0]);
      assert Holds(table[1..], oids[1..]);
      FirstIsFirstAfter(table[1..], oids[1..], q);
    }
  }

  /** The buffer after n GETNEXT requests. */
  function After(table: seq<Entry>, name: string, n: nat): string
    decreases n
  {
    if n == 0 then name else After(table, NextOf(table, name).1, n - 1)
  }

  /** No entry of the table comes after the name. */
  predicate Over(table: seq<Entry>, name: string) {
    First(table, name, NextEntry) == |table|
  }

  /** One GETNEXT, in terms of identifiers. */
  lemma NextWalks(table: seq<Entry>, oids: seq<Oid>, q: Oid)
    requires Holds(table, oids) && Comparable(q, LIMIT)
    ensures var i := FirstAfter(oids, q);
            if i == |oids| then Over(table, Text(q)) && NextOf(table, Text(q)) == (NO_SUCH_NAME, Text(q))
            else !Over(table, Text(q)) && NextOf(table, Text(q)) == (StatusOf(table[i]), Text(oids[i]))
                 && Comparable(oids[i], LIMIT) && table[i].name == Text(oids[i])
  {
    FirstIsFirstAfter(table, oids, q);
  }

  /** What the n-th GETNEXT of a walk from q leaves and the next one answers. */
  ghost predicate WalksAt(table: seq<Entry>, walk: seq<nat>, name: string, n: nat)
    requires forall m :: 0 <= m < |walk| ==> walk[m] < |table|
  {
    var now := After(table, name, n);
    && (0 < n <= |walk| ==> now == table[walk[n - 1]].name)
    && (n < |walk| ==> NextOf(table, now).0 == StatusOf(table[walk[n]]))
    && (n >= |walk| <==> Over(table, now))
    && (n >= |walk| ==> NextOf(table, now) == (NO_SUCH_NAME, now))
  }

  /** The manager's view: the n-th GETNEXT puts the n-th visited entry's name into the buffer and answers
      with that entry's status; and a GETNEXT is refused, leaving the buffer as it is, exactly if the
      walk is over. */
  lemma {:induction false} BufferWalks(table: seq<Entry>, oids: seq<Oid>, q: Oid, n: nat)
    requires Holds(table, oids) && Comparable(q, LIMIT)
    ensures WalksAt(table, Walk(oids, q), Text(q), n)
    decreases n
  {
    NextWalks(table, oids, q);
    var i := FirstAfter(oids, q);
    if i == |oids| {
      StaysOver(table, Text(q), n);
    } else if n > 0 {
      BufferWalks(table, oids, oids[i], n - 1);
      WalkStep(table, oids, q, n);
    }
  }

  lemma WalkStep(table: seq<Entry>, oids: seq<Oid>, q: Oid, n: nat)
    requires |table| == |oids| && n > 0 && FirstAfter(oids, q) < |oids|
    requires var i := FirstAfter(oids, q);
             && NextOf(table, Text(q)).1 == Text(oids[i]) && table[i].name == Text(oids[i])
             && WalksAt(table, Walk(oids, oids[i]), Text(oids[i]), n - 1)
    ensures WalksAt(table, Walk(oids, q), Text(q), n)
  {
    var i := FirstAfter(oids, q);
    var walk, rest := Walk(oids, q), Walk(oids, oids[i]);
    assert walk == [i] + rest;
    assert After(table, Text(q), n) == After(table, Text(oids[i]), n - 1);
    assert forall m :: 0 < m < |walk| ==> walk[m] == rest[m - 1];
  }

  lemma {:induction false} StaysOver(table: seq<Entry>, name: string, n: nat)
    requires Over(table, name)
    ensures After(table, name, n) == name
    decreases n
  {
    if n > 0 {
      StaysOver(table, name, n - 1);
    }
  }

  /** An entry that reports the end of the MIB sends the walk on from its value instead of its name. */
  lemma EndOfMibMoves(table: seq<Entry>, name: string, n: nat)
    requires !Over(table, name) && Renames(table[First(table, name, NextEntry)])
    ensures var e := table[First(table, name, NextEntry)];
            After(table, name, 1) == e.value && After(table, name, n + 1) == After(table, e.value, n)
  {
  }

  // ----- the shipped table -----

  const MIB2: seq<nat> := [1, 3, 6, 1, 2, 1]

  /** mib2_mib without the IPv6 entries. */
  const SHIPPED: seq<Oid> := [
    MIB2 + [1, 1, 0], MIB2 + [1, 2, 0], MIB2 + [1, 3, 0], MIB2 + [1, 4, 0],
    MIB2 + [1, 5, 0], MIB2 + [1, 6, 0], MIB2 + [1, 7, 0],
    MIB2 + [3, 1, 1, 3, 0],
    MIB2 + [2, 2, 1, 2, 0], MIB2 + [3, 1, 1, 2, 0], MIB2 + [2, 2, 1, 9, 0],
    MIB2 + [2, 2, 1, 10, 0], MIB2 + [2, 2, 1, 11, 0],
    MIB2 + [4, 1, 0], MIB2 + [4, 2, 0], [1, 3, 6, 1, 7]]

  /** Their names, as the table has them. */
  const SHIPPED_NAMES: seq<string> := [
    "1.3.6.1.2.1.1.1.0", "1.3.6.1.2.1.1.2.0", "1.3.6.1.2.1.1.3.0", "1.3.6.1.2.1.1.4.0",
    "1.3.6.1.2.1.1.5.0", "1.3.6.1.2.1.1.6.0", "1.3.6.1.2.1.1.7.0",
    "1.3.6.1.2.1.3.1.1.3.0",
    "1.3.6.1.2.1.2.2.1.2.0", "1.3.6.1.2.1.3.1.1.2.0", "1.3.6.1.2.1.2.2.1.9.0",
    "1.3.6.1.2.1.2.2.1.10.0", "1.3.6.1.2.1.2.2.1.11.0",
    "1.3.6.1.2.1.4.1.0", "1.3.6.1.2.1.4.2.0", "1.3.6.1.7"]

  lemma {:induction false} TextAppend(p: Oid, q: Oid)
    ensures Text(p + q) == Text(p) + "." + Text(q)
    decreases |p|
  {
    var d, t := Decimal(p[0]), Text(q);
    assert (p + q)[1..] == p[1..] + q;
    if |p| == 1 {
      assert p[1..] + q == q && d + "" == d;
      assert d + ("." + t) == d + "." + t;
    } else {
      TextAppend(p[1..], q);
      var s := Text(p[1..]);
      assert d + ("." + (s + "." + t)) == d + ("." + s) + "." + t;
    }
  }

  lemma TextOfOne(n: nat)
    ensures Text([n]) == Decimal(n)
  {
    assert Decimal(n) + "" == Decimal(n);
  }

  lemma TextOfTwo(a: nat, b: nat)
    ensures Text([a, b]) == Decimal(a) + "." + Decimal(b)
  {
    TextAppend([a], [b]);
    TextOfOne(a);
    TextOfOne(b);
  }

  lemma TextOfThree(a: nat, b: nat, c: nat)
    ensures Text([a, b, c]) == Decimal(a) + "." + Decimal(b) + "." + Decimal(c)
  {
    TextAppend([a, b], [c]);
    assert [a, b] + [c] == [a, b, c];
    TextOfTwo(a, b);
    TextOfOne(c);
  }

  lemma TextOfMib2()
    ensures Text(MIB2) == "1.3.6.1.2.1"
  {
    ThreeDigits(1, 3, 6);
    ThreeDigits(1, 2, 1);
    TextAppend([1, 3, 6], [1, 2, 1]);
    assert [1, 3, 6] + [1, 2, 1] == MIB2;
    var p, q := Text([1, 3, 6]), Text([1, 2, 1]);
    assert p + "." + q == "1.3.6.1.2.1";
  }

  lemma ThreeDigits(a: nat, b: nat, c: nat)
    requires a < 10 && b < 10 && c < 10
    ensures Text([a, b, c]) == [Digit(a), '.', Digit(b), '.', Digit(c)]
  {
    TextOfThree(a, b, c);
  }

  /** A name of the groups system and ip. */
  lemma ScalarText(group: nat, member: nat)
    requires group < 10 && member < 10
    ensures Text(MIB2 + [group, member, 0]) == "1.3.6.1.2.1." + [Digit(group), '.', Digit(member), '.', '0']
  {
    TextOfMib2();
    ThreeDigits(group, member, 0);
    TextAppend(MIB2, [group, member, 0]);
    assert "1.3.6.1.2.1" + "." == "1.3.6.1.2.1.";
  }

  /** A name in a table of the groups interfaces and at. */
  lemma ColumnText(group: nat, table: nat, column: nat)
    requires group < 10 && table < 10
    ensures Text(MIB2 + [group, table, 1, column, 0])
         == "1.3.6.1.2.1." + [Digit(group), '.', Digit(table), '.', '1', '.'] + (Decimal(column) + ".0")
  {
    var front, d := [Digit(group), '.', Digit(table), '.', '1'], Decimal(column);
    TextOfMib2();
    ThreeDigits(group, table, 1);
    TextOfTwo(column, 0);
    assert Text([column, 0]) == d + ".0";
    TextAppend([group, table, 1], [column, 0]);
    assert [group, table, 1] + [column, 0] == [group, table, 1, column, 0];
    TextAppend(MIB2, [group, table, 1, column, 0]);
    Dotted("1.3.6.1.2.1", front, d + ".0");
    assert "1.3.6.1.2.1" + "." == "1.3.6.1.2.1." && front + "." == [Digit(group), '.', Digit(table), '.', '1', '.'];
  }

  lemma Dotted(s: string, t: string, u: string)
    ensures s + "." + (t + "." + u) == s + "." + (t + ".") + u
  {
  }

  lemma EndText()
    ensures Text([1, 3, 6, 1, 7]) == "1.3.6.1.7"
  {
    ThreeDigits(1, 3, 6);
    TextOfTwo(1, 7);
    TextAppend([1, 3, 6], [1, 7]);
    assert [1, 3, 6] + [1, 7] == [1, 3, 6, 1, 7];
    assert Text([1, 7]) == "1.7";
  }

  lemma ShippedScalars(i: nat)
    requires i < 7 || 13 <= i < 15
    ensures Text(SHIPPED[i]) == SHIPPED_NAMES[i]
  {
    if i < 7 {
      ScalarText(1, i + 1);
    } else {
      ScalarText(4, i - 12);
    }
  }

  lemma ShippedAt(i: nat)
    requires i == 7 || i == 9
    ensures Text(SHIPPED[i]) == SHIPPED_NAMES[i]
  {
    var column := if i == 7 then 3 else 2;
    ColumnText(3, 1, column);
    assert SHIPPED[i] == MIB2 + [3, 1, 1, column, 0];
    assert Decimal(column) == [Digit(column)];
  }

  lemma ShippedShortColumns(i: nat)
    requires i == 8 || i == 10
    ensures Text(SHIPPED[i]) == SHIPPED_NAMES[i]
  {
    var column := if i == 8 then 2 else 9;
    ColumnText(2, 2, column);
    assert SHIPPED[i] == MIB2 + [2, 2, 1, column, 0];
    assert Decimal(column) == [Digit(column)];
  }

  lemma ShippedLongColumns(i: nat)
    requires i == 11 || i == 12
    ensures Text(SHIPPED[i]) == SHIPPED_NAMES[i]
  {
    ColumnText(2, 2, i - 1);
    assert SHIPPED[i] == MIB2 + [2, 2, 1, i - 1, 0];
    assert Decimal(i - 1) == ['1', Digit(i - 11)];
  }

  /** The identifiers of SHIPPED are those the names of the table spell. */
  lemma ShippedText(i: nat)
    requires i < |SHIPPED|
    ensures |SHIPPED_NAMES| == |SHIPPED| && Text(SHIPPED[i]) == SHIPPED_NAMES[i]
  {
    if i < 7 || 13 <= i < 15 {
      ShippedScalars(i);
    } else if i == 15 {
      EndText();
    } else if i == 7 || i == 9 {
      ShippedAt(i);
    } else if i == 8 || i == 10 {
      ShippedShortColumns(i);
    } else {
      ShippedLongColumns(i);
    }
  }

  lemma SmallerAfterPrefix(m: seq<nat>, p: seq<nat>, q: seq<nat>)
    requires p != [] && q != [] && p[0] > q[0]
    ensures !Less(m + p, m + q)
  {
    if m == [] {
      assert m + p == p && m + q == q;
    } else {
      assert (m + p)[1..] == m[1..] + p && (m + q)[1..] == m[1..] + q;
      SmallerAfterPrefix(m[1..], p, q);
    }
  }

  /** No walk of the shipped table, wherever it starts, ever visits ifDescr, atPhysAddress,
      ifLastChange, ifInOctets or ifInUcastPkts: atNetworkAddress stands before them. */
  lemma ShippedWalkSkips(q: Oid, k: nat)
    requires 8 <= k <= 12
    ensures k !in Walk(SHIPPED, q)
  {
    WalkVisitsRecords(SHIPPED, q);
    assert !Less(SHIPPED[7], SHIPPED[k]) by {
      if k == 9 {
        assert SHIPPED[7] == MIB2 + [3, 1, 1] + [3, 0] && SHIPPED[9] == MIB2 + [3, 1, 1] + [2, 0];
        SmallerAfterPrefix(MIB2 + [3, 1, 1], [3, 0], [2, 0]);
      } else {
        var last := if k == 8 then 2 else k - 1;
        assert SHIPPED[7] == MIB2 + [3, 1, 1, 3, 0] && SHIPPED[k] == MIB2 + [2, 2, 1, last, 0];
        SmallerAfterPrefix(MIB2, [3, 1, 1, 3, 0], [2, 2, 1, last, 0]);
      }
    }
    assert !Record(SHIPPED, q, k);
  }

  /** A table with the names of the sample, whose last entry names itself. */
  ghost predicate Ships(table: seq<Entry>) {
    && |table| == |SHIPPED_NAMES|
    && forall i :: 0 <= i < |table| ==>
         && table[i].name == SHIPPED_NAMES[i]
         && (table[i].getter.Getter? && table[i].getter.answer.endOfMib ==> table[i].value == table[i].name)
  }

  lemma ShippedComparable(i: nat)
    requires i < |SHIPPED|
    ensures Below(SHIPPED[i], LIMIT) && |SHIPPED_NAMES[i]| <= 22
  {
  }

  lemma ShippedHolds(table: seq<Entry>)
    requires Ships(table)
    ensures Holds(table, SHIPPED)
  {
    forall i | 0 <= i < |table| ensures Comparable(SHIPPED[i], LIMIT) && table[i].name == Text(SHIPPED[i]) {
      ShippedText(i);
      ShippedComparable(i);
    }
  }

  lemma NamesDiffer(j: nat, k: nat)
    requires j < |SHIPPED_NAMES| && 8 <= k <= 12 && j != k
    ensures SHIPPED_NAMES[j] != SHIPPED_NAMES[k]
  {
  }

  /** So no GETNEXT of a walk of the sample's table ever leaves one of those five names in the buffer. */
  lemma ShippedNamesSkipped(table: seq<Entry>, q: Oid, n: nat, k: nat)
    requires Ships(table) && Comparable(q, LIMIT) && 0 < n <= |Walk(SHIPPED, q)| && 8 <= k <= 12
    ensures After(table, Text(q), n) != SHIPPED_NAMES[k]
  {
    ShippedHolds(table);
    BufferWalks(table, SHIPPED, q, n);
    var j := Walk(SHIPPED, q)[n - 1];
    ShippedWalkSkips(q, k);
    assert j in Walk(SHIPPED, q);
    NamesDiffer(j, k);
  }
}
