/** NX_PACKET buffers as values: the bytes between prepend and append are live. */
module PacketBuffer {

  type Byte = x: int | 0 <= x < 256

  /** data runs from nx_packet_data_start to nx_packet_data_end; prepend and append are offsets. */
  datatype Buf = Buf(data: seq<Byte>, prepend: nat, append: nat)
  {
    predicate Ok() {
      prepend <= append <= |data|
    }

    function Live(): seq<Byte>
      requires Ok()
    {
      data[prepend..append]
    }

    function Room(): nat
      requires Ok()
    {
      |data| - append
    }
  }

  predicate AllOk(chain: seq<Buf>) {
    forall i :: 0 <= i < |chain| ==> chain[i].Ok()
  }

  /** The message a chain carries. */
  function Bytes(chain: seq<Buf>): seq<Byte>
    requires AllOk(chain)
  {
    if chain == [] then [] else chain[0].Live() + Bytes(chain[1..])
  }

  /** The live bytes but the first `skip`, moved to the start of the buffer. */
  function MovedDown(b: Buf, skip: nat): (r: Buf)
    requires b.Ok() && skip <= b.append - b.prepend
    ensures r.Ok() && |r.data| == |b.data| && r.prepend == 0 && r.Live() == b.Live()[skip..]
  {
    var moved := b.data[b.prepend + skip..b.append];
    var r := Buf(moved + b.data[|moved|..], 0, |moved|);
    assert r.data[0..|moved|] == b.Live()[skip..];
    r
  }

  /** More bytes after the live ones. */
  function Filled(b: Buf, more: seq<Byte>): (r: Buf)
    requires b.Ok() && |more| <= b.Room()
    ensures r.Ok() && |r.data| == |b.data| && r.prepend == b.prepend && r.Live() == b.Live() + more
  {
    var r := Buf(b.data[..b.append] + more + b.data[b.append + |more|..], b.prepend, b.append + |more|);
    assert r.data[r.prepend..r.append] == b.Live() + more;
    r
  }

  datatype Adjusted = Adjusted(chain: seq<Buf>, released: nat)

  /** Fill the head from the packets behind it until one does not fit entirely. */
  function Absorb(head: Buf, rest: seq<Buf>): Adjusted
    requires head.Ok() && AllOk(rest)
    decreases |rest|
  {
    if rest == [] then Adjusted([head], 0)
    else
      var size, copySize := head.Room(), |rest[0].Live()|;
      if size >= copySize then
        var a := Absorb(Filled(head, rest[0].Live()), rest[1..]);
        a.(released := a.released + 1)
      else
        Adjusted([Filled(head, rest[0].Live()[..size]), MovedDown(rest[0], size)] + rest[1..], 0)
  }

  /** nx_azure_iot_mqtt_packet_adjust on values. */
  function Adjust(chain: seq<Buf>): Adjusted
    requires chain != [] && AllOk(chain)
  {
    var head := if chain[0].prepend != 0 then MovedDown(chain[0], 0) else chain[0];
    if |chain| == 1 then Adjusted([head], 0) else Absorb(head, chain[1..])
  }

  // ----- what it means -----

  /** The head starts its buffer; and either it is alone, or it is full and what follows it is not
      empty and starts its own buffer. */
  predicate Packed(chain: seq<Buf>)
    requires AllOk(chain)
  {
    && chain != [] && chain[0].prepend == 0
    && (|chain| > 1 ==> chain[0].Room() == 0 && chain[1].prepend == 0 && chain[1].Live() != [])
  }

  lemma SplitBytes(a: seq<Byte>, live: seq<Byte>, n: nat, rest: seq<Byte>)
    requires n <= |live|
    ensures (a + live[..n]) + (live[n..] + rest) == a + (live + rest)
  {
    assert live == live[..n] + live[n..];
  }

  lemma BytesOfCons(b: Buf, rest: seq<Buf>)
    requires b.Ok() && AllOk(rest)
    ensures AllOk([b] + rest) && Bytes([b] + rest) == b.Live() + Bytes(rest)
  {
    assert ([b] + rest)[1..] == rest;
  }

  lemma PartialKeeps(head: Buf, next: Buf, rest: seq<Buf>)
    requires head.Ok() && next.Ok() && AllOk(rest) && head.Room() < |next.Live()|
    ensures var full, left := Filled(head, next.Live()[..head.Room()]), MovedDown(next, head.Room());
            var chain := [full, left] + rest;
            && AllOk(chain) && Bytes(chain) == head.Live() + (next.Live() + Bytes(rest))
            && full.Room() == 0 && left.Live() != []
  {
    var full, left := Filled(head, next.Live()[..head.Room()]), MovedDown(next, head.Room());
    BytesOfCons(left, rest);
    BytesOfCons(full, [left] + rest);
    assert [full, left] + rest == [full] + ([left] + rest);
    SplitBytes(head.Live(), next.Live(), head.Room(), Bytes(rest));
  }

  lemma FilledKeeps(head: Buf, rest: seq<Buf>, filled: Buf)
    requires head.Ok() && AllOk(rest) && rest != [] && filled.Ok() && filled.Live() == head.Live() + rest[0].Live()
    ensures filled.Live() + Bytes(rest[1..]) == head.Live() + Bytes(rest)
  {
    ConcatAssociates(head.Live(), rest[0].Live(), Bytes(rest[1..]));
  }

  lemma ConcatAssociates(a: seq<Byte>, b: seq<Byte>, c: seq<Byte>)
    ensures (a + b) + c == a + (b + c)
  {
  }

  lemma {:induction false} AbsorbKeeps(head: Buf, rest: seq<Buf>)
    requires head.Ok() && AllOk(rest)
    ensures var a := Absorb(head, rest);
            && AllOk(a.chain) && Bytes(a.chain) == head.Live() + Bytes(rest)
            && (head.prepend == 0 ==> Packed(a.chain))
    decreases |rest|
  {
    if rest == [] {
      BytesOfCons(head, []);
      assert [head] + [] == [head];
    } else if head.Room() >= |rest[0].Live()| {
      var filled := Filled(head, rest[0].Live());
      AbsorbKeeps(filled, rest[1..]);
      FilledKeeps(head, rest, filled);
    } else {
      PartialKeeps(head, rest[0], rest[1..]);
    }
  }

  /** Compaction preserves the message and packs the chain. */
  lemma AdjustPreservesBytes(chain: seq<Buf>)
    requires chain != [] && AllOk(chain)
    ensures var a := Adjust(chain);
            AllOk(a.chain) && Bytes(a.chain) == Bytes(chain) && Packed(a.chain)
  {
    var head := if chain[0].prepend != 0 then MovedDown(chain[0], 0) else chain[0];
    assert head.Live() == chain[0].Live() && head.prepend == 0;
    if |chain| == 1 {
      assert chain == [chain[0]];
      assert Bytes([head]) == head.Live() + Bytes([]);
    } else {
      AbsorbKeeps(head, chain[1..]);
    }
  }

  /** Live bytes in the first n buffers. */
  function Cumulative(chain: seq<Buf>, n: nat): nat
    requires AllOk(chain) && n <= |chain|
  {
    if n == 0 then 0 else |chain[0].Live()| + Cumulative(chain[1..], n - 1)
  }

  /** The buffers released are exactly those whose data, with all data before it, fits in the head's
      room. */
  lemma {:induction false} AbsorbIsGreedy(head: Buf, rest: seq<Buf>, n: nat)
    requires head.Ok() && AllOk(rest) && n <= |rest|
    ensures Absorb(head, rest).released <= |rest|
    ensures n <= Absorb(head, rest).released <==> Cumulative(rest, n) <= head.Room()
    decreases |rest|
  {
    if rest != [] && head.Room() >= |rest[0].Live()| {
      AbsorbIsGreedy(Filled(head, rest[0].Live()), rest[1..], if n == 0 then 0 else n - 1);
    }
  }

  /** Conservation: the released buffers are the ones right behind the head, and the buffers that
      remain behind the head and the one after it are untouched and in order. */
  lemma {:induction false} AbsorbConserves(head: Buf, rest: seq<Buf>)
    requires head.Ok() && AllOk(rest)
    ensures var a := Absorb(head, rest);
            && a.released <= |rest|
            && |a.chain| + a.released == 1 + |rest|
            && (|a.chain| > 1 ==> a.chain[2..] == rest[a.released + 1..])
            && |a.chain[0].data| == |head.data|
    decreases |rest|
  {
    if rest != [] && head.Room() >= |rest[0].Live()| {
      AbsorbConserves(Filled(head, rest[0].Live()), rest[1..]);
      var a := Absorb(head, rest);
      if |a.chain| > 1 {
        assert rest[a.released + 1..] == rest[1..][a.released..];
      }
    }
  }

  /** For a whole chain: n packets behind the head are released if and only if their data fits in
      the head's capacity together with the head's own. */
  lemma AdjustIsGreedy(chain: seq<Buf>, n: nat)
    requires chain != [] && AllOk(chain) && n < |chain|
    ensures var a := Adjust(chain);
            && |a.chain| + a.released == |chain|
            && (n <= a.released <==> Cumulative(chain, n + 1) <= |chain[0].data|)
            && (|a.chain| > 1 ==> a.chain[2..] == chain[a.released + 2..])
  {
    var head := if chain[0].prepend != 0 then MovedDown(chain[0], 0) else chain[0];
    assert head.Room() == |chain[0].data| - |chain[0].Live()|;
    if |chain| > 1 {
      AbsorbIsGreedy(head, chain[1..], n);
      AbsorbConserves(head, chain[1..]);
    } else {
      assert Cumulative(chain[1..], 0) == 0;
    }
  }

  /** A packed chain is left exactly as it is. */
  lemma PackedIsFixed(chain: seq<Buf>)
    requires chain != [] && AllOk(chain) && Packed(chain)
    ensures Adjust(chain) == Adjusted(chain, 0)
  {
    if |chain| == 1 {
      assert chain == [chain[0]];
    } else {
      var head, second := chain[0], chain[1];
      assert chain[1..][0] == second;
      assert Filled(head, second.Live()[..0]) == head;
      assert MovedDown(second, 0) == second;
      assert chain == [head, second] + chain[1..][1..];
    }
  }

  /** Compaction is idempotent: a second call changes no byte, no pointer and no link, and releases
      nothing. */
  lemma AdjustIsIdempotent(chain: seq<Buf>)
    requires chain != [] && AllOk(chain)
    ensures var a := Adjust(chain); AllOk(a.chain) && a.chain != [] && Adjust(a.chain) == Adjusted(a.chain, 0)
  {
    AdjustPreservesBytes(chain);
    PackedIsFixed(Adjust(chain).chain);
  }
}
