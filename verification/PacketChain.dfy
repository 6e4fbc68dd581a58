/** NX_PACKET on the heap: packets linked into a chain, each with its own buffer, compacted in place. */
module PacketChain {
  import opened PacketBuffer

  class Packet {
    const buffer: array<Byte>
    var prepend: nat   // nx_packet_prepend_ptr - nx_packet_data_start
    var append: nat    // nx_packet_append_ptr - nx_packet_data_start
    var length: nat    // nx_packet_length
    var next: Packet?  // nx_packet_next

    constructor (size: nat, headroom: nat)
      ensures fresh(buffer) && buffer.Length == size
      ensures prepend == append == headroom && length == 0 && next == null
    {
      buffer := new Byte[size](_ => 0);
      prepend, append, length, next := headroom, headroom, 0, null;
    }

    ghost function View(): Buf
      reads this`prepend, this`append, buffer
    {
      Buf(buffer[..], prepend, append)
    }
  }

  ghost function Buffers(ps: seq<Packet>): set<array<Byte>> {
    set p | p in ps :: p.buffer
  }

  /** Packet i, or the null that ends the chain. */
  ghost function Link(ps: seq<Packet>, i: nat): Packet? {
    if i < |ps| then ps[i] else null
  }

  /** ps are the packets of the chain, in order, with nothing shared. */
  ghost predicate Chain(ps: seq<Packet>)
    reads ps
  {
    && ps != []
    && Linked(ps, 0)
    && Separate(ps)
  }

  /** From packet k on, each points to the one after it. */
  ghost predicate Linked(ps: seq<Packet>, k: nat)
    reads ps
  {
    forall i {:trigger ps[i].next} :: k <= i < |ps| ==> ps[i].next == Link(ps, i + 1)
  }

  /** Packets 1 to k-1 point nowhere. */
  ghost predicate Unlinked(ps: seq<Packet>, k: nat)
    reads ps
    requires k <= |ps|
  {
    forall i {:trigger ps[i].next} :: 1 <= i < k ==> ps[i].next == null
  }

  ghost predicate Separate(ps: seq<Packet>) {
    forall i, j :: 0 <= i < j < |ps| ==> ps[i] != ps[j] && ps[i].buffer != ps[j].buffer
  }

  /** The packets hold these buffer values. */
  ghost predicate Shows(ps: seq<Packet>, views: seq<Buf>)
    reads ps, Buffers(ps)
  {
    |ps| == |views| && forall i :: 0 <= i < |ps| ==> ps[i].View() == views[i]
  }

  /** The head followed by the packets from number k on. */
  ghost function HeadAnd(ps: seq<Packet>, k: nat): seq<Packet>
    requires 1 <= k <= |ps|
  {
    [ps[0]] + ps[k..]
  }

  lemma ChainFrom(ps: seq<Packet>, k: nat)
    requires 1 <= k <= |ps| && Separate(ps)
    requires ps[0].next == Link(ps, k) && Linked(ps, k)
    ensures Chain(HeadAnd(ps, k))
  {
    var qs := HeadAnd(ps, k);
    assert forall i :: 1 <= i < |qs| ==> qs[i] == ps[k + i - 1];
    forall i | 0 <= i < |qs| ensures qs[i].next == Link(qs, i + 1) {
      if i > 0 {
        assert Link(qs, i + 1) == Link(ps, k + i);
      }
    }
  }

  lemma ShowsFrom(ps: seq<Packet>, k: nat, views: seq<Buf>, head: Buf)
    requires 1 <= k <= |ps| == |views| && ps[0].View() == head
    requires forall i :: k <= i < |ps| ==> ps[i].View() == views[i]
    ensures Shows(HeadAnd(ps, k), [head] + views[k..])
  {
    var qs := HeadAnd(ps, k);
    assert forall i :: 1 <= i < |qs| ==> qs[i] == ps[k + i - 1];
  }

  /** memmove to the start of a buffer; the ranges may overlap. */
  method MemMoveDown(a: array<Byte>, from: nat, size: nat)
    requires from + size <= a.Length
    modifies a
    ensures a[..] == old(a[..])[from..from + size] + old(a[..])[size..]
  {
    var k := 0;
    while k < size
      invariant k <= size
      invariant forall i :: 0 <= i < k ==> a[i] == old(a[from + i])
      invariant forall i :: k <= i < a.Length ==> a[i] == old(a[i])
    {
      a[k] := a[from + k];
      k := k + 1;
    }
  }

  /** memcpy between different buffers. */
  method MemCpy(a: array<Byte>, to: nat, source: array<Byte>, from: nat, size: nat)
    requires a != source && to + size <= a.Length && from + size <= source.Length
    modifies a
    ensures a[..] == old(a[..])[..to] + source[..][from..from + size] + old(a[..])[to + size..]
  {
    var k := 0;
    while k < size
      invariant k <= size
      invariant forall i :: 0 <= i < a.Length ==>
                  a[i] == if to <= i < to + k then source[from + (i - to)] else old(a[i])
    {
      a[to + k] := source[from + k];
      k := k + 1;
    }
  }

  /** Move a packet's live bytes, but the first `skip`, to the start of its buffer. */
  method MoveDown(p: Packet, skip: nat)
    requires p.View().Ok() && skip <= p.append - p.prepend
    modifies p`prepend, p`append, p.buffer
    ensures p.View() == MovedDown(old(p.View()), skip)
  {
    var size := p.append - p.prepend - skip;
    MemMoveDown(p.buffer, p.prepend + skip, size);
    p.prepend := 0;
    p.append := size;
  }

  /** Append the first `size` live bytes of q, called `more`, to p. */
  method CopyIn(p: Packet, q: Packet, size: nat, ghost more: seq<Byte>)
    requires p != q && p.buffer != q.buffer && p.View().Ok() && q.View().Ok()
    requires size <= p.View().Room() && size <= q.append - q.prepend && more == q.View().Live()[..size]
    modifies p`append, p.buffer
    ensures p.View() == Filled(old(p.View()), more) && p.View().Ok()
  {
    assert more == q.buffer[..][q.prepend..q.prepend + size];
    MemCpy(p.buffer, p.append, q.buffer, q.prepend, size);
    p.append := p.append + size;
  }

  /** Packets 1 to k-1 have been absorbed and unlinked; those from k on are as they were. */
  ghost predicate Filling(ps: seq<Packet>, views: seq<Buf>, k: nat)
    reads ps, Buffers(ps)
  {
    && 1 <= k <= |ps| == |views| && Separate(ps) && AllOk(views)
    && ps[0].next == Link(ps, k) && Linked(ps, k) && ps[0].View().Ok()
    && Unlinked(ps, k)
    && (forall i :: 1 <= i < |ps| ==> ps[i].View() == views[i])
  }

  /** Take the packet behind the head out of the chain. */
  method Unlink(head: Packet, current: Packet, ghost ps: seq<Packet>, ghost k: nat)
    requires 1 <= k < |ps| && Separate(ps) && Linked(ps, k) && Unlinked(ps, k) && head == ps[0] && current == ps[k]
    modifies head`next, current`next
    ensures head.next == Link(ps, k + 1) && Linked(ps, k + 1) && Unlinked(ps, k + 1)
  {
    assert current.next == Link(ps, k + 1);
    head.next := current.next;
    current.next := null;
  }

  /** The packet behind the head fits: copy all of it and take it out of the chain. */
  method TakeWhole(head: Packet, current: Packet, ghost ps: seq<Packet>, ghost views: seq<Buf>, ghost k: nat)
    requires Filling(ps, views, k) && k < |ps| && head == ps[0] && current == ps[k]
    requires |views[k].Live()| <= head.View().Room()
    modifies head`append, head`next, head.buffer, current`next
    ensures Filling(ps, views, k + 1)
    ensures head.View() == Filled(old(head.View()), views[k].Live())
  {
    assert current.View() == views[k];
    assert forall i :: 1 <= i < |ps| ==> ps[i] != head && ps[i].buffer != head.buffer;
    CopyIn(head, current, current.append - current.prepend, views[k].Live());
    ghost var filled := head.View();
    Unlink(head, current, ps, k);
    assert head.View() == filled;
  }

  /** It does not fit: fill the head with the first `size` bytes and move the rest down. */
  method TakePart(head: Packet, current: Packet, size: nat, ghost ps: seq<Packet>, ghost views: seq<Buf>, ghost k: nat)
    requires Filling(ps, views, k) && k < |ps| && head == ps[0] && current == ps[k]
    requires size == head.View().Room() < |views[k].Live()|
    modifies head`append, head.buffer, current`prepend, current`append, current.buffer
    ensures Chain(HeadAnd(ps, k))
    ensures Shows(HeadAnd(ps, k), [Filled(old(head.View()), views[k].Live()[..size]), MovedDown(views[k], size)]
                                  + views[k + 1..])
    ensures Unlinked(ps, k) && forall i :: 1 <= i < k ==> ps[i].View() == views[i]
  {
    assert current.View() == views[k];
    CopyIn(head, current, size, views[k].Live()[..size]);
    MoveDown(current, size);
    ChainFrom(ps, k);
    ShowsFrom(ps, k, views[k := current.View()], head.View());
    assert [head.View()] + views[k := current.View()][k..] == [head.View(), current.View()] + views[k + 1..];
  }

  /** nx_packet_release, recorded. */
  method Release(p: Packet, released: seq<Packet>, ghost ps: seq<Packet>, ghost k: nat) returns (more: seq<Packet>)
    requires 1 <= k < |ps| && p == ps[k]
    requires |released| == k - 1 && forall i :: 1 <= i < k ==> released[i - 1] == ps[i]
    ensures |more| == k && forall i :: 1 <= i <= k ==> more[i - 1] == ps[i]
  {
    more := released + [p];
  }

  /** With the head now holding `now` and k-1 packets absorbed, the rest of the work is what is
      missing from `goal`. */
  ghost predicate Towards(goal: Adjusted, now: Buf, views: seq<Buf>, k: nat)
    requires 1 <= k <= |views| && now.Ok() && AllOk(views)
  {
    var a := Absorb(now, views[k..]);
    goal == a.(released := a.released + (k - 1))
  }

  lemma TowardsGoes(goal: Adjusted, now: Buf, views: seq<Buf>, k: nat)
    requires 1 <= k < |views| && now.Ok() && AllOk(views) && Towards(goal, now, views, k)
    ensures |views[k].Live()| <= now.Room() ==> Towards(goal, Filled(now, views[k].Live()), views, k + 1)
    ensures now.Room() < |views[k].Live()| ==>
              goal == Adjusted([Filled(now, views[k].Live()[..now.Room()]), MovedDown(views[k], now.Room())]
                               + views[k + 1..], k - 1)
  {
    assert views[k..][0] == views[k] && views[k..][1..] == views[k + 1..];
  }

  lemma TowardsEnds(goal: Adjusted, now: Buf, views: seq<Buf>)
    requires views != [] && now.Ok() && AllOk(views) && Towards(goal, now, views, |views|)
    ensures goal == Adjusted([now], |views| - 1)
  {
  }

  /** n packets behind the head have been absorbed, unlinked and left as they were; the rest of the
      chain is the head and the packets after them, holding the values of `goal`. */
  ghost predicate Compacted(ps: seq<Packet>, views: seq<Buf>, n: nat, goal: Adjusted)
    reads ps, Buffers(ps)
  {
    && n < |ps| == |views| && goal.released == n
    && Chain(HeadAnd(ps, n + 1)) && Shows(HeadAnd(ps, n + 1), goal.chain)
    && Unlinked(ps, n + 1) && forall i :: 1 <= i <= n ==> ps[i].View() == views[i]
  }

  /** Everything behind the head has been absorbed. */
  lemma AllAbsorbed(ps: seq<Packet>, views: seq<Buf>, goal: Adjusted)
    requires Filling(ps, views, |ps|) && Towards(goal, ps[0].View(), views, |ps|)
    ensures Compacted(ps, views, |ps| - 1, goal)
  {
    ChainFrom(ps, |ps|);
    ShowsFrom(ps, |ps|, views, ps[0].View());
    TowardsEnds(goal, ps[0].View(), views);
  }

  /** One turn of the loop: take the whole packet, or as much as fits. */
  method AbsorbOne(head: Packet, current: Packet, ghost ps: seq<Packet>, ghost views: seq<Buf>, ghost k: nat,
                   ghost goal: Adjusted)
    returns (whole: bool)
    requires Filling(ps, views, k) && k < |ps| && head == ps[0] && current == ps[k]
    requires Towards(goal, head.View(), views, k)
    modifies head`append, head`next, head.buffer, current`prepend, current`append, current`next, current.buffer
    ensures whole ==> Filling(ps, views, k + 1) && Towards(goal, head.View(), views, k + 1)
    ensures !whole ==> Compacted(ps, views, k - 1, goal)
  {
    assert current.View() == views[k];
    TowardsGoes(goal, head.View(), views, k);
    var size := head.buffer.Length - head.append;
    var copySize := current.append - current.prepend;
    whole := size >= copySize;
    if whole {
      TakeWhole(head, current, ps, views, k);
    } else {
      TakePart(head, current, size, ps, views, k);
    }
  }

  /** The loop's state: k-1 packets absorbed and recorded, `current` behind the head. */
  ghost predicate Working(ps: seq<Packet>, views: seq<Buf>, k: nat, goal: Adjusted, current: Packet?,
                          released: seq<Packet>)
    reads ps, Buffers(ps)
  {
    && Filling(ps, views, k) && Towards(goal, ps[0].View(), views, k) && current == ps[0].next
    && |released| == k - 1 && forall i :: 1 <= i < k ==> released[i - 1] == ps[i]
  }

  lemma WorkBegins(ps: seq<Packet>, views: seq<Buf>)
    requires Chain(ps) && Shows(ps, views) && AllOk(views)
    ensures Working(ps, views, 1, Absorb(views[0], views[1..]), ps[0].next, [])
  {
    assert ps[0].View() == views[0];
  }

  /** The whole turn, with the release. */
  method Turn(head: Packet, current: Packet, released: seq<Packet>, ghost ps: seq<Packet>, ghost views: seq<Buf>,
              ghost k: nat, ghost goal: Adjusted)
    returns (whole: bool, next: Packet?, more: seq<Packet>)
    requires Working(ps, views, k, goal, current, released) && head == ps[0]
    modifies ps`prepend, ps`append, ps`next, Buffers(ps)
    ensures whole ==> k < |ps| && Working(ps, views, k + 1, goal, next, more)
    ensures !whole ==> Compacted(ps, views, k - 1, goal) && more == released
  {
    assert ps[k].buffer in Buffers(ps) && ps[0].buffer in Buffers(ps);
    whole := AbsorbOne(head, current, ps, views, k, goal);
    next, more := head.next, released;
    if whole {
      more := Release(current, released, ps, k);
    }
  }

  /** Fill the head from the packets behind it. Releasing a packet is recorded by appending it to
      `released`; ps names the packets of the chain and views what they hold. */
  method AbsorbRest(head: Packet, ghost ps: seq<Packet>, ghost views: seq<Buf>) returns (released: seq<Packet>)
    requires Chain(ps) && ps[0] == head && Shows(ps, views) && AllOk(views)
    modifies ps`prepend, ps`append, ps`next, Buffers(ps)
    ensures Compacted(ps, views, |released|, Absorb(views[0], views[1..]))
    ensures forall i :: 1 <= i <= |released| ==> released[i - 1] == ps[i]
  {
    released := [];
    var current := head.next;
    ghost var k := 1;
    ghost var goal := Absorb(views[0], views[1..]);
    WorkBegins(ps, views);
    while current != null
      invariant Working(ps, views, k, goal, current, released)
      decreases |ps| - k
    {
      var whole;
      whole, current, released := Turn(head, current, released, ps, views, k, goal);
      if !whole {
        return;
      }
      k := k + 1;
    }
    AllAbsorbed(ps, views, goal);
  }

  /** Move the head's data to the start of its buffer. */
  method MoveHead(head: Packet, ghost ps: seq<Packet>, ghost views: seq<Buf>) returns (ghost moved: seq<Buf>)
    requires Chain(ps) && ps[0] == head && Shows(ps, views) && AllOk(views)
    modifies head`prepend, head`append, head.buffer
    ensures moved == views[0 := if views[0].prepend != 0 then MovedDown(views[0], 0) else views[0]]
    ensures Chain(ps) && Shows(ps, moved)
  {
    if head.prepend != 0 {
      MoveDown(head, 0);
    }
    moved := views[0 := head.View()];
  }

  /** nx_azure_iot_mqtt_packet_adjust: the chain in place becomes what Adjust makes of its values,
      and the packets released are the ones Adjust counts, in chain order. */
  method PacketAdjust(head: Packet, ghost ps: seq<Packet>, ghost views: seq<Buf>) returns (released: seq<Packet>)
    requires Chain(ps) && ps[0] == head && Shows(ps, views) && AllOk(views)
    modifies ps`prepend, ps`append, ps`next, Buffers(ps)
    ensures Compacted(ps, views, |released|, Adjust(views))
    ensures forall i :: 1 <= i <= |released| ==> released[i - 1] == ps[i]
  {
    assert head.buffer in Buffers(ps);
    ghost var moved := MoveHead(head, ps, views);
    assert moved[1..] == views[1..];
    if head.next == null {
      released := [];
      assert |ps| == 1 by {
        assert ps[0].next == Link(ps, 1);
      }
      assert HeadAnd(ps, 1) == ps;
      return;
    }
    released := AbsorbRest(head, ps, moved);
  }
}
