/** The Azure IoT instance's singly linked list of resources, each embedding its MQTT client. */
module ResourceList {
  import opened Common

  const NOT_FOUND := 0x20006

  /** The resource_mqtt member, as far as its address goes. */
  class Client {
    constructor () {}
  }

  class Resource {
    const client: Client
    var next: Resource?

    constructor ()
      ensures fresh(client) && next == null
    {
      client := new Client();
      next := null;
    }
  }

  // ----- sequences -----

  ghost predicate Distinct<T>(s: seq<T>) {
    forall i, j :: 0 <= i < j < |s| ==> s[i] != s[j]
  }

  /** s without its first x. */
  function Without<T(==)>(s: seq<T>, x: T): seq<T> {
    if s == [] then [] else if s[0] == x then s[1..] else [s[0]] + Without(s[1..], x)
  }

  lemma {:induction false} WithoutBetween<T>(front: seq<T>, x: T, back: seq<T>)
    requires x !in front
    ensures Without(front + [x] + back, x) == front + back
    decreases |front|
  {
    var s := front + [x] + back;
    if front == [] {
      assert s[0] == x && s[1..] == back;
    } else {
      assert s[0] == front[0] && front[0] in front;
      assert s[1..] == front[1..] + [x] + back;
      WithoutBetween(front[1..], x, back);
      assert [front[0]] + (front[1..] + back) == front + back;
    }
  }

  lemma WithoutAt<T>(s: seq<T>, x: T, i: nat)
    requires i < |s| && s[i] == x && x !in s[..i]
    ensures Without(s, x) == s[..i] + s[i + 1..]
  {
    WithoutBetween(s[..i], x, s[i + 1..]);
    assert s[..i] + [x] + s[i + 1..] == s;
  }

  lemma WithoutAbsent<T>(s: seq<T>, x: T)
    requires x !in s
    ensures Without(s, x) == s
  {
  }

  // ----- the heap -----

  /** Resource i, or the null that ends the list. */
  ghost function At(rs: seq<Resource>, i: nat): Resource? {
    if i < |rs| then rs[i] else null
  }

  /** No resource twice, and no client in two resources. */
  ghost predicate Separate(rs: seq<Resource>) {
    && Distinct(rs)
    && forall i, j :: 0 <= i < j < |rs| ==> rs[i].client != rs[j].client
  }

  lemma Spliced(was: seq<Resource>, rs: seq<Resource>, i: nat)
    requires i + 1 < |was| && rs == was[..i + 1] + was[i + 2..] && Separate(was)
    ensures Separate(rs)
    ensures forall k :: 0 <= k <= i ==> rs[k] == was[k]
    ensures forall k :: i < k < |rs| ==> rs[k] == was[k + 1]
    ensures forall m :: 0 <= m <= i ==> At(rs, m) == At(was, m)
    ensures forall m :: i < m <= |rs| ==> At(rs, m) == At(was, m + 1)
  {
    forall m | i < m <= |rs| ensures At(rs, m) == At(was, m + 1) {
      if m < |rs| {
        assert rs[m] == was[m + 1];
      }
    }
  }

  class AzureIot {
    var header: Resource?
    ghost var list: seq<Resource>

    /** The list is the sequence: acyclic, nothing shared. */
    ghost predicate Valid()
      reads this, list
    {
      && header == At(list, 0)
      && Separate(list)
      && forall i {:trigger list[i].next} :: 0 <= i < |list| ==> list[i].next == At(list, i + 1)
    }

    constructor ()
      ensures Valid() && list == []
    {
      header, list := null, [];
    }

    /** nx_azure_iot_resource_add */
    method Add(resource: Resource) returns (status: nat)
      requires Valid() && resource !in list && forall r :: r in list ==> r.client != resource.client
      modifies this, resource
      ensures Valid() && status == SUCCESS && list == [resource] + old(list)
    {
      resource.next := header;
      header := resource;
      ghost var was := list;
      list := [resource] + list;
      assert forall i :: 0 < i < |list| ==> list[i] == was[i - 1] && At(list, i + 1) == At(was, i);
      return SUCCESS;
    }

    /** nx_azure_iot_resource_remove */
    method Remove(resource: Resource) returns (status: nat)
      requires Valid()
      modifies this, list
      ensures Valid() && list == Without(old(list), resource)
      ensures status == if resource in old(list) then SUCCESS else NOT_FOUND
      ensures resource !in old(list) ==>
                header == old(header) && forall r :: r in old(list) ==> r.next == old(r.next)
      ensures resource.next == old(resource.next)
    {
      if header == null {
        return NOT_FOUND;
      }
      if header == resource {
        header := header.next;
        list := list[1..];
        return SUCCESS;
      }
      var previous := header;
      ghost var i := 0;
      while previous.next != null
        invariant i < |list| && previous == list[i] && resource !in list[..i + 1]
        invariant Valid() && list == old(list) && header == old(header)
        invariant forall r :: r in old(list) ==> r.next == old(r.next)
        invariant resource.next == old(resource.next)
        decreases |list| - i
      {
        assert previous.next == At(list, i + 1);
        if previous.next == resource {
          UnlinkAfter(previous, resource, i);
          return SUCCESS;
        }
        previous := previous.next;
        i := i + 1;
      }
      assert previous.next == At(list, i + 1);
      assert list[..i + 1] == list;
      WithoutAbsent(list, resource);
      return NOT_FOUND;
    }

    method UnlinkAfter(previous: Resource, resource: Resource, ghost i: nat)
      requires Valid() && i + 1 < |list| && previous == list[i] && resource == list[i + 1] == previous.next
      requires resource !in list[..i + 1]
      modifies this`list, previous
      ensures Valid() && list == Without(old(list), resource)
    {
      assert resource.next == At(list, i + 2);
      previous.next := previous.next.next;
      WithoutAt(list, resource, i + 1);
      ghost var was := list;
      list := list[..i + 1] + list[i + 2..];
      Spliced(was, list, i);
    }

    /** The loop of nx_azure_iot_resource_search. */
    method Find(client: Client) returns (found: Resource?)
      requires Valid()
      ensures found != null ==> found in list && found.client == client
      ensures found == null <==> forall r :: r in list ==> r.client != client
    {
      found := header;
      ghost var i := 0;
      while found != null
        invariant i <= |list| && found == At(list, i)
        invariant forall k :: 0 <= k < i ==> list[k].client != client
        decreases |list| - i
      {
        if found.client == client {
          return;
        }
        assert list[i].next == At(list, i + 1);
        found := found.next;
        i := i + 1;
      }
    }
  }

  /** nx_azure_iot_resource_search: the owner of the client in the created instance, if any. */
  method ResourceSearch(created: AzureIot?, client: Client?) returns (found: Resource?)
    requires created != null ==> created.Valid()
    ensures found != null ==> created != null && found in created.list && found.client == client
    ensures found == null <==>
              created == null || client == null || forall r :: r in created.list ==> r.client != client
  {
    if created == null || client == null {
      return null;
    }
    found := created.Find(client);
  }

  // ----- runs -----

  datatype Op<T> = Add(x: T) | Remove(x: T)

  /** The list after one operation. */
  function Step<T(==)>(s: seq<T>, op: Op<T>): seq<T> {
    match op
    case Add(x) => [x] + s
    case Remove(x) => Without(s, x)
  }

  function Run<T(==)>(s: seq<T>, ops: seq<Op<T>>): seq<T>
    decreases |ops|
  {
    if ops == [] then s else Step(Run(s, ops[..|ops| - 1]), ops[|ops| - 1])
  }

  /** Nothing is added while it is listed. */
  ghost predicate AddsAbsent<T>(ops: seq<Op<T>>)
    decreases |ops|
  {
    ops != [] ==>
      var front, op := ops[..|ops| - 1], ops[|ops| - 1];
      AddsAbsent(front) && (op.Add? ==> op.x !in Run([], front))
  }

  /** x was added at step k and has not been removed since. */
  ghost predicate Present<T>(ops: seq<Op<T>>, x: T, k: nat) {
    k < |ops| && ops[k] == Op<T>.Add(x) && Op<T>.Remove(x) !in ops[k..]
  }

  lemma WithoutMembers<T>(s: seq<T>, x: T)
    requires Distinct(s)
    ensures Distinct(Without(s, x)) && forall y :: y in Without(s, x) <==> y in s && y != x
    ensures |Without(s, x)| == if x in s then |s| - 1 else |s|
  {
    if s != [] {
      assert Distinct(s[1..]);
      WithoutMembers(s[1..], x);
      assert s == [s[0]] + s[1..];
      assert s[0] !in s[1..];
    }
  }

  lemma StepMembers<T>(s: seq<T>, op: Op<T>, x: T)
    requires Distinct(s) && (op.Add? ==> op.x !in s)
    ensures Distinct(Step(s, op))
    ensures x in Step(s, op) <==> op == Op<T>.Add(x) || (x in s && op != Op<T>.Remove(x))
  {
    WithoutMembers(s, op.x);
  }

  /** Over any run from the empty list that adds only what is absent, nothing is ever listed twice, and
      a resource is listed exactly if it was added and not removed since. */
  lemma {:induction false} RunsStayDistinct<T>(ops: seq<Op<T>>, x: T)
    requires AddsAbsent(ops)
    ensures Distinct(Run([], ops))
    ensures x in Run([], ops) <==> exists k :: Present(ops, x, k)
    decreases |ops|
  {
    if ops != [] {
      var front, op := ops[..|ops| - 1], ops[|ops| - 1];
      RunsStayDistinct(front, x);
      StepMembers(Run([], front), op, x);
      PresentStep(front, op, x);
      assert ops == front + [op];
    }
  }

  lemma PresentStep<T>(front: seq<Op<T>>, op: Op<T>, x: T)
    ensures (exists k :: Present(front + [op], x, k)) <==>
              op == Op<T>.Add(x) || ((exists k :: Present(front, x, k)) && op != Op<T>.Remove(x))
  {
    var ops := front + [op];
    forall k | 0 <= k < |front| ensures Present(ops, x, k) <==> Present(front, x, k) && op != Op<T>.Remove(x) {
      assert ops[k..] == front[k..] + [op];
    }
    if op == Op<T>.Add(x) {
      assert ops[|front|..] == [op];
      assert Present(ops, x, |front|);
    }
    if k :| Present(front, x, k) && op != Op<T>.Remove(x) {
      assert Present(ops, x, k);
    }
  }

  /** Removing what was just added restores the list, order and all. */
  lemma RemoveUndoesAdd<T>(s: seq<T>, x: T)
    requires x !in s
    ensures Step(Step(s, Op<T>.Add(x)), Op<T>.Remove(x)) == s
  {
  }

  /** Removing one resource keeps the order of the others. */
  lemma {:induction false} RemoveKeepsOrder<T>(s: seq<T>, x: T, i: nat, j: nat)
    requires Distinct(s) && i < j < |s| && s[i] != x && s[j] != x
    ensures exists m, n :: 0 <= m < n < |Without(s, x)| && Without(s, x)[m] == s[i] && Without(s, x)[n] == s[j]
  {
    var w := Without(s, x);
    if s[0] == x {
      assert w[i - 1] == s[i] && w[j - 1] == s[j];
    } else if i > 0 {
      RemoveKeepsOrder(s[1..], x, i - 1, j - 1);
      var m, n :| 0 <= m < n < |Without(s[1..], x)| && Without(s[1..], x)[m] == s[i] && Without(s[1..], x)[n] == s[j];
      assert w[m + 1] == s[i] && w[n + 1] == s[j];
    } else {
      assert Distinct(s[1..]);
      WithoutMembers(s[1..], x);
      assert s[1..][j - 1] == s[j];
      assert s[j] in Without(s[1..], x);
      var n :| 0 <= n < |Without(s[1..], x)| && Without(s[1..], x)[n] == s[j];
      assert w[0] == s[i] && w[n + 1] == s[j];
    }
  }
}
