/** MQTT packet identifiers (OASIS MQTT 3.1.1, section 2.3.1): two bytes taken from a counter that
    skips zero. */
module PacketIds {
  import opened Common
  import opened PacketBuffer
  import opened MqttFraming

  const DISCONNECTED := 0x2000C

  /** How a request for an identifier can end. */
  datatype Attempt = MutexFails(status: nat) | NotConnected | Connected

  function AttemptOf(mutexStatus: nat, connected: bool): Attempt {
    if mutexStatus != 0 then MutexFails(mutexStatus) else if connected then Connected else NotConnected
  }

  function NextId(id: nat): nat {
    var next := (id + 1) % 65536;
    if next == 0 then 1 else next
  }

  function IdBytes(id: nat): (Byte, Byte) {
    (id / 256 % 256, id % 256)
  }

  /** The two bytes rebuild the identifier at publish time. */
  lemma BytesRebuildId(id: nat)
    requires id < 65536
    ensures Pair(IdBytes(id).0, IdBytes(id).1) == id
  {
    PairOf(id);
  }

  /** The identifiers handed out by a series of attempts, and the counter after it. */
  function Handed(id: nat, attempts: seq<Attempt>): (seq<nat>, nat)
    decreases |attempts|
  {
    if attempts == [] then ([], id)
    else if attempts[0] == Connected then
      var (ids, last) := Handed(NextId(id), attempts[1..]);
      ([id] + ids, last)
    else
      Handed(id, attempts[1..])
  }

  /** The k-th identifier after id, counting from 0. */
  function KthId(id: nat, k: nat): nat
    requires 1 <= id
  {
    (id - 1 + k) % 65535 + 1
  }

  lemma NextIsOneOn(id: nat, k: nat)
    requires 1 <= id < 65536
    ensures 1 <= NextId(id) < 65536 && KthId(NextId(id), k) == KthId(id, k + 1)
  {
    if id == 65535 {
      assert (id - 1 + (k + 1)) % 65535 == k % 65535;
    }
  }

  /** Identifiers cycle: over any series of attempts, failed ones changing nothing, the k-th
      successful one hands out the k-th identifier of the cycle 1 .. 65535 from the start. */
  lemma {:induction false} IdsCycle(id: nat, attempts: seq<Attempt>)
    requires 1 <= id < 65536
    ensures var (ids, last) := Handed(id, attempts);
            && (forall k :: 0 <= k < |ids| ==> ids[k] == KthId(id, k))
            && last == KthId(id, |ids|)
            && |ids| == multiset(attempts)[Connected]
    decreases |attempts|
  {
    if attempts != [] {
      assert attempts == [attempts[0]] + attempts[1..];
      if attempts[0] == Connected {
        NextIsOneOn(id, |Handed(NextId(id), attempts[1..]).0|);
        IdsCycle(NextId(id), attempts[1..]);
        forall k | 0 < k < |Handed(id, attempts).0| ensures Handed(id, attempts).0[k] == KthId(id, k) {
          NextIsOneOn(id, k - 1);
        }
      } else {
        IdsCycle(id, attempts[1..]);
      }
    }
  }

  lemma HandedOne(id: nat, a: Attempt)
    ensures Handed(id, [a]) == if a == Connected then ([id], NextId(id)) else ([], id)
  {
    assert [a][1..] == [];
    assert Handed(NextId(id), [a][1..]) == ([], NextId(id)) && [id] + [] == [id];
  }

  /** A further attempt hands out the counter if it succeeds. */
  lemma {:induction false} HandedAppend(id: nat, attempts: seq<Attempt>, a: Attempt)
    ensures var (ids, last) := Handed(id, attempts);
            Handed(id, attempts + [a]) == if a == Connected then (ids + [last], NextId(last)) else (ids, last)
    decreases |attempts|
  {
    if attempts == [] {
      HandedOne(id, a);
      assert attempts + [a] == [a] && [] + [id] == [id];
    } else {
      var next := if attempts[0] == Connected then NextId(id) else id;
      HandedAppend(next, attempts[1..], a);
      assert (attempts + [a])[1..] == attempts[1..] + [a];
      var (ids, last) := Handed(next, attempts[1..]);
      assert [id] + (ids + [last]) == [id] + ids + [last];
    }
  }

  lemma CycleLength(id: nat, j: nat, k: nat)
    requires 1 <= id && j < k
    ensures 1 <= KthId(id, j) < 65536
    ensures k - j < 65535 ==> KthId(id, j) != KthId(id, k)
    ensures k - j == 65535 ==> KthId(id, j) == KthId(id, k)
  {
  }

  /** So none is zero, any 65535 in a row are distinct, and the 65536th is the first again. */
  lemma IdsAreDistinct(id: nat, attempts: seq<Attempt>, j: nat, k: nat)
    requires 1 <= id < 65536
    ensures var ids := Handed(id, attempts).0;
            j < k < |ids| ==>
              && 1 <= ids[j] < 65536 && Pair(IdBytes(ids[j]).0, IdBytes(ids[j]).1) == ids[j]
              && (k - j < 65535 ==> ids[j] != ids[k])
              && (k - j == 65535 ==> ids[j] == ids[k])
  {
    IdsCycle(id, attempts);
    if j < k {
      CycleLength(id, j, k);
      BytesRebuildId(KthId(id, j));
    }
  }

  class MqttClient {
    var packetIdentifier: nat
    var connected: bool
    ghost var attempts: seq<Attempt>   // all calls so far
    ghost var handed: seq<nat>         // and the identifiers they handed out

    /** The client is where its calls have led it from the first identifier. */
    ghost predicate Recorded()
      reads this
    {
      Handed(1, attempts) == (handed, packetIdentifier)
    }

    constructor ()
      ensures packetIdentifier == 1 && !connected
      ensures Recorded() && attempts == []
    {
      packetIdentifier := 1;
      connected := false;
      attempts, handed := [], [];
    }

    /** nx_azure_iot_mqtt_packet_id_get; mutexStatus is what taking the mutex answers. */
    method PacketIdGet(mutexStatus: nat, packetId: array<Byte>) returns (status: nat)
      requires packetId.Length >= 2
      modifies this`packetIdentifier, this`attempts, this`handed, packetId
      ensures mutexStatus != 0 ==> status == mutexStatus
      ensures mutexStatus == 0 && !connected ==> status == DISCONNECTED
      ensures mutexStatus == 0 && connected ==> status == SUCCESS
      ensures status != SUCCESS ==> packetIdentifier == old(packetIdentifier) && packetId[..] == old(packetId[..])
      ensures status == SUCCESS ==>
                && packetIdentifier == NextId(old(packetIdentifier))
                && (packetId[0], packetId[1]) == IdBytes(old(packetIdentifier))
                && packetId[2..] == old(packetId[2..])
      ensures attempts == old(attempts) + [AttemptOf(mutexStatus, connected)]
      ensures handed == if status == SUCCESS then old(handed) + [old(packetIdentifier)] else old(handed)
      ensures old(Recorded()) ==> Recorded()
    {
      HandedAppend(1, attempts, AttemptOf(mutexStatus, connected));
      attempts := attempts + [AttemptOf(mutexStatus, connected)];
      if mutexStatus != 0 {
        return mutexStatus;
      }
      if !connected {
        return DISCONNECTED;
      }
      handed := handed + [packetIdentifier];
      packetId[0] := packetIdentifier / 256 % 256;
      packetId[1] := packetIdentifier % 256;
      packetIdentifier := (packetIdentifier + 1) % 65536;
      if packetIdentifier == 0 {
        packetIdentifier := 1;
      }
      return SUCCESS;
    }
  }

  /** Whatever attempts have been made on a client, the identifiers it has handed out are the cycle
      1 .. 65535 from its beginning, one for each success. */
  lemma ClientIdsCycle(client: MqttClient)
    requires client.Recorded()
    ensures |client.handed| == multiset(client.attempts)[Connected]
    ensures forall k :: 0 <= k < |client.handed| ==> client.handed[k] == k % 65535 + 1
    ensures client.packetIdentifier == |client.handed| % 65535 + 1
  {
    IdsCycle(1, client.attempts);
  }
}
