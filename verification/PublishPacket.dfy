/** Publishing a packet: room reserved in front of the data, the header written into it in place,
    the packet handed to the MQTT client. */
module PublishPacket {
  import opened Common
  import opened PacketBuffer
  import opened PacketChain
  import opened MqttFraming

  const INVALID_PACKET := 0x20004

  /** The buffer with the header written in front of its live bytes; None if there is no room. */
  function HeaderAdded(b: Buf, length: nat, topicLength: nat, qos: nat): Option<Buf>
    requires b.prepend <= |b.data|
  {
    if b.prepend < OFFSET then None
    else
      var start := b.prepend - OFFSET;
      Some(Buf(b.data[..start] + Header(length, topicLength, qos) + b.data[b.prepend..], start, b.append))
  }

  /** The header bytes, stored one by one. */
  method WriteHeader(buffer: array<Byte>, at: nat, packetLength: nat, topicLength: nat, qos: nat)
    requires at + OFFSET <= buffer.Length
    modifies buffer
    ensures forall i :: 0 <= i < OFFSET ==> buffer[at + i] == Header(packetLength, topicLength, qos)[i]
    ensures forall i :: 0 <= i < buffer.Length && !(at <= i < at + OFFSET) ==> buffer[i] == old(buffer[i])
  {
    buffer[at] := PUBLISH_FLAGS;
    if qos == 1 {
      buffer[at] := PUBLISH_FLAGS + QOS_1_FLAG;
    }
    buffer[at + 5] := topicLength / 256 % 256;
    buffer[at + 6] := topicLength % 256;
    var length := (packetLength + 2) % UINT_SIZE;
    buffer[at + 1] := length % 128 + 128;
    length := length / 128;
    buffer[at + 2] := length % 128 + 128;
    length := length / 128;
    buffer[at + 3] := length % 128 + 128;
    length := length / 128;
    buffer[at + 4] := length % 128;
  }

  lemma InPlace(before: seq<Byte>, after: seq<Byte>, at: nat, h: seq<Byte>)
    requires |before| == |after| && at + |h| <= |after|
    requires forall i :: 0 <= i < |h| ==> after[at + i] == h[i]
    requires forall i :: 0 <= i < |after| && !(at <= i < at + |h|) ==> after[i] == before[i]
    ensures after == before[..at] + h + before[at + |h|..]
  {
    forall i | 0 <= i < |after| ensures after[i] == (before[..at] + h + before[at + |h|..])[i] {
      if at <= i < at + |h| {
        assert after[at + (i - at)] == h[i - at];
      }
    }
  }

  /** nx_azure_iot_publish_packet_header_add */
  method HeaderAdd(packet: Packet, topicLength: nat, qos: nat) returns (status: nat)
    requires packet.prepend <= packet.buffer.Length
    modifies packet`prepend, packet`length, packet.buffer
    ensures status == SUCCESS <==> old(packet.prepend) >= OFFSET
    ensures status != SUCCESS ==>
              status == INVALID_PACKET && packet.View() == old(packet.View()) && packet.length == old(packet.length)
    ensures status == SUCCESS ==>
              && HeaderAdded(old(packet.View()), old(packet.length), topicLength, qos) == Some(packet.View())
              && packet.length == (old(packet.length) + OFFSET) % UINT_SIZE
  {
    if OFFSET > packet.prepend {
      return INVALID_PACKET;
    }
    var at := packet.prepend - OFFSET;
    ghost var before := packet.buffer[..];
    WriteHeader(packet.buffer, at, packet.length, topicLength, qos);
    InPlace(before, packet.buffer[..], at, Header(packet.length, topicLength, qos));
    packet.prepend := at;
    packet.length := (packet.length + OFFSET) % UINT_SIZE;
    return SUCCESS;
  }

  /** nx_azure_iot_publish_packet_get; allocateStatus and supplied are what the MQTT client's packet
      allocation answers. */
  method PacketGet(allocateStatus: nat, supplied: Packet) returns (status: nat)
    modifies supplied`prepend
    ensures status == allocateStatus
    ensures status != SUCCESS ==> supplied.prepend == old(supplied.prepend)
    ensures status == SUCCESS ==> supplied.prepend == old(supplied.prepend) + OFFSET
  {
    if allocateStatus != SUCCESS {
      return allocateStatus;
    }
    supplied.prepend := supplied.prepend + OFFSET;
    return SUCCESS;
  }

  /** nx_azure_iot_publish_mqtt_packet up to the call that sends the packet: the identifier it passes
      on is the one in the two bytes, or 0 at QoS 0. */
  method PublishMqttPacket(packet: Packet, topicLength: nat, packetId: seq<Byte>, qos: nat)
    returns (status: nat, id: nat)
    requires packet.prepend <= packet.buffer.Length
    requires qos != 0 ==> |packetId| >= 2
    modifies packet`prepend, packet`length, packet.buffer
    ensures status == SUCCESS <==> old(packet.prepend) >= OFFSET
    ensures status != SUCCESS ==>
              status == INVALID_PACKET && packet.View() == old(packet.View()) && packet.length == old(packet.length)
    ensures status == SUCCESS ==>
              && HeaderAdded(old(packet.View()), old(packet.length), topicLength, qos) == Some(packet.View())
              && packet.length == (old(packet.length) + OFFSET) % UINT_SIZE
              && id == if qos != 0 then Pair(packetId[0], packetId[1]) else 0
  {
    id := 0;
    status := HeaderAdd(packet, topicLength, qos);
    if status != SUCCESS {
      return;
    }
    if qos != 0 {
      id := Pair(packetId[0], packetId[1]);
    }
  }

  /** The header takes the seven bytes in front of the data and changes nothing else. */
  lemma HeaderOnlyInFront(b: Buf, length: nat, topicLength: nat, qos: nat)
    requires b.Ok() && b.prepend >= OFFSET && length + 2 < UINT_SIZE
    ensures var o := HeaderAdded(b, length, topicLength, qos);
            && o.Some? && var r := o.value;
            && r.Ok() && r.prepend == b.prepend - OFFSET && r.append == b.append && |r.data| == |b.data|
            && r.data[..r.prepend] == b.data[..r.prepend] && r.data[b.prepend..] == b.data[b.prepend..]
            && r.Live() == Header(length, topicLength, qos) + b.Live()
  {
    var r := HeaderAdded(b, length, topicLength, qos).value;
    HeaderShape(length, topicLength, qos);
    assert r.data[r.prepend..b.append] == Header(length, topicLength, qos) + b.data[b.prepend..b.append];
  }

  /** Header and reservation agree. A packet whose prepend is still at least seven above the headroom
      it was allocated with always passes the room check and stays clear of the headroom; and over
      the whole chain, of which `more` lies in later packets, the decoder reads back the new packet
      length less the five bytes of the fixed header. */
  lemma {:induction false} ReservationSuffices(b: Buf, headroom: nat, more: seq<Byte>, topicLength: nat, qos: nat)
    requires b.Ok() && b.prepend >= headroom + OFFSET
    requires |b.Live()| + |more| + 2 < LENGTH_LIMIT
    ensures var length := |b.Live()| + |more|;
            var o := HeaderAdded(b, length, topicLength, qos);
            && o.Some? && o.value.Ok() && o.value.prepend >= headroom
            && ReadRemainingLength(o.value.Live() + more) == Parsed(length + OFFSET - 5, 5)
  {
    var length := |b.Live()| + |more|;
    HeaderOnlyInFront(b, length, topicLength, qos);
    HeaderReads(b.Live() + more, topicLength, qos, []);
    var h := Header(length, topicLength, qos);
    assert h + (b.Live() + more) + [] == h + b.Live() + more;
  }

  /** A published message: the live bytes of its chain become exactly its frame. */
  lemma PublishedIsFrame(b: Buf, more: seq<Byte>, p: Publish)
    requires b.Ok() && b.prepend >= OFFSET && WellFormed(p) && b.Live() + more == Content(p)
    ensures var o := HeaderAdded(b, |Content(p)|, |p.topic|, p.qos);
            && o.Some? && o.value.Ok()
            && o.value.Live() + more == Frame(p)
  {
    HeaderOnlyInFront(b, |Content(p)|, |p.topic|, p.qos);
    var h := Header(|Content(p)|, |p.topic|, p.qos);
    assert h + b.Live() + more == h + (b.Live() + more);
  }
}
