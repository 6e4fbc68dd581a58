/** PUBLISH frames as bytes: the fixed-size header the Azure IoT client writes, and the decoder of the
    MQTT client (OASIS MQTT 3.1.1, sections 2.2.3 and 3.3) that has to make sense of it. */
module MqttFraming {
  import opened Common
  import opened PacketBuffer

  const OFFSET := 7                     // NX_AZURE_IOT_PUBLISH_PACKET_START_OFFSET
  const PUBLISH_FLAGS: Byte := 0x30     // MQTT_CONTROL_PACKET_TYPE_PUBLISH << 4
  const QOS_1_FLAG := 0x02              // MQTT_PUBLISH_QOS_LEVEL_1
  const LENGTH_LIMIT := 0x1000_0000     // 2^28, what four length bytes can hold

  type Id = x: int | 0 <= x < 65536

  // ----- writing -----

  /** A length in exactly four bytes, seven bits each, all but the last marked as continued. */
  function FixedLength(n: nat): seq<Byte> {
    [n % 128 + 128, n / 128 % 128 + 128, n / 128 / 128 % 128 + 128, n / 128 / 128 / 128 % 128]
  }

  /** The seven bytes in front of a packet of `length` bytes that starts with its topic. */
  function Header(length: nat, topicLength: nat, qos: nat): seq<Byte> {
    [if qos == 1 then PUBLISH_FLAGS + QOS_1_FLAG else PUBLISH_FLAGS]
    + FixedLength((length + 2) % UINT_SIZE)
    + [topicLength / 256 % 256, topicLength % 256]
  }

  // ----- reading -----

  datatype Parse = Partial | Malformed | Parsed(remaining: nat, offset: nat)

  /** The loop over at most four length bytes: value so far, weight of the next byte, bytes read. */
  function ReadLength(bytes: seq<Byte>, value: nat, multiplier: nat, count: nat): Parse
    requires count <= |bytes| <= 4
    decreases |bytes| - count
  {
    if count == |bytes| then (if count == 4 then Malformed else Partial)
    else
      var value' := value + bytes[count] % 128 * multiplier;
      if bytes[count] >= 128 then ReadLength(bytes, value', multiplier * 128, count + 1)
      else Parsed(value', count + 1)
  }

  /** _nxd_mqtt_read_remaining_length */
  function ReadRemainingLength(stream: seq<Byte>): (p: Parse)
    ensures p.Parsed? ==> 0 < p.offset && p.offset + p.remaining <= |stream|
  {
    if |stream| <= 1 then Partial
    else
      match ReadLength(stream[1..if |stream| < 5 then |stream| else 5], 0, 1, 0)
      case Parsed(value, count) =>
        if 1 + count + value > |stream| then Partial else Parsed(value, 1 + count)
      case other => other
  }

  // ----- what a length field says -----

  /** Seven bits a byte, the least significant first. */
  function Base128(bytes: seq<Byte>): nat {
    if bytes == [] then 0 else bytes[0] % 128 + 128 * Base128(bytes[1..])
  }

  /** A length field as the standard defines it: the last byte below 128, all others marked. */
  ghost predicate LengthField(bytes: seq<Byte>) {
    && bytes != [] && bytes[|bytes| - 1] < 128
    && forall i :: 0 <= i < |bytes| - 1 ==> bytes[i] >= 128
  }

  lemma Weighted(value: nat, multiplier: nat, digit: nat, rest: nat)
    ensures value + multiplier * (digit + 128 * rest) == value + digit * multiplier + (multiplier * 128) * rest
  {
  }

  lemma FieldFrom(bytes: seq<Byte>, n: nat)
    requires 1 < n <= |bytes|
    ensures bytes[..n][1..] == bytes[1..][..n - 1]
    ensures LengthField(bytes[..n]) <==> bytes[0] >= 128 && LengthField(bytes[1..][..n - 1])
  {
    var field, rest := bytes[..n], bytes[1..][..n - 1];
    assert forall i :: 0 <= i < n - 1 ==> rest[i] == field[i + 1];
  }

  /** A byte that is not marked ends the field. */
  lemma LengthEnds(bytes: seq<Byte>, value: nat, multiplier: nat, count: nat, n: nat)
    requires count < n <= |bytes| <= 4 && bytes[count] < 128
    ensures ReadLength(bytes, value, multiplier, count) == Parsed(value + bytes[count] % 128 * multiplier, count + 1)
    ensures LengthField(bytes[count..][..n - count]) <==> n == count + 1
    ensures Base128(bytes[count..][..1]) == bytes[count] % 128
  {
    var field := bytes[count..][..n - count];
    assert field[0] == bytes[count];
    assert bytes[count..][..1][1..] == [];
  }

  lemma ProductCommutes(x: nat, y: nat)
    ensures x * y == y * x
  {
  }

  /** The loop parses exactly the length fields. */
  lemma {:induction false} ReadLengthRule(bytes: seq<Byte>, value: nat, multiplier: nat, count: nat, n: nat)
    requires count < n <= |bytes| <= 4
    ensures var p := ReadLength(bytes, value, multiplier, count);
            && (LengthField(bytes[count..][..n - count]) <==> p.Parsed? && p.offset == n)
            && (p.Parsed? && p.offset == n ==> p.remaining == value + multiplier * Base128(bytes[count..][..n - count]))
    decreases n - count, 1
  {
    if bytes[count] < 128 {
      LengthEnds(bytes, value, multiplier, count, n);
      ProductCommutes(multiplier, bytes[count] % 128);
    } else if count + 1 == n {
      ParsesBeyond(bytes, value + bytes[count] % 128 * multiplier, multiplier * 128, count + 1);
    } else {
      LengthGoesOn(bytes, value, multiplier, count, n);
    }
  }

  lemma {:induction false} LengthGoesOn(bytes: seq<Byte>, value: nat, multiplier: nat, count: nat, n: nat)
    requires count + 1 < n <= |bytes| <= 4 && bytes[count] >= 128
    ensures var p := ReadLength(bytes, value, multiplier, count);
            && (LengthField(bytes[count..][..n - count]) <==> p.Parsed? && p.offset == n)
            && (p.Parsed? && p.offset == n ==> p.remaining == value + multiplier * Base128(bytes[count..][..n - count]))
    decreases n - count, 0
  {
    var field, rest := bytes[count..][..n - count], bytes[count + 1..][..n - count - 1];
    FieldFrom(bytes[count..], n - count);
    assert bytes[count..][1..] == bytes[count + 1..] && field[1..] == rest;
    ReadLengthRule(bytes, value + bytes[count] % 128 * multiplier, multiplier * 128, count + 1, n);
    Weighted(value, multiplier, bytes[count] % 128, Base128(rest));
  }

  lemma ParsesBeyond(bytes: seq<Byte>, value: nat, multiplier: nat, count: nat)
    requires count <= |bytes| <= 4
    ensures var p := ReadLength(bytes, value, multiplier, count); p.Parsed? ==> count < p.offset <= |bytes|
    decreases |bytes| - count
  {
  }

  lemma {:induction false} ReadLengthMalformed(bytes: seq<Byte>, value: nat, multiplier: nat, count: nat)
    requires count <= |bytes| <= 4
    ensures ReadLength(bytes, value, multiplier, count).Malformed? <==>
              |bytes| == 4 && forall i :: count <= i < 4 ==> bytes[i] >= 128
    decreases |bytes| - count
  {
    if count < |bytes| {
      ReadLengthMalformed(bytes, value + bytes[count] % 128 * multiplier, multiplier * 128, count + 1);
    }
  }

  /** The n bytes after the first are a length field whose frame the stream holds to its end. */
  ghost predicate FrameStarts(stream: seq<Byte>, n: nat) {
    && 1 <= n <= 4 && n < |stream| && LengthField(stream[1..1 + n])
    && 1 + n + Base128(stream[1..1 + n]) <= |stream|
  }

  /** The bytes the loop looks at. */
  function LengthBytes(stream: seq<Byte>): (bytes: seq<Byte>)
    requires |stream| > 1
    ensures |bytes| == (if |stream| < 5 then |stream| else 5) - 1
    ensures forall i :: 0 <= i < |bytes| ==> bytes[i] == stream[i + 1]
  {
    stream[1..if |stream| < 5 then |stream| else 5]
  }

  lemma MalformedRule(stream: seq<Byte>)
    ensures ReadRemainingLength(stream).Malformed? <==> |stream| >= 5 && forall i :: 1 <= i < 5 ==> stream[i] >= 128
  {
    if |stream| > 1 {
      var bytes := LengthBytes(stream);
      ReadLengthMalformed(bytes, 0, 1, 0);
      if |stream| >= 5 {
        assert bytes[0] == stream[1] && bytes[1] == stream[2] && bytes[2] == stream[3] && bytes[3] == stream[4];
      }
    }
  }

  lemma AcceptedRule(stream: seq<Byte>, n: nat)
    ensures var p := ReadRemainingLength(stream);
            && (FrameStarts(stream, n) <==> p.Parsed? && p.offset == 1 + n)
            && (p.Parsed? && p.offset == 1 + n ==> p.remaining == Base128(stream[1..1 + n]))
  {
    if |stream| > 1 {
      var bytes := LengthBytes(stream);
      ParsesBeyond(bytes, 0, 1, 0);
      if 1 <= n <= |bytes| {
        assert bytes[0..][..n] == stream[1..1 + n];
        ReadLengthRule(bytes, 0, 1, 0, n);
      }
    }
  }

  /** The reader accepts exactly the length fields of section 2.2.3 of the standard whose frame is all
      there, and reads their value; it calls malformed exactly what has four bytes marked as continued. */
  lemma RemainingLengthRule(stream: seq<Byte>, n: nat)
    ensures var p := ReadRemainingLength(stream);
            && (FrameStarts(stream, n) <==> p.Parsed? && p.offset == 1 + n)
            && (p.Parsed? && p.offset == 1 + n ==> p.remaining == Base128(stream[1..1 + n]))
            && (p.Malformed? <==> |stream| >= 5 && forall i :: 1 <= i < 5 ==> stream[i] >= 128)
  {
    AcceptedRule(stream, n);
    MalformedRule(stream);
  }

  /** The frames a byte stream is cut into by the Remaining Length rule; None if a frame is incomplete
      or malformed. */
  function Split(stream: seq<Byte>): Option<seq<seq<Byte>>>
    decreases |stream|
  {
    if stream == [] then Some([])
    else
      match ReadRemainingLength(stream)
      case Parsed(remaining, offset) =>
        (match Split(stream[offset + remaining..])
         case Some(frames) => Some([stream[..offset + remaining]] + frames)
         case None => None)
      case _ => None
  }

  /** A QoS 0 or QoS 1 message; the identifier is 0 at QoS 0, where none is sent. */
  datatype Publish = Publish(qos: nat, topic: seq<Byte>, id: Id, payload: seq<Byte>)

  function Pair(high: Byte, low: Byte): Id {
    (high as int) * 256 + low as int
  }

  /** The body of a frame: topic length, topic, identifier at QoS 1 and 2, payload. */
  function DecodeBody(qos: nat, body: seq<Byte>): Option<Publish> {
    if |body| < 2 then None
    else
      var topicEnd := 2 + Pair(body[0], body[1]);
      if topicEnd > |body| then None
      else if qos != 1 && qos != 2 then Some(Publish(qos, body[2..topicEnd], 0, body[topicEnd..]))
      else if topicEnd + 2 > |body| then None
      else Some(Publish(qos, body[2..topicEnd], Pair(body[topicEnd], body[topicEnd + 1]), body[topicEnd + 2..]))
  }

  /** The first byte of a packet (sections 2.2 and 3.3.1 of the standard). */
  datatype Flags = Flags(kind: nat, dup: bool, qos: nat, retain: bool)

  function FlagsOf(b: Byte): Flags {
    Flags(b / 16, b / 8 % 2 == 1, b / 2 % 4, b % 2 == 1)
  }

  const PUBLISH_TYPE := 3               // MQTT_CONTROL_PACKET_TYPE_PUBLISH

  /** The dispatch on the packet type, _nxd_mqtt_process_publish_packet, and the identifier as
      _nxd_mqtt_process_publish reads it. */
  function Decode(frame: seq<Byte>): Option<Publish> {
    match ReadRemainingLength(frame)
    case Parsed(remaining, offset) =>
      if FlagsOf(frame[0]).kind != PUBLISH_TYPE then None
      else DecodeBody(FlagsOf(frame[0]).qos, frame[offset..offset + remaining])
    case _ => None
  }

  // ----- they agree -----

  function IdField(p: Publish): seq<Byte> {
    if p.qos == 1 || p.qos == 2 then [p.id / 256, p.id % 256] else []
  }

  /** What the application puts into the packet before the header is added. */
  function Content(p: Publish): seq<Byte>
  {
    p.topic + IdField(p) + p.payload
  }

  predicate WellFormed(p: Publish) {
    && p.qos <= 1 && |p.topic| < 65536 && (p.qos == 0 ==> p.id == 0)
    && |Content(p)| + 2 < LENGTH_LIMIT
  }

  function Frame(p: Publish): seq<Byte>
  {
    Header(|Content(p)|, |p.topic|, p.qos) + Content(p)
  }

  lemma FourDigits(n: nat)
    requires n < UINT_SIZE
    ensures n % 128 + n / 128 % 128 * 128 + n / 128 / 128 % 128 * 16384 + n / 128 / 128 / 128 % 128 * 2097152
         == n % LENGTH_LIMIT
  {
    var a, b, c, d := n / 128, n / 128 / 128, n / 128 / 128 / 128, n / 128 / 128 / 128 / 128;
    assert n == n % 128 + 128 * (a % 128) + 16384 * (b % 128) + 2097152 * (c % 128) + LENGTH_LIMIT * d;
  }

  lemma FixedLengthReads(n: nat)
    requires n < UINT_SIZE
    ensures ReadLength(FixedLength(n), 0, 1, 0) == Parsed(n % LENGTH_LIMIT, 4)
  {
    FourDigits(n);
    FourBytesRead(FixedLength(n), n % 128, n / 128 % 128, n / 128 / 128 % 128, n / 128 / 128 / 128 % 128);
  }

  lemma FourBytesRead(s: seq<Byte>, a: nat, b: nat, c: nat, d: nat)
    requires a < 128 && b < 128 && c < 128 && d < 128 && s == [a + 128, b + 128, c + 128, d]
    ensures ReadLength(s, 0, 1, 0) == Parsed(a + b * 128 + c * 16384 + d * 2097152, 4)
  {
    var v := a + b * 128 + c * 16384;
    assert ReadLength(s, v, 2097152, 3) == Parsed(v + d * 2097152, 4);
    assert ReadLength(s, a + b * 128, 16384, 2) == ReadLength(s, v, 2097152, 3);
    assert ReadLength(s, a, 128, 1) == ReadLength(s, a + b * 128, 16384, 2);
  }

  lemma HeaderShape(length: nat, topicLength: nat, qos: nat)
    requires length + 2 < UINT_SIZE
    ensures var h := Header(length, topicLength, qos);
            && |h| == OFFSET && h[1..5] == FixedLength(length + 2)
            && h[5..] == [topicLength / 256 % 256, topicLength % 256]
            && FlagsOf(h[0]) == Flags(PUBLISH_TYPE, false, if qos == 1 then 1 else 0, false)
  {
  }

  /** The decoder finds the length modulo 2^28, whatever follows; so it finds the true length, two
      more than the packet had, if and only if that is below 2^28. */
  lemma HeaderReads(content: seq<Byte>, topicLength: nat, qos: nat, more: seq<Byte>)
    requires |content| + 2 < UINT_SIZE
    ensures var p := ReadRemainingLength(Header(|content|, topicLength, qos) + content + more);
            && p == Parsed((|content| + 2) % LENGTH_LIMIT, 5)
            && (p.remaining == |content| + 2 <==> |content| + 2 < LENGTH_LIMIT)
  {
    var n := |content| + 2;
    var h := Header(|content|, topicLength, qos);
    HeaderShape(|content|, topicLength, qos);
    FixedLengthReads(n);
    ModBelow(n);
    PrefixReads(h + content + more, FixedLength(n), n % LENGTH_LIMIT);
  }

  lemma ModBelow(n: nat)
    ensures n % LENGTH_LIMIT <= n && (n % LENGTH_LIMIT == n <==> n < LENGTH_LIMIT)
  {
  }

  lemma PrefixReads(stream: seq<Byte>, bytes: seq<Byte>, value: nat)
    requires |stream| >= 5 + value && stream[1..5] == bytes && ReadLength(bytes, 0, 1, 0) == Parsed(value, 4)
    ensures ReadRemainingLength(stream) == Parsed(value, 5)
  {
  }

  lemma PairOf(n: nat)
    requires n < 65536
    ensures Pair(n / 256 % 256, n % 256) == n && Pair(n / 256, n % 256) == n
  {
  }

  /** What a body can carry: an identifier only at QoS 1 and 2. */
  predicate Carried(p: Publish) {
    |p.topic| < 65536 && (p.qos != 1 && p.qos != 2 ==> p.id == 0)
  }

  function BodyOf(p: Publish): seq<Byte> {
    [|p.topic| / 256 % 256, |p.topic| % 256] + Content(p)
  }

  /** The body decoder is exactly the inverse of the encoding: a body is accepted with a message if and only
      if it is that message's encoding. */
  lemma DecodesExactly(qos: nat, body: seq<Byte>, p: Publish)
    ensures DecodeBody(qos, body) == Some(p) <==> p.qos == qos && Carried(p) && body == BodyOf(p)
  {
    if p.qos == qos && Carried(p) && body == BodyOf(p) {
      BodyDecodes(p, body);
    }
    if DecodeBody(qos, body) == Some(p) {
      BodyEncodes(qos, body, p);
    }
  }

  lemma PairSplits(high: Byte, low: Byte)
    ensures Pair(high, low) / 256 == high && Pair(high, low) / 256 % 256 == high && Pair(high, low) % 256 == low
  {
  }

  lemma Rejoined(body: seq<Byte>, k: nat)
    requires 2 <= k <= |body|
    ensures body == [body[0], body[1]] + (body[2..k] + body[k..])
  {
  }

  /** What follows the topic is the identifier and the payload. */
  lemma TailEncodes(qos: nat, tail: seq<Byte>, p: Publish)
    requires p.qos == qos
    requires if qos == 1 || qos == 2 then |tail| >= 2 && p.id == Pair(tail[0], tail[1]) && p.payload == tail[2..]
             else p.payload == tail
    ensures tail == IdField(p) + p.payload
  {
    if qos == 1 || qos == 2 {
      PairSplits(tail[0], tail[1]);
      assert tail == [tail[0], tail[1]] + tail[2..];
    }
  }

  lemma BodyEncodes(qos: nat, body: seq<Byte>, p: Publish)
    requires DecodeBody(qos, body) == Some(p)
    ensures p.qos == qos && Carried(p) && body == BodyOf(p)
  {
    var k := 2 + Pair(body[0], body[1]);
    PairSplits(body[0], body[1]);
    Rejoined(body, k);
    TailEncodes(qos, body[k..], p);
    Associates([body[0], body[1]], p.topic, IdField(p), p.payload);
  }

  lemma Associates(h: seq<Byte>, s: seq<Byte>, t: seq<Byte>, u: seq<Byte>)
    ensures h + (s + (t + u)) == h + (s + t + u)
  {
  }

  lemma BodyParts(h: seq<Byte>, topic: seq<Byte>, tail: seq<Byte>)
    requires |h| == 2
    ensures var body := h + (topic + tail); var k := 2 + |topic|;
            body[0] == h[0] && body[1] == h[1] && body[2..k] == topic && body[k..] == tail && |body| == k + |tail|
  {
  }

  lemma TailDecodes(p: Publish, tail: seq<Byte>)
    requires Carried(p) && tail == IdField(p) + p.payload
    ensures if p.qos == 1 || p.qos == 2 then |tail| >= 2 && Pair(tail[0], tail[1]) == p.id && tail[2..] == p.payload
            else tail == p.payload
  {
    PairOf(p.id);
  }

  lemma BodyDecodes(p: Publish, body: seq<Byte>)
    requires Carried(p) && body == BodyOf(p)
    ensures DecodeBody(p.qos, body) == Some(p)
  {
    var n := |p.topic|;
    var h, tail := [n / 256 % 256, n % 256], IdField(p) + p.payload;
    Associates(h, p.topic, IdField(p), p.payload);
    BodyParts(h, p.topic, tail);
    PairOf(n);
    TailDecodes(p, tail);
    DecodesFromParts(p, body, 2 + n);
  }

  lemma DecodesFromParts(p: Publish, body: seq<Byte>, k: nat)
    requires 2 <= k <= |body| && Pair(body[0], body[1]) == k - 2 && body[2..k] == p.topic && Carried(p)
    requires if p.qos == 1 || p.qos == 2 then
               k + 2 <= |body| && Pair(body[k], body[k + 1]) == p.id && body[k + 2..] == p.payload
             else body[k..] == p.payload
    ensures DecodeBody(p.qos, body) == Some(p)
  {
  }

  /** Each frame yields exactly the message it was made from, and is marked as a PUBLISH of its QoS that
      is neither a duplicate nor to be retained. */
  lemma DecodeFrame(p: Publish)
    requires WellFormed(p)
    ensures Decode(Frame(p)) == Some(p) && FlagsOf(Frame(p)[0]) == Flags(3, false, p.qos, false)
  {
    var content, frame := Content(p), Frame(p);
    HeaderShape(|content|, |p.topic|, p.qos);
    HeaderReads(content, |p.topic|, p.qos, []);
    assert Header(|content|, |p.topic|, p.qos) + content + [] == frame;
    BodyDecodes(p, frame[5..]);
    assert frame[5..5 + (|content| + 2)] == frame[5..];
  }

  function Stream(ps: seq<Publish>): seq<Byte>
  {
    if ps == [] then [] else Frame(ps[0]) + Stream(ps[1..])
  }

  function Frames(ps: seq<Publish>): seq<seq<Byte>>
  {
    if ps == [] then [] else [Frame(ps[0])] + Frames(ps[1..])
  }

  /** Framing is uniquely decodable: the concatenation of any well-formed messages is split into
      exactly their frames. */
  lemma {:induction false} FramingIsUnique(ps: seq<Publish>)
    requires forall p :: p in ps ==> WellFormed(p)
    ensures Split(Stream(ps)) == Some(Frames(ps))
    decreases |ps|
  {
    if ps != [] {
      FrameSplitsOff(ps[0], Stream(ps[1..]));
      FramingIsUnique(ps[1..]);
    }
  }

  lemma {:induction false} FramesAreFrames(ps: seq<Publish>)
    ensures |Frames(ps)| == |ps| && forall i :: 0 <= i < |ps| ==> Frames(ps)[i] == Frame(ps[i])
  {
    if ps != [] {
      FramesAreFrames(ps[1..]);
    }
  }

  /** And every frame of the stream gives its message back. */
  lemma {:induction false} StreamDecodes(ps: seq<Publish>, i: nat)
    requires (forall p :: p in ps ==> WellFormed(p)) && i < |ps|
    ensures var split := Split(Stream(ps));
            && split.Some? && |split.value| == |ps| && Decode(split.value[i]) == Some(ps[i])
            && FlagsOf(split.value[i][0]) == Flags(3, false, ps[i].qos, false)
  {
    FramingIsUnique(ps);
    FramesAreFrames(ps);
    DecodeFrame(ps[i]);
  }

  /** So the bytes determine the messages: no two sequences of them make the same stream. */
  lemma StreamIsInjective(ps: seq<Publish>, qs: seq<Publish>)
    requires (forall p :: p in ps ==> WellFormed(p)) && (forall q :: q in qs ==> WellFormed(q))
    requires Stream(ps) == Stream(qs)
    ensures ps == qs
  {
    FramingIsUnique(ps);
    FramingIsUnique(qs);
    FramesAreFrames(ps);
    FramesAreFrames(qs);
    forall i | 0 <= i < |ps| ensures ps[i] == qs[i] {
      DecodeFrame(ps[i]);
      DecodeFrame(qs[i]);
    }
  }

  lemma FrameSplitsOff(p: Publish, rest: seq<Byte>)
    requires WellFormed(p)
    ensures var stream := Frame(p) + rest; var n := |Frame(p)|;
            && ReadRemainingLength(stream) == Parsed(n - 5, 5)
            && stream[..n] == Frame(p) && stream[n..] == rest
  {
    HeaderShape(|Content(p)|, |p.topic|, p.qos);
    HeaderReads(Content(p), |p.topic|, p.qos, rest);
  }
}
