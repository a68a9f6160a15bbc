/** MQTT framing in the operations client: remaining length (section 2.2.3 of MQTT 3.1.1) and PUBLISH. */
module Mqtt {
  import opened Bytes

  // ----- Remaining length

  /** Base-128 digits, least significant first, with a continuation bit on all but the last. */
  function Varint(n: nat): (s: seq<Byte>)
    ensures s != []
  {
    if n < 128 then [n] else [n % 128 + 128] + Varint(n / 128)
  }

  lemma VarintDigit(m: nat)
    ensures Varint(m) == if m / 128 > 0 then [m % 128 + 128] + Varint(m / 128) else [m % 128]
  {
  }

  method EncodeVarint(n: nat) returns (out: seq<Byte>)
    ensures out == Varint(n)
  {
    hide Varint;
    out := [];
    var m: nat := n;
    ghost var left := Varint(n);
    while true
      invariant left == Varint(m) && out + left == Varint(n)
      decreases m
    {
      VarintDigit(m);
      var b: Byte := m % 128;
      m := m / 128;
      if m > 0 {
        b := b + 128;
      }
      ghost var rest := if m > 0 then Varint(m) else [];
      assert left == [b] + rest;
      assert out + left == out + [b] + rest;
      out := out + [b];
      if m == 0 {
        return;
      }
      left := rest;
    }
  }

  /** A value and the bytes that follow it. */
  datatype Read<T> = Got(value: T, rest: seq<Byte>) | EndOfStream

  /** The decoding loop: `mult` is the weight of the next digit. */
  function VarintFrom(s: seq<Byte>, mult: nat, total: nat): (r: Read<nat>)
  {
    if s == [] then EndOfStream
    else
      var t := total + s[0] % 128 * mult;
      if s[0] < 128 then Got(t, s[1..]) else VarintFrom(s[1..], mult * 128, t)
  }

  lemma {:induction false} VarintFromDecodes(n: nat, tail: seq<Byte>, mult: nat, total: nat)
    ensures VarintFrom(Varint(n) + tail, mult, total) == Got(total + n * mult, tail)
    decreases n
  {
    hide Varint;
    VarintDigit(n);
    if n < 128 {
      DropFirst(n, tail);
    } else {
      Regroup(n % 128 + 128, [], Varint(n / 128), tail);
      assert [n % 128 + 128] + [] + Varint(n / 128) + tail == Varint(n) + tail;
      assert [] + (Varint(n / 128) + tail) == Varint(n / 128) + tail;
      VarintFromDecodes(n / 128, tail, mult * 128, total + n % 128 * mult);
      Digits(n, mult);
    }
  }

  lemma Digits(n: nat, mult: nat)
    ensures n % 128 * mult + n / 128 * (mult * 128) == n * mult
  {
    var q, r := n / 128, n % 128;
    assert n == q * 128 + r;
    assert (q * 128 + r) * mult == q * 128 * mult + r * mult;
    assert q * (mult * 128) == q * 128 * mult;
  }

  /** Round trip: decoding an encoded length returns it and leaves what follows. */
  lemma VarintRoundTrip(n: nat, tail: seq<Byte>)
    ensures VarintFrom(Varint(n) + tail, 1, 0) == Got(n, tail)
  {
    VarintFromDecodes(n, tail, 1, 0);
  }

  // ----- Packets

  datatype Packet = Packet(header: Byte, body: seq<Byte>)

  /** The packet at the head of a stream. */
  function PacketAt(s: seq<Byte>): (r: Read<Packet>)
  {
    if s == [] then EndOfStream
    else
      match VarintFrom(s[1..], 1, 0)
      case EndOfStream => EndOfStream
      case Got(n, rest) => if n > |rest| then EndOfStream else Got(Packet(s[0], rest[..n]), rest[n..])
  }

  lemma Regrouped(a: seq<Byte>, b: seq<Byte>, c: seq<Byte>)
    ensures a + (b + c) == a + b + c
  {
  }

  lemma BodyTaken(body: seq<Byte>, rest: seq<Byte>, after: seq<Byte>)
    requires body + rest == after
    ensures |body| <= |after| && after[..|body|] == body && after[|body|..] == rest
  {
  }

  /** A stream socket: a receive returns at least one and at most the asked number of bytes. */
  class Socket {
    var pending: seq<Byte>

    constructor (bytes: seq<Byte>)
      ensures pending == bytes
    {
      pending := bytes;
    }

    /** How much arrives is up to the network; nothing arrives only at the end of the stream. */
    method Recv(limit: nat, arrived: nat) returns (chunk: seq<Byte>)
      requires limit > 0
      modifies this
      ensures old(pending) == chunk + pending
      ensures |chunk| <= limit && (chunk == [] <==> old(pending) == [])
    {
      var n := if arrived == 0 then 1 else arrived;
      n := if n > limit then limit else n;
      n := if n > |pending| then |pending| else n;
      chunk := pending[..n];
      pending := pending[n..];
    }

    /** Reads one packet; `arrivals` are the sizes the network happens to deliver. */
    method ReadPacket(arrivals: nat -> nat) returns (r: Option<Packet>)
      modifies this
      ensures match PacketAt(old(pending))
              case EndOfStream => r.None?
              case Got(p, rest) => r == Some(p) && pending == rest
    {
      hide VarintFrom;
      var b := Recv(1, arrivals(0));
      if b == [] {
        return None;
      }
      var header := b[0];
      assert old(pending)[1..] == pending;
      var ok, length := ReadLength();
      if !ok {
        return None;
      }
      ghost var after := pending;
      var body: seq<Byte> := [];
      while |body| < length
        invariant |body| <= length && body + pending == after
        decreases length - |body|
      {
        var chunk := Recv(length - |body|, arrivals(|body|));
        if chunk == [] {
          assert body == after;
          return None;
        }
        Regrouped(body, chunk, pending);
        body := body + chunk;
      }
      BodyTaken(body, pending, after);
      return Some(Packet(header, body));
    }

    /** The remaining-length loop, one byte at a time. */
    method ReadLength() returns (ok: bool, length: nat)
      modifies this
      ensures VarintFrom(old(pending), 1, 0) == if ok then Got(length, pending) else EndOfStream
    {
      var mult: nat := 1;
      length := 0;
      while true
        invariant VarintFrom(pending, mult, length) == VarintFrom(old(pending), 1, 0)
        decreases |pending|
      {
        ghost var before := pending;
        var e := Recv(1, 1);
        if e == [] {
          return false, length;
        }
        assert before[0] == e[0] && before[1..] == pending;
        length := length + e[0] % 128 * mult;
        if e[0] < 128 {
          return true, length;
        }
        mult := mult * 128;
      }
    }
  }

  // ----- PUBLISH

  /** An integer from at most two big-endian bytes. */
  function Unpack16(s: seq<Byte>): (n: nat)
    requires |s| <= 2
  {
    if s == [] then 0 else if |s| == 1 then s[0] else 256 * s[0] as int + s[1] as int
  }

  function PublishBody(topic: seq<Byte>, payload: seq<Byte>, qos: nat, id: nat): (s: seq<Byte>)
    requires |topic| < 0x1_0000 && id < 0x1_0000
  {
    Pack16(|topic|) + topic + (if qos > 0 then Pack16(id) else []) + payload
  }

  /** Packet type 3 with the QoS shifted in: bits 4 and 5 are set whatever the QoS is. */
  function PublishHeader(qos: nat): (b: Byte)
    requires qos < 128
    ensures qos <= 3 ==> b == 0x30 + 2 * qos
  {
    var x := 2 * qos;
    x + (if x / 16 % 2 == 0 then 16 else 0) + (if x / 32 % 2 == 0 then 32 else 0)
  }

  /** The encoder; an oversized topic or id, or a header beyond a byte, is an error. */
  function EncodePublish(topic: seq<Byte>, payload: seq<Byte>, qos: nat, id: nat): (r: Result<seq<Byte>>)
  {
    if |topic| >= 0x1_0000 || (qos > 0 && id >= 0x1_0000) || qos >= 128 then Err
    else
      var body := PublishBody(topic, payload, qos, if qos > 0 then id else 0);
      Ok([PublishHeader(qos)] + Varint(|body|) + body)
  }

  datatype Publish = Publish(topic: seq<Byte>, payload: seq<Byte>, id: Option<nat>)

  /** A slice as the source language takes it: clipped at the end. */
  function Clip(s: seq<Byte>, from: nat, to: nat): (r: seq<Byte>)
    requires from <= to
    ensures |r| <= to - from
  {
    if from >= |s| then [] else if to >= |s| then s[from..] else s[from..to]
  }

  function ParsePublish(header: Byte, body: seq<Byte>): (r: Publish)
  {
    var qos := header / 2 % 4;
    var topicLength := Unpack16(Clip(body, 0, 2));
    var offset := 2 + topicLength;
    var topic := Clip(body, 2, offset);
    if qos > 0 then
      Publish(topic, Clip(body, offset + 2, if |body| > offset + 2 then |body| else offset + 2),
              Some(Unpack16(Clip(body, offset, offset + 2))))
    else Publish(topic, Clip(body, offset, if |body| > offset then |body| else offset), None)
  }

  /** Parsing an encoded body gives back topic, payload and, with a QoS, the packet id. */
  lemma BodyRoundTrip(topic: seq<Byte>, payload: seq<Byte>, qos: nat, id: nat)
    requires |topic| < 0x1_0000 && id < 0x1_0000 && qos <= 3
    ensures ParsePublish(0x30 + 2 * qos, PublishBody(topic, payload, qos, id))
            == Publish(topic, payload, if qos > 0 then Some(id) else None)
  {
    var body := PublishBody(topic, payload, qos, id);
    var o := 2 + |topic|;
    assert body[0..2] == Pack16(|topic|);
    assert body[2..o] == topic;
    if qos > 0 {
      assert body[o..o + 2] == Pack16(id);
      assert body[o + 2..] == payload;
    } else {
      assert body[o..] == payload;
    }
    assert (0x30 + 2 * qos) / 2 % 4 == qos;
  }

  /**
   Round trip of a PUBLISH: reading an encoded one from the head of a stream and parsing it
   returns topic and payload unchanged, the packet id exactly when there is a QoS, and leaves
   the rest of the stream.
   */
  lemma PublishRoundTrip(topic: seq<Byte>, payload: seq<Byte>, qos: nat, id: nat, tail: seq<Byte>)
    requires |topic| < 0x1_0000 && qos <= 2 && (qos > 0 ==> id < 0x1_0000)
    ensures EncodePublish(topic, payload, qos, id).Ok?
    ensures var r := PacketAt(EncodePublish(topic, payload, qos, id).value + tail);
            && r.Got? && r.rest == tail
            && ParsePublish(r.value.header, r.value.body) == Publish(topic, payload, if qos > 0 then Some(id) else None)
  {
    hide ParsePublish, PublishBody, Varint, PublishHeader;
    var sentId := if qos > 0 then id else 0;
    var body := PublishBody(topic, payload, qos, sentId);
    PacketRoundTrip(PublishHeader(qos), body, tail);
    BodyRoundTrip(topic, payload, qos, sentId);
  }

  /** Any header and body, framed by the remaining length, are read back from the head of a stream. */
  lemma PacketRoundTrip(header: Byte, body: seq<Byte>, tail: seq<Byte>)
    ensures PacketAt([header] + Varint(|body|) + body + tail) == Got(Packet(header, body), tail)
  {
    hide Varint, VarintFrom;
    Regroup(header, Varint(|body|), body, tail);
    VarintRoundTrip(|body|, body + tail);
    SplitBack(body, tail);
  }

  lemma SplitBack(a: seq<Byte>, b: seq<Byte>)
    ensures (a + b)[..|a|] == a && (a + b)[|a|..] == b
  {
  }

  lemma Regroup(h: Byte, v: seq<Byte>, a: seq<Byte>, b: seq<Byte>)
    ensures var s := [h] + v + a + b; s[0] == h && s[1..] == v + (a + b)
  {
    var s := [h] + v + a + b;
    assert s == [h] + (v + (a + b));
    DropFirst(h, v + (a + b));
  }

  lemma DropFirst(h: Byte, rest: seq<Byte>)
    ensures ([h] + rest)[0] == h && ([h] + rest)[1..] == rest
  {
  }

  /** The same over a socket, whatever sizes its receives have. */
  method ExchangePublish(topic: seq<Byte>, payload: seq<Byte>, qos: nat, id: nat, tail: seq<Byte>, arrivals: nat -> nat)
    returns (r: Publish)
    requires |topic| < 0x1_0000 && qos <= 2 && (qos > 0 ==> id < 0x1_0000)
    ensures r == Publish(topic, payload, if qos > 0 then Some(id) else None)
  {
    hide ParsePublish, EncodePublish, PacketAt;
    PublishRoundTrip(topic, payload, qos, id, tail);
    var socket := new Socket(EncodePublish(topic, payload, qos, id).value + tail);
    var p := socket.ReadPacket(arrivals);
    r := ParsePublish(p.value.header, p.value.body);
  }
}
