/** The framing codec of `net_common`: a closed set of message variants, each sent as a 4-byte
    magic header followed by the variant's checksummed postcard payload. */
module NetCommon {
  import opened Wrappers
  import opened FixedWidth
  import P = Postcard

  /** The telemetry record of the `Data` variant; `value0` is an `f64`, kept as its bit pattern. */
  datatype SomeData = SomeData(counter: u64, stampMs: i64, value0Bits: u64, value1: u32, value2: u8)

  type Bytes32 = s: seq<byte> | |s| == 32 witness seq(32, _ => 0)

  /** The fixed 32-byte diagnostic payload of the `Array` variant. */
  datatype SmallArray = SmallArray(data: Bytes32)

  /** The message variants. The first variant carries `SomeData` here; the `net_loopback` crate
      builds against a revision that calls it `TimeStamp` and gives it a timestamp record, so its
      payload type is a parameter. `Error` is the receive-only sentinel for foreign traffic. */
  datatype Message<D> = Data(data: D) | Array(small: SmallArray) | Error

  const DATA: seq<byte> := [0x5E, 0xA7, 0x00, 0x01]
  const ARRAY: seq<byte> := [0x5E, 0xA7, 0x00, 0x02]

  /** The magic header of a variant that has a wire representation. */
  function Header<D>(m: Message<D>): (h: seq<byte>)
    requires !m.Error?
    ensures |h| == 4 && (h == DATA <==> m.Data?) && (h == ARRAY <==> m.Array?)
  {
    if m.Data? then DATA else ARRAY
  }

  /** The checksummed payload of a variant, as the unbounded serializer writes it. */
  function Payload<D>(m: Message<D>, fd: P.Format<D>, fa: P.Format<SmallArray>): Result<seq<byte>, P.Error>
    requires !m.Error?
  {
    if m.Data? then fd.serialize(m.data) else fa.serialize(m.small)
  }

  /** The payload as the bounded serializer writes it into a buffer of `capacity` bytes. */
  function PayloadBounded<D>(m: Message<D>, fd: P.Format<D>, fa: P.Format<SmallArray>, capacity: nat)
    : Result<seq<byte>, P.Error>
    requires !m.Error?
  {
    if m.Data? then P.SerializeBounded(fd, m.data, capacity) else P.SerializeBounded(fa, m.small, capacity)
  }

  /** The frame of a message without a size bound: header, then payload. */
  function Frame<D>(m: Message<D>, fd: P.Format<D>, fa: P.Format<SmallArray>): Result<seq<byte>, P.Error>
  {
    if m.Error? then Err(P.WontImplement)
    else
      var payload :- Payload(m, fd, fa);
      Ok(Header(m) + payload)
  }

  /** The frame of a message encoded into a buffer of `capacity` bytes: `SerializeBufferFull`
      whenever the header, the payload or both together do not fit. */
  function FrameBounded<D>(m: Message<D>, fd: P.Format<D>, fa: P.Format<SmallArray>, capacity: nat)
    : (r: Result<seq<byte>, P.Error>)
    ensures r.Ok? ==> |r.value| <= capacity
    ensures m.Error? ==> r == Err(P.WontImplement)
  {
    if m.Error? then Err(P.WontImplement)
    else if capacity < |Header(m)| then Err(P.SerializeBufferFull)
    else
      var payload :- PayloadBounded(m, fd, fa, capacity);
      if |Header(m)| + |payload| <= capacity then Ok(Header(m) + payload) else Err(P.SerializeBufferFull)
  }

  /** The layout of every frame: the variant's magic header, then exactly the payload bytes;
      `Error` has no frame, and a serializer error is passed on unchanged. */
  lemma FrameLayout<D>(m: Message<D>, fd: P.Format<D>, fa: P.Format<SmallArray>)
    ensures m.Error? ==> Frame(m, fd, fa) == Err(P.WontImplement)
    ensures !m.Error? && Payload(m, fd, fa).Err? ==> Frame(m, fd, fa) == Err(Payload(m, fd, fa).error)
    ensures !m.Error? && Payload(m, fd, fa).Ok? ==>
      var frame := Frame(m, fd, fa).value;
      && Frame(m, fd, fa).Ok?
      && |frame| == 4 + |Payload(m, fd, fa).value|
      && frame[..4] == (if m.Data? then DATA else ARRAY)
      && frame[4..] == Payload(m, fd, fa).value
  {
    if !m.Error? && Payload(m, fd, fa).Ok? {
      var frame := Frame(m, fd, fa).value;
      assert frame == Header(m) + Payload(m, fd, fa).value;
      assert frame[..4] == Header(m);
    }
  }

  /** The bounded encoder agrees with the unbounded one exactly when the frame fits the buffer,
      and reports `SerializeBufferFull` otherwise. */
  lemma FrameBoundedAgrees<D>(m: Message<D>, fd: P.Format<D>, fa: P.Format<SmallArray>, capacity: nat)
    requires !m.Error? && Payload(m, fd, fa).Ok?
    ensures FrameBounded(m, fd, fa, capacity) ==
      if |Frame(m, fd, fa).value| <= capacity then Frame(m, fd, fa) else Err(P.SerializeBufferFull)
  {
    var payload := Payload(m, fd, fa).value;
    if |payload| <= capacity {
      assert PayloadBounded(m, fd, fa, capacity) == Ok(payload);
    } else {
      assert PayloadBounded(m, fd, fa, capacity) == Err(P.SerializeBufferFull);
    }
  }

  /** `Message::encode::<SZ>` with the overflow of the final `extend` reported as
      `SerializeBufferFull` (see `EncodeAsWritten` for the code as it stands). */
  method Encode<D>(m: Message<D>, capacity: nat, fd: P.Format<D>, fa: P.Format<SmallArray>)
    returns (r: Result<seq<byte>, P.Error>)
    ensures r == FrameBounded(m, fd, fa, capacity)
  {
    var header: seq<byte>;
    match m {
      case Error => return Err(P.WontImplement);
      case Data(_) => header := DATA;
      case Array(_) => header := ARRAY;
    }
    var vec: seq<byte> := [];
    for i := 0 to |header|
      invariant vec == header[..i] && |vec| <= capacity
    {
      if |vec| == capacity {
        return Err(P.SerializeBufferFull);
      }
      vec := vec + [header[i]];
    }
    assert vec == Header(m);
    var payload :- PayloadBounded(m, fd, fa, capacity);
    if |vec| + |payload| > capacity {
      return Err(P.SerializeBufferFull);
    }
    vec := vec + payload;
    return Ok(vec);
  }

  /** What the final `extend` of `Message::encode::<SZ>` needs so as not to panic: the header and
      the separately bounded payload must fit the buffer together. */
  predicate ExtendFits<D>(m: Message<D>, fd: P.Format<D>, fa: P.Format<SmallArray>, capacity: nat)
  {
    !m.Error? && capacity >= 4 && PayloadBounded(m, fd, fa, capacity).Ok? ==>
      4 + |PayloadBounded(m, fd, fa, capacity).value| <= capacity
  }

  /** `Message::encode::<SZ>` as written: the header bytes are pushed one by one, failing when
      the buffer is full, and the payload is appended with `extend`, which panics on overflow;
      the panic is this method's precondition. */
  method EncodeAsWritten<D>(m: Message<D>, capacity: nat, fd: P.Format<D>, fa: P.Format<SmallArray>)
    returns (r: Result<seq<byte>, P.Error>)
    requires ExtendFits(m, fd, fa, capacity)
    ensures r == FrameBounded(m, fd, fa, capacity)
  {
    var header: seq<byte>;
    match m {
      case Error => return Err(P.WontImplement);
      case Data(_) => header := DATA;
      case Array(_) => header := ARRAY;
    }
    var vec: seq<byte> := [];
    for i := 0 to |header|
      invariant vec == header[..i] && |vec| <= capacity
    {
      if |vec| == capacity {
        return Err(P.SerializeBufferFull);
      }
      vec := vec + [header[i]];
    }
    assert vec == Header(m);
    var payload :- PayloadBounded(m, fd, fa, capacity);
    vec := vec + payload;
    return Ok(vec);
  }

  /** The panic is reachable: when the payload alone exactly fills a buffer of at least four
      bytes, the header pushes and the bounded serializer both succeed, yet the `extend` overflows. */
  lemma ExtendOverflows<D>(m: Message<D>, fd: P.Format<D>, fa: P.Format<SmallArray>, capacity: nat)
    requires !m.Error? && Payload(m, fd, fa).Ok?
    requires |Payload(m, fd, fa).value| == capacity >= 4
    ensures PayloadBounded(m, fd, fa, capacity).Ok?
    ensures !ExtendFits(m, fd, fa, capacity)
  {
  }

  /** A payload layout of the size postcard gives `SmallArray`: the 32 bytes, then a 4-byte trailer. */
  function RawArrayFormat(): P.Format<SmallArray>
  {
    P.Format(
      (a: SmallArray) => Ok(a.data + [0, 0, 0, 0]),
      (b: seq<byte>) => if |b| < 36 then Err(P.DeserializeUnexpectedEnd) else Ok(SmallArray(b[..32])))
  }

  lemma RawArrayFormatRoundTrips()
    ensures P.RoundTrips(RawArrayFormat())
  {
    var f := RawArrayFormat();
    forall x: SmallArray, rest: seq<byte> | f.serialize(x).Ok?
      ensures f.deserialize(f.serialize(x).value + rest) == Ok(x)
    {
      var b := f.serialize(x).value + rest;
      assert b[..32] == x.data;
    }
  }

  /** A concrete input on which `EncodeAsWritten` panics: a 36-byte buffer and an `Array` message
      whose 36-byte payload fits the buffer on its own. */
  lemma ExtendOverflowWitness()
    ensures var m: Message<SomeData> := Array(SmallArray(seq(32, _ => 0)));
      var fd: P.Format<SomeData> := P.Format(_ => Err(P.WontImplement), _ => Err(P.DeserializeBadEncoding));
      && P.RoundTrips(RawArrayFormat())
      && PayloadBounded(m, fd, RawArrayFormat(), 36).Ok?
      && !ExtendFits(m, fd, RawArrayFormat(), 36)
  {
    RawArrayFormatRoundTrips();
  }

  /** `Message::decode`: dispatch on the first four bytes. A known header hands the rest to the
      payload deserializer, whose errors are passed on; any other header is a successful decode
      to the `Error` sentinel. Fewer than four bytes make the header slice panic. */
  function Decode<D>(bytes: seq<byte>, fd: P.Format<D>, fa: P.Format<SmallArray>): (r: Result<Message<D>, P.Error>)
    requires |bytes| >= 4
    ensures r == Ok(Error) <==> bytes[..4] != DATA && bytes[..4] != ARRAY
    ensures r.Ok? && r.value.Data? ==> bytes[..4] == DATA && fd.deserialize(bytes[4..]) == Ok(r.value.data)
    ensures r.Ok? && r.value.Array? ==> bytes[..4] == ARRAY && fa.deserialize(bytes[4..]) == Ok(r.value.small)
    ensures r.Err? ==>
      || (bytes[..4] == DATA && fd.deserialize(bytes[4..]) == Err(r.error))
      || (bytes[..4] == ARRAY && fa.deserialize(bytes[4..]) == Err(r.error))
  {
    var header := bytes[..4];
    if header == DATA then
      var data :- fd.deserialize(bytes[4..]);
      Ok(Data(data))
    else if header == ARRAY then
      var small :- fa.deserialize(bytes[4..]);
      Ok(Array(small))
    else
      Ok(Error)
  }

  /** Round trip: decoding a frame gives back the message, whatever bytes follow the frame in the
      receive buffer, provided both payload formats round-trip. */
  lemma DecodeFrame<D(!new)>(m: Message<D>, fd: P.Format<D>, fa: P.Format<SmallArray>, rest: seq<byte>)
    requires P.RoundTrips(fd) && P.RoundTrips(fa)
    requires Frame(m, fd, fa).Ok?
    ensures |Frame(m, fd, fa).value + rest| >= 4
    ensures Decode(Frame(m, fd, fa).value + rest, fd, fa) == Ok(m)
  {
    FrameLayout(m, fd, fa);
    var payload := Payload(m, fd, fa).value;
    var bytes := Frame(m, fd, fa).value + rest;
    assert bytes == Header(m) + (payload + rest);
    assert bytes[..4] == Header(m) && bytes[4..] == payload + rest;
    if m.Data? {
      assert fd.deserialize(fd.serialize(m.data).value + rest) == Ok(m.data);
    } else {
      assert fa.deserialize(fa.serialize(m.small).value + rest) == Ok(m.small);
    }
  }

  /** The same round trip through the bounded encoder: whatever it produces decodes to the
      message it was given. */
  lemma DecodeFrameBounded<D(!new)>(m: Message<D>, fd: P.Format<D>, fa: P.Format<SmallArray>, capacity: nat, rest: seq<byte>)
    requires P.RoundTrips(fd) && P.RoundTrips(fa)
    requires FrameBounded(m, fd, fa, capacity).Ok?
    ensures |FrameBounded(m, fd, fa, capacity).value + rest| >= 4
    ensures Decode(FrameBounded(m, fd, fa, capacity).value + rest, fd, fa) == Ok(m)
  {
    assert Payload(m, fd, fa).Ok?;
    FrameBoundedAgrees(m, fd, fa, capacity);
    DecodeFrame(m, fd, fa, rest);
  }

  /** A datagram that does not start with a magic header is reported as the sentinel, whatever its
      length beyond the header and whatever the payload formats. */
  lemma ForeignTraffic<D>(bytes: seq<byte>, fd: P.Format<D>, fa: P.Format<SmallArray>)
    requires |bytes| >= 4 && bytes[..4] != DATA && bytes[..4] != ARRAY
    ensures Decode(bytes, fd, fa) == Ok(Error)
  {
  }

  /** A non-empty 2-byte datagram, which the receiver passes on, has fewer than the 4 bytes
      `Decode` requires, so the header slice of the code as written panics on it; the checked
      decoder reports it as a truncated input. */
  lemma ShortDatagramWitness<D>(fd: P.Format<D>, fa: P.Format<SmallArray>)
    ensures DecodeChecked([0x5E, 0xA7], fd, fa) == Err(P.DeserializeUnexpectedEnd)
  {
  }

  /** Decoding with the header length checked: a datagram shorter than the header is reported as
      a truncated input instead of panicking, and every longer one decodes as `Decode` does. */
  function DecodeChecked<D>(bytes: seq<byte>, fd: P.Format<D>, fa: P.Format<SmallArray>): (r: Result<Message<D>, P.Error>)
    ensures |bytes| < 4 ==> r == Err(P.DeserializeUnexpectedEnd)
    ensures |bytes| >= 4 ==> r == Decode(bytes, fd, fa)
    ensures r == Ok(Error) <==> |bytes| >= 4 && bytes[..4] != DATA && bytes[..4] != ARRAY
    ensures r.Ok? && r.value.Data? ==> bytes[..4] == DATA && fd.deserialize(bytes[4..]) == Ok(r.value.data)
    ensures r.Ok? && r.value.Array? ==> bytes[..4] == ARRAY && fa.deserialize(bytes[4..]) == Ok(r.value.small)
  {
    if |bytes| < 4 then Err(P.DeserializeUnexpectedEnd) else Decode(bytes, fd, fa)
  }

  /** The round trip holds for the checked decoder too: a frame followed by any trailing bytes
      decodes to the encoded message. */
  lemma DecodeCheckedFrame<D(!new)>(m: Message<D>, fd: P.Format<D>, fa: P.Format<SmallArray>, rest: seq<byte>)
    requires P.RoundTrips(fd) && P.RoundTrips(fa)
    requires Frame(m, fd, fa).Ok?
    ensures DecodeChecked(Frame(m, fd, fa).value + rest, fd, fa) == Ok(m)
  {
    DecodeFrame(m, fd, fa, rest);
  }
}
