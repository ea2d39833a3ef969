/** The `std` framing encoder of `net_loopback`: the same wire format as `net_common`, built in a
    growable vector, so only the payload serializer can fail. */
module NetLoopback {
  import opened Wrappers
  import opened FixedWidth
  import P = Postcard
  import opened NetCommon

  /** `encode`: push the variant's magic header byte by byte, then append the payload. The
      result is exactly the unbounded frame: the header and payload on success, the serializer's
      own error (and no partial frame) when it fails, and `WontImplement` for the sentinel. */
  method Encode<D>(message: Message<D>, fd: P.Format<D>, fa: P.Format<SmallArray>)
    returns (r: Result<seq<byte>, P.Error>)
    ensures r == Frame(message, fd, fa)
  {
    var header: seq<byte>;
    match message {
      case Data(_) => header := DATA;
      case Array(_) => header := ARRAY;
      case Error => return Err(P.WontImplement);
    }
    var vec: seq<byte> := [];
    for i := 0 to |header|
      invariant vec == header[..i]
    {
      vec := vec + [header[i]];
    }
    assert vec == Header(message);
    var payload :- Payload(message, fd, fa);
    vec := vec + payload;
    return Ok(vec);
  }

  /** Every frame this encoder produces is at least a header long, starts with one of the two
      magic headers, and is exactly four bytes longer than its payload. */
  lemma FramePrefix<D>(message: Message<D>, fd: P.Format<D>, fa: P.Format<SmallArray>)
    requires Frame(message, fd, fa).Ok?
    ensures |Frame(message, fd, fa).value| == 4 + |Payload(message, fd, fa).value|
    ensures Frame(message, fd, fa).value[..4] in {DATA, ARRAY}
  {
    FrameLayout(message, fd, fa);
  }
}
