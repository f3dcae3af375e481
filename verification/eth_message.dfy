/**
 Framing of `eth` wire messages: the protocol message (identifier byte plus
 payload), the request/response pair that carries a request id in front of
 its payload, and the version rules `decode_message` applies.

 The payload types themselves (`Status`, `BlockHeaders`, `Receipts`, ...)
 are outside this model: a message body is a value of an opaque type `B`,
 and each kind of body comes with its own RLP codec, about which the model
 assumes only that it round-trips.

 The Rust enum `EthMessage` has one variant per message; here a message is
 either a plain body tagged with its kind, a request/response pair tagged
 with its kind, or an unrecognised raw message. `Status` with its two
 shapes becomes the two plain kinds `StatusLegacy` and `StatusEth69`.
 */
module EthMessages {

  import opened Wrappers
  import opened Rlp
  import Id = EthMessageId

  /** An RLP codec for one payload type. */
  datatype Codec<!T> = Codec(encode: T -> Bytes, decode: Bytes -> Result<(T, Bytes), RlpError>)

  /** Decoding an encoding gives the value back and leaves whatever followed. */
  ghost predicate RoundTrips<T(!new)>(c: Codec<T>)
  {
    forall x, rest :: c.decode(c.encode(x) + rest) == Ok((x, rest))
  }

  /** `RequestPair`: a request or response payload with the id that pairs them. */
  datatype RequestPair<+T> = RequestPair(requestId: U64, message: T)

  /** The list payload of a pair: the encoded id followed by the encoded message. */
  function PairPayload<T>(c: Codec<T>, p: RequestPair<T>): Bytes
  {
    EncodeU64(p.requestId) + c.encode(p.message)
  }

  /** The payload length fits the header's `usize`. */
  predicate PairFits<T>(c: Codec<T>, p: RequestPair<T>)
  {
    |PairPayload(c, p)| < Word
  }

  /**
   `Encodable::encode for RequestPair`: a header of `length_of_length` bytes,
   then the id and the message. What the header says is `EncodePairFramed`.
   */
  function EncodePair<T>(c: Codec<T>, p: RequestPair<T>): (r: Bytes)
    requires PairFits(c, p)
    ensures |r| == |PairPayload(c, p)| + LengthOfLength(|PairPayload(c, p)|)
    ensures r[|r| - |PairPayload(c, p)|..] == PairPayload(c, p)
  {
    var payload := PairPayload(c, p);
    EncodeHeader(Header(true, |payload|)) + payload
  }

  /**
   Read back, a pair's encoding is a list header announcing exactly the
   bytes that follow it, and those start with the request id, followed by
   the encoded message.
   */
  lemma EncodePairFramed<T>(c: Codec<T>, p: RequestPair<T>)
    requires PairFits(c, p)
    ensures DecodeHeader(EncodePair(c, p)) == Ok((Header(true, |PairPayload(c, p)|), PairPayload(c, p)))
    ensures DecodeU64(PairPayload(c, p)) == Ok((p.requestId, c.encode(p.message)))
  {
    var payload := PairPayload(c, p);
    DecodeEncodeHeader(Header(true, |payload|), payload);
    DecodeEncodeU64(p.requestId, c.encode(p.message));
  }

  /**
   `Encodable::length for RequestPair`: the payload length plus the size of
   the header announcing it.
   */
  function PairLength<T>(c: Codec<T>, p: RequestPair<T>): (r: nat)
    requires PairFits(c, p)
    ensures r == |EncodePair(c, p)|
  {
    var n := |EncodeU64(p.requestId)| + |c.encode(p.message)|;
    n + LengthOfLength(n)
  }

  /**
   `Decodable for RequestPair`: a header, a `u64` id and the message; the id
   and the message together must take exactly the payload length the header
   announced. The header's list flag is not examined.
   */
  function DecodePair<T>(c: Codec<T>, buf: Bytes): (r: Result<(RequestPair<T>, Bytes), RlpError>)
    ensures buf == [] ==> r == Err(InputTooShort)
    ensures r.Ok? ==> (DecodeHeader(buf).Ok? &&
      |DecodeHeader(buf).value.1| - |r.value.1| == DecodeHeader(buf).value.0.payloadLength)
  {
    match DecodeHeader(buf)
    case Err(e) => Err(e)
    case Ok((h, rest)) =>
      match DecodeU64(rest)
      case Err(e) => Err(e)
      case Ok((requestId, rest2)) =>
        match c.decode(rest2)
        case Err(e) => Err(e)
        case Ok((message, rest3)) =>
          var consumed: int := |rest| - |rest3|;
          if consumed != h.payloadLength then Err(UnexpectedLength)
          else Ok((RequestPair(requestId, message), rest3))
  }

  /** Pair round trip: with a round-tripping message codec every pair decodes back from its encoding. */
  lemma DecodeEncodePair<T(!new)>(c: Codec<T>, p: RequestPair<T>, rest: Bytes)
    requires RoundTrips(c)
    requires PairFits(c, p)
    ensures DecodePair(c, EncodePair(c, p) + rest) == Ok((p, rest))
  {
    var idBytes, msgBytes := EncodeU64(p.requestId), c.encode(p.message);
    var h := Header(true, |idBytes| + |msgBytes|);
    var tail := idBytes + (msgBytes + rest);
    assert EncodePair(c, p) == EncodeHeader(h) + PairPayload(c, p);
    assert EncodePair(c, p) + rest == EncodeHeader(h) + tail;
    DecodeEncodeHeader(h, tail);
    DecodeEncodeU64(p.requestId, msgBytes + rest);
    assert c.decode(msgBytes + rest) == Ok((p.message, rest));
  }

  /** The `Vec<u8>` codec, the message type of the framing examples below. */
  function ByteVecCodec(): Codec<ByteVec>
  {
    Codec(EncodeByteVec, DecodeByteVec)
  }

  lemma ByteVecCodecRoundTrips()
    ensures RoundTrips(ByteVecCodec())
  {
    forall x: ByteVec, rest: Bytes ensures ByteVecCodec().decode(ByteVecCodec().encode(x) + rest) == Ok((x, rest)) {
      DecodeEncodeByteVec(x, rest);
    }
  }

  /** The id 1337 encodes as `82 05 39`. */
  lemma EncodeU64Example()
    ensures EncodeU64(1337) == [0x82, 0x05, 0x39]
  {
    assert ToBe(1337) == [0x05, 0x39] by {
      assert ToBe(5) == ToBe(0) + [5];
    }
  }

  /** The vector `[5]` encodes as `c1 05`, and `[5, 5]` as `c2 05 05`. */
  lemma EncodeByteVecExample()
    ensures EncodeByteVec([5]) == [0xc1, 0x05]
    ensures EncodeByteVec([5, 5]) == [0xc2, 0x05, 0x05]
  {
    assert ItemsPayload([5]) == [5] by {
      assert ItemsPayload([5][1..]) == [];
    }
    assert ItemsPayload([5, 5]) == [5, 5] by {
      assert [5, 5][1..] == [5];
    }
  }

  /**
   Framing of a pair with id 1337 and message `[5]`: a list header of
   length five around the id and the message; `length` reports the encoded
   size.
   */
  lemma EncodePairExample()
    ensures EncodePair(ByteVecCodec(), RequestPair(1337, [5])) == [0xc5, 0x82, 0x05, 0x39, 0xc1, 0x05]
    ensures PairLength(ByteVecCodec(), RequestPair(1337, [5])) == 6
  {
    EncodeU64Example();
    EncodeByteVecExample();
    var payload := PairPayload(ByteVecCodec(), RequestPair(1337, [5]));
    assert payload == [0x82, 0x05, 0x39, 0xc1, 0x05];
    assert EncodePair(ByteVecCodec(), RequestPair(1337, [5])) == EncodeHeader(Header(true, 5)) + payload;
  }

  /** The same bytes decode back to the pair, and the pair's length is the input's. */
  lemma DecodePairExample()
    ensures DecodePair(ByteVecCodec(), [0xc5, 0x82, 0x05, 0x39, 0xc1, 0x05]) == Ok((RequestPair(1337, [5]), []))
    ensures PairLength(ByteVecCodec(), RequestPair(1337, [5])) == |[0xc5, 0x82, 0x05, 0x39, 0xc1, 0x05]|
  {
    var p: RequestPair<ByteVec> := RequestPair(1337, [5]);
    EncodePairExample();
    ByteVecCodecRoundTrips();
    DecodeEncodePair(ByteVecCodec(), p, []);
    assert EncodePair(ByteVecCodec(), p) + [] == EncodePair(ByteVecCodec(), p);
  }

  /**
   A pair whose header announces fewer bytes than the id and the message
   take is refused, even though each part decodes on its own.
   */
  lemma ShortHeaderRejected<T(!new)>(c: Codec<T>, n: U64, id: U64, m: T, rest: Bytes)
    requires RoundTrips(c)
    requires n < |EncodeU64(id)| + |c.encode(m)|
    ensures DecodePair(c, EncodeHeader(Header(true, n)) + EncodeU64(id) + c.encode(m) + rest)
      == Err(UnexpectedLength)
  {
    var tail := EncodeU64(id) + (c.encode(m) + rest);
    assert EncodeHeader(Header(true, n)) + EncodeU64(id) + c.encode(m) + rest == EncodeHeader(Header(true, n)) + tail;
    DecodeEncodeHeader(Header(true, n), tail);
    DecodeEncodeU64(id, c.encode(m) + rest);
    assert c.decode(c.encode(m) + rest) == Ok((m, rest));
  }

  /** The header says five, the id 1337 and the message `[5, 5]` take six. */
  lemma MaliciousPairExample()
    ensures DecodePair(ByteVecCodec(), [0xc5, 0x82, 0x05, 0x39, 0xc2, 0x05, 0x05]) == Err(UnexpectedLength)
  {
    ByteVecCodecRoundTrips();
    MaliciousPairBytes();
    ShortHeaderRejected(ByteVecCodec(), 5, 1337, [5, 5], []);
  }

  /** The malicious input is a header of five around the id 1337 and the vector `[5, 5]`. */
  lemma MaliciousPairBytes()
    ensures 5 < |EncodeU64(1337)| + |ByteVecCodec().encode([5, 5])|
    ensures EncodeHeader(Header(true, 5)) + EncodeU64(1337) + ByteVecCodec().encode([5, 5]) + []
      == [0xc5, 0x82, 0x05, 0x39, 0xc2, 0x05, 0x05]
  {
    EncodeU64Example();
    EncodeByteVecExample();
    var header, id, message := EncodeHeader(Header(true, 5)), EncodeU64(1337), ByteVecCodec().encode([5, 5]);
    assert header == [0xc5];
    assert message == [0xc2, 0x05, 0x05];
    var raw: Bytes := [0xc5, 0x82, 0x05, 0x39, 0xc2, 0x05, 0x05];
    assert header + id == raw[..4];
    assert header + id + message + [] == raw;
  }

  /** Kinds of message whose payload is a plain RLP value. */
  datatype PlainKind =
    | StatusLegacy
    | StatusEth69
    | NewBlockHashes
    | NewBlock
    | Transactions
    | NewPooledTransactionHashes66
    | NewPooledTransactionHashes68
    | BlockRangeUpdate

  /** Kinds of message whose payload is a `RequestPair`. */
  datatype PairKind =
    | GetBlockHeaders
    | BlockHeaders
    | GetBlockBodies
    | BlockBodies
    | GetPooledTransactions
    | PooledTransactions
    | GetNodeData
    | NodeData
    | GetReceipts
    | Receipts
    | Receipts69

  /** `EthMessage`; `Other` is `RawCapabilityMessage`, kept undecoded. */
  datatype EthMessage<B> =
    | Plain(plainKind: PlainKind, body: B)
    | Paired(pairKind: PairKind, pair: RequestPair<B>)
    | Other(id: U64, payload: Bytes)

  /** `ProtocolMessage`: the identifier read from the wire and the message it introduced. */
  datatype ProtocolMessage<B> = ProtocolMessage(messageType: Id.EthMessageID, message: EthMessage<B>)

  /** `MessageError`, the variants decoding produces. */
  datatype MessageError =
    | Invalid(version: Id.EthVersion, invalidId: Id.EthMessageID)
    | RlpFailure(error: RlpError)

  /** One codec per kind of payload. */
  datatype Codecs<!B> = Codecs(plain: PlainKind -> Codec<B>, paired: PairKind -> Codec<B>)

  ghost predicate AllRoundTrip<B(!new)>(codecs: Codecs<B>)
  {
    (forall k :: RoundTrips(codecs.plain(k))) && (forall k :: RoundTrips(codecs.paired(k)))
  }

  function PlainId(k: PlainKind): Id.EthMessageID
  {
    match k
    case StatusLegacy => Id.Status
    case StatusEth69 => Id.Status
    case NewBlockHashes => Id.NewBlockHashes
    case NewBlock => Id.NewBlock
    case Transactions => Id.Transactions
    case NewPooledTransactionHashes66 => Id.NewPooledTransactionHashes
    case NewPooledTransactionHashes68 => Id.NewPooledTransactionHashes
    case BlockRangeUpdate => Id.BlockRangeUpdate
  }

  function PairId(k: PairKind): Id.EthMessageID
  {
    match k
    case GetBlockHeaders => Id.GetBlockHeaders
    case BlockHeaders => Id.BlockHeaders
    case GetBlockBodies => Id.GetBlockBodies
    case BlockBodies => Id.BlockBodies
    case GetPooledTransactions => Id.GetPooledTransactions
    case PooledTransactions => Id.PooledTransactions
    case GetNodeData => Id.GetNodeData
    case NodeData => Id.NodeData
    case GetReceipts => Id.GetReceipts
    case Receipts => Id.Receipts
    case Receipts69 => Id.Receipts
  }

  /** `EthMessage::message_id`; a raw message's id is truncated to a byte (`as u8`). */
  function MessageId<B>(msg: EthMessage<B>): (r: Id.EthMessageID)
    ensures r.Other? <==> msg.Other?
    ensures msg.Other? ==> Id.ToU8(r) == msg.id % 256
  {
    match msg
    case Plain(k, _) => PlainId(k)
    case Paired(k, _) => PairId(k)
    case Other(id, _) => Id.Other(id % 256)
  }

  /** `From<EthMessage> for ProtocolMessage`. */
  function From<B>(msg: EthMessage<B>): (r: ProtocolMessage<B>)
    ensures r.message == msg && r.messageType == MessageId(msg)
  {
    ProtocolMessage(MessageId(msg), msg)
  }

  const RequestKinds: set<PairKind> :=
    {GetBlockBodies, GetBlockHeaders, GetReceipts, GetPooledTransactions, GetNodeData}

  const ResponseKinds: set<PairKind> :=
    {PooledTransactions, Receipts, Receipts69, BlockHeaders, BlockBodies, NodeData}

  /** `EthMessage::is_request`: the requests are the paired messages with an odd identifier. */
  function IsRequest<B>(msg: EthMessage<B>): (r: bool)
    ensures r <==> msg.Paired? && Id.ToU8(MessageId(msg)) % 2 == 1
  {
    msg.Paired? && msg.pairKind in RequestKinds
  }

  /** `EthMessage::is_response`: the responses are the paired messages with an even identifier. */
  function IsResponse<B>(msg: EthMessage<B>): (r: bool)
    ensures r <==> msg.Paired? && Id.ToU8(MessageId(msg)) % 2 == 0
  {
    msg.Paired? && msg.pairKind in ResponseKinds
  }

  /**
   No message is both a request and a response; the messages carrying a
   request id are exactly the requests and the responses; and every
   response answers a request kind with the identifier one below its own.
   */
  lemma RequestResponse<B>(msg: EthMessage<B>)
    ensures !(IsRequest(msg) && IsResponse(msg))
    ensures IsRequest(msg) || IsResponse(msg) <==> msg.Paired?
    ensures IsResponse(msg) ==> (Id.ToU8(MessageId(msg)) >= 1 &&
      Id.FromU8(Id.ToU8(MessageId(msg)) - 1) in PairIds(RequestKinds))
  {
    if msg.Paired? {
      assert msg.pairKind in RequestKinds + ResponseKinds by {
        match msg.pairKind
        case GetBlockHeaders =>
        case BlockHeaders =>
        case GetBlockBodies =>
        case BlockBodies =>
        case GetPooledTransactions =>
        case PooledTransactions =>
        case GetNodeData =>
        case NodeData =>
        case GetReceipts =>
        case Receipts =>
        case Receipts69 =>
      }
    }
  }

  function PairIds(kinds: set<PairKind>): set<Id.EthMessageID>
  {
    set k | k in kinds :: PairId(k)
  }

  /** Whether a plain kind exists in this version of the protocol. */
  predicate PlainValid(version: Id.EthVersion, k: PlainKind)
  {
    var eth69 := !Id.Before(version, Id.Eth69);
    (k == StatusLegacy ==> !eth69) && (k == StatusEth69 ==> eth69) &&
    (k == NewPooledTransactionHashes66 ==> Id.Before(version, Id.Eth68)) &&
    (k == NewPooledTransactionHashes68 ==> !Id.Before(version, Id.Eth68)) &&
    (k == BlockRangeUpdate ==> eth69)
  }

  /** Whether a pair kind exists in this version of the protocol. */
  predicate PairValid(version: Id.EthVersion, k: PairKind)
  {
    var eth69 := !Id.Before(version, Id.Eth69);
    (k == GetNodeData || k == NodeData ==> Id.Before(version, Id.Eth67)) &&
    (k == Receipts ==> !eth69) && (k == Receipts69 ==> eth69)
  }

  /** Whether the message exists in this version of the protocol, in the shape that version uses. */
  predicate ValidFor<B>(version: Id.EthVersion, msg: EthMessage<B>)
  {
    match msg
    case Plain(k, _) => PlainValid(version, k)
    case Paired(k, _) => PairValid(version, k)
    case Other(id, _) => id < 256 && !Id.Assigned(id)
  }

  /** Where `decode_message` sends an identifier. */
  datatype Route =
    | ToPlain(plainKind: PlainKind)
    | ToPair(pairKind: PairKind)
    | Reject(reported: Id.EthMessageID)
    | Raw

  /**
   The version rules of `decode_message`: the status shape changes at eth/69,
   the pooled transaction announcement at eth/68, node data is gone from
   eth/67 on, receipts lose their bloom at eth/69 and the block range
   update only exists from eth/69. A rejected identifier is reported as
   itself.
   */
  function Classify(version: Id.EthVersion, id: Id.EthMessageID): (r: Route)
    ensures r.Raw? <==> id.Other?
    ensures r.Reject? ==> r.reported == id
    ensures r.ToPlain? ==> PlainId(r.plainKind) == id && PlainValid(version, r.plainKind)
    ensures r.ToPair? ==> PairId(r.pairKind) == id && PairValid(version, r.pairKind)
  {
    var eth69 := !Id.Before(version, Id.Eth69);
    match id
    case Status => ToPlain(if eth69 then StatusEth69 else StatusLegacy)
    case NewBlockHashes => ToPlain(NewBlockHashes)
    case NewBlock => ToPlain(NewBlock)
    case Transactions => ToPlain(Transactions)
    case NewPooledTransactionHashes =>
      ToPlain(if Id.Before(version, Id.Eth68) then NewPooledTransactionHashes66 else NewPooledTransactionHashes68)
    case GetBlockHeaders => ToPair(GetBlockHeaders)
    case BlockHeaders => ToPair(BlockHeaders)
    case GetBlockBodies => ToPair(GetBlockBodies)
    case BlockBodies => ToPair(BlockBodies)
    case GetPooledTransactions => ToPair(GetPooledTransactions)
    case PooledTransactions => ToPair(PooledTransactions)
    case GetNodeData => if Id.Before(version, Id.Eth67) then ToPair(GetNodeData) else Reject(Id.GetNodeData)
    case NodeData => if Id.Before(version, Id.Eth67) then ToPair(NodeData) else Reject(Id.NodeData)
    case GetReceipts => ToPair(GetReceipts)
    case Receipts => ToPair(if eth69 then Receipts69 else Receipts)
    case BlockRangeUpdate => if eth69 then ToPlain(BlockRangeUpdate) else Reject(Id.BlockRangeUpdate)
    case Other(_) => Raw
  }

  /** As written, a `NodeData` message on eth/67 or later is reported as `GetNodeData`. */
  function ClassifyAsWritten(version: Id.EthVersion, id: Id.EthMessageID): (r: Route)
    ensures id != Id.NodeData ==> r == Classify(version, id)
  {
    if id == Id.NodeData && !Id.Before(version, Id.Eth67) then Reject(Id.GetNodeData)
    else Classify(version, id)
  }

  /** Decodes the payload along a route; a raw message takes the rest of the buffer. */
  function DecodeRouted<B>(version: Id.EthVersion, codecs: Codecs<B>, id: Id.EthMessageID,
                           route: Route, rest: Bytes): (r: Result<(ProtocolMessage<B>, Bytes), MessageError>)
    ensures r.Err? && r.error.Invalid? <==> route.Reject?
    ensures route.Reject? ==> r == Err(Invalid(version, route.reported))
    ensures r.Ok? ==> r.value.0.messageType == id
    ensures r.Ok? && route.ToPlain? ==> r.value.0.message.Plain? && r.value.0.message.plainKind == route.plainKind
    ensures r.Ok? && route.ToPair? ==> r.value.0.message.Paired? && r.value.0.message.pairKind == route.pairKind
    ensures route.Raw? ==> r == Ok((ProtocolMessage(id, Other(Id.ToU8(id), rest)), []))
  {
    match route
    case Reject(reported) => Err(Invalid(version, reported))
    case Raw => Ok((ProtocolMessage(id, Other(Id.ToU8(id), rest)), []))
    case ToPlain(k) =>
      (match codecs.plain(k).decode(rest)
       case Err(e) => Err(RlpFailure(e))
       case Ok((body, rest2)) => Ok((ProtocolMessage(id, Plain(k, body)), rest2)))
    case ToPair(k) =>
      match DecodePair(codecs.paired(k), rest)
      case Err(e) => Err(RlpFailure(e))
      case Ok((pair, rest2)) => Ok((ProtocolMessage(id, Paired(k, pair)), rest2))
  }

  /**
   `ProtocolMessage::decode_message`, with a rejected identifier reported as
   itself. Every decoded message carries the identifier that was read, is
   consistent with `From` (its identifier is the one `message_id` gives) and
   is valid for the version; a message is rejected as invalid exactly when
   its identifier does not exist in that version, and then the error names
   that identifier.
   */
  function DecodeMessage<B>(version: Id.EthVersion, codecs: Codecs<B>, buf: Bytes)
    : (r: Result<(ProtocolMessage<B>, Bytes), MessageError>)
    ensures buf == [] ==> r == Err(RlpFailure(InputTooShort))
    ensures r.Ok? ==> buf != [] && r.value.0.messageType == Id.FromU8(buf[0])
    ensures r.Ok? ==> r.value.0 == From(r.value.0.message)
    ensures r.Ok? ==> ValidFor(version, r.value.0.message)
    ensures r.Err? && r.error.Invalid? ==>
      buf != [] && r.error == Invalid(version, Id.FromU8(buf[0]))
    ensures buf != [] ==>
      (r.Err? && r.error.Invalid? <==> Classify(version, Id.FromU8(buf[0])).Reject?)
  {
    match Id.Decode(buf)
    case Err(e) => Err(RlpFailure(e))
    case Ok((id, rest)) => DecodeRouted(version, codecs, id, Classify(version, id), rest)
  }

  /** `decode_message` as written, differing only in what it reports for `NodeData`. */
  function DecodeMessageAsWritten<B>(version: Id.EthVersion, codecs: Codecs<B>, buf: Bytes)
    : (r: Result<(ProtocolMessage<B>, Bytes), MessageError>)
    ensures buf != [] && buf[0] != Id.ToU8(Id.NodeData) ==> r == DecodeMessage(version, codecs, buf)
  {
    match Id.Decode(buf)
    case Err(e) => Err(RlpFailure(e))
    case Ok((id, rest)) => DecodeRouted(version, codecs, id, ClassifyAsWritten(version, id), rest)
  }

  /**
   The discrepancy: on eth/67 and later a `NodeData` message is refused
   with an error naming `GetNodeData`, an identifier other than the one read.
   */
  lemma NodeDataMisreported<B>(version: Id.EthVersion, codecs: Codecs<B>, rest: Bytes)
    requires !Id.Before(version, Id.Eth67)
    ensures DecodeMessageAsWritten(version, codecs, [0x0e] + rest) == Err(Invalid(version, Id.GetNodeData))
    ensures Id.FromU8(([0x0e] + rest)[0]) == Id.NodeData
    ensures DecodeMessage(version, codecs, [0x0e] + rest) == Err(Invalid(version, Id.NodeData))
  {
  }

  /** Removed messages: the node data exchange is refused from eth/67 on, whatever follows. */
  lemma RemovedAtEth67<B>(codecs: Codecs<B>, rest: Bytes)
    ensures DecodeMessage(Id.Eth67, codecs, [0x0d] + rest) == Err(Invalid(Id.Eth67, Id.GetNodeData))
    ensures DecodeMessage(Id.Eth67, codecs, [0x0e] + rest) == Err(Invalid(Id.Eth67, Id.NodeData))
    ensures DecodeMessage(Id.Eth68, codecs, [0x11] + rest) == Err(Invalid(Id.Eth68, Id.BlockRangeUpdate))
  {
  }

  /** A message's payload fits the framing: a pair's length fits the header. */
  predicate Fits<B>(codecs: Codecs<B>, msg: EthMessage<B>)
  {
    msg.Paired? ==> PairFits(codecs.paired(msg.pairKind), msg.pair)
  }

  /**
   `Encodable::encode for EthMessage`: a plain body is its codec's encoding,
   a pair takes the `length` reported for it and ends with its payload, and
   a raw message's payload is written as is.
   */
  function EncodeMessage<B>(codecs: Codecs<B>, msg: EthMessage<B>): (r: Bytes)
    requires Fits(codecs, msg)
    ensures msg.Plain? ==> r == codecs.plain(msg.plainKind).encode(msg.body)
    ensures msg.Paired? ==> |r| == PairLength(codecs.paired(msg.pairKind), msg.pair)
    ensures msg.Paired? ==>
      var payload := PairPayload(codecs.paired(msg.pairKind), msg.pair);
      |payload| <= |r| && r[|r| - |payload|..] == payload
    ensures msg.Other? ==> r == msg.payload
  {
    match msg
    case Plain(k, body) => codecs.plain(k).encode(body)
    case Paired(k, pair) => EncodePair(codecs.paired(k), pair)
    case Other(_, payload) => payload
  }

  /** `Encodable for ProtocolMessage`: the identifier byte, then the message. */
  function Encode<B>(codecs: Codecs<B>, m: ProtocolMessage<B>): (r: Bytes)
    requires Fits(codecs, m.message)
    ensures |r| == 1 + |EncodeMessage(codecs, m.message)| && r[0] == Id.ToU8(m.messageType)
  {
    Id.Encode(m.messageType) + EncodeMessage(codecs, m.message)
  }

  /** For a message valid in the version, routing its identifier leads back to its kind. */
  lemma ClassifyMessageId<B>(version: Id.EthVersion, msg: EthMessage<B>)
    requires ValidFor(version, msg)
    ensures msg.Plain? ==> Classify(version, MessageId(msg)) == ToPlain(msg.plainKind)
    ensures msg.Paired? ==> Classify(version, MessageId(msg)) == ToPair(msg.pairKind)
    ensures msg.Other? ==> Classify(version, MessageId(msg)) == Raw
  {
  }

  /**
   Message round trip: a message valid for the version, framed by `From`
   and encoded, decodes back to the same protocol message and leaves what
   followed. A raw message takes the whole rest of the buffer, so nothing
   may follow it.
   */
  lemma DecodeEncodeMessage<B(!new)>(version: Id.EthVersion, codecs: Codecs<B>, msg: EthMessage<B>, rest: Bytes)
    requires AllRoundTrip(codecs)
    requires ValidFor(version, msg) && Fits(codecs, msg)
    requires msg.Other? ==> rest == []
    ensures DecodeMessage(version, codecs, Encode(codecs, From(msg)) + rest) == Ok((From(msg), rest))
  {
    var id := MessageId(msg);
    var tail := EncodeMessage(codecs, msg) + rest;
    var buf := Encode(codecs, From(msg)) + rest;
    assert buf == Id.Encode(id) + tail;
    Id.DecodeEncode(id, tail);
    ClassifyMessageId(version, msg);
    assert DecodeMessage(version, codecs, buf) == DecodeRouted(version, codecs, id, Classify(version, id), tail);
    DecodeRoutedEncoding(version, codecs, msg, rest);
  }

  /** Along the route its identifier takes, a valid message's encoding decodes back to it. */
  lemma DecodeRoutedEncoding<B(!new)>(version: Id.EthVersion, codecs: Codecs<B>, msg: EthMessage<B>, rest: Bytes)
    requires AllRoundTrip(codecs)
    requires ValidFor(version, msg) && Fits(codecs, msg)
    requires msg.Other? ==> rest == []
    ensures DecodeRouted(version, codecs, MessageId(msg), Classify(version, MessageId(msg)),
      EncodeMessage(codecs, msg) + rest) == Ok((From(msg), rest))
  {
    ClassifyMessageId(version, msg);
    match msg
    case Plain(k, body) =>
      assert RoundTrips(codecs.plain(k));
      assert codecs.plain(k).decode(codecs.plain(k).encode(body) + rest) == Ok((body, rest));
    case Paired(k, pair) =>
      assert RoundTrips(codecs.paired(k));
      DecodeEncodePair(codecs.paired(k), pair, rest);
    case Other(_, payload) =>
      assert payload + rest == payload;
  }

}
