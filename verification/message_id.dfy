/**
 Message identifiers of the `eth` wire protocol: the one-byte code in front
 of every message, its codec, and the protocol versions that decide which
 codes a connection accepts.
 */
module EthMessageId {

  import opened Wrappers
  import Rlp

  /** `EthVersion`: the protocol versions the message layer distinguishes. */
  datatype EthVersion = Eth66 | Eth67 | Eth68 | Eth69

  function VersionNumber(v: EthVersion): (r: nat)
    ensures 66 <= r <= 69
  {
    match v
    case Eth66 => 66
    case Eth67 => 67
    case Eth68 => 68
    case Eth69 => 69
  }

  /** Versions are ordered by their number, as the derived `Ord` of the enum does. */
  predicate Before(a: EthVersion, b: EthVersion)
  {
    VersionNumber(a) < VersionNumber(b)
  }

  /** `EthMessageID`: the sixteen assigned codes, and any other byte. */
  datatype EthMessageID =
    | Status
    | NewBlockHashes
    | Transactions
    | GetBlockHeaders
    | BlockHeaders
    | GetBlockBodies
    | BlockBodies
    | NewBlock
    | NewPooledTransactionHashes
    | GetPooledTransactions
    | PooledTransactions
    | GetNodeData
    | NodeData
    | GetReceipts
    | Receipts
    | BlockRangeUpdate
    | Other(code: Byte)

  /**
   `EthMessageID::to_u8`: a named identifier gets its assigned code, which
   the byte table maps back to it; `Other` keeps its byte.
   */
  function ToU8(id: EthMessageID): (r: Byte)
    ensures !id.Other? ==> Assigned(r)
    ensures Canonical(id) ==> FromU8(r) == id
    ensures id.Other? ==> r == id.code
  {
    match id
    case Status => 0x00
    case NewBlockHashes => 0x01
    case Transactions => 0x02
    case GetBlockHeaders => 0x03
    case BlockHeaders => 0x04
    case GetBlockBodies => 0x05
    case BlockBodies => 0x06
    case NewBlock => 0x07
    case NewPooledTransactionHashes => 0x08
    case GetPooledTransactions => 0x09
    case PooledTransactions => 0x0a
    case GetNodeData => 0x0d
    case NodeData => 0x0e
    case GetReceipts => 0x0f
    case Receipts => 0x10
    case BlockRangeUpdate => 0x11
    case Other(value) => value
  }

  /** The codes that have a name: 0x00 to 0x0a and 0x0d to 0x11. */
  predicate Assigned(b: nat)
  {
    b <= 0x0a || 0x0d <= b <= 0x11
  }

  /** The byte-to-identifier table of `Decodable for EthMessageID`. */
  function FromU8(b: Byte): (id: EthMessageID)
    ensures id.Other? <==> !Assigned(b)
  {
    if b == 0x00 then Status
    else if b == 0x01 then NewBlockHashes
    else if b == 0x02 then Transactions
    else if b == 0x03 then GetBlockHeaders
    else if b == 0x04 then BlockHeaders
    else if b == 0x05 then GetBlockBodies
    else if b == 0x06 then BlockBodies
    else if b == 0x07 then NewBlock
    else if b == 0x08 then NewPooledTransactionHashes
    else if b == 0x09 then GetPooledTransactions
    else if b == 0x0a then PooledTransactions
    else if b == 0x0d then GetNodeData
    else if b == 0x0e then NodeData
    else if b == 0x0f then GetReceipts
    else if b == 0x10 then Receipts
    else if b == 0x11 then BlockRangeUpdate
    else Other(b)
  }

  /**
   An identifier is canonical when decoding its code gives it back: every
   named one is, and `Other` only with a code no name uses.
   */
  predicate Canonical(id: EthMessageID)
  {
    id.Other? ==> !Assigned(id.code)
  }

  /** Every byte survives decoding and re-encoding. */
  lemma ToU8FromU8(b: Byte)
    ensures ToU8(FromU8(b)) == b
    ensures Canonical(FromU8(b))
  {
  }

  /**
   An identifier survives encoding and decoding exactly when it is
   canonical; `Other` carrying an assigned code comes back as the named
   identifier for that code.
   */
  lemma FromU8ToU8(id: EthMessageID)
    ensures FromU8(ToU8(id)) == id <==> Canonical(id)
    ensures id.Other? && Assigned(id.code) ==> !FromU8(ToU8(id)).Other?
  {
  }

  /** `Other` with a named code does not survive: `Other(0)` comes back as `Status`. */
  lemma OtherNamedCodeExample()
    ensures Canonical(Status) && !Canonical(Other(0))
    ensures FromU8(ToU8(Other(0))) == Status
  {
  }

  /** The codes a version knows: the named ones, `BlockRangeUpdate` only from eth/69. */
  predicate Known(b: nat, version: EthVersion)
  {
    Assigned(b) && (b == 0x11 ==> version == Eth69)
  }

  /** `EthMessageID::max`: the highest code the version knows. */
  function Max(version: EthVersion): (r: Byte)
    ensures Known(r, version)
    ensures forall b: nat :: Known(b, version) ==> b <= r
  {
    if version == Eth69 then ToU8(BlockRangeUpdate) else ToU8(Receipts)
  }

  /** The highest code of a version is a named one, and every named code lies at or below eth/69's. */
  lemma MaxBounds(version: EthVersion, id: EthMessageID)
    ensures Assigned(Max(version))
    ensures !id.Other? ==> ToU8(id) <= Max(Eth69)
    ensures !id.Other? && id != BlockRangeUpdate ==> ToU8(id) <= Max(version)
  {
  }

  /** `Encodable for EthMessageID`: the code as a single byte. */
  function Encode(id: EthMessageID): (r: Bytes)
    ensures |r| == 1 && r[0] == ToU8(id)
  {
    [ToU8(id)]
  }

  /** `Decodable for EthMessageID`: reads one byte; an empty buffer is too short. */
  function Decode(buf: Bytes): (r: Result<(EthMessageID, Bytes), Rlp.RlpError>)
    ensures buf == [] <==> r == Err(Rlp.InputTooShort)
    ensures r.Ok? ==> ToU8(r.value.0) == buf[0] && r.value.1 == buf[1..] && Canonical(r.value.0)
  {
    if buf == [] then Err(Rlp.InputTooShort) else Ok((FromU8(buf[0]), buf[1..]))
  }

  /** Round trip: a canonical identifier decodes back from its encoding, leaving what follows. */
  lemma DecodeEncode(id: EthMessageID, rest: Bytes)
    requires Canonical(id)
    ensures Decode(Encode(id) + rest) == Ok((id, rest))
  {
    assert (Encode(id) + rest)[1..] == rest;
    FromU8ToU8(id);
  }

  /** `TryFrom<usize> for EthMessageID`: only the named codes are accepted. */
  function TryFromUsize(value: nat): (r: Result<EthMessageID, string>)
    ensures r.Ok? <==> Assigned(value)
    ensures r.Ok? ==> ToU8(r.value) == value && !r.value.Other?
    ensures r.Err? ==> r.error == "Invalid message ID"
  {
    if Assigned(value) then Ok(FromU8(value)) else Err("Invalid message ID")
  }

  /** The conversion from `usize` agrees with the byte decoder wherever it succeeds. */
  lemma TryFromAgrees(value: nat)
    requires value < 256
    ensures TryFromUsize(value).Ok? ==> TryFromUsize(value).value == FromU8(value)
    ensures TryFromUsize(value).Err? <==> FromU8(value).Other?
  {
  }
}
