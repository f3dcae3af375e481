/**
 The part of RLP (Appendix B of the Ethereum Yellow Paper) that the eth
 wire framing relies on, following the `alloy_rlp` crate: list and string
 headers, the big-endian length prefix, and unsigned 64-bit integers.

 Decoders take the whole remaining buffer and return the value together
 with what is left, as `alloy_rlp` advances its `&mut &[u8]` cursor.
 */
module Rlp {

  import opened Wrappers

  /** `alloy_rlp::Error`, the variants these decoders produce. */
  datatype RlpError =
    | InputTooShort
    | NonCanonicalSingleByte
    | NonCanonicalSize
    | LeadingZero
    | Overflow
    | UnexpectedList
    | UnexpectedString
    | UnexpectedLength

  const EmptyStringCode: Byte := 0x80
  const EmptyListCode: Byte := 0xc0

  /** Payloads shorter than this have their length in the prefix byte itself. */
  const ShortLimit: nat := 56

  /** 2^64: `usize` and `u64` are 64 bits wide. */
  const Word: nat := 0x1_0000_0000_0000_0000

  type U64 = n: nat | n < Word

  /** `Header`: whether the item is a list, and the length of its payload. */
  datatype Header = Header(list: bool, payloadLength: U64)

  /** Big-endian value of a byte string. */
  function FromBe(bytes: Bytes): nat
    decreases |bytes|
  {
    if bytes == [] then 0 else FromBe(bytes[..|bytes| - 1]) * 256 + bytes[|bytes| - 1]
  }

  /** Big-endian bytes of `n` without leading zeros; zero has none. */
  function ToBe(n: nat): (r: Bytes)
    ensures r != [] ==> r[0] != 0
    ensures n == 0 <==> r == []
    decreases n
  {
    if n == 0 then [] else ToBe(n / 256) + [n % 256]
  }

  lemma {:induction false} ToBeFromBe(n: nat)
    ensures FromBe(ToBe(n)) == n
    decreases n
  {
    if n > 0 {
      ToBeFromBe(n / 256);
      var r := ToBe(n);
      assert r[..|r| - 1] == ToBe(n / 256);
    }
  }

  /** Values below 2^64 take at most eight bytes. */
  lemma {:induction false} ToBeLength(n: nat, k: nat)
    requires n < Pow256(k)
    ensures |ToBe(n)| <= k
    decreases n
  {
    if n > 0 {
      assert k > 0;
      ToBeLength(n / 256, k - 1);
    }
  }

  function Pow256(k: nat): (r: nat)
    ensures r > 0
  {
    if k == 0 then 1 else 256 * Pow256(k - 1)
  }

  /** A big-endian string of at most `k` bytes denotes a value below 256^k. */
  lemma {:induction false} FromBeBound(bytes: Bytes)
    ensures FromBe(bytes) < Pow256(|bytes|)
    decreases |bytes|
  {
    if bytes != [] {
      FromBeBound(bytes[..|bytes| - 1]);
    }
  }

  /** A string without leading zero decodes to a value whose minimal encoding is that string. */
  lemma {:induction false} FromBeToBe(bytes: Bytes)
    requires bytes == [] || bytes[0] != 0
    ensures ToBe(FromBe(bytes)) == bytes
    decreases |bytes|
  {
    if bytes != [] {
      var init := bytes[..|bytes| - 1];
      assert init == [] || init[0] != 0;
      FromBeToBe(init);
      FromBePositive(bytes);
      var n := FromBe(bytes);
      assert n / 256 == FromBe(init) && n % 256 == bytes[|bytes| - 1];
    }
  }

  lemma {:induction false} FromBePositive(bytes: Bytes)
    requires bytes != [] && bytes[0] != 0
    ensures FromBe(bytes) > 0
    decreases |bytes|
  {
    if |bytes| > 1 {
      FromBePositive(bytes[..|bytes| - 1]);
    }
  }

  lemma Pow256Eight()
    ensures Pow256(8) == Word
  {
  }

  /**
   `static_left_pad` into a `u64`: more than eight bytes overflow, a leading
   zero byte is not canonical; the empty string is zero.
   */
  function LeftPad64(bytes: Bytes): (r: Result<U64, RlpError>)
    ensures |bytes| > 8 ==> r == Err(Overflow)
    ensures |bytes| <= 8 && bytes != [] && bytes[0] == 0 ==> r == Err(LeadingZero)
    ensures r.Ok? ==> r.value == FromBe(bytes) && ToBe(r.value) == bytes
  {
    if |bytes| > 8 then Err(Overflow)
    else if bytes != [] && bytes[0] == 0 then Err(LeadingZero)
    else
      FromBeBound(bytes);
      FromBeToBe(bytes);
      Pow256Eight();
      PowMonotone(|bytes|, 8);
      Ok(FromBe(bytes))
  }

  lemma {:induction false} PowMonotone(j: nat, k: nat)
    requires j <= k
    ensures Pow256(j) <= Pow256(k)
    decreases k
  {
    if j < k {
      PowMonotone(j, k - 1);
    }
  }

  /** `length_of_length`: the size of the header for a payload of this length. */
  function LengthOfLength(payloadLength: U64): (r: nat)
    ensures payloadLength < ShortLimit ==> r == 1
    ensures 2 <= r <= 9
      || payloadLength < ShortLimit
  {
    if payloadLength < ShortLimit then 1
    else
      Pow256Eight();
      ToBeLength(payloadLength, 8);
      1 + |ToBe(payloadLength)|
  }

  /** `Header::encode`. */
  function EncodeHeader(h: Header): (r: Bytes)
    ensures |r| == LengthOfLength(h.payloadLength)
  {
    var code: nat := if h.list then EmptyListCode else EmptyStringCode;
    if h.payloadLength < ShortLimit then [code + h.payloadLength]
    else
      Pow256Eight();
      ToBeLength(h.payloadLength, 8);
      var be := ToBe(h.payloadLength);
      [code + 55 + |be|] + be
  }

  /**
   `Header::decode`. A byte below 0x80 is its own one-byte string and is not
   consumed; a short string of one byte must not be such a byte; long
   lengths must be canonical; the payload must be present in the buffer.
   */
  function DecodeHeader(buf: Bytes): (r: Result<(Header, Bytes), RlpError>)
    ensures buf == [] ==> r == Err(InputTooShort)
    ensures r.Ok? ==> |r.value.1| >= r.value.0.payloadLength
    ensures r.Ok? ==> |r.value.1| <= |buf| && r.value.1 == buf[|buf| - |r.value.1|..]
  {
    if buf == [] then Err(InputTooShort)
    else
      var b := buf[0];
      if b < 0x80 then Ok((Header(false, 1), buf))
      else if b <= 0xb7 then
        var n := b - 0x80;
        var rest := buf[1..];
        if n == 1 && rest == [] then Err(InputTooShort)
        else if n == 1 && rest[0] < 0x80 then Err(NonCanonicalSingleByte)
        else if |rest| < n then Err(InputTooShort)
        else Ok((Header(false, n), rest))
      else if b < 0xc0 || b >= 0xf8 then
        var list := b >= 0xf8;
        var lenOfLen := if list then b - 0xf7 else b - 0xb7;
        var rest := buf[1..];
        if |rest| < lenOfLen then Err(InputTooShort)
        else
          match LeftPad64(rest[..lenOfLen])
          case Err(e) => Err(e)
          case Ok(n) =>
            var payload := rest[lenOfLen..];
            if n < ShortLimit then Err(NonCanonicalSize)
            else if |payload| < n then Err(InputTooShort)
            else Ok((Header(list, n), payload))
      else
        var n := b - 0xc0;
        var rest := buf[1..];
        if |rest| < n then Err(InputTooShort)
        else Ok((Header(true, n), rest))
  }

  /**
   Header round trip: a list header, or a string header whose payload is not
   a lone byte below 0x80, decodes back from its encoding followed by the
   payload.
   */
  lemma DecodeEncodeHeader(h: Header, rest: Bytes)
    requires |rest| >= h.payloadLength
    requires !h.list ==> !(h.payloadLength == 1 && rest[0] < 0x80)
    ensures DecodeHeader(EncodeHeader(h) + rest) == Ok((h, rest))
  {
    var buf := EncodeHeader(h) + rest;
    if h.payloadLength >= ShortLimit {
      Pow256Eight();
      ToBeLength(h.payloadLength, 8);
      var be := ToBe(h.payloadLength);
      assert buf[1..][..|be|] == be;
      assert buf[1..][|be|..] == rest;
      ToBeFromBe(h.payloadLength);
    } else {
      assert buf[1..] == rest;
    }
  }

  /** `Encodable for u64`: zero is the empty string, small values are their own byte. */
  function EncodeU64(v: U64): (r: Bytes)
    ensures 1 <= |r| <= 9
  {
    if v == 0 then [EmptyStringCode]
    else if v < 0x80 then [v]
    else
      Pow256Eight();
      ToBeLength(v, 8);
      var be := ToBe(v);
      [EmptyStringCode + |be|] + be
  }

  /** `Header::decode_bytes(buf, false)`: a string payload. */
  function DecodeBytes(buf: Bytes): (r: Result<(Bytes, Bytes), RlpError>)
    ensures r.Ok? ==> |r.value.0| + |r.value.1| <= |buf|
    ensures r.Ok? ==> r.value.0 + r.value.1 == buf[|buf| - |r.value.0| - |r.value.1|..]
  {
    match DecodeHeader(buf)
    case Err(e) => Err(e)
    case Ok((h, rest)) =>
      if h.list then Err(UnexpectedList)
      else
        assert rest[..h.payloadLength] + rest[h.payloadLength..] == rest;
        Ok((rest[..h.payloadLength], rest[h.payloadLength..]))
  }

  /** The string `DecodeBytes` reads is the payload a string header announces. */
  lemma StringPayload(buf: Bytes, h: Header, after: Bytes)
    requires DecodeHeader(buf) == Ok((h, after)) && !h.list
    ensures DecodeBytes(buf) == Ok((after[..h.payloadLength], after[h.payloadLength..]))
  {
  }

  /** Conversely, a string `DecodeBytes` read came from a string header. */
  lemma StringHeader(buf: Bytes, bytes: Bytes, rest: Bytes)
    requires DecodeBytes(buf) == Ok((bytes, rest))
    ensures DecodeHeader(buf).Ok? && !DecodeHeader(buf).value.0.list
    ensures var (h, after) := DecodeHeader(buf).value;
      bytes == after[..h.payloadLength] && rest == after[h.payloadLength..]
  {
  }

  /** `Decodable for u64`. */
  function DecodeU64(buf: Bytes): (r: Result<(U64, Bytes), RlpError>)
    ensures r.Ok? ==> |r.value.1| < |buf|
  {
    match DecodeBytes(buf)
    case Err(e) => Err(e)
    case Ok((bytes, rest)) =>
      match LeftPad64(bytes)
      case Err(e) => Err(e)
      case Ok(v) => Ok((v, rest))
  }

  /** Integer round trip: every `u64` decodes back from its encoding, leaving what follows. */
  lemma DecodeEncodeU64(v: U64, rest: Bytes)
    ensures DecodeU64(EncodeU64(v) + rest) == Ok((v, rest))
  {
    if v == 0 {
      DecodeEncodeZero(rest);
    } else if v < 0x80 {
      DecodeEncodeSingle(v, rest);
    } else {
      DecodeEncodeLong(v, rest);
    }
  }

  lemma DecodeEncodeZero(rest: Bytes)
    ensures DecodeU64(EncodeU64(0) + rest) == Ok((0, rest))
  {
    var buf := EncodeU64(0) + rest;
    assert buf[1..] == rest;
    assert DecodeHeader(buf) == Ok((Header(false, 0), rest));
  }

  lemma DecodeEncodeSingle(v: U64, rest: Bytes)
    requires 0 < v < 0x80
    ensures DecodeU64(EncodeU64(v) + rest) == Ok((v, rest))
  {
    var buf := EncodeU64(v) + rest;
    assert DecodeHeader(buf) == Ok((Header(false, 1), buf));
    assert buf[..1] == [v] && buf[1..] == rest;
    assert ToBe(v) == [v] by {
      assert ToBe(v / 256) == [];
    }
    ToBeFromBe(v);
  }

  lemma DecodeEncodeLong(v: U64, rest: Bytes)
    requires v >= 0x80
    ensures DecodeU64(EncodeU64(v) + rest) == Ok((v, rest))
  {
    var buf := EncodeU64(v) + rest;
    Pow256Eight();
    ToBeLength(v, 8);
    var be := ToBe(v);
    var h := Header(false, |be|);
    assert buf == EncodeHeader(h) + (be + rest);
    assert |be| == 1 ==> be[0] == v && v >= 0x80 by {
      if |be| == 1 {
        assert ToBe(v / 256) == [];
      }
    }
    DecodeEncodeHeader(h, be + rest);
    assert (be + rest)[..|be|] == be && (be + rest)[|be|..] == rest;
    ToBeFromBe(v);
  }

  /** `Encodable for u8`: the same integer encoding, a byte being a small unsigned integer. */
  function EncodeU8(v: Byte): (r: Bytes)
    ensures r == EncodeU64(v)
    ensures 1 <= |r| <= 2
  {
    if v == 0 then [EmptyStringCode]
    else if v < 0x80 then [v]
    else
      assert ToBe(v) == [v] by {
        assert ToBe(v / 256) == [];
      }
      [EmptyStringCode + 1, v]
  }

  /**
   `Decodable for u8`: a string of at most one byte, without a leading
   zero; the empty string is zero.
   */
  function DecodeU8(buf: Bytes): (r: Result<(Byte, Bytes), RlpError>)
    ensures r.Ok? ==> |r.value.1| < |buf|
    ensures r.Ok? ==> buf == EncodeU8(r.value.0) + r.value.1
  {
    match DecodeBytes(buf)
    case Err(e) => Err(e)
    case Ok((bytes, rest)) =>
      if |bytes| > 1 then Err(Overflow)
      else if bytes != [] && bytes[0] == 0 then Err(LeadingZero)
      else
        DecodeU8Canonical(buf, bytes, rest);
        Ok((if bytes == [] then 0 else bytes[0], rest))
  }

  /**
   The only encodings `DecodeU8` accepts are the canonical ones: the byte a
   small value is, `80` for zero and `81 v` for a value from 0x80 up.
   */
  lemma DecodeU8Canonical(buf: Bytes, bytes: Bytes, rest: Bytes)
    requires DecodeBytes(buf) == Ok((bytes, rest))
    requires |bytes| <= 1 && (bytes != [] ==> bytes[0] != 0)
    ensures buf == EncodeU8(if bytes == [] then 0 else bytes[0]) + rest
  {
    StringHeader(buf, bytes, rest);
    var (h, after) := DecodeHeader(buf).value;
    ShortStringHeader(buf, h, after);
    ShortStringBytes(buf, h.payloadLength, after, bytes, rest);
  }

  /** The byte arithmetic behind `DecodeU8Canonical`, once the header's form is known. */
  lemma ShortStringBytes(buf: Bytes, n: nat, after: Bytes, bytes: Bytes, rest: Bytes)
    requires n <= |after| && bytes == after[..n] && rest == after[n..]
    requires |bytes| <= 1 && (bytes != [] ==> bytes[0] != 0)
    requires buf != []
    requires buf[0] < 0x80 ==> after == buf && n == 1
    requires buf[0] == 0x80 ==> after == buf[1..] && n == 0
    requires buf[0] >= 0x80 ==> buf[0] <= 0x81 && after == buf[1..]
    requires buf[0] == 0x81 ==> n == 1 && after[0] >= 0x80
    ensures buf == EncodeU8(if bytes == [] then 0 else bytes[0]) + rest
  {
    if buf[0] < 0x80 {
      assert bytes == [buf[0]] && EncodeU8(buf[0]) == [buf[0]];
      assert buf == [buf[0]] + rest;
    } else if buf[0] == 0x80 {
      assert bytes == [] && EncodeU8(0) == [0x80];
      assert buf == [buf[0]] + rest;
    } else {
      assert bytes == [after[0]] && EncodeU8(after[0]) == [0x81, after[0]];
      assert buf == [buf[0]] + bytes + rest;
    }
  }

  /** A string header announcing at most one byte is one of the three short forms. */
  lemma ShortStringHeader(buf: Bytes, h: Header, after: Bytes)
    requires DecodeHeader(buf) == Ok((h, after)) && !h.list && h.payloadLength <= 1
    ensures buf[0] < 0x80 ==> after == buf && h.payloadLength == 1
    ensures buf[0] == 0x80 ==> after == buf[1..] && h.payloadLength == 0
    ensures buf[0] >= 0x80 ==> buf[0] <= 0x81 && after == buf[1..]
    ensures buf[0] == 0x81 ==> h.payloadLength == 1 && after[0] >= 0x80
  {
    // a long string header would announce at least 56 bytes
  }

  /** Byte round trip: every byte decodes back from its encoding, leaving what follows. */
  lemma DecodeEncodeU8(v: Byte, rest: Bytes)
    ensures DecodeU8(EncodeU8(v) + rest) == Ok((v, rest))
  {
    var bytes := if v == 0 then [] else [v];
    StringOfU8(v, rest);
    assert DecodeBytes(EncodeU8(v) + rest) == Ok((bytes, rest));
  }

  /** The string a byte's encoding holds: empty for zero, the byte itself otherwise. */
  lemma StringOfU8(v: Byte, rest: Bytes)
    ensures DecodeBytes(EncodeU8(v) + rest) == Ok((if v == 0 then [] else [v], rest))
  {
    if v == 0 {
      StringOfZero(rest);
    } else if v < 0x80 {
      StringOfSmall(v, rest);
    } else {
      StringOfLarge(v, rest);
    }
  }

  lemma StringOfZero(rest: Bytes)
    ensures DecodeBytes(EncodeU8(0) + rest) == Ok(([], rest))
  {
    var buf := EncodeU8(0) + rest;
    assert DecodeHeader(buf) == Ok((Header(false, 0), rest)) by {
      assert buf == EncodeHeader(Header(false, 0)) + rest;
      DecodeEncodeHeader(Header(false, 0), rest);
    }
    StringPayload(buf, Header(false, 0), rest);
    assert rest[..0] == [] && rest[0..] == rest;
  }

  lemma StringOfSmall(v: Byte, rest: Bytes)
    requires 0 < v < 0x80
    ensures DecodeBytes(EncodeU8(v) + rest) == Ok(([v], rest))
  {
    var buf := EncodeU8(v) + rest;
    SingleByteString(buf);
    StringPayload(buf, Header(false, 1), buf);
    assert buf[..1] == [v] && buf[1..] == rest;
  }

  lemma StringOfLarge(v: Byte, rest: Bytes)
    requires v >= 0x80
    ensures DecodeBytes(EncodeU8(v) + rest) == Ok(([v], rest))
  {
    var buf, after := EncodeU8(v) + rest, [v] + rest;
    assert DecodeHeader(buf) == Ok((Header(false, 1), after)) by {
      assert buf == EncodeHeader(Header(false, 1)) + after;
      DecodeEncodeHeader(Header(false, 1), after);
    }
    StringPayload(buf, Header(false, 1), after);
    assert after[..1] == [v] && after[1..] == rest;
  }

  lemma SingleByteString(buf: Bytes)
    requires buf != [] && buf[0] < 0x80
    ensures DecodeHeader(buf) == Ok((Header(false, 1), buf))
  {
  }

  /** `Header::decode_bytes(buf, true)`: a list payload; a string header is refused. */
  function DecodeListBytes(buf: Bytes): (r: Result<(Bytes, Bytes), RlpError>)
    ensures r.Ok? ==> |r.value.0| < Word && |r.value.0| + |r.value.1| < |buf|
    ensures r.Ok? ==> buf == EncodeHeader(Header(true, |r.value.0|)) + r.value.0 + r.value.1
  {
    match DecodeHeader(buf)
    case Err(e) => Err(e)
    case Ok((h, rest)) =>
      if !h.list then Err(UnexpectedString)
      else
        ListHeaderCanonical(buf, h, rest);
        Ok((rest[..h.payloadLength], rest[h.payloadLength..]))
  }

  lemma ListHeaderCanonical(buf: Bytes, h: Header, rest: Bytes)
    requires DecodeHeader(buf) == Ok((h, rest)) && h.list
    ensures buf == EncodeHeader(h) + rest
  {
    var b := buf[0];
    if b >= 0xf8 {
      var lenOfLen := b - 0xf7;
      var lenBytes := buf[1..][..lenOfLen];
      assert h.payloadLength == FromBe(lenBytes) && ToBe(h.payloadLength) == lenBytes;
      assert buf == [b] + lenBytes + rest;
    } else {
      assert buf == [b] + rest;
    }
  }

  /** The list payload of a byte vector: each element's encoding, in order. */
  function ItemsPayload(xs: seq<Byte>): (r: Bytes)
    ensures |xs| <= |r| <= 2 * |xs|
    decreases |xs|
  {
    if xs == [] then [] else EncodeU8(xs[0]) + ItemsPayload(xs[1..])
  }

  /** Byte vectors whose list payload fits the header's `usize`. */
  type ByteVec = xs: seq<Byte> | |ItemsPayload(xs)| < Word witness []

  /** `Encodable for Vec<u8>`: a list of byte-sized integers. */
  function EncodeByteVec(xs: ByteVec): (r: Bytes)
  {
    EncodeHeader(Header(true, |ItemsPayload(xs)|)) + ItemsPayload(xs)
  }

  /** The loop of `Decodable for Vec<T>`: elements are read until the payload is used up. */
  function DecodeItems(payload: Bytes): (r: Result<seq<Byte>, RlpError>)
    ensures r.Ok? ==> ItemsPayload(r.value) == payload
    decreases |payload|
  {
    if payload == [] then Ok([])
    else
      match DecodeU8(payload)
      case Err(e) => Err(e)
      case Ok((x, rest)) =>
        match DecodeItems(rest)
        case Err(e) => Err(e)
        case Ok(xs) =>
          assert ([x] + xs)[1..] == xs;
          Ok([x] + xs)
  }

  /** `Decodable for Vec<u8>`: a list header, then its payload read element by element. */
  function DecodeByteVec(buf: Bytes): (r: Result<(ByteVec, Bytes), RlpError>)
    ensures r.Ok? ==> buf == EncodeByteVec(r.value.0) + r.value.1
  {
    match DecodeListBytes(buf)
    case Err(e) => Err(e)
    case Ok((payload, rest)) =>
      match DecodeItems(payload)
      case Err(e) => Err(e)
      case Ok(xs) => Ok((xs, rest))
  }

  lemma {:induction false} DecodeEncodeItems(xs: seq<Byte>)
    ensures DecodeItems(ItemsPayload(xs)) == Ok(xs)
    decreases |xs|
  {
    if xs != [] {
      var tail := ItemsPayload(xs[1..]);
      DecodeEncodeU8(xs[0], tail);
      DecodeEncodeItems(xs[1..]);
      DecodeItemsCons(ItemsPayload(xs), xs[0], tail, xs[1..]);
      assert [xs[0]] + xs[1..] == xs;
    }
  }

  lemma DecodeItemsCons(payload: Bytes, x: Byte, rest: Bytes, xs: seq<Byte>)
    requires payload != [] && DecodeU8(payload) == Ok((x, rest)) && DecodeItems(rest) == Ok(xs)
    ensures DecodeItems(payload) == Ok([x] + xs)
  {
  }

  /** Byte vector round trip: every vector decodes back from its encoding, leaving what follows. */
  lemma DecodeEncodeByteVec(xs: ByteVec, rest: Bytes)
    ensures DecodeByteVec(EncodeByteVec(xs) + rest) == Ok((xs, rest))
  {
    var payload := ItemsPayload(xs);
    var h := Header(true, |payload|);
    assert EncodeByteVec(xs) + rest == EncodeHeader(h) + (payload + rest);
    DecodeEncodeHeader(h, payload + rest);
    assert (payload + rest)[..|payload|] == payload && (payload + rest)[|payload|..] == rest;
    DecodeEncodeItems(xs);
  }
}
