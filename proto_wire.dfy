/**
 * The part of the Protocol Buffers (proto3) binary wire format that the
 * macOS IPC message `raw_packet::Packet { data: bytes, process_name: string }`
 * uses: base-128 varints, field keys, length-delimited fields, skipping of
 * unknown fields, and the encoder's omission of default (empty) fields.
 *
 * The `.proto` file that fixes the two field numbers is not part of this
 * model, so they are the parameters `Schema.dataTag` and `Schema.nameTag`.
 */
module ProtoWire {
  import opened Common
  import Utf8

  /** Wire types. */
  const VARINT: nat := 0
  const I64: nat := 1
  const LEN: nat := 2
  const SGROUP: nat := 3
  const EGROUP: nat := 4
  const I32: nat := 5

  /** Field numbers are at most 2^29 - 1. */
  const MAX_TAG: nat := 0x2000_0000

  /** Values held by a varint are Rust `u64`s. */
  const U64_LIMIT: nat := 0x1_0000_0000_0000_0000

  lemma Pow2Of64()
    ensures Pow2(64) == U64_LIMIT
  {
    Pow2Add(32, 32);
    Pow2Of32();
  }

  lemma Pow2Of32()
    ensures Pow2(32) == 0x1_0000_0000
  {
    Pow2Add(16, 16);
    Pow2Of16();
  }

  lemma Pow2Of16()
    ensures Pow2(16) == 0x1_0000
  {
    Pow2Add(8, 8);
    assert Pow2(8) == 256;
  }

  // ---------------------------------------------------------------- varints

  /** Each varint byte before the tenth carries seven more bits of the value. */
  lemma VarintScale(count: nat)
    requires count < 9
    ensures Pow2(64 - 7 * count) == 128 * Pow2(57 - 7 * count)
  {
    Pow2Add(7, 57 - 7 * count);
    assert Pow2(7) == 128;
  }

  /** Little-endian base-128 encoding: 7 payload bits per byte, the high bit marks "more bytes follow". */
  function EncodeVarint(n: nat): (r: seq<byte>)
    ensures 1 <= |r|
    decreases n
  {
    if n < 128 then [n] else [n % 128 + 128] + EncodeVarint(n / 128)
  }

  /**
   * Decodes the varint at the start of `s`, `count` bytes of it having been
   * read already. A varint has at most ten bytes and the tenth may only hold
   * the single top bit of a `u64`; a truncated or longer varint is an error.
   */
  function VarintFrom(s: seq<byte>, count: nat): (r: Option<(nat, seq<byte>)>)
    requires count < 10
    ensures r.Some? ==> |r.value.1| < |s| && r.value.1 == s[|s| - |r.value.1|..]
    ensures r.Some? ==> r.value.0 < Pow2(64 - 7 * count)
    decreases 10 - count
  {
    if |s| == 0 then None
    else if s[0] < 128 then
      if count == 9 && s[0] >= 2 then None
      else if count == 9 then Some((s[0] as nat, s[1..]))
      else
        VarintScale(count);
        Some((s[0] as nat, s[1..]))
    else if count == 9 then None
    else
      match VarintFrom(s[1..], count + 1)
      case None => None
      case Some((v, rest)) =>
        VarintScale(count);
        Some((s[0] - 128 + 128 * v, rest))
  }

  /**
   * The varint at the start of `s`: it ends at the first byte below 128,
   * within ten bytes, and holds a `u64`.
   */
  function DecodeVarint(s: seq<byte>): (r: Option<(nat, seq<byte>)>)
    ensures r.Some? ==> |r.value.1| < |s| && r.value.0 < U64_LIMIT
    ensures r.Some? ==> var used := |s| - |r.value.1|;
                        used <= 10 && s[used - 1] < 128
                        && forall i :: 0 <= i < used - 1 ==> s[i] >= 128
    ensures |s| >= 10 && (forall i :: 0 <= i < 10 ==> s[i] >= 128) ==> r.None?
  {
    Pow2Of64();
    VarintShape(s, 0);
    VarintFrom(s, 0)
  }

  /** A varint read after `count` bytes ends at its first byte below 128, within `10 - count` bytes. */
  lemma {:induction false} VarintShape(s: seq<byte>, count: nat)
    requires count < 10
    ensures var r := VarintFrom(s, count);
            r.Some? ==> var used := |s| - |r.value.1|;
                        1 <= used <= 10 - count && s[used - 1] < 128
                        && forall i :: 0 <= i < used - 1 ==> s[i] >= 128
    decreases 10 - count
  {
    if |s| > 0 && s[0] >= 128 && count < 9 {
      VarintShape(s[1..], count + 1);
      var r := VarintFrom(s[1..], count + 1);
      if r.Some? {
        var used := |s[1..]| - |r.value.1|;
        forall i | 0 <= i < used
          ensures s[i] >= 128
        {
          if i > 0 {
            assert s[i] == s[1..][i - 1];
          }
        }
        assert s[used] == s[1..][used - 1];
      }
    }
  }

  lemma {:induction false} VarintFromRoundTrip(n: nat, count: nat, rest: seq<byte>)
    requires count < 10 && n < Pow2(64 - 7 * count)
    ensures VarintFrom(EncodeVarint(n) + rest, count) == Some((n, rest))
    decreases n
  {
    var s := EncodeVarint(n) + rest;
    if n < 128 {
      assert s[0] == n && s[1..] == rest;
      if count == 9 {
        assert n < 2;
      }
    } else {
      if count == 9 {
        assert false;
      }
      VarintScale(count);
      assert s[1..] == EncodeVarint(n / 128) + rest;
      VarintFromRoundTrip(n / 128, count + 1, rest);
    }
  }

  /** A value below 2^(7k) takes at most k bytes. */
  lemma {:induction false} VarintLength(n: nat, k: nat)
    requires 1 <= k && n < Pow2(7 * k)
    ensures |EncodeVarint(n)| <= k
    decreases n
  {
    if n >= 128 {
      Pow2Add(7, 7 * (k - 1));
      if k == 1 {
        assert false;
      }
      VarintLength(n / 128, k - 1);
    }
  }

  /** Decoding an encoded varint gives back the value and the bytes after it. */
  lemma VarintRoundTrip(n: nat, rest: seq<byte>)
    requires n < U64_LIMIT
    ensures DecodeVarint(EncodeVarint(n) + rest) == Some((n, rest))
  {
    Pow2Of64();
    VarintFromRoundTrip(n, 0, rest);
  }

  // ------------------------------------------------------------ field level

  /** A field key: the field number and the wire type packed into one varint. */
  function EncodeKey(tag: nat, wireType: nat): seq<byte>
  {
    EncodeVarint(tag * 8 + wireType)
  }

  /**
   * Decodes a field key: the varint must fit in 32 bits, carry a known wire
   * type (0 to 5) and a field number of at least 1.
   */
  function DecodeKey(s: seq<byte>): (r: Option<(nat, nat, seq<byte>)>)
    ensures r.Some? ==> 1 <= r.value.0 < MAX_TAG && r.value.1 <= I32 && |r.value.2| < |s|
  {
    match DecodeVarint(s)
    case None => None
    case Some((key, rest)) =>
      if key > 0xFFFF_FFFF then None
      else if key % 8 > I32 then None
      else if key / 8 == 0 then None
      else Some((key / 8, key % 8, rest))
  }

  lemma KeyRoundTrip(tag: nat, wireType: nat, rest: seq<byte>)
    requires 1 <= tag < MAX_TAG && wireType <= I32
    ensures DecodeKey(EncodeKey(tag, wireType) + rest) == Some((tag, wireType, rest))
  {
    var key := tag * 8 + wireType;
    assert key / 8 == tag && key % 8 == wireType && key <= 0xFFFF_FFFF;
    VarintRoundTrip(key, rest);
  }

  /** A length prefix followed by that many bytes; a length past the end of the input is an error. */
  function DecodeLengthDelimited(s: seq<byte>): (r: Option<(seq<byte>, seq<byte>)>)
    ensures r.Some? ==> |r.value.0| + |r.value.1| < |s| && r.value.0 + r.value.1 == s[|s| - |r.value.0| - |r.value.1|..]
  {
    match DecodeVarint(s)
    case None => None
    case Some((len, rest)) =>
      if len > |rest| then None
      else
        assert rest[..len] + rest[len..] == rest;
        Some((rest[..len], rest[len..]))
  }

  /**
   * Skips the value of a field this message does not declare (forward
   * compatibility): what remains is always a suffix of the input, fixed-width
   * values take exactly their width, and group wire types are rejected.
   */
  function SkipField(wireType: nat, s: seq<byte>): (r: Option<seq<byte>>)
    ensures r.Some? ==> |r.value| <= |s| && r.value == s[|s| - |r.value|..]
    ensures wireType == I64 ==> (r.Some? <==> |s| >= 8) && (r.Some? ==> r.value == s[8..])
    ensures wireType == I32 ==> (r.Some? <==> |s| >= 4) && (r.Some? ==> r.value == s[4..])
    ensures wireType == SGROUP || wireType == EGROUP || wireType > I32 ==> r.None?
  {
    if wireType == VARINT then
      match DecodeVarint(s)
      case None => None
      case Some((_, rest)) => Some(rest)
    else if wireType == I64 then
      if |s| < 8 then None else Some(s[8..])
    else if wireType == LEN then
      match DecodeLengthDelimited(s)
      case None => None
      case Some((_, rest)) => Some(rest)
    else if wireType == I32 then
      if |s| < 4 then None else Some(s[4..])
    else None
  }

  /** One length-delimited field: key, length, bytes. */
  function EncodeField(tag: nat, value: seq<byte>): seq<byte>
  {
    EncodeKey(tag, LEN) + EncodeVarint(|value|) + value
  }

  // ---------------------------------------------------------- the message

  /** Field numbers of `data` and `process_name` in `raw_packet::Packet`. */
  datatype Schema = Schema(dataTag: nat, nameTag: nat)

  predicate ValidSchema(sc: Schema)
  {
    1 <= sc.dataTag < MAX_TAG && 1 <= sc.nameTag < MAX_TAG && sc.dataTag != sc.nameTag
  }

  /** `raw_packet::Packet`; the `string` field is held as its UTF-8 bytes. */
  datatype RawPacket = RawPacket(data: seq<byte>, processName: seq<byte>)

  /** All fields at their proto3 default: empty. */
  const Default := RawPacket([], [])

  /** A proto3 scalar field is written only when it is not at its default. */
  function EncodeIfSet(tag: nat, value: seq<byte>): seq<byte>
  {
    if |value| == 0 then [] else EncodeField(tag, value)
  }

  /**
   * Encodes the message, fields in ascending field-number order. Only the
   * empty message encodes to nothing, and each field that is set costs at
   * least two bytes (key and length) beyond its value.
   */
  function Encode(sc: Schema, m: RawPacket): (r: seq<byte>)
    ensures |r| == 0 <==> |m.data| == 0 && |m.processName| == 0
    ensures |r| >= |m.data| + (if |m.data| == 0 then 0 else 2)
                   + |m.processName| + (if |m.processName| == 0 then 0 else 2)
  {
    if sc.dataTag < sc.nameTag then
      EncodeIfSet(sc.dataTag, m.data) + EncodeIfSet(sc.nameTag, m.processName)
    else
      EncodeIfSet(sc.nameTag, m.processName) + EncodeIfSet(sc.dataTag, m.data)
  }

  /**
   * Merges the fields in `s` into `acc`, one at a time until the input is
   * used up. A later occurrence of a field replaces an earlier one; a known
   * field with the wrong wire type, a `process_name` that is not UTF-8, or
   * any malformed key or value fails the whole decode.
   */
  function DecodeFields(sc: Schema, s: seq<byte>, acc: RawPacket): (r: Option<RawPacket>)
    ensures r.Some? && Utf8.IsUtf8(acc.processName) ==> Utf8.IsUtf8(r.value.processName)
    ensures |s| == 0 ==> r == Some(acc)
    decreases |s|
  {
    if |s| == 0 then Some(acc)
    else
      match DecodeKey(s)
      case None => None
      case Some((tag, wireType, rest)) =>
        if tag == sc.dataTag || tag == sc.nameTag then
          if wireType != LEN then None
          else
            match DecodeLengthDelimited(rest)
            case None => None
            case Some((value, rest')) =>
              if tag == sc.dataTag then DecodeFields(sc, rest', acc.(data := value))
              else if Utf8.IsUtf8(value) then DecodeFields(sc, rest', acc.(processName := value))
              else None
        else
          match SkipField(wireType, rest)
          case None => None
          case Some(rest') => DecodeFields(sc, rest', acc)
  }

  /** Decodes one message; absent fields keep their default value. */
  function Decode(sc: Schema, s: seq<byte>): (r: Option<RawPacket>)
    ensures r.Some? ==> Utf8.IsUtf8(r.value.processName)
    ensures |s| == 0 ==> r == Some(Default)
  {
    DecodeFields(sc, s, Default)
  }

  // ------------------------------------------------------------- lemmas

  lemma LengthDelimitedRoundTrip(value: seq<byte>, rest: seq<byte>)
    requires |value| < U64_LIMIT
    ensures DecodeLengthDelimited(EncodeVarint(|value|) + value + rest) == Some((value, rest))
  {
    var s := EncodeVarint(|value|) + value + rest;
    assert s == EncodeVarint(|value|) + (value + rest);
    VarintRoundTrip(|value|, value + rest);
    assert (value + rest)[..|value|] == value;
    assert (value + rest)[|value|..] == rest;
  }

  /**
   * A field of the message, followed by anything, is merged into the
   * accumulator and decoding carries on with what follows it.
   */
  lemma DecodeKnownField(sc: Schema, tag: nat, value: seq<byte>, tail: seq<byte>, acc: RawPacket)
    requires ValidSchema(sc) && (tag == sc.dataTag || tag == sc.nameTag)
    requires |value| < U64_LIMIT
    ensures DecodeFields(sc, EncodeField(tag, value) + tail, acc)
         == if tag == sc.dataTag then DecodeFields(sc, tail, acc.(data := value))
            else if Utf8.IsUtf8(value) then DecodeFields(sc, tail, acc.(processName := value))
            else None
  {
    var s := EncodeField(tag, value) + tail;
    var afterKey := EncodeVarint(|value|) + value + tail;
    assert s == EncodeKey(tag, LEN) + afterKey;
    KeyRoundTrip(tag, LEN, afterKey);
    LengthDelimitedRoundTrip(value, tail);
  }

  /** A well-formed field with a number the message does not declare is skipped. */
  lemma UnknownFieldIgnored(sc: Schema, tag: nat, value: seq<byte>, tail: seq<byte>, acc: RawPacket)
    requires 1 <= tag < MAX_TAG && tag != sc.dataTag && tag != sc.nameTag
    requires |value| < U64_LIMIT
    ensures DecodeFields(sc, EncodeField(tag, value) + tail, acc) == DecodeFields(sc, tail, acc)
  {
    var s := EncodeField(tag, value) + tail;
    var afterKey := EncodeVarint(|value|) + value + tail;
    assert s == EncodeKey(tag, LEN) + afterKey;
    KeyRoundTrip(tag, LEN, afterKey);
    LengthDelimitedRoundTrip(value, tail);
  }

  /** Skipping an unknown varint consumes exactly the varint, whatever its value. */
  lemma SkipVarint(v: nat, tail: seq<byte>)
    requires v < U64_LIMIT
    ensures SkipField(VARINT, EncodeVarint(v) + tail) == Some(tail)
  {
    VarintRoundTrip(v, tail);
  }

  /** Skipping an unknown length-delimited value consumes its length prefix and exactly its bytes. */
  lemma SkipLengthDelimited(value: seq<byte>, tail: seq<byte>)
    requires |value| < U64_LIMIT
    ensures SkipField(LEN, EncodeVarint(|value|) + value + tail) == Some(tail)
  {
    LengthDelimitedRoundTrip(value, tail);
  }

  /** A varint field with a number the message does not declare is skipped. */
  lemma UnknownVarintIgnored(sc: Schema, tag: nat, v: nat, tail: seq<byte>, acc: RawPacket)
    requires 1 <= tag < MAX_TAG && tag != sc.dataTag && tag != sc.nameTag
    requires v < U64_LIMIT
    ensures DecodeFields(sc, EncodeKey(tag, VARINT) + EncodeVarint(v) + tail, acc) == DecodeFields(sc, tail, acc)
  {
    var afterKey := EncodeVarint(v) + tail;
    assert EncodeKey(tag, VARINT) + EncodeVarint(v) + tail == EncodeKey(tag, VARINT) + afterKey;
    KeyRoundTrip(tag, VARINT, afterKey);
    SkipVarint(v, tail);
  }

  /** A fixed64 or fixed32 field with a number the message does not declare is skipped. */
  lemma UnknownFixedIgnored(sc: Schema, tag: nat, wireType: nat, value: seq<byte>, tail: seq<byte>, acc: RawPacket)
    requires 1 <= tag < MAX_TAG && tag != sc.dataTag && tag != sc.nameTag
    requires (wireType == I64 && |value| == 8) || (wireType == I32 && |value| == 4)
    ensures DecodeFields(sc, EncodeKey(tag, wireType) + value + tail, acc) == DecodeFields(sc, tail, acc)
  {
    var afterKey := value + tail;
    assert EncodeKey(tag, wireType) + value + tail == EncodeKey(tag, wireType) + afterKey;
    KeyRoundTrip(tag, wireType, afterKey);
    assert afterKey[|value|..] == tail;
  }

  /** An omitted (empty) field leaves the default the accumulator already holds. */
  lemma DecodeIfSet(sc: Schema, tag: nat, value: seq<byte>, tail: seq<byte>, acc: RawPacket)
    requires ValidSchema(sc) && (tag == sc.dataTag || tag == sc.nameTag)
    requires |value| < U64_LIMIT
    requires tag == sc.dataTag ==> acc.data == []
    requires tag == sc.nameTag ==> acc.processName == [] && Utf8.IsUtf8(value)
    ensures DecodeFields(sc, EncodeIfSet(tag, value) + tail, acc)
         == if tag == sc.dataTag then DecodeFields(sc, tail, acc.(data := value))
            else DecodeFields(sc, tail, acc.(processName := value))
  {
    if |value| == 0 {
      assert EncodeIfSet(tag, value) + tail == tail;
      if tag == sc.dataTag {
        assert acc.(data := value) == acc;
      } else {
        assert acc.(processName := value) == acc;
      }
    } else {
      DecodeKnownField(sc, tag, value, tail, acc);
    }
  }

  /**
   * Round trip: decoding an encoded message gives back the message,
   * including empty fields, which the encoder omits and the decoder defaults.
   */
  lemma RoundTrip(sc: Schema, m: RawPacket)
    requires ValidSchema(sc) && Utf8.IsUtf8(m.processName)
    requires |m.data| < U64_LIMIT && |m.processName| < U64_LIMIT
    ensures Decode(sc, Encode(sc, m)) == Some(m)
  {
    var half := RawPacket(m.data, []);
    var other := RawPacket([], m.processName);
    var dataPart := EncodeIfSet(sc.dataTag, m.data);
    var namePart := EncodeIfSet(sc.nameTag, m.processName);
    if sc.dataTag < sc.nameTag {
      DecodeIfSet(sc, sc.dataTag, m.data, namePart, Default);
      DecodeIfSet(sc, sc.nameTag, m.processName, [], half);
      assert namePart + [] == namePart;
    } else {
      DecodeIfSet(sc, sc.nameTag, m.processName, dataPart, Default);
      DecodeIfSet(sc, sc.dataTag, m.data, [], other);
      assert dataPart + [] == dataPart;
    }
  }
}
