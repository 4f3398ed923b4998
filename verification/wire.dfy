/** The fixed 32-byte frame header and base-128 varints (src/rpc/frame_codec.cpp). */
module Wire {
  import opened Basics

  const HEADER_SIZE := 32
  const MAGIC: u32 := 0x4E525043
  const VERSION_1: byte := 1
  const MAX_METADATA_LENGTH := 64 * 1024
  const MAX_BODY_LENGTH := 16 * 1024 * 1024
  const MAX_TOTAL_LENGTH := HEADER_SIZE + MAX_METADATA_LENGTH + MAX_BODY_LENGTH

  const REQUEST: byte := 0
  const RESPONSE: byte := 1
  const PONG: byte := 5

  /** ParseResult; Undefined is not a source value: it marks a run in which the C++ code
      would form a pointer past the end of its buffer. */
  datatype ParseResult =
    | Ok | NeedMoreData
    | InvalidMagic | InvalidVersion | InvalidMessageType
    | UnsupportedCompression | InvalidSerializeType
    | TotalLengthOverflow | TotalLengthMismatch
    | MetadataLengthOverflow | BodyLengthOverflow | ReservedFieldNonZero
    | MetadataParseError | InternalError
    | Undefined

  datatype Header = Header(
    magic: u32, version: byte, msgType: byte, compressType: byte, serializeType: byte,
    totalLength: u32, requestId: u64, metaLength: u32, bodyLength: u32, reserved: u32)

  /** RpcFrameHeader{}: the member initialisers. */
  const DEFAULT_HEADER := Header(MAGIC, VERSION_1, 0, 0, 0, 0, 0, 0, 0, 0)

  // ---- big-endian integers ----

  function U32Bytes(v: u32): (r: bytes)
    ensures |r| == 4
  {
    [v / 0x100 / 0x100 / 0x100, v / 0x100 / 0x100 % 0x100, v / 0x100 % 0x100, v % 0x100]
  }

  function ReadU32(s: bytes): u32
    requires |s| >= 4
  {
    var a: int, b: int, c: int, d: int := s[0], s[1], s[2], s[3];
    0x100_0000 * a + 0x1_0000 * b + 0x100 * c + d
  }

  function U64Bytes(v: u64): (r: bytes)
    ensures |r| == 8
  {
    U32Bytes(v / 0x1_0000_0000) + U32Bytes(v % 0x1_0000_0000)
  }

  function ReadU64(s: bytes): u64
    requires |s| >= 8
  {
    var hi: int, lo: int := ReadU32(s[..4]), ReadU32(s[4..8]);
    0x1_0000_0000 * hi + lo
  }

  lemma {:induction false} U32RoundTrip(v: u32)
    ensures ReadU32(U32Bytes(v)) == v
  {
    var v1: int := v / 0x100;
    var v2 := v1 / 0x100;
    assert v == 0x100 * v1 + v % 0x100;
    assert v1 == 0x100 * v2 + v1 % 0x100;
    assert v2 == 0x100 * (v2 / 0x100) + v2 % 0x100;
  }

  lemma {:induction false} U32Canonical(s: bytes)
    requires |s| == 4
    ensures U32Bytes(ReadU32(s)) == s
  {
    var a: int, b: int, c: int, d: int := s[0], s[1], s[2], s[3];
    var v := ReadU32(s);
    assert v / 0x100 == 0x1_0000 * a + 0x100 * b + c && v % 0x100 == d;
    var v1 := 0x1_0000 * a + 0x100 * b + c;
    assert v1 / 0x100 == 0x100 * a + b && v1 % 0x100 == c;
    assert (0x100 * a + b) / 0x100 == a && (0x100 * a + b) % 0x100 == b;
  }

  lemma {:induction false} U64RoundTrip(v: u64)
    ensures ReadU64(U64Bytes(v)) == v
  {
    assert U64Bytes(v)[..4] == U32Bytes(v / 0x1_0000_0000);
    assert U64Bytes(v)[4..8] == U32Bytes(v % 0x1_0000_0000);
    U32RoundTrip(v / 0x1_0000_0000);
    U32RoundTrip(v % 0x1_0000_0000);
  }

  lemma {:induction false} SplitHalves(hi: int, lo: int)
    requires 0 <= lo < 0x1_0000_0000
    ensures (0x1_0000_0000 * hi + lo) / 0x1_0000_0000 == hi && (0x1_0000_0000 * hi + lo) % 0x1_0000_0000 == lo
  {
  }

  lemma {:induction false} U64Canonical(s: bytes)
    requires |s| == 8
    ensures U64Bytes(ReadU64(s)) == s
  {
    var hi: int, lo: int := ReadU32(s[..4]), ReadU32(s[4..8]);
    SplitHalves(hi, lo);
    hide U32Bytes, ReadU32;
    U32Canonical(s[..4]);
    U32Canonical(s[4..8]);
    assert s == s[..4] + s[4..8];
  }

  // ---- header ----

  function ValidateCommon(h: Header): ParseResult {
    if h.magic != MAGIC then InvalidMagic
    else if h.version != VERSION_1 then InvalidVersion
    else if h.compressType != 0 then UnsupportedCompression
    else if h.serializeType != 0 then InvalidSerializeType
    else if h.reserved != 0 then ReservedFieldNonZero
    else Ok
  }

  function ValidateHeader(h: Header): (r: ParseResult)
    ensures r != NeedMoreData && r != Undefined
    ensures r == Ok ==> h.totalLength == HEADER_SIZE + h.metaLength + h.bodyLength <= MAX_TOTAL_LENGTH
  {
    if ValidateCommon(h) != Ok then ValidateCommon(h)
    else if h.msgType > PONG then InvalidMessageType
    else if h.totalLength > MAX_TOTAL_LENGTH then TotalLengthOverflow
    else if h.metaLength > MAX_METADATA_LENGTH then MetadataLengthOverflow
    else if h.bodyLength > MAX_BODY_LENGTH then BodyLengthOverflow
    else if h.totalLength != HEADER_SIZE + h.metaLength + h.bodyLength then TotalLengthMismatch
    else Ok
  }

  function HeaderBytes(h: Header): (r: bytes)
    ensures |r| == HEADER_SIZE
  {
    U32Bytes(h.magic) + [h.version, h.msgType, h.compressType, h.serializeType]
    + U32Bytes(h.totalLength) + U64Bytes(h.requestId)
    + U32Bytes(h.metaLength) + U32Bytes(h.bodyLength) + U32Bytes(h.reserved)
  }

  function ReadHeader(s: bytes): Header
    requires |s| >= HEADER_SIZE
  {
    Header(ReadU32(s[..4]), s[4], s[5], s[6], s[7],
           ReadU32(s[8..12]), ReadU64(s[12..20]),
           ReadU32(s[20..24]), ReadU32(s[24..28]), ReadU32(s[28..32]))
  }

  /** encodeHeader: writes the 32 bytes in place and leaves the rest of the buffer alone. */
  method EncodeHeader(h: Header, output: array<byte>)
    requires ValidateHeader(h) == Ok
    requires output.Length >= HEADER_SIZE
    modifies output
    ensures output[..HEADER_SIZE] == HeaderBytes(h)
    ensures forall k :: HEADER_SIZE <= k < output.Length ==> output[k] == old(output[k])
  {
    EncodeFront(h, output);
    hide U32Bytes, U64Bytes, ValidateHeader;
    WriteU32(output, 20, h.metaLength);
    WriteU32(output, 24, h.bodyLength);
    WriteU32(output, 28, h.reserved);
    assert output[..HEADER_SIZE] == HeaderBytes(h);
  }

  /** The first twenty bytes, up to the request id. */
  method EncodeFront(h: Header, output: array<byte>)
    requires output.Length >= HEADER_SIZE
    modifies output
    ensures output[..20]
         == U32Bytes(h.magic) + [h.version, h.msgType, h.compressType, h.serializeType]
            + U32Bytes(h.totalLength) + U64Bytes(h.requestId)
    ensures forall k :: 20 <= k < output.Length ==> output[k] == old(output[k])
  {
    U64BytesIs(h.requestId);
    hide U32Bytes, U64Bytes;
    WriteU32(output, 0, h.magic);
    WriteU8(output, 4, h.version);
    WriteU8(output, 5, h.msgType);
    WriteU8(output, 6, h.compressType);
    WriteU8(output, 7, h.serializeType);
    assert output[..8] == U32Bytes(h.magic) + [h.version, h.msgType, h.compressType, h.serializeType];
    WriteU32(output, 8, h.totalLength);
    WriteU32(output, 12, h.requestId / 0x1_0000_0000);
    WriteU32(output, 16, h.requestId % 0x1_0000_0000);
    assert output[..20] == output[..12] + U64Bytes(h.requestId);
  }

  lemma {:induction false} U64BytesIs(v: u64)
    ensures U64Bytes(v) == U32Bytes(v / 0x1_0000_0000) + U32Bytes(v % 0x1_0000_0000)
  {
  }

  method WriteU8(dst: array<byte>, at: nat, v: byte)
    requires at < dst.Length
    modifies dst
    ensures dst[..at + 1] == old(dst[..at]) + [v]
    ensures forall k :: at < k < dst.Length ==> dst[k] == old(dst[k])
  {
    dst[at] := v;
  }

  method WriteU32(dst: array<byte>, at: nat, v: u32)
    requires at + 4 <= dst.Length
    modifies dst
    ensures dst[..at + 4] == old(dst[..at]) + U32Bytes(v)
    ensures forall k :: at + 4 <= k < dst.Length ==> dst[k] == old(dst[k])
  {
    dst[at], dst[at + 1] := v / 0x100 / 0x100 / 0x100, v / 0x100 / 0x100 % 0x100;
    dst[at + 2], dst[at + 3] := v / 0x100 % 0x100, v % 0x100;
  }

  lemma {:induction false} HeaderRoundTrip(h: Header, rest: bytes)
    ensures ReadHeader(HeaderBytes(h) + rest) == h
  {
    var s := HeaderBytes(h) + rest;
    U32RoundTrip(h.magic);
    U32RoundTrip(h.totalLength);
    U64RoundTrip(h.requestId);
    U32RoundTrip(h.metaLength);
    U32RoundTrip(h.bodyLength);
    U32RoundTrip(h.reserved);
    hide U32Bytes, U64Bytes, ReadU32, ReadU64;
    assert s[..4] == U32Bytes(h.magic);
    assert s[8..12] == U32Bytes(h.totalLength);
    assert s[12..20] == U64Bytes(h.requestId);
    assert s[20..24] == U32Bytes(h.metaLength);
    assert s[24..28] == U32Bytes(h.bodyLength);
    assert s[28..32] == U32Bytes(h.reserved);
  }

  /** Every 32-byte block, accepted or not, is the encoding of the header read from it. */
  lemma {:induction false} HeaderCanonical(s: bytes)
    requires |s| >= HEADER_SIZE
    ensures HeaderBytes(ReadHeader(s)) == s[..HEADER_SIZE]
  {
    U32Canonical(s[..4]);
    U32Canonical(s[8..12]);
    U64Canonical(s[12..20]);
    U32Canonical(s[20..24]);
    U32Canonical(s[24..28]);
    U32Canonical(s[28..32]);
    hide U32Bytes, U64Bytes, ReadU32, ReadU64;
    assert s[..32] == s[..4] + [s[4], s[5], s[6], s[7]] + s[8..12] + s[12..20] + s[20..24] + s[24..28] + s[28..32];
  }

  /** Header bijection: a 32-byte block is accepted exactly when it is the encoding of some
      valid header, and an accepted length field is exact and within the frame limit. */
  lemma {:induction false} HeaderAcceptedIffEncodingOfValid(s: bytes)
    requires |s| == HEADER_SIZE
    ensures ValidateHeader(ReadHeader(s)) == Ok
            <==> exists h :: ValidateHeader(h) == Ok && s == HeaderBytes(h)
    ensures ValidateHeader(ReadHeader(s)) == Ok ==>
              var h := ReadHeader(s);
              && h.totalLength == HEADER_SIZE + h.metaLength + h.bodyLength
              && HEADER_SIZE <= h.totalLength <= MAX_TOTAL_LENGTH
              && h.msgType <= PONG
  {
    HeaderCanonical(s);
    assert s[..HEADER_SIZE] == s;
    if ValidateHeader(ReadHeader(s)) == Ok {
      assert s == HeaderBytes(ReadHeader(s));
    }
    if h :| ValidateHeader(h) == Ok && s == HeaderBytes(h) {
      HeaderRoundTrip(h, []);
      assert HeaderBytes(h) + [] == s;
    }
  }

  /** The number that bytes stand for in big-endian order. */
  function BigEndian(s: bytes): nat {
    if s == [] then 0 else 0x100 * BigEndian(s[..|s| - 1]) + s[|s| - 1]
  }

  lemma {:induction false} BigEndianSnoc(s: bytes, b: byte)
    ensures BigEndian(s + [b]) == 0x100 * BigEndian(s) + b
  {
    assert (s + [b])[..|s|] == s;
  }

  lemma {:induction false} BigEndianWord(s: bytes, t: bytes)
    requires |t| == 4
    ensures BigEndian(s + t) == 0x1_0000_0000 * BigEndian(s) + ReadU32(t)
  {
    BigEndianSnoc(s, t[0]);
    BigEndianSnoc(s + [t[0]], t[1]);
    BigEndianSnoc(s + [t[0]] + [t[1]], t[2]);
    BigEndianSnoc(s + [t[0]] + [t[1]] + [t[2]], t[3]);
    hide BigEndian;
    assert s + [t[0]] + [t[1]] + [t[2]] + [t[3]] == s + t;
  }

  lemma {:induction false} WordIsBigEndian(v: u32)
    ensures BigEndian(U32Bytes(v)) == v
  {
    BigEndianWord([], U32Bytes(v));
    assert [] + U32Bytes(v) == U32Bytes(v);
    U32RoundTrip(v);
  }

  lemma {:induction false} DoubleWordIsBigEndian(v: u64)
    ensures BigEndian(U64Bytes(v)) == v
  {
    var hi: u32, lo: u32 := v / 0x1_0000_0000, v % 0x1_0000_0000;
    BigEndianWord(U32Bytes(hi), U32Bytes(lo));
    WordIsBigEndian(hi);
    U32RoundTrip(lo);
  }

  /** The layout of the 32 bytes: where each field lies, big-endian. */
  lemma {:induction false} HeaderLayout(h: Header)
    ensures var s := HeaderBytes(h);
            && BigEndian(s[0..4]) == h.magic
            && s[4] == h.version && s[5] == h.msgType && s[6] == h.compressType && s[7] == h.serializeType
            && BigEndian(s[8..12]) == h.totalLength && BigEndian(s[12..20]) == h.requestId
            && BigEndian(s[20..24]) == h.metaLength && BigEndian(s[24..28]) == h.bodyLength
            && BigEndian(s[28..32]) == h.reserved
  {
    var s := HeaderBytes(h);
    WordIsBigEndian(h.magic);
    WordIsBigEndian(h.totalLength);
    DoubleWordIsBigEndian(h.requestId);
    WordIsBigEndian(h.metaLength);
    WordIsBigEndian(h.bodyLength);
    WordIsBigEndian(h.reserved);
    hide U32Bytes, U64Bytes, BigEndian;
    assert s[0..4] == U32Bytes(h.magic);
    assert s[8..12] == U32Bytes(h.totalLength);
    assert s[12..20] == U64Bytes(h.requestId);
    assert s[20..24] == U32Bytes(h.metaLength);
    assert s[24..28] == U32Bytes(h.bodyLength);
    assert s[28..32] == U32Bytes(h.reserved);
  }

  /** The header encodeFrame writes. */
  function HeaderFor(msgType: byte, requestId: u64, metaLen: u32, bodyLen: u32): Header {
    Header(MAGIC, VERSION_1, msgType, 0, 0, ToU32(HEADER_SIZE + metaLen + bodyLen), requestId, metaLen, bodyLen, 0)
  }

  /** A header that some frame within the limits has. */
  ghost predicate Emitted(h: Header) {
    && h.msgType <= 5 && h.metaLength <= 65536 && h.bodyLength <= 16777216
    && h == Header(0x4E525043, 1, h.msgType, 0, 0, 32 + h.metaLength + h.bodyLength, h.requestId,
                   h.metaLength, h.bodyLength, 0)
  }

  lemma {:induction false} ValidIsEmitted(h: Header)
    ensures ValidateHeader(h) == Ok <==> Emitted(h)
  {
  }

  /** The 32 bytes that encodeFrame puts in front of some frame within the limits. */
  ghost predicate EmittedBlock(s: bytes) {
    exists t: byte, id: u64, m: u32, b: u32 ::
      t <= 5 && m <= 65536 && b <= 16777216 && s == HeaderBytes(HeaderFor(t, id, m, b))
  }

  /** The 32-byte blocks accepted are exactly those encodeFrame can emit. */
  lemma {:induction false} AcceptsExactlyTheEmitted(s: bytes)
    requires |s| == HEADER_SIZE
    ensures ValidateHeader(ReadHeader(s)) == Ok <==> EmittedBlock(s)
  {
    var h := ReadHeader(s);
    HeaderCanonical(s);
    assert s[..HEADER_SIZE] == s;
    ValidIsEmitted(h);
    EmittedIs(h);
    hide HeaderBytes, ReadHeader, ValidateHeader, Emitted, HeaderFor;
    if t: byte, id: u64, m: u32, b: u32
      :| t <= 5 && m <= 65536 && b <= 16777216 && s == HeaderBytes(HeaderFor(t, id, m, b)) {
      HeaderRoundTrip(HeaderFor(t, id, m, b), []);
      assert HeaderBytes(HeaderFor(t, id, m, b)) + [] == s;
      LimitsEmit(t, id, m, b);
    }
  }

  lemma {:induction false} EmittedIs(h: Header)
    ensures Emitted(h)
            ==> h.msgType <= 5 && h.metaLength <= 65536 && h.bodyLength <= 16777216
                && h == HeaderFor(h.msgType, h.requestId, h.metaLength, h.bodyLength)
  {
  }

  lemma {:induction false} LimitsEmit(t: byte, id: u64, m: u32, b: u32)
    requires t <= 5 && m <= 65536 && b <= 16777216
    ensures Emitted(HeaderFor(t, id, m, b))
  {
  }

  /** A block that starts with the magic number "NRPC", version 1, a known type, neither
      compressed nor in another serialization, and with zeros in the reserved field. */
  predicate OurBlock(s: bytes)
    requires |s| >= HEADER_SIZE
  {
    && s[..4] == Ascii("NRPC") && s[4] == 1 && s[5] <= 5 && s[6] == 0 && s[7] == 0 && s[28..32] == [0, 0, 0, 0]
  }

  lemma {:induction false} WordIs(s: bytes, v: u32)
    requires |s| == 4
    ensures ReadU32(s) == v <==> s == U32Bytes(v)
  {
    U32Canonical(s);
    U32RoundTrip(v);
    hide U32Bytes, ReadU32;
  }

  /** A block that differs in any of these is refused, whatever its lengths say. */
  lemma {:induction false} OtherBlocksRefused(s: bytes)
    requires |s| >= HEADER_SIZE && !OurBlock(s)
    ensures ValidateHeader(ReadHeader(s)) != Ok
  {
    WordIs(s[..4], MAGIC);
    WordIs(s[28..32], 0);
    assert U32Bytes(0) == [0, 0, 0, 0];
    assert U32Bytes(MAGIC) == [0x4E, 0x52, 0x50, 0x43] == Ascii("NRPC");
    hide U32Bytes, ReadU32, ReadU64;
  }

  /** What one wrong field in an otherwise acceptable header is answered with. */
  lemma {:induction false} FaultCodes(h: Header, b: byte, w: u32)
    requires Emitted(h)
    ensures w != 0x4E525043 ==> ValidateHeader(h.(magic := w)) == InvalidMagic
    ensures b != 1 ==> ValidateHeader(h.(version := b)) == InvalidVersion
    ensures b > 5 ==> ValidateHeader(h.(msgType := b)) == InvalidMessageType
    ensures b != 0 ==> ValidateHeader(h.(compressType := b)) == UnsupportedCompression
    ensures b != 0 ==> ValidateHeader(h.(serializeType := b)) == InvalidSerializeType
    ensures w != 0 ==> ValidateHeader(h.(reserved := w)) == ReservedFieldNonZero
    ensures w > 65536 ==> ValidateHeader(h.(metaLength := w)) == MetadataLengthOverflow
    ensures w > 16777216 ==> ValidateHeader(h.(bodyLength := w)) == BodyLengthOverflow
    ensures w > 32 + 65536 + 16777216 ==> ValidateHeader(h.(totalLength := w)) == TotalLengthOverflow
    ensures w != h.totalLength && w <= 32 + 65536 + 16777216
            ==> ValidateHeader(h.(totalLength := w)) == TotalLengthMismatch
  {
  }

  /** decodeHeader: whatever the verdict, the header filled in is the one whose encoding these
      bytes are, and it is accepted exactly when they encode some valid header. */
  method DecodeHeader(input: bytes) returns (result: ParseResult, header: Header)
    requires |input| >= HEADER_SIZE
    ensures header == ReadHeader(input) && HeaderBytes(header) == input[..HEADER_SIZE]
    ensures result == ValidateHeader(header)
    ensures result == Ok <==> exists h :: ValidateHeader(h) == Ok && HeaderBytes(h) == input[..HEADER_SIZE]
  {
    header := ReadHeader(input);
    result := ValidateHeader(header);
    HeaderCanonical(input);
    hide ReadHeader, HeaderBytes, ValidateHeader;
    if h :| ValidateHeader(h) == Ok && HeaderBytes(h) == input[..HEADER_SIZE] {
      HeaderRoundTrip(h, input[HEADER_SIZE..]);
      assert HeaderBytes(h) + input[HEADER_SIZE..] == input;
    }
  }

  // ---- varints ----

  function VarintByteSize(v: u32): nat {
    if v < 0x80 then 1
    else if v < 0x4000 then 2
    else if v < 0x20_0000 then 3
    else if v < 0x1000_0000 then 4
    else 5
  }

  /** The base-128 encoding of v, least significant group first. */
  function VarintBytes(v: nat): (r: bytes)
    ensures |r| >= 1
  {
    if v < 0x80 then [v] else [v % 0x80 + 0x80] + VarintBytes(v / 0x80)
  }

  lemma {:induction false} VarintSizeExact(v: u32)
    ensures |VarintBytes(v)| == VarintByteSize(v)
  {
    VarintLength(v);
    VarintLength(v / 0x80);
    VarintLength(v / 0x4000);
    VarintLength(v / 0x20_0000);
    VarintLength(v / 0x1000_0000);
    assert v / 0x80 / 0x80 == v / 0x4000;
    assert v / 0x4000 / 0x80 == v / 0x20_0000;
    assert v / 0x20_0000 / 0x80 == v / 0x1000_0000;
  }

  lemma {:induction false} VarintLength(v: nat)
    ensures |VarintBytes(v)| == if v < 0x80 then 1 else 1 + |VarintBytes(v / 0x80)|
  {
  }

  /** appendVarint32 */
  method AppendVarint32(buf: bytes, value: u32) returns (out: bytes)
    ensures out == buf + VarintBytes(value)
  {
    out := buf;
    var v := value;
    while v >= 0x80
      invariant 0 <= v <= value
      invariant out + VarintBytes(v) == buf + VarintBytes(value)
    {
      ghost var before := out;
      out := out + [v % 0x80 + 0x80];
      assert before + VarintBytes(v) == out + VarintBytes(v / 0x80);
      v := v / 0x80;
    }
    out := out + [v];
  }

  /** The groups of a varint at the head of s, read as an unbounded number, with the bytes
      used; None when no byte among the first `budget` ends it. */
  function ScanVarint(s: bytes, budget: nat): (r: Option<(nat, nat)>)
    ensures r.Some? ==> 1 <= r.value.1 <= |s| && r.value.1 <= budget
  {
    if s == [] || budget == 0 then None
    else if s[0] < 0x80 then Some((s[0], 1))
    else
      match ScanVarint(s[1..], budget - 1)
      case None => None
      case Some((v, n)) => Some((s[0] - 0x80 + 0x80 * v, n + 1))
  }

  const VARINT_MAX_BYTES := 10

  /** decodeVarint over data[pos..end): the value modulo 2^64 and the bytes consumed. */
  function ReadVarint(s: bytes): (r: Option<(u64, nat)>)
    ensures r.Some? ==> 1 <= r.value.1 <= |s| && r.value.1 <= VARINT_MAX_BYTES
  {
    match ScanVarint(s, VARINT_MAX_BYTES)
    case None => None
    case Some((v, n)) => Some((ToU64(v), n))
  }

  function Pow128(k: nat): (r: nat)
    ensures r >= 1
  {
    if k == 0 then 1 else 0x80 * Pow128(k - 1)
  }

  /** group << shift, with shift == 7 * k */
  function Shifted(group: nat, k: nat): nat {
    Pow128(k) * group
  }

  /** What the loop still owes after `bytes` groups worth `acc` have been read. */
  ghost function Resume(acc: nat, bytes: nat, rest: Option<(nat, nat)>): Option<(nat, nat)> {
    match rest
    case None => None
    case Some((v, n)) => Some((acc + Pow128(bytes) * v, bytes + n))
  }

  lemma {:induction false} ResumeStep(s: bytes, acc: nat, k: nat)
    requires k < VARINT_MAX_BYTES && k < |s| && s[k] >= 0x80
    ensures Resume(acc, k, ScanVarint(s[k..], VARINT_MAX_BYTES - k))
            == Resume(acc + Shifted(s[k] % 0x80, k), k + 1, ScanVarint(s[k + 1..], VARINT_MAX_BYTES - k - 1))
  {
    ScanMore(s, k);
    hide ScanVarint;
    match ScanVarint(s[k + 1..], VARINT_MAX_BYTES - k - 1)
    case None =>
    case Some((v, n)) =>
      var b, p := s[k] % 0x80, Pow128(k);
      assert Pow128(k + 1) == 0x80 * p;
      hide Pow128;
      Regroup(p, b, v);
  }

  lemma {:induction false} Regroup(p: nat, b: nat, v: nat)
    ensures p * (b + 0x80 * v) == p * b + (0x80 * p) * v
  {
  }

  lemma {:induction false} ScanMore(s: bytes, k: nat)
    requires k < VARINT_MAX_BYTES && k < |s| && s[k] >= 0x80
    ensures ScanVarint(s[k..], VARINT_MAX_BYTES - k)
         == match ScanVarint(s[k + 1..], VARINT_MAX_BYTES - k - 1)
            case None => None
            case Some((v, n)) => Some((s[k] % 0x80 + 0x80 * v, n + 1))
  {
    assert s[k..][1..] == s[k + 1..] && s[k..][0] == s[k];
  }

  /** The uint64 that holds n. */
  function ToU64(n: nat): u64 { n % 0x1_0000_0000_0000_0000 }

  /** count continuation bytes of s have been read and add up to sum. */
  ghost predicate Underway(s: bytes, sum: nat, count: nat) {
    && count <= |s| && count <= VARINT_MAX_BYTES
    && ScanVarint(s, VARINT_MAX_BYTES) == Resume(sum, count, ScanVarint(s[count..], VARINT_MAX_BYTES - count))
  }

  lemma {:induction false} NextGroup(s: bytes, sum: nat, count: nat)
    requires Underway(s, sum, count) && count < VARINT_MAX_BYTES && count < |s| && s[count] >= 0x80
    ensures Underway(s, sum + Shifted(s[count] % 0x80, count), count + 1)
  {
    hide Resume, ScanVarint, Shifted;
    ResumeStep(s, sum, count);
  }

  lemma {:induction false} LastGroup(s: bytes, sum: nat, count: nat)
    requires Underway(s, sum, count) && count < VARINT_MAX_BYTES && count < |s| && s[count] < 0x80
    ensures ReadVarint(s) == Some((ToU64(sum + Shifted(s[count] % 0x80, count)), count + 1))
  {
    ScanLast(s, count);
    hide ScanVarint, Pow128;
    assert s[count] % 0x80 == s[count];
  }

  lemma {:induction false} ScanLast(s: bytes, k: nat)
    requires k < VARINT_MAX_BYTES && k < |s| && s[k] < 0x80
    ensures ScanVarint(s[k..], VARINT_MAX_BYTES - k) == Some((s[k], 1))
  {
  }

  lemma {:induction false} NothingLeft(s: bytes, sum: nat)
    requires |s| < VARINT_MAX_BYTES && Underway(s, sum, |s|)
    ensures ReadVarint(s) == None
  {
    assert s[|s|..] == [];
  }

  lemma {:induction false} OutOfBudget(s: bytes, sum: nat)
    requires Underway(s, sum, VARINT_MAX_BYTES)
    ensures ReadVarint(s) == None
  {
  }

  lemma {:induction false} AddMod(a: nat, b: nat)
    ensures ToU64(ToU64(a) + b) == ToU64(a + b)
  {
  }

  /** decodeVarint: the value and the bytes consumed; None where the source returns 0. */
  method DecodeVarint(s: bytes) returns (r: Option<(u64, nat)>)
    ensures r == ReadVarint(s)
  {
    var result: u64 := 0;
    var shift, count := 0, 0;
    ghost var sum: nat := 0;
    assert ToU64(0) == 0 && Underway(s, 0, 0);
    hide *;
    while count < |s|
      invariant 0 <= count <= |s| && count < VARINT_MAX_BYTES
      invariant shift == 7 * count
      invariant result == ToU64(sum)
      invariant Underway(s, sum, count)
    {
      var b: int := s[count];
      assert shift / 7 == count;
      var group := Shifted(b % 0x80, shift / 7);
      AddMod(sum, group);
      result := ToU64(result + group);
      if b < 0x80 {
        LastGroup(s, sum, count);
        return Some((result, count + 1));
      }
      NextGroup(s, sum, count);
      sum := sum + group;
      count := count + 1;
      shift := shift + 7;
      if shift >= 64 {
        OutOfBudget(s, sum);
        return None;
      }
    }
    NothingLeft(s, sum);
    return None;
  }

  /** Varint inversion for every value below 2^64, with any bytes behind it. */
  lemma {:induction false} VarintRoundTrip(v: u64, rest: bytes)
    ensures ReadVarint(VarintBytes(v) + rest) == Some((v, |VarintBytes(v)|))
  {
    Pow128Ten();
    ScanInverts(v, VARINT_MAX_BYTES, rest);
  }

  lemma {:induction false} Pow128Ten()
    ensures Pow128(VARINT_MAX_BYTES) > 0xFFFF_FFFF_FFFF_FFFF
  {
    assert Pow128(5) == 0x8_0000_0000;
    assert Pow128(10) == 0x80 * 0x80 * 0x80 * 0x80 * 0x80 * Pow128(5);
  }

  lemma {:induction false} ScanInverts(v: nat, budget: nat, rest: bytes)
    requires budget > 0 && v < Pow128(budget)
    ensures ScanVarint(VarintBytes(v) + rest, budget) == Some((v, |VarintBytes(v)|))
  {
    var s := VarintBytes(v) + rest;
    if v < 0x80 {
      assert s[0] == v;
    } else {
      assert s[0] == v % 0x80 + 0x80;
      assert s[1..] == VarintBytes(v / 0x80) + rest;
      assert v / 0x80 < Pow128(budget - 1);
      ScanInverts(v / 0x80, budget - 1, rest);
    }
  }
}
