/** Whole frames and the resumable frame parser (src/rpc/frame_codec.cpp). */
module Frames {
  import opened Basics
  import opened Wire
  import opened Metadata

  datatype Frame = Frame(msgType: byte, requestId: u64, metadata: Meta, body: bytes)

  /** The limits that callers of encodeFrame check first (isFrameEncodable). */
  ghost predicate Encodable(metadata: Meta, body: bytes) {
    |body| <= MAX_BODY_LENGTH && |EncodeMeta(metadata)| <= MAX_METADATA_LENGTH
  }

  ghost predicate ValidFrame(f: Frame) {
    f.msgType <= PONG && Encodable(f.metadata, f.body)
  }

  ghost function FrameBytes(f: Frame): bytes {
    var meta := EncodeMeta(f.metadata);
    HeaderBytes(HeaderFor(f.msgType, f.requestId, ToU32(|meta|), ToU32(|f.body|))) + meta + f.body
  }

  /** encodeFrame */
  method EncodeFrame(requestId: u64, msgType: byte, metadata: seq<Pair>, body: bytes) returns (frame: bytes)
    requires Ascending(metadata)
    requires ValidFrame(Frame(msgType, requestId, MapOf(metadata), body))
    ensures frame == FrameBytes(Frame(msgType, requestId, MapOf(metadata), body))
  {
    hide HeaderBytes, EncodeMeta;
    var metaBytes := EncodeMetadata(metadata);
    var metaLen, bodyLen := ToU32(|metaBytes|), ToU32(|body|);
    var head := new byte[HEADER_SIZE];
    EncodeHeader(HeaderFor(msgType, requestId, metaLen, bodyLen), head);
    assert head[..] == head[..HEADER_SIZE];
    frame := head[..] + metaBytes + body;
  }

  // ---- one frame at the head of a byte string: the reference reading ----

  datatype Step =
    | Need
    | Bad(why: ParseResult)
    | Got(frame: Frame, rest: bytes)

  /** The frame at the head of s. The metadata block is decoded with exactly the frame's
      own payload behind it. */
  function ParseFrame(s: bytes): (r: Step)
    ensures r.Got? ==> |r.rest| + HEADER_SIZE <= |s|
    ensures r.Bad? ==> r.why != Ok && r.why != NeedMoreData
  {
    if |s| < HEADER_SIZE then Need
    else
      var h := ReadHeader(s);
      if ValidateHeader(h) != Ok then Bad(ValidateHeader(h))
      else if |s| < h.totalLength then Need
      else
        var r := DecodeEntries(s[HEADER_SIZE..h.totalLength], h.metaLength, map[]);
        if !r.MetaOk? then Bad(Verdict(r))
        else
          Got(Frame(h.msgType, h.requestId, r.meta, s[HEADER_SIZE + h.metaLength..h.totalLength]), s[h.totalLength..])
  }

  /** When the reading of a frame is undefined: a length in its metadata overhangs its payload. */
  lemma {:induction false} UndefinedExactly(s: bytes)
    ensures ParseFrame(s) == Bad(Undefined)
            <==> && |s| >= HEADER_SIZE
                 && var h := ReadHeader(s);
                    && ValidateHeader(h) == Ok && h.totalLength <= |s|
                    && Overhangs(s[HEADER_SIZE..h.totalLength], h.metaLength)
  {
    hide ReadHeader, ValidateHeader, DecodeEntries, Overhangs;
    if |s| >= HEADER_SIZE {
      var h := ReadHeader(s);
      if ValidateHeader(h) == Ok && h.totalLength <= |s| {
        LeavesBufferExactly(s[HEADER_SIZE..h.totalLength], h.metaLength, map[]);
      }
    }
  }

  ghost function HeaderOf(f: Frame): (h: Header)
    requires ValidFrame(f)
    ensures ValidateHeader(h) == Ok && h.msgType == f.msgType && h.requestId == f.requestId
    ensures h.metaLength == |EncodeMeta(f.metadata)| && h.bodyLength == |f.body|
  {
    HeaderFor(f.msgType, f.requestId, |EncodeMeta(f.metadata)|, |f.body|)
  }

  lemma {:induction false} FrameHeaderReads(f: Frame, rest: bytes)
    requires ValidFrame(f)
    ensures FrameBytes(f) == HeaderBytes(HeaderOf(f)) + EncodeMeta(f.metadata) + f.body
    ensures |FrameBytes(f)| == HeaderOf(f).totalLength
    ensures ReadHeader(FrameBytes(f) + rest) == HeaderOf(f)
  {
    hide HeaderBytes, ReadHeader, ValidateHeader, EncodeMeta;
    var meta := EncodeMeta(f.metadata);
    assert ToU32(|meta|) == |meta| && ToU32(|f.body|) == |f.body|;
    assert FrameBytes(f) == HeaderBytes(HeaderOf(f)) + meta + f.body;
    HeaderRoundTrip(HeaderOf(f), meta + f.body + rest);
    assert FrameBytes(f) + rest == HeaderBytes(HeaderOf(f)) + (meta + f.body + rest);
  }

  /** Frame inversion, whatever follows the frame. */
  lemma {:induction false} FrameRoundTrip(f: Frame, rest: bytes)
    requires ValidFrame(f)
    ensures ParseFrame(FrameBytes(f) + rest) == Got(f, rest)
  {
    hide HeaderBytes, ReadHeader, ValidateHeader, DecodeEntries, FrameBytes, EncodeMeta;
    var meta := EncodeMeta(f.metadata);
    var s := FrameBytes(f) + rest;
    var total := |FrameBytes(f)|;
    FrameHeaderReads(f, rest);
    assert s[HEADER_SIZE..total] == meta + f.body;
    assert s[HEADER_SIZE + |meta|..total] == f.body;
    assert s[total..] == rest;
    MetadataRoundTrip(f.metadata, map[]);
    EntriesExtend(meta, f.body, |meta|, map[]);
  }

  /** A proper prefix of a frame is never mistaken for a frame or an error. */
  lemma {:induction false} PrefixNeedsMore(f: Frame, n: nat)
    requires ValidFrame(f) && n < |FrameBytes(f)|
    ensures ParseFrame(FrameBytes(f)[..n]) == Need
  {
    hide HeaderBytes, ReadHeader, ValidateHeader, FrameBytes;
    var s := FrameBytes(f)[..n];
    if n >= HEADER_SIZE {
      FrameHeaderReads(f, []);
      assert FrameBytes(f) + [] == FrameBytes(f);
      HeaderCanonical(s);
      HeaderCanonical(FrameBytes(f));
      assert s[..HEADER_SIZE] == FrameBytes(f)[..HEADER_SIZE];
      ReadHeaderPrefix(s, FrameBytes(f)[n..]);
      assert s + FrameBytes(f)[n..] == FrameBytes(f);
    }
  }

  lemma {:induction false} ReadHeaderPrefix(s: bytes, ext: bytes)
    requires |s| >= HEADER_SIZE
    ensures ReadHeader(s + ext) == ReadHeader(s)
  {
    HeaderCanonical(s);
    assert s + ext == HeaderBytes(ReadHeader(s)) + (s[HEADER_SIZE..] + ext);
    HeaderRoundTrip(ReadHeader(s), s[HEADER_SIZE..] + ext);
  }

  /** Bytes that arrive later change neither a parsed frame nor an error. */
  lemma {:induction false} ParseFrameExtends(s: bytes, ext: bytes)
    requires !ParseFrame(s).Need?
    ensures ParseFrame(s + ext) == match ParseFrame(s)
                                   case Bad(why) => Bad(why)
                                   case Got(f, rest) => Got(f, rest + ext)
  {
    ReadHeaderPrefix(s, ext);
    hide ReadHeader, ValidateHeader, DecodeEntries;
    var h := ReadHeader(s);
    if ValidateHeader(h) == Ok {
      SliceExtends(s, ext, HEADER_SIZE, h.totalLength);
      SliceExtends(s, ext, HEADER_SIZE + h.metaLength, h.totalLength);
    }
  }

  /** A frame read at the head of s is read from its own bytes alone. */
  lemma {:induction false} FrameByItself(s: bytes)
    requires ParseFrame(s).Got?
    ensures ParseFrame(s[..|s| - |ParseFrame(s).rest|]) == Got(ParseFrame(s).frame, [])
  {
    var n := ReadHeader(s).totalLength;
    ReadHeaderPrefix(s[..n], s[n..]);
    assert s[..n] + s[n..] == s;
    hide ReadHeader, ValidateHeader, DecodeEntries;
    assert n == |s| - |ParseFrame(s).rest|;
    assert s[..n][HEADER_SIZE..n] == s[HEADER_SIZE..n];
    assert s[..n][n..] == [];
  }

  lemma {:induction false} SliceExtends(s: bytes, ext: bytes, i: nat, j: nat)
    requires i <= j <= |s|
    ensures (s + ext)[i..j] == s[i..j] && (s + ext)[j..] == s[j..] + ext
  {
  }

  // ---- FrameParser: specification ----

  datatype ParseState = NeedHeader | NeedPayload | Complete

  datatype Parser = Parser(
    state: ParseState, header: Header, buffer: bytes,
    metadata: Meta, body: bytes, complete: bool)
  {
    /** What every feed and reset keeps. */
    predicate Valid() {
      && (complete <==> state == Complete)
      && (state == NeedPayload ==> ValidateHeader(header) == Ok && header.totalLength > HEADER_SIZE)
    }

    function Payload(): nat
      requires Valid() && state == NeedPayload
    {
      header.totalLength - HEADER_SIZE
    }

    /** The frame a caller reads off a complete parser. */
    function Taken(): Frame {
      Frame(header.msgType, header.requestId, metadata, body)
    }

    /** The unconsumed input: the header already taken out of the buffer, then the buffer. */
    function Leftover(): bytes {
      (if state == NeedPayload then HeaderBytes(header) else []) + buffer
    }

    /** Between frames, or part-way through one. */
    predicate Ready() {
      Valid() && !complete && metadata == map[] && body == []
    }
  }

  const FRESH := Parser(NeedHeader, DEFAULT_HEADER, [], map[], [], false)

  function FinishPayload(p: Parser): (r: (ParseResult, Parser))
    requires p.Valid() && p.state == NeedPayload
    ensures r.1.Valid() && |r.1.buffer| <= |p.buffer|
    ensures r.1.complete ==> r.0 == Ok
  {
    if |p.buffer| < p.Payload() then (NeedMoreData, p)
    else
      var m := DecodeEntries(p.buffer, p.header.metaLength, p.metadata);
      if p.header.metaLength > 0 && !m.MetaOk? then (Verdict(m), p.(metadata := m.meta))
      else
        var h := p.header;
        (Ok, p.(state := Complete, complete := true,
                metadata := if h.metaLength > 0 then m.meta else p.metadata,
                body := if h.bodyLength > 0 then p.buffer[h.metaLength..h.metaLength + h.bodyLength] else p.body,
                buffer := p.buffer[p.Payload()..]))
  }

  /** feed, once the new bytes are in the buffer. */
  function Advance(q: Parser): (r: (ParseResult, Parser))
    requires q.Valid() && !q.complete
    ensures r.1.Valid() && |r.1.buffer| <= |q.buffer|
    ensures q.state == NeedHeader && r.1.complete ==> |r.1.buffer| + HEADER_SIZE <= |q.buffer|
    ensures r.1.complete ==> r.0 == Ok
  {
    if q.state == NeedPayload then FinishPayload(q)
    else if |q.buffer| < HEADER_SIZE then (NeedMoreData, q)
    else
      var h := ReadHeader(q.buffer);
      if ValidateHeader(h) != Ok then (ValidateHeader(h), q.(header := h))
      else if h.totalLength == HEADER_SIZE then
        (Ok, q.(header := h, buffer := q.buffer[HEADER_SIZE..], state := Complete, complete := true))
      else
        FinishPayload(q.(header := h, buffer := q.buffer[HEADER_SIZE..], state := NeedPayload))
  }

  function FeedResult(p: Parser, data: bytes): (r: (ParseResult, Parser))
    requires p.Valid()
    ensures r.1.Valid()
  {
    if p.complete then (InternalError, p) else Advance(p.(buffer := p.buffer + data))
  }

  function ResetResult(p: Parser): Parser {
    FRESH.(buffer := p.buffer)
  }

  // ---- FrameParser: the object ----

  class FrameParser {
    var state: ParseState
    var header: Header
    var buffer: bytes
    var metadata: Meta
    var body: bytes
    var complete: bool

    ghost function View(): Parser
      reads this
    {
      Parser(state, header, buffer, metadata, body, complete)
    }

    constructor ()
      ensures View() == FRESH
    {
      state, header, buffer, metadata, body, complete := NeedHeader, DEFAULT_HEADER, [], map[], [], false;
    }

    method Feed(data: bytes) returns (result: ParseResult)
      requires View().Valid()
      modifies this
      ensures (result, View()) == FeedResult(old(View()), data)
    {
      if complete { return InternalError; }
      buffer := buffer + data;
      if state == NeedHeader {
        if |buffer| < HEADER_SIZE { return NeedMoreData; }
        var r, h := DecodeHeader(buffer);
        header := h;
        if r != Ok { return r; }
        buffer := buffer[HEADER_SIZE..];
        if header.totalLength == HEADER_SIZE {
          state, complete := Complete, true;
          return Ok;
        }
        state := NeedPayload;
      }
      result := TakePayload();
    }

    /** The payload half of feed. */
    method TakePayload() returns (result: ParseResult)
      requires View().Valid() && state == NeedPayload
      modifies this
      ensures (result, View()) == FinishPayload(old(View()))
    {
      hide DecodeEntries;
      var payloadLen := header.totalLength - HEADER_SIZE;
      if |buffer| < payloadLen { return NeedMoreData; }
      var metaLen, bodyLen := header.metaLength, header.bodyLength;
      if metaLen > 0 {
        var r, m := DecodeMetadata(buffer, metaLen, metadata);
        metadata := m;
        if r != Ok { return r; }
      }
      if bodyLen > 0 {
        body := buffer[metaLen..metaLen + bodyLen];
      }
      buffer := buffer[payloadLen..];
      state, complete := Complete, true;
      result := Ok;
    }

    method Reset()
      modifies this
      ensures View() == ResetResult(old(View()))
    {
      state, metadata, body, header, complete := NeedHeader, map[], [], DEFAULT_HEADER, false;
    }
  }

  // ---- the parser refines the reference reading ----

  /** Errors other than running out of input. */
  predicate IsError(r: ParseResult) {
    r != Ok && r != NeedMoreData && r != Undefined
  }

  /** An erroneous block has reached the parser and is still in front of it. */
  ghost predicate Stuck(p: Parser, why: ParseResult) {
    && p.Valid() && !p.complete && IsError(why)
    && (p.state == NeedHeader ==> |p.buffer| >= HEADER_SIZE && ValidateHeader(ReadHeader(p.buffer)) == why)
    && (p.state == NeedPayload ==>
          && |p.buffer| >= p.Payload() && p.header.metaLength > 0 && why == MetadataParseError
          && DecodeEntries(p.buffer[..p.Payload()], p.header.metaLength, map[]).MetaBad?)
  }

  lemma {:induction false} VerdictIgnoresBase(s: bytes, left: int, m: Meta, m': Meta)
    requires left <= |s|
    ensures Verdict(DecodeEntries(s, left, m)) == Verdict(DecodeEntries(s, left, m'))
    decreases |s|
  {
    hide ReadEntry;
    if left > 0 {
      var r := ReadEntry(s, left);
      if r.Stored? {
        VerdictIgnoresBase(r.next, left - (|s| - |r.next|), m[r.key := r.value], m'[r.key := r.value]);
      }
    }
  }

  /** Decoding in front of a longer buffer agrees with decoding in front of the payload. */
  lemma {:induction false} PayloadDecides(p: Parser)
    requires p.Valid() && p.state == NeedPayload && |p.buffer| >= p.Payload()
    requires !DecodeEntries(p.buffer[..p.Payload()], p.header.metaLength, p.metadata).MetaBeyond?
    ensures DecodeEntries(p.buffer, p.header.metaLength, p.metadata)
         == DecodeEntries(p.buffer[..p.Payload()], p.header.metaLength, p.metadata)
  {
    EntriesExtend(p.buffer[..p.Payload()], p.buffer[p.Payload()..], p.header.metaLength, p.metadata);
    assert p.buffer == p.buffer[..p.Payload()] + p.buffer[p.Payload()..];
  }

  /** A stuck parser reports the same error on every later feed. */
  lemma {:induction false} StuckForever(p: Parser, why: ParseResult, data: bytes)
    requires Stuck(p, why)
    ensures FeedResult(p, data).0 == why && Stuck(FeedResult(p, data).1, why)
  {
    hide HeaderBytes, ReadHeader, ValidateHeader, DecodeEntries;
    if p.state == NeedHeader {
      ReadHeaderPrefix(p.buffer, data);
    } else {
      var q := p.(buffer := p.buffer + data);
      assert q.buffer[..q.Payload()] == p.buffer[..p.Payload()];
      VerdictIgnoresBase(p.buffer[..p.Payload()], p.header.metaLength, map[], p.metadata);
      PayloadDecides(q);
    }
  }

  /** What feed must do, according to the reference reading of everything not yet consumed. */
  ghost predicate Matches(step: Step, s: bytes, result: ParseResult, p: Parser) {
    match step
    case Need => result == NeedMoreData && p.Ready() && p.Leftover() == s
    case Got(f, rest) => result == Ok && p.Valid() && p.complete && p.Taken() == f && p.buffer == rest
    case Bad(why) => why != Undefined ==> result == why && Stuck(p, why)
  }

  lemma {:induction false} PayloadSlices(h: Header, buffer: bytes)
    requires ValidateHeader(h) == Ok && HEADER_SIZE + |buffer| >= h.totalLength
    ensures var s := HeaderBytes(h) + buffer;
            && |s| >= h.totalLength
            && s[HEADER_SIZE..h.totalLength] == buffer[..h.totalLength - HEADER_SIZE]
            && s[HEADER_SIZE + h.metaLength..h.totalLength] == buffer[h.metaLength..h.metaLength + h.bodyLength]
            && s[h.totalLength..] == buffer[h.totalLength - HEADER_SIZE..]
  {
    hide *;
    var s := HeaderBytes(h) + buffer;
    assert s[HEADER_SIZE..] == buffer;
  }

  /** The reference reading of a leftover whose header is already known to be valid. */
  lemma {:induction false} ParseLeftover(p: Parser)
    requires p.Ready() && p.state == NeedPayload
    ensures |p.buffer| < p.Payload() ==> ParseFrame(p.Leftover()) == Need
    ensures |p.buffer| >= p.Payload() ==>
              var h, m := p.header, DecodeEntries(p.buffer[..p.Payload()], p.header.metaLength, map[]);
              ParseFrame(p.Leftover())
              == if !m.MetaOk? then Bad(Verdict(m))
                 else Got(Frame(h.msgType, h.requestId, m.meta, p.buffer[h.metaLength..h.metaLength + h.bodyLength]),
                          p.buffer[p.Payload()..])
  {
    HeaderRoundTrip(p.header, p.buffer);
    hide HeaderBytes, ReadHeader, ValidateHeader, DecodeEntries;
    if |p.buffer| >= p.Payload() {
      PayloadSlices(p.header, p.buffer);
    }
  }

  /** The payload half of feed, in terms of the payload alone. */
  lemma {:induction false} FinishFromPayload(p: Parser)
    requires p.Ready() && p.state == NeedPayload && |p.buffer| >= p.Payload()
    ensures var h, m := p.header, DecodeEntries(p.buffer[..p.Payload()], p.header.metaLength, map[]);
            match m
            case MetaOk(meta) =>
              FinishPayload(p) == (Ok, Parser(Complete, h, p.buffer[p.Payload()..], meta,
                                              p.buffer[h.metaLength..h.metaLength + h.bodyLength], true))
            case MetaBad(meta) =>
              FinishPayload(p) == (MetadataParseError, p.(metadata := meta)) && h.metaLength > 0
            case MetaBeyond(_) => true
  {
    var m := DecodeEntries(p.buffer[..p.Payload()], p.header.metaLength, map[]);
    if p.header.metaLength == 0 {
      EmptyBlock(p.buffer[..p.Payload()]);
    }
    if !m.MetaBeyond? {
      PayloadDecides(p);
      hide FinishPayload, DecodeEntries, ValidateHeader;
      FinishDecoded(p, m);
    }
  }

  lemma {:induction false} FinishDecoded(p: Parser, m: MetaResult)
    requires p.Ready() && p.state == NeedPayload && |p.buffer| >= p.Payload()
    requires DecodeEntries(p.buffer, p.header.metaLength, map[]) == m && !m.MetaBeyond?
    requires p.header.metaLength == 0 ==> m == MetaOk(map[])
    ensures match m
            case MetaOk(meta) =>
              var h := p.header;
              FinishPayload(p) == (Ok, Parser(Complete, h, p.buffer[p.Payload()..], meta,
                                              p.buffer[h.metaLength..h.metaLength + h.bodyLength], true))
            case MetaBad(meta) =>
              FinishPayload(p) == (MetadataParseError, p.(metadata := meta)) && p.header.metaLength > 0
            case MetaBeyond(_) => true
  {
    hide DecodeEntries, ValidateHeader;
    if p.header.bodyLength == 0 {
      EmptySlice(p.buffer, p.header.metaLength);
    }
  }

  lemma {:induction false} EmptySlice(s: bytes, i: nat)
    requires i <= |s|
    ensures s[i..i + 0] == []
  {
  }

  lemma {:induction false} FinishMatches(p: Parser)
    requires p.Ready() && p.state == NeedPayload
    ensures Matches(ParseFrame(p.Leftover()), p.Leftover(), FinishPayload(p).0, FinishPayload(p).1)
  {
    hide ParseFrame, ValidateHeader, HeaderBytes, ReadHeader, DecodeEntries;
    ParseLeftover(p);
    if |p.buffer| < p.Payload() {
      assert FinishPayload(p) == (NeedMoreData, p);
    } else {
      hide FinishPayload;
      FinishFromPayload(p);
    }
  }

  lemma {:induction false} EmptyBlock(s: bytes)
    ensures DecodeEntries(s, 0, map[]) == MetaOk(map[])
  {
  }

  lemma {:induction false} HeaderlessMatches(q: Parser)
    requires q.Ready() && q.state == NeedHeader && |q.buffer| >= HEADER_SIZE
    requires ValidateHeader(ReadHeader(q.buffer)) == Ok
    ensures Matches(ParseFrame(q.buffer), q.buffer, Advance(q).0, Advance(q).1)
  {
    hide ReadHeader, ValidateHeader, HeaderBytes, FinishPayload, Matches;
    var s, h := q.buffer, ReadHeader(q.buffer);
    HeaderOnlyOrPayload(s);
    if h.totalLength > HEADER_SIZE {
      var p := q.(header := h, buffer := s[HEADER_SIZE..], state := NeedPayload);
      assert p.Leftover() == s;
      FinishMatches(p);
    } else {
      HeaderOnlyMatches(q);
    }
  }

  lemma {:induction false} HeaderOnlyMatches(q: Parser)
    requires q.Ready() && q.state == NeedHeader && |q.buffer| >= HEADER_SIZE
    requires ValidateHeader(ReadHeader(q.buffer)) == Ok && ReadHeader(q.buffer).totalLength == HEADER_SIZE
    ensures Matches(ParseFrame(q.buffer), q.buffer, Advance(q).0, Advance(q).1)
  {
    HeaderOnlyOrPayload(q.buffer);
  }

  /** feed agrees with the reference reading of the leftover followed by the new bytes. */
  lemma {:induction false} FeedMatches(p: Parser, data: bytes)
    requires p.Ready()
    ensures var s := p.Leftover() + data;
            Matches(ParseFrame(s), s, FeedResult(p, data).0, FeedResult(p, data).1)
  {
    hide ReadHeader, ValidateHeader, HeaderBytes, DecodeEntries;
    var q := p.(buffer := p.buffer + data);
    assert q.Leftover() == p.Leftover() + data;
    if p.state == NeedPayload {
      FinishMatches(q);
      return;
    }
    assert q.Leftover() == q.buffer;
    if |q.buffer| >= HEADER_SIZE && ValidateHeader(ReadHeader(q.buffer)) == Ok {
      HeaderlessMatches(q);
    }
  }

  lemma {:induction false} HeaderOnlyOrPayload(s: bytes)
    requires |s| >= HEADER_SIZE && ValidateHeader(ReadHeader(s)) == Ok
    ensures s == HeaderBytes(ReadHeader(s)) + s[HEADER_SIZE..]
    ensures var h := ReadHeader(s);
            && h.totalLength == HEADER_SIZE + h.metaLength + h.bodyLength
            && (h.totalLength == HEADER_SIZE
                ==> h.metaLength == 0 && s[HEADER_SIZE + h.metaLength..h.totalLength] == [])
  {
    HeaderCanonical(s);
    assert s == s[..HEADER_SIZE] + s[HEADER_SIZE..];
  }

  /** A parser at a frame boundary, given exactly a frame whose reading is undefined, runs out
      of bytes. */
  lemma {:induction false} FeedUndefined(p: Parser, f: bytes)
    requires p.Ready() && p.Leftover() == []
    requires ParseFrame(f) == Bad(Undefined) && |f| == ReadHeader(f).totalLength
    ensures FeedResult(p, f).0 == Undefined
  {
    hide ReadHeader, DecodeEntries, ParseFrame, HeaderBytes;
    UndefinedExactly(f);
    var h := ReadHeader(f);
    var payload := f[HEADER_SIZE..];
    assert f[HEADER_SIZE..h.totalLength] == payload && [] + f == f;
    LeavesBufferExactly(payload, h.metaLength, map[]);
    assert h.metaLength > 0 && h.totalLength > HEADER_SIZE;
    hide ValidateHeader;
    hide Overhangs, FinishPayload;
    AtBoundary(p);
    var q := Parser(NeedPayload, h, payload, map[], [], false);
    assert FeedResult(p, f) == FinishPayload(q);
    PayloadUndefined(q);
  }

  lemma {:induction false} AtBoundary(p: Parser)
    requires p.Ready() && p.Leftover() == []
    ensures p == p.(state := NeedHeader, buffer := [], metadata := map[], body := [], complete := false)
  {
    hide HeaderBytes, ValidateHeader, ReadHeader;
  }

  lemma {:induction false} PayloadUndefined(q: Parser)
    requires q.Valid() && q.state == NeedPayload && |q.buffer| >= q.Payload() && q.header.metaLength > 0
    requires DecodeEntries(q.buffer, q.header.metaLength, q.metadata).MetaBeyond?
    ensures FinishPayload(q).0 == Undefined
  {
    hide DecodeEntries, ValidateHeader;
  }
}
