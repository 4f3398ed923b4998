/** Responses on the wire: makeResponseFrame on the server (src/rpc/rpc_server.cpp) and
    decodeResponseStatus on the client (src/rpc/rpc_client.cpp). */
module ResponseFrame {
  import opened Basics
  import W = Wire
  import opened Metadata
  import opened Frames
  import opened RpcMessage
  import opened Decimal

  const TOO_LARGE := Ascii("response frame exceeds protocol limits")

  /** statusCodeToString: every code is a single decimal digit. */
  function CodeText(c: StatusCode): bytes {
    [48 + CodeNumber(c)]
  }

  function WithStatus(m: Meta, s: Status): Meta {
    var m' := m[STATUS_CODE_KEY := CodeText(s.code)];
    if s.message != [] then m'[STATUS_MESSAGE_KEY := s.message] else m'
  }

  const FALLBACK := Response(Status(ResourceExhausted, TOO_LARGE), map[], [])

  /** The response makeResponseFrame settles on: the handler's, or the fallback when the
      handler's does not fit the frame limits. */
  ghost function Settled(r: Response): Response {
    if Encodable(WithStatus(r.metadata, r.status), r.body) then r else FALLBACK
  }

  ghost function ResponseFrameOf(requestId: u64, r: Response): Frame {
    var s := Settled(r);
    Frame(W.RESPONSE, requestId, WithStatus(s.metadata, s.status), s.body)
  }

  method SetStatus(meta: seq<Pair>, s: Status) returns (out: seq<Pair>)
    requires Ascending(meta)
    ensures Ascending(out) && MapOf(out) == WithStatus(MapOf(meta), s)
  {
    out := SetKey(meta, STATUS_CODE_KEY, CodeText(s.code));
    if s.message != [] {
      out := SetKey(out, STATUS_MESSAGE_KEY, s.message);
    }
  }

  /** isFrameEncodable */
  method IsFrameEncodable(meta: seq<Pair>, body: bytes) returns (fits: bool)
    requires Ascending(meta)
    ensures fits <==> Encodable(MapOf(meta), body)
  {
    var encoded := EncodeMetadata(meta);
    fits := |body| <= W.MAX_BODY_LENGTH && |encoded| <= W.MAX_METADATA_LENGTH;
  }

  /** makeResponseFrame; meta is the in-order traversal of the response's metadata. */
  method MakeResponseFrame(requestId: u64, status: Status, meta: seq<Pair>, body: bytes) returns (frame: bytes)
    requires Ascending(meta)
    ensures frame == FrameBytes(ResponseFrameOf(requestId, Response(status, MapOf(meta), body)))
    ensures ValidFrame(ResponseFrameOf(requestId, Response(status, MapOf(meta), body)))
  {
    FallbackFits();
    var full := SetStatus(meta, status);
    var fits := IsFrameEncodable(full, body);
    if fits {
      frame := EncodeFrame(requestId, W.RESPONSE, full, body);
    } else {
      full := SetStatus([], FALLBACK.status);
      frame := EncodeFrame(requestId, W.RESPONSE, full, []);
    }
  }

  lemma {:induction false} ShortPair(key: bytes, value: bytes)
    requires |key| < 0x80 && |value| < 0x80
    ensures |EncodePair(Pair(key, value))| <= |key| + |value| + 10
  {
    AtMostFive(InnerSize(key, value));
    OneByte(|key|);
    OneByte(|value|);
    hide W.VarintBytes, InnerSize, ToU32;
    assert |InnerBytes(key, value)| == 4 + |key| + |value|;
    hide InnerBytes;
  }

  lemma {:induction false} AtMostFive(v: u32)
    ensures |W.VarintBytes(v)| <= 5
  {
    W.VarintSizeExact(v);
    hide W.VarintBytes;
  }

  lemma {:induction false} OneByte(n: nat)
    requires n < 0x80
    ensures |W.VarintBytes(ToU32(n))| == 1
  {
  }

  lemma {:induction false} FallbackFits()
    ensures Encodable(WithStatus(FALLBACK.metadata, FALLBACK.status), FALLBACK.body)
  {
    assert |TOO_LARGE| == 38;
    PlainStatusFits(FALLBACK.status);
  }

  /** A bare status with a short message is within the limits. */
  lemma {:induction false} PlainStatusFits(s: Status)
    requires 0 < |s.message| < 0x80
    ensures Encodable(WithStatus(map[], s), [])
  {
    KeysDistinct();
    hide EncodePair;
    var one := map[][STATUS_CODE_KEY := CodeText(s.code)];
    assert EncodeMeta(map[]) == [];
    ShortPair(STATUS_CODE_KEY, CodeText(s.code));
    ShortPair(STATUS_MESSAGE_KEY, s.message);
    EncodeMetaAdds(map[], STATUS_CODE_KEY, CodeText(s.code));
    EncodeMetaAdds(one, STATUS_MESSAGE_KEY, s.message);
  }

  // ---- the client's side ----

  /** std::from_chars into an int, accepted only when it consumes the whole text. */
  function WholeInt(s: bytes): Option<int> {
    var negative := s != [] && s[0] == 45;
    var digits := if negative then s[1..] else s;
    if digits == [] || !AllDigits(digits) then None
    else
      var magnitude: int := DecimalValue(digits);
      var v := if negative then -magnitude else magnitude;
      if -0x8000_0000 <= v < 0x8000_0000 then Some(v) else None
  }

  /** decodeResponseStatus; None where the source reports kInternal. */
  function DecodeStatus(m: Meta): Option<Status> {
    if STATUS_CODE_KEY !in m then None
    else
      match WholeInt(m[STATUS_CODE_KEY])
      case None => None
      case Some(v) =>
        if v < 0 || v > CodeNumber(Internal) then None
        else Some(Status(CodeOf(v), if STATUS_MESSAGE_KEY in m then m[STATUS_MESSAGE_KEY] else []))
  }

  /** The codes by their number on the wire. */
  const CODES := [Ok, InvalidArgument, DeadlineExceeded, NotFound,
                  ResourceExhausted, UnsupportedCompression, Unavailable, Internal]

  predicate Zeros(s: bytes) {
    forall i :: 0 <= i < |s| ==> s[i] == 48
  }

  /** t is the number n below ten in decimal, with any leading zeros; -0 is a zero. */
  predicate Spells(t: bytes, n: nat) {
    && t != []
    && ((n < 10 && Zeros(t[..|t| - 1]) && t[|t| - 1] == 48 + n)
        || (n == 0 && t[0] == 45 && t != [45] && Zeros(t[1..])))
  }

  lemma {:induction false} ZeroValue(s: bytes)
    requires AllDigits(s)
    ensures DecimalValue(s) == 0 <==> Zeros(s)
  {
    if s != [] {
      ZeroValue(s[..|s| - 1]);
      assert forall i :: 0 <= i < |s| - 1 ==> s[i] == s[..|s| - 1][i];
    }
  }

  lemma {:induction false} DigitValue(s: bytes, n: nat)
    requires s != [] && AllDigits(s) && n < 10
    ensures DecimalValue(s) == n <==> Zeros(s[..|s| - 1]) && s[|s| - 1] == 48 + n
  {
    ZeroValue(s[..|s| - 1]);
  }

  /** A text is read as a number from 0 to 9 exactly when it spells it. */
  lemma {:induction false} WholeIntExactly(t: bytes, n: nat)
    requires n < 10
    ensures WholeInt(t) == Some(n as int) <==> Spells(t, n)
  {
    if t != [] && t[0] == 45 {
      var digits := t[1..];
      if digits != [] && AllDigits(digits) {
        ZeroValue(digits);
      }
      assert |t| > 1 ==> t[..|t| - 1][0] == 45;
      hide DecimalValue;
      assert Zeros(digits) ==> AllDigits(digits);
    } else if t != [] {
      if AllDigits(t) {
        DigitValue(t, n);
      }
      hide DecimalValue;
      assert forall i :: 0 <= i < |t| - 1 ==> t[i] == t[..|t| - 1][i];
    }
  }

  /** decodeResponseStatus in full: a response has status number n, with that message, exactly
      when its status key spells n; so a missing, garbled or unknown code is no status at all. */
  lemma {:induction false} StatusExactly(m: Meta, n: nat, message: bytes)
    requires n < 8
    ensures DecodeStatus(m) == Some(Status(CODES[n], message))
            <==> && Ascii("nexus.status_code") in m && Spells(m[Ascii("nexus.status_code")], n)
                 && message == if Ascii("nexus.status_message") in m then m[Ascii("nexus.status_message")] else []
    ensures DecodeStatus(m).Some? ==> exists k :: 0 <= k < 8 && DecodeStatus(m).value.code == CODES[k]
  {
    if STATUS_CODE_KEY in m {
      WholeIntExactly(m[STATUS_CODE_KEY], n);
      var read := WholeInt(m[STATUS_CODE_KEY]);
      hide WholeInt, Spells;
      assert CodeOf(n) == CODES[n];
      if read.Some? && 0 <= read.value < 8 {
        assert CodeOf(read.value) == CODES[read.value];
        assert read.value != n ==> CODES[read.value] != CODES[n];
      }
    }
  }

  lemma {:induction false} CodeTextDecodes(c: StatusCode)
    ensures WholeInt(CodeText(c)) == Some(CodeNumber(c))
  {
    var s := CodeText(c);
    assert s[..0] == [];
    assert DecimalValue(s) == 10 * DecimalValue(s[..0]) + CodeNumber(c);
  }

  lemma {:induction false} CodeOfNumber(c: StatusCode)
    ensures CodeOf(CodeNumber(c)) == c
  {
  }

  /** What the client sees of a settled response: its code always, its message unless that is
      empty, and its other metadata untouched. */
  lemma {:induction false} StatusSurvives(m: Meta, s: Status)
    ensures var full := WithStatus(m, s);
            && DecodeStatus(full).Some?
            && DecodeStatus(full).value.code == s.code
            && (s.message != [] ==> DecodeStatus(full).value.message == s.message)
            && forall k :: k != STATUS_CODE_KEY && k != STATUS_MESSAGE_KEY ==>
                 (k in full <==> k in m) && (k in m ==> full[k] == m[k])
    ensures WithStatus(m, s).Keys
         == m.Keys + {STATUS_CODE_KEY} + if s.message != [] then {STATUS_MESSAGE_KEY} else {}
  {
    KeysDistinct();
    CodeTextDecodes(s.code);
    CodeOfNumber(s.code);
  }

  /** Response end to end: whatever a handler returns, the frame respects encodeFrame's
      limits, parses back as the response to the same request, and the client decodes the
      handler's status code, or kResourceExhausted exactly when the response did not fit. */
  lemma {:induction false} ResponseEndToEnd(requestId: u64, r: Response, rest: bytes)
    ensures var f, fits := ResponseFrameOf(requestId, r), Encodable(WithStatus(r.metadata, r.status), r.body);
            && ValidFrame(f)
            && ParseFrame(FrameBytes(f) + rest) == Got(f, rest)
            && f.msgType == W.RESPONSE && f.requestId == requestId
            && DecodeStatus(f.metadata).Some?
            && var status := DecodeStatus(f.metadata).value;
               if fits then
                 && status.code == r.status.code && f.body == r.body
                 && (r.status.message != [] ==> status.message == r.status.message)
                 && forall k :: k in r.metadata && k != STATUS_CODE_KEY && k != STATUS_MESSAGE_KEY ==>
                      k in f.metadata && f.metadata[k] == r.metadata[k]
               else
                 status == Status(ResourceExhausted, TOO_LARGE) && f.body == []
  {
    FallbackFits();
    FrameRoundTrip(ResponseFrameOf(requestId, r), rest);
    StatusSurvives(Settled(r).metadata, Settled(r).status);
  }
}
