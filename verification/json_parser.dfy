/** The recursive-descent JSON parser (src/mcp/json_rpc.cpp): its meaning as functions on the
    unread text. JsonParserObject holds the parser as the source runs it. */
module JsonParser {
  import opened Basics
  import opened Decimal
  import opened JsonValue

  datatype Problem =
    | UnexpectedEnd | TrailingCharacters | UnexpectedCharacter
    | Expected(b: byte) | ExpectedKey | ExpectedCommaOrBrace | ExpectedCommaOrBracket
    | UnterminatedString | UnterminatedEscape | UnterminatedUnicode
    | InvalidHex | InvalidEscape | ControlCharacter
    | InvalidNumber | InvalidBool | InvalidNull

  /** A value and the text behind it, or a problem with the length of text still unread
      when it was noticed. */
  datatype Scan<+T> =
    | Good(value: T, rest: bytes)
    | Fault(left: nat, problem: Problem)

  predicate IsSpace(b: byte) { b == 32 || b == 9 || b == 10 || b == 13 }

  /** skipWhitespace */
  function SkipSpace(s: bytes): (r: bytes)
    ensures |r| <= |s|
  {
    if s != [] && IsSpace(s[0]) then SkipSpace(s[1..]) else s
  }

  /** peek: '\0' at the end of the text. */
  function Peek(s: bytes): byte {
    if s == [] then 0 else s[0]
  }

  predicate StartsWith(s: bytes, word: bytes) {
    |word| <= |s| && s[..|word|] == word
  }

  // ---- strings ----

  function SimpleEscape(e: byte): Option<byte> {
    if e == QUOTE || e == BACKSLASH || e == 47 then Some(e)
    else if e == 98 then Some(8)
    else if e == 102 then Some(12)
    else if e == 110 then Some(10)
    else if e == 114 then Some(13)
    else if e == 116 then Some(9)
    else None
  }

  function HexValue(b: byte): (r: Option<nat>)
    ensures r.Some? ==> r.value < 16
  {
    if 48 <= b <= 57 then Some(b - 48)
    else if 97 <= b <= 102 then Some(b - 87)
    else if 65 <= b <= 70 then Some(b - 55)
    else None
  }

  /** The bytes appended for a \u escape of up to four hex digits. */
  function Utf8(code: nat): bytes
    requires code < 0x1_0000
  {
    if code <= 0x7F then [code]
    else if code <= 0x7FF then [0xC0 + code / 0x40, 0x80 + code % 0x40]
    else [0xE0 + code / 0x1000, 0x80 + code / 0x40 % 0x40, 0x80 + code % 0x40]
  }

  /** Bound on the code point read so far with n hex digits to go. */
  function Room(n: nat): nat
    requires n <= 4
  {
    match n case 0 => 0x1_0000 case 1 => 0x1000 case 2 => 0x100 case 3 => 0x10 case 4 => 1
  }

  /** The hex-digit loop of a \u escape with n digits to go. */
  function ScanHex(s: bytes, n: nat, code: nat): (r: Scan<nat>)
    requires n <= 4 && code < Room(n)
    ensures r.Good? ==> |r.rest| + n == |s| && r.value < 0x1_0000
  {
    if n == 0 then Good(code, s)
    else if s == [] then Fault(0, UnterminatedUnicode)
    else
      match HexValue(s[0])
      case None => Fault(|s| - 1, InvalidHex)
      case Some(d) => ScanHex(s[1..], n - 1, 16 * code + d)
  }

  /** parseString behind the opening quote. */
  function ScanString(s: bytes, acc: bytes): (r: Scan<bytes>)
    ensures r.Good? ==> |r.rest| < |s|
    decreases |s|
  {
    if s == [] then Fault(0, UnterminatedString)
    else if s[0] == QUOTE then Good(acc, s[1..])
    else if s[0] == BACKSLASH then
      if |s| == 1 then Fault(0, UnterminatedEscape)
      else if s[1] == LETTER_U then
        match ScanHex(s[2..], 4, 0)
        case Fault(left, problem) => Fault(left, problem)
        case Good(code, rest) =>
          ScanString(rest, acc + Utf8(code))
      else
        (match SimpleEscape(s[1])
         case Some(b) => ScanString(s[2..], acc + [b])
         case None => Fault(|s| - 2, InvalidEscape))
    else if s[0] < 0x20 then Fault(|s| - 1, ControlCharacter)
    else ScanString(s[1..], acc + [s[0]])
  }

  // ---- numbers ----

  function LeadingDigits(s: bytes): (n: nat)
    ensures n <= |s| && AllDigits(s[..n])
    ensures n < |s| ==> !IsDigit(s[n])
  {
    if s == [] || !IsDigit(s[0]) then 0
    else
      var n := LeadingDigits(s[1..]);
      assert s[..n + 1] == [s[0]] + s[1..][..n];
      n + 1
  }

  /** strtoll in base ten: the value and the characters used, 0 when there are no digits.
      The end of the text terminates the number. */
  function StrToLL(s: bytes): (r: (int, nat))
    ensures r.1 <= |s|
  {
    var sign := if s != [] && s[0] == MINUS then 1 else 0;
    var n := LeadingDigits(s[sign..]);
    var magnitude: int := DecimalValue(s[sign..][..n]);
    if n == 0 then (0, 0) else (if sign == 1 then -magnitude else magnitude, sign + n)
  }

  predicate InI64(n: int) { -0x8000_0000_0000_0000 <= n < 0x8000_0000_0000_0000 }

  predicate MarksFloat(b: byte) { b == 46 || b == 101 || b == 69 }

  /** parseNumber: an integer when strtoll succeeds and no fraction or exponent follows,
      otherwise whatever strtod makes of it. */
  function ScanNumber(lib: FloatLib, s: bytes): (r: Scan<Json>)
    ensures r.Good? && s != [] ==> |r.rest| < |s|
  {
    var (v, n) := StrToLL(s);
    if n > 0 && InI64(v) && !MarksFloat(Peek(s[n..])) then Good(Integer(v), s[n..])
    else
      match lib.scan(s)
      case None => Fault(|s|, InvalidNumber)
      case Some((bits, used)) =>
        if used == 0 then Fault(|s|, InvalidNumber)
        else Good(Double(bits), s[if used <= |s| then used else |s|..])
  }

  // ---- values ----

  function ScanWord(s: bytes, word: bytes, v: Json, problem: Problem): Scan<Json> {
    if StartsWith(s, word) then Good(v, s[|word|..]) else Fault(|s|, problem)
  }

  /** parseValue */
  function ScanValue(lib: FloatLib, t: bytes): (r: Scan<Json>)
    ensures r.Good? ==> |r.rest| < |t|
    decreases |t|, 0
  {
    var s := SkipSpace(t);
    var c := Peek(s);
    if c == OPEN_BRACE then
      var inner := SkipSpace(s[1..]);
      if Peek(inner) == CLOSE_BRACE then Good(Object([]), inner[1..]) else ScanMembers(lib, inner, [])
    else if c == OPEN_BRACKET then
      var inner := SkipSpace(s[1..]);
      if Peek(inner) == CLOSE_BRACKET then Good(Array([]), inner[1..]) else ScanElements(lib, inner, [])
    else if c == QUOTE then
      (match ScanString(s[1..], [])
       case Fault(left, problem) => Fault(left, problem)
       case Good(text, rest) => Good(Str(text), rest))
    else if c == 116 then ScanWord(s, Ascii("true"), Bool(true), InvalidBool)
    else if c == 102 then ScanWord(s, Ascii("false"), Bool(false), InvalidBool)
    else if c == 110 then ScanWord(s, Ascii("null"), Null, InvalidNull)
    else if c == MINUS || IsDigit(c) then ScanNumber(lib, s)
    else Fault(|s|, UnexpectedCharacter)
  }

  /** A key, a colon and a value. */
  function ScanMember(lib: FloatLib, t: bytes): (r: Scan<Member>)
    ensures r.Good? ==> |r.rest| < |t|
    decreases |t|, 1
  {
    var s := SkipSpace(t);
    if Peek(s) != QUOTE then Fault(|s|, ExpectedKey)
    else
      match ScanString(s[1..], [])
      case Fault(left, problem) => Fault(left, problem)
      case Good(key, afterKey) =>
        var colon := SkipSpace(afterKey);
        if Peek(colon) != COLON then Fault(|colon|, Expected(COLON))
        else
          match ScanValue(lib, SkipSpace(colon[1..]))
          case Fault(left, problem) => Fault(left, problem)
          case Good(v, rest) => Good(Member(key, v), rest)
  }

  /** The loop of parseObject. */
  function ScanMembers(lib: FloatLib, t: bytes, acc: seq<Member>): (r: Scan<Json>)
    ensures r.Good? ==> |r.rest| < |t|
    decreases |t|, 2
  {
    match ScanMember(lib, t)
    case Fault(left, problem) => Fault(left, problem)
    case Good(m, afterValue) =>
      var members := Set(acc, m.key, m.value);
      var next := SkipSpace(afterValue);
      if Peek(next) == CLOSE_BRACE then Good(Object(members), next[1..])
      else if Peek(next) != COMMA then Fault(|next|, ExpectedCommaOrBrace)
      else ScanMembers(lib, next[1..], members)
  }

  /** The loop of parseArray. */
  function ScanElements(lib: FloatLib, t: bytes, acc: seq<Json>): (r: Scan<Json>)
    ensures r.Good? ==> |r.rest| < |t|
    decreases |t|, 1
  {
    match ScanValue(lib, SkipSpace(t))
    case Fault(left, problem) => Fault(left, problem)
    case Good(v, afterValue) =>
      var next := SkipSpace(afterValue);
      if Peek(next) == CLOSE_BRACKET then Good(Array(acc + [v]), next[1..])
      else if Peek(next) != COMMA then Fault(|next|, ExpectedCommaOrBracket)
      else ScanElements(lib, next[1..], acc + [v])
  }

  /** parse: the whole text is one value. */
  function Parse(lib: FloatLib, input: bytes): Scan<Json> {
    var s := SkipSpace(input);
    if s == [] then Fault(0, UnexpectedEnd)
    else
      match ScanValue(lib, s)
      case Fault(left, problem) => Fault(left, problem)
      case Good(v, rest) =>
        var end := SkipSpace(rest);
        if end != [] then Fault(|end|, TrailingCharacters) else Good(v, [])
  }
}
