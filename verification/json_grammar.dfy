/** The language of the JSON parser: concrete syntax trees, the text they stand for and the
    value they denote. The parser accepts exactly these texts, with exactly these values. */
module JsonGrammar {
  import opened Basics
  import opened Decimal
  import opened JsonValue
  import opened JsonParser

  /** One element of a string literal. */
  datatype Piece =
    | Raw(b: byte)
    | Short(letter: byte)      // \" \\ \/ \b \f \n \r \t
    | Unicode(hex: bytes)      // \uXXXX, either case

  datatype Doc =
    | DNull
    | DBool(b: bool)
    | DInt(negative: bool, digits: bytes)
    | DDouble(text: bytes, bits: nat)
    | DStr(pieces: seq<Piece>)
    | DArr(blank: bytes, items: seq<Item>)       // blank: the space of an empty array
    | DObj(blank: bytes, fields: seq<Field>)

  datatype Item = Item(before: bytes, doc: Doc, after: bytes)

  datatype Field = Field(beforeKey: bytes, key: seq<Piece>, beforeColon: bytes,
                         beforeValue: bytes, doc: Doc, after: bytes)

  predicate Blank(s: bytes) {
    forall i :: 0 <= i < |s| ==> IsSpace(s[i])
  }

  // ---- string literals ----

  predicate ValidPiece(p: Piece) {
    match p
    case Raw(b) => b >= 0x20 && b != QUOTE && b != BACKSLASH
    case Short(letter) => SimpleEscape(letter).Some?
    case Unicode(hex) => |hex| == 4 && forall i :: 0 <= i < 4 ==> HexValue(hex[i]).Some?
  }

  predicate ValidPieces(ps: seq<Piece>) {
    forall i :: 0 <= i < |ps| ==> ValidPiece(ps[i])
  }

  function PieceText(p: Piece): bytes {
    match p
    case Raw(b) => [b]
    case Short(letter) => [BACKSLASH, letter]
    case Unicode(hex) => [BACKSLASH, LETTER_U] + hex
  }

  function CodePoint(hex: bytes): (c: nat)
    requires |hex| == 4 && forall i :: 0 <= i < 4 ==> HexValue(hex[i]).Some?
    ensures c < 0x1_0000
  {
    0x1000 * HexValue(hex[0]).value + 0x100 * HexValue(hex[1]).value
    + 0x10 * HexValue(hex[2]).value + HexValue(hex[3]).value
  }

  function PieceValue(p: Piece): bytes
    requires ValidPiece(p)
  {
    match p
    case Raw(b) => [b]
    case Short(letter) => [SimpleEscape(letter).value]
    case Unicode(hex) => Utf8(CodePoint(hex))
  }

  function PiecesText(ps: seq<Piece>): bytes {
    if ps == [] then [] else PieceText(ps[0]) + PiecesText(ps[1..])
  }

  function PiecesValue(ps: seq<Piece>): bytes
    requires ValidPieces(ps)
  {
    if ps == [] then [] else PieceValue(ps[0]) + PiecesValue(ps[1..])
  }

  function LiteralText(ps: seq<Piece>): bytes {
    [QUOTE] + PiecesText(ps) + [QUOTE]
  }

  // ---- documents ----

  function IntOf(negative: bool, digits: bytes): int
    requires AllDigits(digits)
  {
    var magnitude: int := DecimalValue(digits);
    if negative then -magnitude else magnitude
  }

  predicate Valid(d: Doc) {
    match d
    case DNull => true
    case DBool(_) => true
    case DInt(negative, digits) => digits != [] && AllDigits(digits) && InI64(IntOf(negative, digits))
    case DDouble(text, _) => text != [] && (text[0] == MINUS || IsDigit(text[0]))
    case DStr(pieces) => ValidPieces(pieces)
    case DArr(blank, items) => Blank(blank) && ValidItems(items)
    case DObj(blank, fields) => Blank(blank) && ValidFields(fields)
  }

  predicate ValidItems(items: seq<Item>) {
    forall i :: 0 <= i < |items| ==> ValidItem(items[i])
  }

  predicate ValidFields(fields: seq<Field>) {
    forall i :: 0 <= i < |fields| ==> ValidField(fields[i])
  }

  predicate ValidItem(x: Item) {
    Blank(x.before) && Valid(x.doc) && Blank(x.after)
  }

  predicate ValidField(f: Field) {
    && Blank(f.beforeKey) && ValidPieces(f.key) && Blank(f.beforeColon)
    && Blank(f.beforeValue) && Valid(f.doc) && Blank(f.after)
  }

  predicate NoDouble(d: Doc) {
    match d
    case DDouble(_, _) => false
    case DArr(_, items) => NoDoubleItems(items)
    case DObj(_, fields) => NoDoubleFields(fields)
    case _ => true
  }

  predicate NoDoubleItems(items: seq<Item>) {
    forall i :: 0 <= i < |items| ==> NoDouble(items[i].doc)
  }

  predicate NoDoubleFields(fields: seq<Field>) {
    forall i :: 0 <= i < |fields| ==> NoDouble(fields[i].doc)
  }

  function DocText(d: Doc): bytes
    decreases d
  {
    match d
    case DNull => Ascii("null")
    case DBool(b) => if b then Ascii("true") else Ascii("false")
    case DInt(negative, digits) => (if negative then [MINUS] else []) + digits
    case DDouble(text, _) => text
    case DStr(pieces) => LiteralText(pieces)
    case DArr(blank, items) => [OPEN_BRACKET] + (if items == [] then blank + [CLOSE_BRACKET] else ItemsText(items))
    case DObj(blank, fields) => [OPEN_BRACE] + (if fields == [] then blank + [CLOSE_BRACE] else FieldsText(fields))
  }

  /** The items with their separators, and the closing bracket. */
  function ItemsText(items: seq<Item>): bytes
    decreases items
  {
    if items == [] then []
    else
      items[0].before + (DocText(items[0].doc) + (items[0].after
      + if |items| == 1 then [CLOSE_BRACKET] else [COMMA] + ItemsText(items[1..])))
  }

  function FieldText(f: Field): bytes
    decreases f
  {
    f.beforeKey + LiteralText(f.key) + f.beforeColon + [COLON] + f.beforeValue + DocText(f.doc)
  }

  function FieldsText(fields: seq<Field>): bytes
    decreases fields
  {
    if fields == [] then []
    else
      FieldText(fields[0]) + (fields[0].after
      + if |fields| == 1 then [CLOSE_BRACE] else [COMMA] + FieldsText(fields[1..]))
  }

  /** What follows an item: its space, then a separator or a bracket. */
  function AfterItem(after: bytes, sep: byte, s: bytes): bytes {
    after + ([sep] + s)
  }

  /** What follows the document of the first item, when rest follows the array. */
  function ItemTail(items: seq<Item>, rest: bytes): bytes
    requires items != []
  {
    AfterItem(items[0].after, if |items| == 1 then CLOSE_BRACKET else COMMA,
              if |items| == 1 then rest else ItemsText(items[1..]) + rest)
  }

  function FieldTail(fields: seq<Field>, rest: bytes): bytes
    requires fields != []
  {
    AfterItem(fields[0].after, if |fields| == 1 then CLOSE_BRACE else COMMA,
              if |fields| == 1 then rest else FieldsText(fields[1..]) + rest)
  }

  /** strtoll takes a number here, and no fraction or exponent follows it. */
  predicate IntegerAhead(s: bytes) {
    var (v, n) := StrToLL(s);
    n > 0 && InI64(v) && !MarksFloat(Peek(s[n..]))
  }

  /** At this place, with rest behind it, the C library reads text as the double bits. */
  predicate NumeralReads(lib: FloatLib, text: bytes, bits: nat, rest: bytes) {
    var s := text + rest;
    && !IntegerAhead(s)
    && match lib.scan(s)
       case None => false
       case Some((b, used)) => b == bits && used > 0 && |text| == if used <= |s| then used else |s|
  }

  /** Every double in d is what the C library makes of its text at its place, where rest is
      the text behind d. */
  predicate Reads(lib: FloatLib, d: Doc, rest: bytes)
    decreases d
  {
    match d
    case DDouble(text, bits) => NumeralReads(lib, text, bits, rest)
    case DArr(_, items) => ItemsRead(lib, items, rest)
    case DObj(_, fields) => FieldsRead(lib, fields, rest)
    case _ => true
  }

  predicate ItemsRead(lib: FloatLib, items: seq<Item>, rest: bytes)
    decreases items
  {
    items == [] || (Reads(lib, items[0].doc, ItemTail(items, rest)) && ItemsRead(lib, items[1..], rest))
  }

  predicate FieldsRead(lib: FloatLib, fields: seq<Field>, rest: bytes)
    decreases fields
  {
    fields == [] || (Reads(lib, fields[0].doc, FieldTail(fields, rest)) && FieldsRead(lib, fields[1..], rest))
  }

  /** Without doubles there is nothing to ask of the library. */
  lemma {:induction false} NoDoubleReads(lib: FloatLib, d: Doc, rest: bytes)
    requires NoDouble(d)
    ensures Reads(lib, d, rest)
    decreases d
  {
    match d
    case DArr(_, items) => NoDoubleItemsRead(lib, items, rest);
    case DObj(_, fields) => NoDoubleFieldsRead(lib, fields, rest);
    case _ =>
  }

  lemma {:induction false} NoDoubleItemsRead(lib: FloatLib, items: seq<Item>, rest: bytes)
    requires NoDoubleItems(items)
    ensures ItemsRead(lib, items, rest)
    decreases items
  {
    if items != [] {
      NoDoubleReads(lib, items[0].doc, ItemTail(items, rest));
      NoDoubleItemsRead(lib, items[1..], rest);
    }
  }

  lemma {:induction false} NoDoubleFieldsRead(lib: FloatLib, fields: seq<Field>, rest: bytes)
    requires NoDoubleFields(fields)
    ensures FieldsRead(lib, fields, rest)
    decreases fields
  {
    if fields != [] {
      NoDoubleReads(lib, fields[0].doc, FieldTail(fields, rest));
      NoDoubleFieldsRead(lib, fields[1..], rest);
    }
  }

  /** The denoted value: a repeated key overwrites the earlier member in place. */
  function Value(d: Doc): Json
    requires Valid(d)
    decreases d
  {
    match d
    case DNull => Null
    case DBool(b) => Bool(b)
    case DInt(negative, digits) => Integer(IntOf(negative, digits))
    case DDouble(_, bits) => Double(bits)
    case DStr(pieces) => Str(PiecesValue(pieces))
    case DArr(_, items) => Array(ItemsValue(items))
    case DObj(_, fields) => Object(FieldsValue(fields, []))
  }

  function ItemsValue(items: seq<Item>): (r: seq<Json>)
    requires ValidItems(items)
    decreases items
  {
    if items == [] then []
    else
      assert ValidItem(items[0]);
      [Value(items[0].doc)] + ItemsValue(items[1..])
  }

  function FieldsValue(fields: seq<Field>, acc: seq<Member>): seq<Member>
    requires ValidFields(fields)
    decreases fields
  {
    if fields == [] then acc
    else
      assert ValidField(fields[0]);
      FieldsValue(fields[1..], Set(acc, PiecesValue(fields[0].key), Value(fields[0].doc)))
  }

  // ---- scanning inverts the text ----

  lemma {:induction false} SkipBlank(blank: bytes, s: bytes)
    requires Blank(blank)
    requires s == [] || !IsSpace(s[0])
    ensures SkipSpace(blank + s) == s
  {
    if blank == [] {
      assert blank + s == s;
    } else {
      assert (blank + s)[1..] == blank[1..] + s;
      SkipBlank(blank[1..], s);
    }
  }

  lemma {:induction false} HexInverts(hex: bytes, rest: bytes)
    requires |hex| == 4 && forall i :: 0 <= i < 4 ==> HexValue(hex[i]).Some?
    ensures ScanHex(hex + rest, 4, 0) == Good(CodePoint(hex), rest)
  {
    var s := hex + rest;
    var a, b, c, d := HexValue(hex[0]).value, HexValue(hex[1]).value, HexValue(hex[2]).value, HexValue(hex[3]).value;
    assert ScanHex(s, 4, 0) == ScanHex(s[1..], 3, a);
    assert s[1..][0] == hex[1] && s[1..][1..] == s[2..];
    assert ScanHex(s[1..], 3, a) == ScanHex(s[2..], 2, 16 * a + b);
    assert s[2..][0] == hex[2] && s[2..][1..] == s[3..];
    assert ScanHex(s[2..], 2, 16 * a + b) == ScanHex(s[3..], 1, 16 * (16 * a + b) + c);
    assert s[3..][0] == hex[3] && s[3..][1..] == rest;
    assert ScanHex(s[3..], 1, 16 * (16 * a + b) + c) == ScanHex(rest, 0, CodePoint(hex));
  }

  lemma {:induction false} PieceInverts(p: Piece, s: bytes, acc: bytes)
    requires ValidPiece(p)
    ensures ScanString(PieceText(p) + s, acc) == ScanString(s, acc + PieceValue(p))
  {
    var t := PieceText(p) + s;
    match p
    case Raw(b) =>
      assert t[1..] == s;
    case Short(letter) =>
      assert t[2..] == s;
    case Unicode(hex) =>
      assert t[2..] == hex + s;
      HexInverts(hex, s);
  }

  lemma {:induction false} LiteralInverts(ps: seq<Piece>, rest: bytes, acc: bytes)
    requires ValidPieces(ps)
    ensures ScanString(PiecesText(ps) + ([QUOTE] + rest), acc) == Good(acc + PiecesValue(ps), rest)
    decreases |ps|
  {
    var tail := [QUOTE] + rest;
    if ps == [] {
      assert PiecesText(ps) + tail == tail;
      assert tail[1..] == rest;
      assert acc + [] == acc;
    } else {
      assert PiecesText(ps) + tail == PieceText(ps[0]) + (PiecesText(ps[1..]) + tail);
      PieceInverts(ps[0], PiecesText(ps[1..]) + tail, acc);
      LiteralInverts(ps[1..], rest, acc + PieceValue(ps[0]));
      assert acc + PiecesValue(ps) == acc + PieceValue(ps[0]) + PiecesValue(ps[1..]);
    }
  }

  /** Text that cannot continue a number. */
  predicate EndsNumber(rest: bytes) {
    !IsDigit(Peek(rest)) && !MarksFloat(Peek(rest))
  }

  lemma {:induction false} DigitsInvert(digits: bytes, rest: bytes)
    requires AllDigits(digits) && EndsNumber(rest)
    ensures LeadingDigits(digits + rest) == |digits|
  {
    if digits != [] {
      assert (digits + rest)[1..] == digits[1..] + rest;
      DigitsInvert(digits[1..], rest);
    } else {
      assert digits + rest == rest;
    }
  }

  lemma {:induction false} NumberInverts(lib: FloatLib, negative: bool, digits: bytes, rest: bytes)
    requires Valid(DInt(negative, digits)) && EndsNumber(rest)
    ensures var s := DocText(DInt(negative, digits)) + rest;
            ScanNumber(lib, s) == Good(Integer(IntOf(negative, digits)), rest)
  {
    var s := DocText(DInt(negative, digits)) + rest;
    var sign := if negative then 1 else 0;
    assert negative || s == digits + rest;
    assert s[sign..] == digits + rest;
    DigitsInvert(digits, rest);
    assert s[sign..][..|digits|] == digits;
    assert s[sign + |digits|..] == rest;
  }

  lemma {:induction false} DoubleInverts(lib: FloatLib, text: bytes, bits: nat, rest: bytes)
    requires text != [] && NumeralReads(lib, text, bits, rest)
    ensures ScanNumber(lib, text + rest) == Good(Double(bits), rest)
  {
    assert (text + rest)[|text|..] == rest;
    hide StrToLL;
  }

  /** The first byte of a document is never space. */
  lemma {:induction false} DocStart(d: Doc)
    requires Valid(d)
    ensures DocText(d) != [] && !IsSpace(DocText(d)[0]) && DocText(d)[0] != CLOSE_BRACKET
  {
  }

  /** Completeness: a document followed by anything that cannot continue a number parses to
      its value and leaves the rest. */
  lemma {:induction false} DocInverts(lib: FloatLib, d: Doc, rest: bytes)
    requires Valid(d) && Reads(lib, d, rest) && (d.DInt? ==> EndsNumber(rest))
    ensures ScanValue(lib, DocText(d) + rest) == Good(Value(d), rest)
    decreases d, 0
  {
    hide ScanValue, NumeralReads, ItemsText, FieldsText, ItemsValue, FieldsValue, PiecesValue, LiteralText;
    match d
    case DNull => WordInverts(lib, d, rest);
    case DBool(b) => WordInverts(lib, d, rest);
    case DInt(negative, digits) => NumeralInverts(lib, d, rest);
    case DDouble(text, bits) => NumeralInverts(lib, d, rest);
    case DStr(pieces) => StringInverts(lib, pieces, rest);
    case DArr(blank, items) => ArrayInverts(lib, blank, items, rest);
    case DObj(blank, fields) => ObjectInverts(lib, blank, fields, rest);
  }

  lemma {:induction false} WordInverts(lib: FloatLib, d: Doc, rest: bytes)
    requires d.DNull? || d.DBool?
    ensures ScanValue(lib, DocText(d) + rest) == Good(Value(d), rest)
  {
    var s := DocText(d) + rest;
    DocStart(d);
    assert SkipSpace(s) == s;
    assert s[|DocText(d)|..] == rest;
  }

  lemma {:induction false} NumeralInverts(lib: FloatLib, d: Doc, rest: bytes)
    requires (d.DInt? && EndsNumber(rest)) || d.DDouble?
    requires Valid(d) && Reads(lib, d, rest)
    ensures ScanValue(lib, DocText(d) + rest) == Good(Value(d), rest)
  {
    var s := DocText(d) + rest;
    DocStart(d);
    assert SkipSpace(s) == s;
    if d.DInt? {
      NumberInverts(lib, d.negative, d.digits, rest);
    } else {
      DoubleInverts(lib, d.text, d.bits, rest);
    }
    hide ScanNumber, NumeralReads;
    assert Peek(s) == MINUS || IsDigit(Peek(s));
  }

  lemma {:induction false} StringInverts(lib: FloatLib, pieces: seq<Piece>, rest: bytes)
    requires ValidPieces(pieces)
    ensures ScanValue(lib, LiteralText(pieces) + rest) == Good(Str(PiecesValue(pieces)), rest)
  {
    var s := LiteralText(pieces) + rest;
    assert SkipSpace(s) == s;
    assert s[1..] == PiecesText(pieces) + ([QUOTE] + rest);
    LiteralInverts(pieces, rest, []);
    hide ScanString, PiecesText, PiecesValue;
    assert [] + PiecesValue(pieces) == PiecesValue(pieces);
  }

  lemma {:induction false} ArrayInverts(lib: FloatLib, blank: bytes, items: seq<Item>, rest: bytes)
    requires Blank(blank) && ValidItems(items) && ItemsRead(lib, items, rest)
    ensures var s := DocText(DArr(blank, items)) + rest;
            ScanValue(lib, s) == Good(Array(ItemsValue(items)), rest)
    decreases items, 2
  {
    var s := DocText(DArr(blank, items)) + rest;
    hide ScanElements, ItemsText, ItemsValue;
    if items == [] {
      assert s[1..] == blank + ([CLOSE_BRACKET] + rest);
      SkipBlank(blank, [CLOSE_BRACKET] + rest);
      EmptyItems();
    } else {
      assert s[1..] == ItemsText(items) + rest;
      ItemsInvert(lib, items, rest, []);
      assert [] + ItemsValue(items) == ItemsValue(items);
    }
  }

  lemma {:induction false} ObjectInverts(lib: FloatLib, blank: bytes, fields: seq<Field>, rest: bytes)
    requires Blank(blank) && ValidFields(fields) && FieldsRead(lib, fields, rest)
    ensures var s := DocText(DObj(blank, fields)) + rest;
            ScanValue(lib, s) == Good(Object(FieldsValue(fields, [])), rest)
    decreases fields, 2
  {
    var s := DocText(DObj(blank, fields)) + rest;
    hide ScanMembers, FieldsText, FieldsValue;
    if fields == [] {
      assert s[1..] == blank + ([CLOSE_BRACE] + rest);
      SkipBlank(blank, [CLOSE_BRACE] + rest);
      EmptyFields();
    } else {
      assert s[1..] == FieldsText(fields) + rest;
      FieldsInvert(lib, fields, rest, []);
    }
  }

  lemma {:induction false} EmptyItems()
    ensures ItemsValue([]) == []
  {
  }

  lemma {:induction false} EmptyFields()
    ensures FieldsValue([], []) == []
  {
  }

  lemma {:induction false} AfterItemSkips(after: bytes, sep: byte, s: bytes)
    requires Blank(after) && !IsSpace(sep) && !IsDigit(sep) && !MarksFloat(sep)
    ensures SkipSpace(AfterItem(after, sep, s)) == [sep] + s && EndsNumber(AfterItem(after, sep, s))
  {
    SkipBlank(after, [sep] + s);
  }

  lemma {:induction false} ItemInverts(lib: FloatLib, x: Item, tail: bytes)
    requires ValidItem(x) && Reads(lib, x.doc, tail) && EndsNumber(tail)
    ensures var t := x.before + (DocText(x.doc) + tail);
            && ScanValue(lib, SkipSpace(t)) == Good(Value(x.doc), tail)
            && Peek(SkipSpace(t)) != CLOSE_BRACKET
    decreases x
  {
    DocStart(x.doc);
    SkipBlank(x.before, DocText(x.doc) + tail);
    DocInverts(lib, x.doc, tail);
  }

  lemma {:induction false} ItemsInvert(lib: FloatLib, items: seq<Item>, rest: bytes, acc: seq<Json>)
    requires items != [] && ValidItems(items) && ItemsRead(lib, items, rest)
    ensures var t := ItemsText(items) + rest;
            && ScanElements(lib, t, acc) == Good(Array(acc + ItemsValue(items)), rest)
            && Peek(SkipSpace(t)) != CLOSE_BRACKET && ScanElements(lib, SkipSpace(t), acc) == ScanElements(lib, t, acc)
    decreases items, 1
  {
    var v := Value(items[0].doc);
    FirstItemInverts(lib, items, rest, acc);
    if |items| > 1 {
      ItemsInvert(lib, items[1..], rest, acc + [v]);
      hide ItemsText, ScanElements;
      assert acc + [v] + ItemsValue(items[1..]) == acc + ([v] + ItemsValue(items[1..]));
    } else {
      hide ItemsText, ScanElements;
      assert items[1..] == [] && acc + [v] == acc + ItemsValue(items);
    }
  }

  /** One turn of the element loop over any rendering of the elements. */
  lemma {:induction false} FirstItemInverts(lib: FloatLib, items: seq<Item>, rest: bytes, acc: seq<Json>)
    requires items != [] && ValidItems(items) && ItemsRead(lib, items, rest)
    ensures ValidItem(items[0])
    ensures var t, v := ItemsText(items) + rest, Value(items[0].doc);
            && ScanElements(lib, t, acc)
               == (if |items| == 1 then Good(Array(acc + [v]), rest)
                   else ScanElements(lib, ItemsText(items[1..]) + rest, acc + [v]))
            && Peek(SkipSpace(t)) != CLOSE_BRACKET && ScanElements(lib, SkipSpace(t), acc) == ScanElements(lib, t, acc)
    decreases items, 0
  {
    var x, last := items[0], |items| == 1;
    assert ValidItem(x) && Reads(lib, x.doc, ItemTail(items, rest));
    var sep := if last then CLOSE_BRACKET else COMMA;
    var behind := if last then rest else ItemsText(items[1..]) + rest;
    var tail := AfterItem(x.after, sep, behind);
    var t := ItemsText(items) + rest;
    ItemsTextSplits(items, rest);
    AfterItemSkips(x.after, sep, behind);
    ItemInverts(lib, x, tail);
    hide ItemsText, ItemsRead, Reads, Value, DocText;
    ElementsStep(lib, t, acc, Value(x.doc), tail, sep, behind);
    SkipTwice(t);
    assert ScanElements(lib, SkipSpace(t), acc) == ScanElements(lib, t, acc);
  }

  lemma {:induction false} ItemsTextSplits(items: seq<Item>, rest: bytes)
    requires items != []
    ensures ItemsText(items) + rest
         == items[0].before + (DocText(items[0].doc)
            + AfterItem(items[0].after, if |items| == 1 then CLOSE_BRACKET else COMMA,
                        if |items| == 1 then rest else ItemsText(items[1..]) + rest))
  {
    var x := items[0];
    var close: bytes := if |items| == 1 then [CLOSE_BRACKET] else [COMMA] + ItemsText(items[1..]);
    var d := DocText(x.doc);
    assert ItemsText(items) == x.before + (d + (x.after + close));
    hide *;
    Assoc(x.before, d + (x.after + close), rest);
    Assoc(d, x.after + close, rest);
    Assoc(x.after, close, rest);
    if |items| > 1 { Assoc([COMMA], ItemsText(items[1..]), rest); }
    assert close + rest == [if |items| == 1 then CLOSE_BRACKET else COMMA]
                           + if |items| == 1 then rest else ItemsText(items[1..]) + rest;
  }

  lemma {:induction false} ElementsStep(lib: FloatLib, t: bytes, acc: seq<Json>, v: Json,
                                       tail: bytes, sep: byte, behind: bytes)
    requires ScanValue(lib, SkipSpace(t)) == Good(v, tail) && SkipSpace(tail) == [sep] + behind
    requires sep == CLOSE_BRACKET || sep == COMMA
    ensures ScanElements(lib, t, acc)
         == if sep == CLOSE_BRACKET then Good(Array(acc + [v]), behind) else ScanElements(lib, behind, acc + [v])
  {
    hide ScanValue, SkipSpace;
    assert ([sep] + behind)[1..] == behind;
  }

  lemma {:induction false} SkipTwice(s: bytes)
    ensures SkipSpace(SkipSpace(s)) == SkipSpace(s)
  {
    if s != [] && IsSpace(s[0]) { SkipTwice(s[1..]); }
  }

  lemma {:induction false} FieldInverts(lib: FloatLib, f: Field, tail: bytes)
    requires ValidField(f) && Reads(lib, f.doc, tail) && EndsNumber(tail)
    ensures var t := FieldText(f) + tail;
            && ScanMember(lib, t) == Good(Member(PiecesValue(f.key), Value(f.doc)), tail)
            && Peek(SkipSpace(t)) == QUOTE
    decreases f
  {
    var value := DocText(f.doc) + tail;
    var colon := [COLON] + (f.beforeValue + value);
    var key := PiecesText(f.key) + ([QUOTE] + (f.beforeColon + colon));
    var t := FieldText(f) + tail;
    FieldTextSplits(f, tail);
    SkipBlank(f.beforeKey, [QUOTE] + key);
    assert ([QUOTE] + key)[1..] == key;
    LiteralInverts(f.key, f.beforeColon + colon, []);
    assert [] + PiecesValue(f.key) == PiecesValue(f.key);
    SkipBlank(f.beforeColon, colon);
    assert colon[1..] == f.beforeValue + value;
    DocStart(f.doc);
    SkipBlank(f.beforeValue, value);
    DocInverts(lib, f.doc, tail);
  }

  lemma {:induction false} FieldTextSplits(f: Field, tail: bytes)
    ensures FieldText(f) + tail
         == f.beforeKey + ([QUOTE] + (PiecesText(f.key) + ([QUOTE] + (f.beforeColon
            + ([COLON] + (f.beforeValue + (DocText(f.doc) + tail)))))))
  {
    hide DocText, PiecesText;
  }

  lemma {:induction false} FieldsInvert(lib: FloatLib, fields: seq<Field>, rest: bytes, acc: seq<Member>)
    requires fields != [] && ValidFields(fields) && FieldsRead(lib, fields, rest)
    ensures var t := FieldsText(fields) + rest;
            && ScanMembers(lib, t, acc) == Good(Object(FieldsValue(fields, acc)), rest)
            && Peek(SkipSpace(t)) == QUOTE && ScanMembers(lib, SkipSpace(t), acc) == ScanMembers(lib, t, acc)
    decreases fields, 1
  {
    var f, last := fields[0], |fields| == 1;
    assert ValidField(f) && Reads(lib, f.doc, FieldTail(fields, rest)) && FieldsRead(lib, fields[1..], rest);
    hide FieldsRead, Reads;
    var sep := if last then CLOSE_BRACE else COMMA;
    var behind := if last then rest else FieldsText(fields[1..]) + rest;
    var tail := AfterItem(f.after, sep, behind);
    var t := FieldsText(fields) + rest;
    FieldsTextSplits(fields, rest);
    AfterItemSkips(f.after, sep, behind);
    FieldInverts(lib, f, tail);
    MembersStep(lib, t, acc, Member(PiecesValue(f.key), Value(f.doc)), tail, sep, behind);
    MembersSkip(lib, t, acc);
    if !last {
      hide ScanMembers, SkipSpace, FieldsText;
      FieldsInvert(lib, fields[1..], rest, Set(acc, PiecesValue(f.key), Value(f.doc)));
    } else {
      hide ScanMembers, SkipSpace, FieldsText;
      assert fields[1..] == [];
    }
  }

  lemma {:induction false} FieldsTextSplits(fields: seq<Field>, rest: bytes)
    requires fields != []
    ensures FieldsText(fields) + rest
         == FieldText(fields[0])
            + AfterItem(fields[0].after, if |fields| == 1 then CLOSE_BRACE else COMMA,
                        if |fields| == 1 then rest else FieldsText(fields[1..]) + rest)
  {
    var f := fields[0];
    var close: bytes := if |fields| == 1 then [CLOSE_BRACE] else [COMMA] + FieldsText(fields[1..]);
    var head := FieldText(f);
    assert FieldsText(fields) == head + (f.after + close);
    hide *;
    Assoc(head, f.after + close, rest);
    Assoc(f.after, close, rest);
    if |fields| > 1 { Assoc([COMMA], FieldsText(fields[1..]), rest); }
    assert close + rest == [if |fields| == 1 then CLOSE_BRACE else COMMA]
                           + if |fields| == 1 then rest else FieldsText(fields[1..]) + rest;
  }

  lemma {:induction false} MembersStep(lib: FloatLib, t: bytes, acc: seq<Member>, m: Member,
                                      tail: bytes, sep: byte, behind: bytes)
    requires ScanMember(lib, t) == Good(m, tail) && SkipSpace(tail) == [sep] + behind
    requires sep == CLOSE_BRACE || sep == COMMA
    ensures ScanMembers(lib, t, acc)
         == if sep == CLOSE_BRACE then Good(Object(Set(acc, m.key, m.value)), behind)
            else ScanMembers(lib, behind, Set(acc, m.key, m.value))
  {
    hide ScanMember, SkipSpace, Set;
    assert ([sep] + behind)[1..] == behind;
  }

  lemma {:induction false} MembersSkip(lib: FloatLib, t: bytes, acc: seq<Member>)
    ensures ScanMembers(lib, SkipSpace(t), acc) == ScanMembers(lib, t, acc)
  {
    SkipTwice(t);
  }

  /** Rendering insensitivity: every text of the grammar, with space around it, parses to the
      value it denotes, whatever the spacing and escapes. */
  lemma {:induction false} ParseAcceptsGrammar(lib: FloatLib, before: bytes, d: Doc, after: bytes)
    requires Blank(before) && Blank(after) && Valid(d) && Reads(lib, d, after)
    ensures Parse(lib, before + DocText(d) + after) == Good(Value(d), [])
  {
    var t := before + DocText(d) + after;
    assert t == before + (DocText(d) + after);
    DocStart(d);
    SkipBlank(before, DocText(d) + after);
    SkipBlank(after, []);
    assert after + [] == after;
    BlankEndsNumber(after);
    DocInverts(lib, d, after);
  }

  lemma {:induction false} BlankEndsNumber(s: bytes)
    requires Blank(s)
    ensures EndsNumber(s)
  {
  }
}
