/** What the JSON printer and parser promise together. */
module JsonTheorems {
  import opened Basics
  import opened Decimal
  import opened JsonValue
  import opened JsonParser
  import opened JsonGrammar

  // ---- the printer writes texts of the grammar ----

  function PieceOf(c: byte): (p: Piece)
    ensures ValidPiece(p)
    ensures PieceText(p) == EscapeByte(c)
    ensures PieceValue(p) == [c]
  {
    if c == QUOTE || c == BACKSLASH then Short(c)
    else if c == 8 then Short(98)
    else if c == 12 then Short(102)
    else if c == 10 then Short(110)
    else if c == 13 then Short(114)
    else if c == 9 then Short(116)
    else if c < 0x20 then Unicode([48, 48, HexDigit(c / 16), HexDigit(c % 16)])
    else Raw(c)
  }

  function PiecesOf(s: bytes): (ps: seq<Piece>)
    ensures ValidPieces(ps)
    ensures PiecesText(ps) == Escaped(s)
    ensures PiecesValue(ps) == s
  {
    if s == [] then []
    else
      var ps := [PieceOf(s[0])] + PiecesOf(s[1..]);
      assert ps[1..] == PiecesOf(s[1..]);
      ps
  }

  /** The document serialize writes for a value. */
  function Canon(lib: FloatLib, v: Json): Doc
    decreases v
  {
    match v
    case Null => DNull
    case Bool(b) => DBool(b)
    case Integer(n) =>
      var m: int := n;
      DInt(m < 0, Digits(if m < 0 then -m else m))
    case Double(bits) => DDouble(lib.format(bits), bits)
    case Str(s) => DStr(PiecesOf(s))
    case Object(members) => DObj([], CanonFields(lib, members))
    case Array(elements) => DArr([], CanonItems(lib, elements))
  }

  /** Each double in v is printed as something that starts like a number. */
  predicate Numerals(lib: FloatLib, v: Json) {
    match v
    case Double(bits) =>
      var text := lib.format(bits);
      text != [] && (text[0] == MINUS || IsDigit(text[0]))
    case Object(members) => NumeralMembers(lib, members)
    case Array(elements) => NumeralElements(lib, elements)
    case _ => true
  }

  predicate NumeralMembers(lib: FloatLib, ms: seq<Member>) {
    forall i :: 0 <= i < |ms| ==> Numerals(lib, ms[i].value)
  }

  predicate NumeralElements(lib: FloatLib, vs: seq<Json>) {
    forall i :: 0 <= i < |vs| ==> Numerals(lib, vs[i])
  }

  function CanonFields(lib: FloatLib, ms: seq<Member>): seq<Field>
    decreases ms
  {
    if ms == [] then []
    else [Field([], PiecesOf(ms[0].key), [], [], Canon(lib, ms[0].value), [])] + CanonFields(lib, ms[1..])
  }

  function CanonItems(lib: FloatLib, vs: seq<Json>): seq<Item>
    decreases vs
  {
    if vs == [] then [] else [Item([], Canon(lib, vs[0]), [])] + CanonItems(lib, vs[1..])
  }

  lemma {:induction false} CanonIsValid(lib: FloatLib, v: Json)
    requires Numerals(lib, v)
    ensures Valid(Canon(lib, v))
    decreases v
  {
    match v
    case Integer(n) =>
      var m: int := n;
      DigitsValue(if m < 0 then -m else m);
    case Object(members) => CanonFieldsValid(lib, members);
    case Array(elements) => CanonItemsValid(lib, elements);
    case _ =>
  }

  lemma {:induction false} CanonFieldsValid(lib: FloatLib, ms: seq<Member>)
    requires NumeralMembers(lib, ms)
    ensures ValidFields(CanonFields(lib, ms))
    decreases ms
  {
    if ms != [] {
      CanonIsValid(lib, ms[0].value);
      CanonFieldsValid(lib, ms[1..]);
    }
  }

  lemma {:induction false} CanonItemsValid(lib: FloatLib, vs: seq<Json>)
    requires NumeralElements(lib, vs)
    ensures ValidItems(CanonItems(lib, vs))
    decreases vs
  {
    if vs != [] {
      CanonIsValid(lib, vs[0]);
      CanonItemsValid(lib, vs[1..]);
    }
  }

  /** Without doubles the document has none, and asks nothing of the library. */
  lemma {:induction false} CanonDoubleFree(lib: FloatLib, v: Json)
    requires DoubleFree(v)
    ensures Numerals(lib, v) && NoDouble(Canon(lib, v))
    decreases v
  {
    match v
    case Object(members) => CanonFieldsDoubleFree(lib, members);
    case Array(elements) => CanonItemsDoubleFree(lib, elements);
    case _ =>
  }

  lemma {:induction false} CanonFieldsDoubleFree(lib: FloatLib, ms: seq<Member>)
    requires forall i :: 0 <= i < |ms| ==> DoubleFree(ms[i].value)
    ensures NumeralMembers(lib, ms) && NoDoubleFields(CanonFields(lib, ms))
    decreases ms
  {
    if ms != [] {
      CanonDoubleFree(lib, ms[0].value);
      CanonFieldsDoubleFree(lib, ms[1..]);
      assert forall i :: 0 < i < |ms| ==> ms[i] == ms[1..][i - 1];
    }
  }

  lemma {:induction false} CanonItemsDoubleFree(lib: FloatLib, vs: seq<Json>)
    requires forall i :: 0 <= i < |vs| ==> DoubleFree(vs[i])
    ensures NumeralElements(lib, vs) && NoDoubleItems(CanonItems(lib, vs))
    decreases vs
  {
    if vs != [] {
      CanonDoubleFree(lib, vs[0]);
      CanonItemsDoubleFree(lib, vs[1..]);
      assert forall i :: 0 < i < |vs| ==> vs[i] == vs[1..][i - 1];
    }
  }

  lemma {:induction false} CanonText(lib: FloatLib, v: Json)
    ensures DocText(Canon(lib, v)) == Text(lib, v)
    decreases v
  {
    hide FieldsText, MembersText, ItemsText, ElementsText;
    match v
    case Object(members) =>
      CanonFieldsText(lib, members);
      NoText(lib);
    case Array(elements) =>
      CanonItemsText(lib, elements);
      NoText(lib);
    case _ =>
      CanonScalarText(lib, v);
  }

  lemma {:induction false} NoText(lib: FloatLib)
    ensures MembersText(lib, []) == [] && ElementsText(lib, []) == []
    ensures CanonFields(lib, []) == [] && CanonItems(lib, []) == []
  {
  }

  lemma {:induction false} CanonScalarText(lib: FloatLib, v: Json)
    requires !v.Object? && !v.Array?
    ensures DocText(Canon(lib, v)) == Text(lib, v)
  {
    hide Digits, PiecesOf, PiecesText, Escaped;
  }

  lemma {:induction false} FieldIsMember(lib: FloatLib, m: Member)
    requires DocText(Canon(lib, m.value)) == Text(lib, m.value)
    ensures FieldText(Field([], PiecesOf(m.key), [], [], Canon(lib, m.value), [])) == MemberText(lib, m)
  {
    hide DocText, Text, PiecesText, Escaped;
    var k, v := StringText(m.key), Text(lib, m.value);
    assert [] + k + [] + [COLON] + [] + v == k + [COLON] + v;
  }

  lemma {:induction false} Joins(head: bytes, tail: bytes, close: byte)
    ensures head + ([] + ([COMMA] + (tail + [close]))) == head + ([COMMA] + tail) + [close]
    ensures head + ([] + [close]) == head + [] + [close]
  {
  }

  lemma {:induction false} CanonFieldsText(lib: FloatLib, ms: seq<Member>)
    ensures |CanonFields(lib, ms)| == |ms|
    ensures ms != [] ==> FieldsText(CanonFields(lib, ms)) == MembersText(lib, ms) + [CLOSE_BRACE]
    decreases ms
  {
    if ms != [] {
      var fs := CanonFields(lib, ms);
      CanonText(lib, ms[0].value);
      CanonFieldsText(lib, ms[1..]);
      assert fs[1..] == CanonFields(lib, ms[1..]);
      var head := MemberText(lib, ms[0]);
      FieldIsMember(lib, ms[0]);
      hide MemberText, FieldText;
      Joins(head, MembersText(lib, ms[1..]), CLOSE_BRACE);
    }
  }

  lemma {:induction false} CanonItemsText(lib: FloatLib, vs: seq<Json>)
    ensures |CanonItems(lib, vs)| == |vs|
    ensures vs != [] ==> ItemsText(CanonItems(lib, vs)) == ElementsText(lib, vs) + [CLOSE_BRACKET]
    decreases vs
  {
    if vs != [] {
      var xs := CanonItems(lib, vs);
      CanonText(lib, vs[0]);
      CanonItemsText(lib, vs[1..]);
      assert xs[1..] == CanonItems(lib, vs[1..]);
      var head := Text(lib, vs[0]);
      hide Text, DocText;
      Joins(head, ElementsText(lib, vs[1..]), CLOSE_BRACKET);
      assert [] + (head + ([] + [CLOSE_BRACKET])) == head + ([] + [CLOSE_BRACKET]);
      assert |vs| > 1 ==> [] + (head + ([] + ([COMMA] + ItemsText(xs[1..]))))
                          == head + ([] + ([COMMA] + ItemsText(xs[1..])));
    }
  }

  /** Setting distinct keys one by one, starting from others, appends them in order. */
  lemma {:induction false} SetAppends(acc: seq<Member>, m: Member)
    requires Distinct(acc + [m])
    ensures Set(acc, m.key, m.value) == acc + [m]
  {
    forall j | 0 <= j < |acc| ensures acc[j].key != m.key {
      assert (acc + [m])[j].key != (acc + [m])[|acc|].key;
    }
    SetAt(acc, m.key, m.value, |acc|);
    assert acc[..|acc|] == acc;
  }

  lemma {:induction false} CanonValue(lib: FloatLib, v: Json)
    requires Numerals(lib, v) && WellBuilt(v)
    ensures Valid(Canon(lib, v)) && Value(Canon(lib, v)) == v
    decreases v
  {
    CanonIsValid(lib, v);
    match v
    case Integer(n) =>
      var m: int := n;
      DigitsValue(if m < 0 then -m else m);
    case Object(members) =>
      assert [] + members == members;
      CanonFieldsValue(lib, members, []);
    case Array(elements) =>
      CanonItemsValue(lib, elements);
    case _ =>
  }

  lemma {:induction false} CanonFieldsValue(lib: FloatLib, ms: seq<Member>, acc: seq<Member>)
    requires NumeralMembers(lib, ms) && (forall i :: 0 <= i < |ms| ==> WellBuilt(ms[i].value))
    requires Distinct(acc + ms)
    ensures ValidFields(CanonFields(lib, ms)) && FieldsValue(CanonFields(lib, ms), acc) == acc + ms
    decreases ms
  {
    CanonFieldsValid(lib, ms);
    if ms == [] {
      assert acc + ms == acc;
    } else {
      var m := ms[0];
      CanonValue(lib, m.value);
      assert acc + ms == (acc + [m]) + ms[1..];
      assert Distinct(acc + [m]) by {
        assert forall i :: 0 <= i < |acc + [m]| ==> (acc + [m])[i] == (acc + ms)[i];
      }
      SetAppends(acc, m);
      assert CanonFields(lib, ms)[1..] == CanonFields(lib, ms[1..]);
      CanonFieldsValue(lib, ms[1..], acc + [m]);
    }
  }

  lemma {:induction false} CanonItemsValue(lib: FloatLib, vs: seq<Json>)
    requires NumeralElements(lib, vs) && (forall i :: 0 <= i < |vs| ==> WellBuilt(vs[i]))
    ensures ValidItems(CanonItems(lib, vs)) && ItemsValue(CanonItems(lib, vs)) == vs
    decreases vs
  {
    CanonItemsValid(lib, vs);
    if vs != [] {
      CanonValue(lib, vs[0]);
      CanonItemsValue(lib, vs[1..]);
      assert CanonItems(lib, vs)[1..] == CanonItems(lib, vs[1..]);
    }
  }

  /** Print and parse: a tree built through the API comes back, whole and in order, whenever the
      library reads each of its doubles back from its own text, at its place. */
  lemma {:induction false} RoundTripWhenRead(lib: FloatLib, v: Json)
    requires WellBuilt(v) && Numerals(lib, v) && Reads(lib, Canon(lib, v), [])
    ensures Parse(lib, Text(lib, v)) == Good(v, [])
  {
    CanonValue(lib, v);
    CanonText(lib, v);
    ParseAcceptsGrammar(lib, [], Canon(lib, v), []);
    assert [] + DocText(Canon(lib, v)) + [] == Text(lib, v);
  }

  /** JSON round trip: arbitrary nesting, byte strings and 64-bit integers survive printing
      and parsing, members in the same order, and nothing is left over. */
  lemma {:induction false} JsonRoundTrip(lib: FloatLib, v: Json)
    requires DoubleFree(v) && WellBuilt(v)
    ensures Parse(lib, Text(lib, v)) == Good(v, [])
  {
    CanonDoubleFree(lib, v);
    NoDoubleReads(lib, Canon(lib, v), []);
    RoundTripWhenRead(lib, v);
  }

  /** A double printed without fraction or exponent, as %.17g prints 3.0, comes back as an
      integer. */
  lemma {:induction false} DoubleMayReturnInteger(lib: FloatLib, bits: nat)
    requires lib.format(bits) == Ascii("3")
    ensures Parse(lib, Text(lib, Double(bits))) == Good(Integer(3), [])
    ensures !Reads(lib, Canon(lib, Double(bits)), [])
  {
    ThreeReads(lib);
    hide Parse;
    assert Text(lib, Double(bits)) == [51];
    assert [51] + [] == [51];
    hide Text;
    assert IntegerAhead([51]);
  }

  lemma {:induction false} ThreeReads(lib: FloatLib)
    ensures Ascii("3") == [51] && IntegerAhead([51]) && Parse(lib, [51]) == Good(Integer(3), [])
  {
    var d := DInt(false, [51]);
    assert DecimalValue([51][..0]) == 0 && DecimalValue([51]) == 3;
    assert Valid(d) && Value(d) == Integer(3) && DocText(d) == [51];
    hide Parse;
    ParseAcceptsGrammar(lib, [], d, []);
    assert [] + [51] + [] == [51];
    assert LeadingDigits([51]) == 1;
  }

  // ---- the parser accepts nothing else ----

  lemma {:induction false} SkipSound(s: bytes) returns (blank: bytes)
    ensures Blank(blank) && s == blank + SkipSpace(s)
    ensures SkipSpace(s) != [] ==> !IsSpace(SkipSpace(s)[0])
  {
    if s != [] && IsSpace(s[0]) {
      var b := SkipSound(s[1..]);
      blank := [s[0]] + b;
    } else {
      blank := [];
    }
  }

  lemma {:induction false} HexDigitsRead(s: bytes, n: nat, code: nat)
    requires n <= 4 && code < Room(n) && ScanHex(s, n, code).Good?
    ensures |s| >= n && forall i :: 0 <= i < n ==> HexValue(s[i]).Some?
  {
    if n > 0 {
      HexDigitsRead(s[1..], n - 1, 16 * code + HexValue(s[0]).value);
      assert forall i :: 1 <= i < n ==> s[i] == s[1..][i - 1];
    }
  }

  lemma {:induction false} HexValid(s: bytes)
    requires ScanHex(s, 4, 0).Good?
    ensures |s| >= 4 && ValidPiece(Unicode(s[..4]))
  {
    HexDigitsRead(s, 4, 0);
    hide ScanHex, HexValue;
  }

  lemma {:induction false} HexSound(s: bytes)
    requires ScanHex(s, 4, 0).Good?
    ensures |s| >= 4 && ValidPiece(Unicode(s[..4]))
    ensures ScanHex(s, 4, 0) == Good(CodePoint(s[..4]), s[4..])
  {
    hide ScanHex, HexValue, CodePoint;
    HexValid(s);
    HexInverts(s[..4], s[4..]);
    assert s == s[..4] + s[4..];
  }

  lemma {:induction false} StringSound(s: bytes, acc: bytes) returns (ps: seq<Piece>)
    requires ScanString(s, acc).Good?
    ensures ValidPieces(ps)
    ensures s == PiecesText(ps) + ([QUOTE] + ScanString(s, acc).rest)
    ensures ScanString(s, acc).value == acc + PiecesValue(ps)
    decreases |s|
  {
    if s[0] == QUOTE {
      ps := [];
    } else {
      var p: Piece, n: nat;
      if s[0] != BACKSLASH {
        p, n := Raw(s[0]), 1;
      } else if s[1] == LETTER_U {
        HexSound(s[2..]);
        p, n := Unicode(s[2..][..4]), 6;
        assert s[2..][4..] == s[6..];
      } else {
        p, n := Short(s[1]), 2;
      }
      assert PieceText(p) == s[..n] && s == s[..n] + s[n..];
      PieceInverts(p, s[n..], acc);
      var more := StringSound(s[n..], acc + PieceValue(p));
      ps := [p] + more;
      assert ps[1..] == more;
      Assoc(PieceText(p), PiecesText(more), [QUOTE] + ScanString(s, acc).rest);
      Assoc(acc, PieceValue(p), PiecesValue(more));
    }
  }

  lemma {:induction false} DoubleSound(lib: FloatLib, s: bytes) returns (d: Doc)
    requires s != [] && (s[0] == MINUS || IsDigit(s[0]))
    requires ScanNumber(lib, s).Good? && !ScanNumber(lib, s).value.Integer?
    ensures Valid(d) && s == DocText(d) + ScanNumber(lib, s).rest && Value(d) == ScanNumber(lib, s).value
    ensures Reads(lib, d, ScanNumber(lib, s).rest)
  {
    hide StrToLL;
    var r := ScanNumber(lib, s);
    assert s == s[..|s| - |r.rest|] + r.rest;
    d := DDouble(s[..|s| - |r.rest|], r.value.bits);
  }

  lemma {:induction false} IntegerSound(lib: FloatLib, s: bytes) returns (d: Doc)
    requires s != [] && ScanNumber(lib, s).Good? && ScanNumber(lib, s).value.Integer?
    ensures Valid(d) && s == DocText(d) + ScanNumber(lib, s).rest && Value(d) == ScanNumber(lib, s).value
    ensures Reads(lib, d, ScanNumber(lib, s).rest)
  {
    var sign := if s[0] == MINUS then 1 else 0;
    var n := LeadingDigits(s[sign..]);
    var digits := s[sign..][..n];
    d := DInt(sign == 1, digits);
    assert s == (if sign == 1 then [MINUS] else []) + digits + s[sign + n..];
  }

  lemma {:induction false} NumberSound(lib: FloatLib, s: bytes) returns (d: Doc)
    requires s != [] && (s[0] == MINUS || IsDigit(s[0])) && ScanNumber(lib, s).Good?
    ensures Valid(d) && s == DocText(d) + ScanNumber(lib, s).rest && Value(d) == ScanNumber(lib, s).value
    ensures Reads(lib, d, ScanNumber(lib, s).rest)
  {
    hide ScanNumber, Valid, Value, Reads, DocText;
    if ScanNumber(lib, s).value.Integer? {
      d := IntegerSound(lib, s);
    } else {
      d := DoubleSound(lib, s);
    }
  }

  lemma {:induction false} ValueSound(lib: FloatLib, t: bytes) returns (blank: bytes, d: Doc)
    requires ScanValue(lib, t).Good?
    ensures Blank(blank) && Valid(d)
    ensures t == blank + (DocText(d) + ScanValue(lib, t).rest)
    ensures Value(d) == ScanValue(lib, t).value
    ensures Reads(lib, d, ScanValue(lib, t).rest)
    decreases |t|, 1
  {
    blank := SkipSound(t);
    var s := SkipSpace(t);
    assert ScanValue(lib, s) == ScanValue(lib, t) by { SkipTwice(t); }
    var c := Peek(s);
    if c == OPEN_BRACE {
      d := ObjectSound(lib, s);
    } else if c == OPEN_BRACKET {
      d := ArraySound(lib, s);
    } else if c == QUOTE {
      var ps := StringSound(s[1..], []);
      d := DStr(ps);
      LiteralSplits(s, ps, ScanValue(lib, s).rest);
      assert [] + PiecesValue(ps) == PiecesValue(ps);
    } else if c == MINUS || IsDigit(c) {
      d := NumberSound(lib, s);
    } else {
      d := WordSound(lib, s);
    }
  }

  lemma {:induction false} LiteralSplits(s: bytes, ps: seq<Piece>, rest: bytes)
    requires s != [] && s[0] == QUOTE && s[1..] == PiecesText(ps) + ([QUOTE] + rest)
    ensures s == LiteralText(ps) + rest
  {
    hide PiecesText;
    assert s == [QUOTE] + s[1..];
    Assoc([QUOTE] + PiecesText(ps), [QUOTE], rest);
    Assoc([QUOTE], PiecesText(ps), [QUOTE] + rest);
  }

  lemma {:induction false} WordSound(lib: FloatLib, s: bytes) returns (d: Doc)
    requires ScanValue(lib, s).Good? && SkipSpace(s) == s
    requires var c := Peek(s);
             c != OPEN_BRACE && c != OPEN_BRACKET && c != QUOTE && c != MINUS && !IsDigit(c)
    ensures Valid(d) && Reads(lib, d, ScanValue(lib, s).rest)
    ensures s == DocText(d) + ScanValue(lib, s).rest && Value(d) == ScanValue(lib, s).value
  {
    var r := ScanValue(lib, s);
    d := if Peek(s) == 116 then DBool(true) else if Peek(s) == 102 then DBool(false) else DNull;
    assert s == s[..|DocText(d)|] + s[|DocText(d)|..];
  }

  lemma {:induction false} ObjectSound(lib: FloatLib, s: bytes) returns (d: Doc)
    requires ScanValue(lib, s).Good? && SkipSpace(s) == s && Peek(s) == OPEN_BRACE
    ensures Valid(d)
    ensures s == DocText(d) + ScanValue(lib, s).rest && Value(d) == ScanValue(lib, s).value
    ensures Reads(lib, d, ScanValue(lib, s).rest)
    decreases |s|, 0
  {
    var blank := SkipSound(s[1..]);
    var inner := SkipSpace(s[1..]);
    assert s == [OPEN_BRACE] + s[1..];
    if Peek(inner) == CLOSE_BRACE {
      d := DObj(blank, []);
      assert inner == [CLOSE_BRACE] + inner[1..];
      Assoc([OPEN_BRACE], blank, inner);
      Assoc([OPEN_BRACE] + blank, [CLOSE_BRACE], inner[1..]);
      Assoc([OPEN_BRACE], blank, [CLOSE_BRACE]);
    } else {
      MembersSkip(lib, s[1..], []);
      hide ScanMembers;
      var fs := MembersSound(lib, s[1..], []);
      d := DObj([], fs);
      Assoc([OPEN_BRACE], FieldsText(fs), ScanValue(lib, s).rest);
    }
  }

  /** A separator found behind a value, with the space before it. */
  lemma {:induction false} AfterSound(t: bytes) returns (after: bytes)
    requires SkipSpace(t) != []
    ensures Blank(after) && t == AfterItem(after, SkipSpace(t)[0], SkipSpace(t)[1..])
  {
    after := SkipSound(t);
    hide SkipSpace;
    assert SkipSpace(t) == [SkipSpace(t)[0]] + SkipSpace(t)[1..];
  }

  lemma {:induction false} MemberSound(lib: FloatLib, t: bytes, after: bytes) returns (f: Field)
    requires ScanMember(lib, t).Good? && Blank(after)
    ensures ValidField(f) && f.after == after
    ensures t == FieldText(f) + ScanMember(lib, t).rest
    ensures ScanMember(lib, t).value == Member(PiecesValue(f.key), Value(f.doc))
    ensures Reads(lib, f.doc, ScanMember(lib, t).rest)
    decreases |t|, 1
  {
    var s, afterKey, colon := MemberCases(lib, t);
    hide ScanMember;
    var beforeKey := SkipSound(t);
    var key := StringSound(s[1..], []);
    assert [] + PiecesValue(key) == PiecesValue(key);
    var beforeColon := SkipSound(afterKey);
    var beforeValue := SkipSound(colon[1..]);
    var value := SkipSpace(colon[1..]);
    hide ScanString, SkipSpace;
    var blank, d := ValueSound(lib, value);
    BlankIsEmpty(blank, value, DocText(d) + ScanValue(lib, value).rest);
    f := Field(beforeKey, key, beforeColon, beforeValue, d, after);
    hide ScanValue, DocText, PiecesText, FieldText, Value, Valid, Reads;
    FieldTextSplits(f, ScanMember(lib, t).rest);
  }

  /** A successful member: a quoted key, a colon and a value. */
  lemma {:induction false} MemberCases(lib: FloatLib, t: bytes) returns (s: bytes, afterKey: bytes, colon: bytes)
    requires ScanMember(lib, t).Good?
    ensures s == SkipSpace(t) && s == [QUOTE] + s[1..]
    ensures ScanString(s[1..], []).Good? && afterKey == ScanString(s[1..], []).rest
    ensures colon == SkipSpace(afterKey) && colon == [COLON] + colon[1..]
    ensures |SkipSpace(colon[1..])| < |t|
    ensures var v := ScanValue(lib, SkipSpace(colon[1..]));
            v.Good? && ScanMember(lib, t) == Good(Member(ScanString(s[1..], []).value, v.value), v.rest)
  {
    hide ScanString, ScanValue, SkipSpace;
    s := SkipSpace(t);
    afterKey := ScanString(s[1..], []).rest;
    colon := SkipSpace(afterKey);
  }

  /** Text that does not start with space has no space split off. */
  lemma {:induction false} BlankIsEmpty(blank: bytes, s: bytes, rest: bytes)
    requires Blank(blank) && s == blank + rest
    requires s != [] ==> !IsSpace(s[0])
    ensures s == rest
  {
    assert [] + rest == rest;
  }

  lemma {:induction false} MembersSound(lib: FloatLib, t: bytes, acc: seq<Member>) returns (fs: seq<Field>)
    requires ScanMembers(lib, t, acc).Good?
    ensures fs != [] && ValidFields(fs) && t == FieldsText(fs) + ScanMembers(lib, t, acc).rest
    ensures ScanMembers(lib, t, acc).value == Object(FieldsValue(fs, acc))
    ensures FieldsRead(lib, fs, ScanMembers(lib, t, acc).rest)
    decreases |t|, 2
  {
    var tail, sep, behind := MembersCases(lib, t, acc);
    var m := ScanMember(lib, t).value;
    hide ScanMembers;
    var after := AfterSound(tail);
    var f := MemberSound(lib, t, after);
    hide ScanMember, SkipSpace, FieldText, AfterItem, Reads;
    var more: seq<Field> := [];
    if sep == COMMA {
      more := MembersSound(lib, behind, Set(acc, m.key, m.value));
    }
    fs := [f] + more;
    assert fs[1..] == more;
    FieldsTextSplits(fs, ScanMembers(lib, t, acc).rest);
  }

  /** A successful member loop: one member, then a brace, or a comma and the rest. */
  lemma {:induction false} MembersCases(lib: FloatLib, t: bytes, acc: seq<Member>)
    returns (tail: bytes, sep: byte, behind: bytes)
    requires ScanMembers(lib, t, acc).Good?
    ensures ScanMember(lib, t).Good? && tail == ScanMember(lib, t).rest
    ensures SkipSpace(tail) == [sep] + behind && (sep == CLOSE_BRACE || sep == COMMA)
    ensures |behind| < |t| && SkipSpace(tail)[0] == sep && SkipSpace(tail)[1..] == behind
    ensures var m := ScanMember(lib, t).value;
            ScanMembers(lib, t, acc)
            == if sep == CLOSE_BRACE then Good(Object(Set(acc, m.key, m.value)), behind)
               else ScanMembers(lib, behind, Set(acc, m.key, m.value))
  {
    hide ScanMember, SkipSpace, Set;
    tail := ScanMember(lib, t).rest;
    sep, behind := SkipSpace(tail)[0], SkipSpace(tail)[1..];
  }

  /** What a text that opens an array scans as; the loop skips the blank by itself. */
  lemma {:induction false} ArrayScan(lib: FloatLib, s: bytes)
    requires SkipSpace(s) == s && Peek(s) == OPEN_BRACKET
    ensures var inner := SkipSpace(s[1..]);
            ScanValue(lib, s) == if Peek(inner) == CLOSE_BRACKET then Good(Array([]), inner[1..])
                                 else ScanElements(lib, s[1..], [])
  {
    var inner := SkipSpace(s[1..]);
    SkipTwice(s[1..]);
    assert ScanElements(lib, inner, []) == ScanElements(lib, s[1..], []) by {
      hide ScanValue;
    }
    hide ScanElements;
  }

  lemma {:induction false} EmptyArrayText(blank: bytes, rest: bytes)
    ensures [OPEN_BRACKET] + (blank + ([CLOSE_BRACKET] + rest)) == DocText(DArr(blank, [])) + rest
  {
    Assoc(blank, [CLOSE_BRACKET], rest);
    Assoc([OPEN_BRACKET], blank + [CLOSE_BRACKET], rest);
  }

  lemma {:induction false} ArraySound(lib: FloatLib, s: bytes) returns (d: Doc)
    requires ScanValue(lib, s).Good? && SkipSpace(s) == s && Peek(s) == OPEN_BRACKET
    ensures Valid(d)
    ensures s == DocText(d) + ScanValue(lib, s).rest && Value(d) == ScanValue(lib, s).value
    ensures Reads(lib, d, ScanValue(lib, s).rest)
    decreases |s|, 0
  {
    ArrayScan(lib, s);
    var blank := SkipSound(s[1..]);
    hide ScanValue, ScanElements, SkipSpace, ItemsText;
    var inner := SkipSpace(s[1..]);
    assert s == [OPEN_BRACKET] + s[1..];
    if Peek(inner) == CLOSE_BRACKET {
      d := DArr(blank, []);
      assert inner == [CLOSE_BRACKET] + inner[1..];
      EmptyArrayText(blank, inner[1..]);
    } else {
      var xs := ElementsSound(lib, s[1..], []);
      d := DArr([], xs);
      assert [] + ItemsValue(xs) == ItemsValue(xs);
      Assoc([OPEN_BRACKET], ItemsText(xs), ScanValue(lib, s).rest);
    }
  }

  lemma {:induction false} ElementsSound(lib: FloatLib, t: bytes, acc: seq<Json>) returns (xs: seq<Item>)
    requires ScanElements(lib, t, acc).Good?
    ensures xs != [] && ValidItems(xs) && t == ItemsText(xs) + ScanElements(lib, t, acc).rest
    ensures ScanElements(lib, t, acc).value == Array(acc + ItemsValue(xs))
    ensures ItemsRead(lib, xs, ScanElements(lib, t, acc).rest)
    decreases |t|, 2, 2
  {
    var x, sep, behind := ElementSound(lib, t, acc);
    hide *;
    if sep == CLOSE_BRACKET {
      xs := [x];
      LastItem(lib, x, behind, acc);
    } else {
      var more := ElementsSound(lib, behind, acc + [Value(x.doc)]);
      xs := [x] + more;
      ConsItems(lib, x, more, ScanElements(lib, t, acc).rest, acc);
    }
  }

  /** One turn of the element loop: the item read, what ends it and what lies behind. */
  lemma {:induction false} ElementSound(lib: FloatLib, t: bytes, acc: seq<Json>)
    returns (x: Item, sep: byte, behind: bytes)
    requires ScanElements(lib, t, acc).Good?
    ensures ValidItem(x) && t == x.before + (DocText(x.doc) + AfterItem(x.after, sep, behind))
    ensures Reads(lib, x.doc, AfterItem(x.after, sep, behind))
    ensures |behind| < |t| && (sep == CLOSE_BRACKET || sep == COMMA)
    ensures ScanElements(lib, t, acc)
            == if sep == CLOSE_BRACKET then Good(Array(acc + [Value(x.doc)]), behind)
               else ScanElements(lib, behind, acc + [Value(x.doc)])
    decreases |t|, 2, 1
  {
    var tail;
    tail, sep, behind := ElementsCases(lib, t, acc);
    hide ScanElements;
    var after := AfterSound(tail);
    x := ItemSound(lib, t, after);
  }

  lemma {:induction false} ConsItems(lib: FloatLib, x: Item, more: seq<Item>, rest: bytes, acc: seq<Json>)
    requires ValidItem(x) && ValidItems(more) && more != []
    ensures var xs := [x] + more;
            && ValidItems(xs) && acc + ItemsValue(xs) == acc + [Value(x.doc)] + ItemsValue(more)
            && (Reads(lib, x.doc, AfterItem(x.after, COMMA, ItemsText(more) + rest)) && ItemsRead(lib, more, rest)
                ==> ItemsRead(lib, xs, rest))
            && ItemsText(xs) + rest == x.before + (DocText(x.doc) + AfterItem(x.after, COMMA, ItemsText(more) + rest))
  {
    var xs := [x] + more;
    assert xs[1..] == more;
    ItemsTextSplits(xs, rest);
    hide ItemsText, DocText, AfterItem, ValidItem, Reads;
    assert acc + ([Value(x.doc)] + ItemsValue(more)) == acc + [Value(x.doc)] + ItemsValue(more);
  }

  lemma {:induction false} LastItem(lib: FloatLib, x: Item, rest: bytes, acc: seq<Json>)
    requires ValidItem(x)
    ensures ValidItems([x]) && acc + ItemsValue([x]) == acc + [Value(x.doc)]
    ensures Reads(lib, x.doc, AfterItem(x.after, CLOSE_BRACKET, rest)) ==> ItemsRead(lib, [x], rest)
    ensures ItemsText([x]) + rest == x.before + (DocText(x.doc) + AfterItem(x.after, CLOSE_BRACKET, rest))
  {
    ItemsTextSplits([x], rest);
    hide ItemsText, DocText, AfterItem, ValidItem, Reads;
  }

  lemma {:induction false} ItemSound(lib: FloatLib, t: bytes, after: bytes) returns (x: Item)
    requires ScanValue(lib, SkipSpace(t)).Good? && Blank(after)
    ensures ValidItem(x) && x.after == after
    ensures t == x.before + (DocText(x.doc) + ScanValue(lib, SkipSpace(t)).rest)
    ensures Value(x.doc) == ScanValue(lib, SkipSpace(t)).value
    ensures Reads(lib, x.doc, ScanValue(lib, SkipSpace(t)).rest)
    decreases |t|, 2, 0
  {
    var before := SkipSound(t);
    var blank, d := ValueSound(lib, SkipSpace(t));
    hide ScanValue, SkipSpace, DocText;
    BlankIsEmpty(blank, SkipSpace(t), DocText(d) + ScanValue(lib, SkipSpace(t)).rest);
    x := Item(before, d, after);
  }

  /** A successful element loop: one value, then a bracket, or a comma and the rest. */
  lemma {:induction false} ElementsCases(lib: FloatLib, t: bytes, acc: seq<Json>)
    returns (tail: bytes, sep: byte, behind: bytes)
    requires ScanElements(lib, t, acc).Good?
    ensures var r := ScanValue(lib, SkipSpace(t)); r.Good? && tail == r.rest
    ensures SkipSpace(tail) == [sep] + behind && (sep == CLOSE_BRACKET || sep == COMMA)
    ensures |behind| < |t| && SkipSpace(tail)[0] == sep && SkipSpace(tail)[1..] == behind
    ensures var v := ScanValue(lib, SkipSpace(t)).value;
            ScanElements(lib, t, acc)
            == if sep == CLOSE_BRACKET then Good(Array(acc + [v]), behind) else ScanElements(lib, behind, acc + [v])
  {
    hide ScanValue, SkipSpace;
    tail := ScanValue(lib, SkipSpace(t)).rest;
    sep, behind := SkipSpace(tail)[0], SkipSpace(tail)[1..];
  }

  /** Soundness: whatever the parser accepts is a text of the grammar with space around it,
      and the value returned is the one that text denotes. */
  lemma {:induction false} ParseSound(lib: FloatLib, t: bytes) returns (before: bytes, d: Doc, after: bytes)
    requires Parse(lib, t).Good?
    ensures Blank(before) && Valid(d) && Blank(after)
    ensures t == before + DocText(d) + after && Value(d) == Parse(lib, t).value
    ensures Reads(lib, d, after)
  {
    before := SkipSound(t);
    var blank;
    blank, d := ValueSound(lib, SkipSpace(t));
    var rest := ScanValue(lib, SkipSpace(t)).rest;
    BlankIsEmpty(blank, SkipSpace(t), DocText(d) + rest);
    after := SkipSound(rest);
    assert after + [] == after;
    Assoc(before, DocText(d), after);
  }

  /** The parser accepts exactly the texts of the grammar, with exactly their values, where
      each double is what the C library makes of its text at its place. */
  lemma {:induction false} AcceptsExactlyTheGrammar(lib: FloatLib, t: bytes, v: Json)
    ensures Parse(lib, t) == Good(v, [])
            <==> exists before, d, after :: Blank(before) && Valid(d) && Reads(lib, d, after) && Blank(after)
                   && t == before + DocText(d) + after && Value(d) == v
  {
    hide Parse;
    if Parse(lib, t) == Good(v, []) {
      var before, d, after := ParseSound(lib, t);
    }
    if before, d, after :| Blank(before) && Valid(d) && Reads(lib, d, after) && Blank(after)
                           && t == before + DocText(d) + after && Value(d) == v {
      ParseAcceptsGrammar(lib, before, d, after);
    }
  }

  const NO_FLOATS := FloatLib(_ => [], _ => None)

  lemma {:induction false} NoFloatsNoDouble(d: Doc, rest: bytes)
    requires Reads(NO_FLOATS, d, rest)
    ensures NoDouble(d)
    decreases d
  {
    match d
    case DArr(_, items) => NoFloatsNoDoubleItems(items, rest);
    case DObj(_, fields) => NoFloatsNoDoubleFields(fields, rest);
    case _ =>
  }

  lemma {:induction false} NoFloatsNoDoubleItems(items: seq<Item>, rest: bytes)
    requires ItemsRead(NO_FLOATS, items, rest)
    ensures NoDoubleItems(items)
    decreases items
  {
    if items != [] {
      NoFloatsNoDouble(items[0].doc, ItemTail(items, rest));
      NoFloatsNoDoubleItems(items[1..], rest);
      assert forall i :: 0 < i < |items| ==> items[i] == items[1..][i - 1];
    }
  }

  lemma {:induction false} NoFloatsNoDoubleFields(fields: seq<Field>, rest: bytes)
    requires FieldsRead(NO_FLOATS, fields, rest)
    ensures NoDoubleFields(fields)
    decreases fields
  {
    if fields != [] {
      NoFloatsNoDouble(fields[0].doc, FieldTail(fields, rest));
      NoFloatsNoDoubleFields(fields[1..], rest);
      assert forall i :: 0 < i < |fields| ==> fields[i] == fields[1..][i - 1];
    }
  }

  /** A text parses to v whatever the C library makes of floating point exactly when it is a
      rendering of v without any. */
  lemma {:induction false} LibraryIndependentExactly(t: bytes, v: Json)
    ensures (forall lib: FloatLib :: Parse(lib, t) == Good(v, []))
            <==> exists before, d, after :: Blank(before) && Valid(d) && NoDouble(d) && Blank(after)
                   && t == before + DocText(d) + after && Value(d) == v
  {
    hide Parse;
    if forall lib: FloatLib :: Parse(lib, t) == Good(v, []) {
      assert Parse(NO_FLOATS, t) == Good(v, []);
      var before, d, after := ParseSound(NO_FLOATS, t);
      NoFloatsNoDouble(d, after);
    }
    if before, d, after :| Blank(before) && Valid(d) && NoDouble(d) && Blank(after)
                           && t == before + DocText(d) + after && Value(d) == v {
      forall lib: FloatLib ensures Parse(lib, t) == Good(v, []) {
        NoDoubleReads(lib, d, after);
        ParseAcceptsGrammar(lib, before, d, after);
      }
    }
  }

  // ---- repeated keys ----

  /** The keys of an object text, in order, each where it first occurs and not in seen. */
  function FirstKeys(fields: seq<Field>, seen: seq<bytes>): seq<bytes>
    requires ValidFields(fields)
    decreases |fields|
  {
    if fields == [] then []
    else
      assert ValidField(fields[0]);
      var k := PiecesValue(fields[0].key);
      if k in seen then FirstKeys(fields[1..], seen) else [k] + FirstKeys(fields[1..], seen + [k])
  }

  /** The value behind the last occurrence of a key. */
  function LastWith(fields: seq<Field>, k: bytes): Option<Json>
    requires ValidFields(fields)
    decreases |fields|
  {
    if fields == [] then None
    else
      assert ValidField(fields[0]);
      var later := LastWith(fields[1..], k);
      if later.Some? then later
      else if PiecesValue(fields[0].key) == k then Some(Value(fields[0].doc))
      else None
  }

  ghost predicate DistinctKeys(fields: seq<Field>)
    requires ValidFields(fields)
  {
    forall i, j :: 0 <= i < j < |fields| ==>
      ValidField(fields[i]) && ValidField(fields[j]) && PiecesValue(fields[i].key) != PiecesValue(fields[j].key)
  }

  lemma {:induction false} FieldsUnfold(fields: seq<Field>, acc: seq<Member>, seen: seq<bytes>)
    requires ValidFields(fields) && fields != []
    ensures ValidField(fields[0]) && ValidFields(fields[1..])
    ensures var k := PiecesValue(fields[0].key);
            && FieldsValue(fields, acc) == FieldsValue(fields[1..], Set(acc, k, Value(fields[0].doc)))
            && FirstKeys(fields, seen)
               == if k in seen then FirstKeys(fields[1..], seen) else [k] + FirstKeys(fields[1..], seen + [k])
  {
    assert ValidField(fields[0]);
    hide Set, PiecesValue, Value;
  }

  lemma {:induction false} FieldsValueKeys(fields: seq<Field>, acc: seq<Member>)
    requires ValidFields(fields)
    ensures Keys(FieldsValue(fields, acc)) == Keys(acc) + FirstKeys(fields, Keys(acc))
    decreases |fields|
  {
    if fields == [] {
      assert Keys(acc) + [] == Keys(acc);
    } else {
      hide *;
      var seen := Keys(acc);
      FieldsUnfold(fields, acc, seen);
      var k, v, rest := PiecesValue(fields[0].key), Value(fields[0].doc), fields[1..];
      KeysAfterSet(acc, k, v);
      FieldsValueKeys(rest, Set(acc, k, v));
      Regroup(seen, [k], FirstKeys(rest, seen + [k]));
    }
  }

  lemma {:induction false} Regroup(a: seq<bytes>, b: seq<bytes>, c: seq<bytes>)
    ensures (a + b) + c == a + (b + c)
  {
  }

  lemma {:induction false} FieldsValueGet(fields: seq<Field>, acc: seq<Member>, k: bytes)
    requires ValidFields(fields)
    ensures Get(FieldsValue(fields, acc), k)
         == if LastWith(fields, k).Some? then LastWith(fields, k) else Get(acc, k)
    decreases |fields|
  {
    if fields != [] {
      assert ValidField(fields[0]);
      var key, v := PiecesValue(fields[0].key), Value(fields[0].doc);
      GetAfterSet(acc, key, v, k);
      FieldsValueGet(fields[1..], Set(acc, key, v), k);
    }
  }

  lemma {:induction false} FirstKeysCount(fields: seq<Field>, seen: seq<bytes>)
    requires ValidFields(fields)
    ensures |FirstKeys(fields, seen)| <= |fields|
    ensures |FirstKeys(fields, seen)| == |fields|
            <==> DistinctKeys(fields)
                 && forall i :: 0 <= i < |fields| ==> ValidField(fields[i]) && PiecesValue(fields[i].key) !in seen
    decreases |fields|
  {
    if fields != [] {
      assert ValidField(fields[0]);
      var k, rest := PiecesValue(fields[0].key), fields[1..];
      FirstKeysCount(rest, if k in seen then seen else seen + [k]);
      hide PiecesValue;
      assert forall i :: 0 < i < |fields| ==> fields[i] == rest[i - 1];
      assert forall i :: 0 <= i < |rest| ==> rest[i] == fields[i + 1];
    }
  }

  /** An object text with repeated keys, however spelt, is accepted. Each key keeps the place of
      its first occurrence and has the value of its last; and members are lost exactly when
      two keys are the same. */
  lemma {:induction false} RepeatedKeyOverwrites(lib: FloatLib, fields: seq<Field>, k: bytes)
    requires ValidFields(fields) && Reads(lib, DObj([], fields), [])
    ensures var ms := FieldsValue(fields, []);
            && Parse(lib, DocText(DObj([], fields))) == Good(Object(ms), [])
            && Keys(ms) == FirstKeys(fields, [])
            && Get(ms, k) == LastWith(fields, k)
            && (|ms| == |fields| <==> DistinctKeys(fields))
  {
    var d := DObj([], fields);
    FieldsValueKeys(fields, []);
    FieldsValueGet(fields, [], k);
    FirstKeysCount(fields, []);
    assert |Keys(FieldsValue(fields, []))| == |FieldsValue(fields, [])|;
    assert Keys([]) == [] && [] + FirstKeys(fields, []) == FirstKeys(fields, []);
    hide Parse, FieldsValue, DocText, Reads, Keys, FirstKeys, LastWith, DistinctKeys;
    ParseAcceptsGrammar(lib, [], d, []);
    assert [] + DocText(d) + [] == DocText(d);
  }

  // ---- \u escapes ----

  predicate Surrogate(code: nat) { 0xD800 <= code <= 0xDFFF }

  predicate Continues(b: byte) { 0x80 <= b <= 0xBF }

  /** UTF-8 decoding of one character of the basic multilingual plane, by the byte ranges of
      RFC 3629 section 4. */
  function DecodeUtf8(s: bytes): Option<(nat, nat)> {
    if s == [] then None
    else if s[0] <= 0x7F then Some((s[0], 1))
    else if 0xC2 <= s[0] <= 0xDF && |s| >= 2 && Continues(s[1]) then
      var hi: int, lo: int := s[0], s[1];
      Some(((hi - 0xC0) * 0x40 + (lo - 0x80), 2))
    else if 0xE0 <= s[0] <= 0xEF && |s| >= 3 && Continues(s[1]) && Continues(s[2])
            && (s[0] == 0xE0 ==> s[1] >= 0xA0) && (s[0] == 0xED ==> s[1] <= 0x9F) then
      var hi: int, mid: int, lo: int := s[0], s[1], s[2];
      Some(((hi - 0xE0) * 0x1000 + (mid - 0x80) * 0x40 + (lo - 0x80), 3))
    else None
  }

  /** A \u escape yields the UTF-8 form of its character exactly when that is not half of a
      surrogate pair, which has none. */
  lemma {:induction false} EscapeIsUtf8(code: nat, rest: bytes)
    requires code < 0x1_0000
    ensures DecodeUtf8(Utf8(code) + rest) == Some((code, |Utf8(code)|)) <==> !Surrogate(code)
  {
    var s := Utf8(code) + rest;
    if 0x7F < code <= 0x7FF {
      assert code == code / 0x40 * 0x40 + code % 0x40;
    } else if code > 0x7FF {
      var top := code / 0x40;
      assert code == top * 0x40 + code % 0x40;
      assert top == top / 0x40 * 0x40 + top % 0x40;
      assert code / 0x1000 == top / 0x40;
      if Surrogate(code) {
        assert 0x360 <= top <= 0x37F && top / 0x40 == 0xD;
        assert s[0] == 0xED && s[1] >= 0xA0;
        assert DecodeUtf8(s) == None;
      }
    }
  }

  function RawPieces(s: bytes): seq<Piece> {
    seq(|s|, i requires 0 <= i < |s| => Raw(s[i]))
  }

  lemma {:induction false} RawPiecesValue(s: bytes)
    requires ValidPieces(RawPieces(s))
    ensures PiecesValue(RawPieces(s)) == s
  {
    if s != [] {
      assert RawPieces(s)[1..] == RawPieces(s[1..]);
      RawPiecesValue(s[1..]);
    }
  }

  /** Writing a character as a \u escape, with hex digits of either case, denotes the same
      string as writing its UTF-8 bytes. */
  lemma {:induction false} EscapeInsensitive(hex: bytes)
    requires ValidPiece(Unicode(hex))
    requires var c := CodePoint(hex); c >= 0x20 && c != 34 && c != 92
    ensures ValidPieces(RawPieces(Utf8(CodePoint(hex))))
    ensures PiecesValue(RawPieces(Utf8(CodePoint(hex)))) == PieceValue(Unicode(hex))
  {
    RawPiecesValue(Utf8(CodePoint(hex)));
  }
}
