/** What RFC 8259 says of numbers, white space, escapes and names, written out by itself, and the
    JSON parser (src/mcp/json_rpc.cpp) held against it. */
module JsonStandard {
  import opened Basics
  import opened Decimal
  import opened JsonValue
  import opened JsonParser
  import opened JsonGrammar

  // ---- numbers (section 6) ----

  datatype Exponent = Exponent(mark: byte, sign: bytes, figures: bytes)

  datatype Number = Number(negative: bool, figures: bytes, fraction: Option<bytes>, exponent: Option<Exponent>)

  predicate Figures(s: bytes) {
    s != [] && forall i :: 0 <= i < |s| ==> 0x30 <= s[i] <= 0x39
  }

  /** number = [ minus ] int [ frac ] [ exp ]; leading zeros are let through. */
  predicate IsNumber(n: Number) {
    && Figures(n.figures)
    && (n.fraction.Some? ==> Figures(n.fraction.value))
    && (n.exponent.Some? ==>
          var e := n.exponent.value;
          && (e.mark == 0x65 || e.mark == 0x45) && (e.sign == [] || e.sign == [0x2B] || e.sign == [0x2D])
          && Figures(e.figures))
  }

  function Behind(n: Number): bytes {
    (if n.fraction.Some? then [0x2E] + n.fraction.value else [])
    + (if n.exponent.Some? then [n.exponent.value.mark] + n.exponent.value.sign + n.exponent.value.figures else [])
  }

  function NumberText(n: Number): bytes {
    (if n.negative then [0x2D] else []) + n.figures + Behind(n)
  }

  function Whole(n: Number): int
    requires IsNumber(n)
  {
    var magnitude: int := DecimalValue(n.figures);
    if n.negative then -magnitude else magnitude
  }

  /** What follows a numeral where one may end: nothing, or a byte that cannot belong to it. */
  predicate EndsHere(rest: bytes) {
    rest == [] || (!(0x30 <= rest[0] <= 0x39) && rest[0] != 0x2E && rest[0] != 0x65 && rest[0] != 0x45)
  }

  lemma {:induction false} DigitsStop(figures: bytes, tail: bytes)
    requires forall i :: 0 <= i < |figures| ==> 0x30 <= figures[i] <= 0x39
    requires tail == [] || !(0x30 <= tail[0] <= 0x39)
    ensures LeadingDigits(figures + tail) == |figures|
    decreases |figures|
  {
    if figures == [] {
      assert figures + tail == tail;
    } else {
      assert (figures + tail)[1..] == figures[1..] + tail;
      DigitsStop(figures[1..], tail);
    }
  }

  /** strtoll reads the sign and the figures, and stops there. */
  lemma {:induction false} ReadsWhole(negative: bool, figures: bytes, tail: bytes)
    requires Figures(figures) && (tail == [] || !(0x30 <= tail[0] <= 0x39))
    ensures var sign: bytes := if negative then [0x2D] else [];
            var magnitude: int := DecimalValue(figures);
            StrToLL(sign + figures + tail) == (if negative then -magnitude else magnitude, |sign| + |figures|)
  {
    var sign: bytes := if negative then [0x2D] else [];
    var s := sign + figures + tail;
    DigitsStop(figures, tail);
    assert s[0] == if negative then 0x2D else figures[0];
    SecondOfThree(sign, figures, tail);
    hide DecimalValue, LeadingDigits;
    assert Figures(figures) ==> AllDigits(figures);
  }

  lemma {:induction false} SecondOfThree(a: bytes, b: bytes, c: bytes)
    ensures (a + b + c)[|a|..] == b + c && (a + b + c)[|a|..][..|b|] == b
  {
  }

  /** A number with a fraction or an exponent is a double wherever a document may stand, the one
      that the C library reads there from exactly this text. */
  lemma {:induction false} FractionIsDouble(lib: FloatLib, n: Number, bits: nat, rest: bytes)
    requires IsNumber(n) && (n.fraction.Some? || n.exponent.Some?)
    requires lib.scan(NumberText(n) + rest) == Some((bits, |NumberText(n)|))
    ensures var d := DDouble(NumberText(n), bits);
            Valid(d) && DocText(d) == NumberText(n) && Value(d) == Double(bits) && Reads(lib, d, rest)
  {
    var sign: bytes := if n.negative then [0x2D] else [];
    var tail := Behind(n) + rest;
    MarkFirst(n);
    NumberStarts(n);
    hide Behind;
    assert tail[0] == Behind(n)[0];
    NotAnInteger(n.negative, n.figures, tail);
    hide IntegerAhead;
    assert sign + n.figures + tail == NumberText(n) + rest;
    hide NumberText;
  }

  lemma {:induction false} MarkFirst(n: Number)
    requires IsNumber(n) && (n.fraction.Some? || n.exponent.Some?)
    ensures Behind(n) != [] && (Behind(n)[0] == 0x2E || Behind(n)[0] == 0x65 || Behind(n)[0] == 0x45)
  {
  }

  lemma {:induction false} NumberStarts(n: Number)
    requires IsNumber(n)
    ensures NumberText(n) != [] && (NumberText(n)[0] == 0x2D || 0x30 <= NumberText(n)[0] <= 0x39)
  {
    hide Behind;
    assert NumberText(n)[0] == if n.negative then 0x2D else n.figures[0];
  }

  /** A point or an exponent mark behind the figures: no integer. */
  lemma {:induction false} NotAnInteger(negative: bool, figures: bytes, tail: bytes)
    requires Figures(figures) && tail != [] && (tail[0] == 0x2E || tail[0] == 0x65 || tail[0] == 0x45)
    ensures !IntegerAhead((if negative then [0x2D] else []) + figures + tail)
  {
    ReadsWhole(negative, figures, tail);
    var sign: bytes := if negative then [0x2D] else [];
    var s := sign + figures + tail;
    assert s[|sign| + |figures|..] == tail;
    hide StrToLL, DecimalValue;
  }

  /** A number with neither is the integer it denotes, when that fits 64 bits. */
  lemma {:induction false} WholeIsInteger(n: Number)
    requires IsNumber(n) && n.fraction == None && n.exponent == None
    requires -0x8000_0000_0000_0000 <= Whole(n) <= 0x7FFF_FFFF_FFFF_FFFF
    ensures var d := DInt(n.negative, n.figures);
            Valid(d) && DocText(d) == NumberText(n) && Value(d) == Integer(Whole(n)) && NoDouble(d)
  {
    assert Behind(n) == [] && NumberText(n) == (if n.negative then [0x2D] else []) + n.figures;
    hide DecimalValue;
  }

  /** When it does not fit, it is a double again. */
  lemma {:induction false} HugeIsDouble(lib: FloatLib, n: Number, bits: nat, rest: bytes)
    requires IsNumber(n) && n.fraction == None && n.exponent == None
    requires !(-0x8000_0000_0000_0000 <= Whole(n) <= 0x7FFF_FFFF_FFFF_FFFF)
    requires EndsHere(rest) && lib.scan(NumberText(n) + rest) == Some((bits, |NumberText(n)|))
    ensures var d := DDouble(NumberText(n), bits);
            Valid(d) && DocText(d) == NumberText(n) && Value(d) == Double(bits) && Reads(lib, d, rest)
  {
    NumberStarts(n);
    var sign: bytes := if n.negative then [0x2D] else [];
    assert NumberText(n) == sign + n.figures + [] == sign + n.figures;
    hide NumberText, Behind, EndsHere, Figures;
    TooLong(n, rest);
    hide IntegerAhead, Whole;
  }

  lemma {:induction false} TooLong(n: Number, rest: bytes)
    requires IsNumber(n) && EndsHere(rest)
    requires !(-0x8000_0000_0000_0000 <= Whole(n) <= 0x7FFF_FFFF_FFFF_FFFF)
    ensures !IntegerAhead((if n.negative then [0x2D] else []) + n.figures + rest)
  {
    ReadsWhole(n.negative, n.figures, rest);
    hide StrToLL, DecimalValue;
  }

  /** Space, tab, line feed and carriage return, and nothing else. */
  predicate WhiteSpace(s: bytes) {
    forall i :: 0 <= i < |s| ==> s[i] in {0x20, 0x09, 0x0A, 0x0D}
  }

  lemma {:induction false} WhiteSpaceIsBlank(s: bytes)
    ensures WhiteSpace(s) <==> Blank(s)
  {
  }

  /** A number by itself, in any white space, parses to the number it denotes: an integer when it
      has neither fraction nor exponent and fits 64 bits, else the double the library reads. */
  lemma {:induction false} NumberParses(lib: FloatLib, before: bytes, n: Number, bits: nat, after: bytes)
    requires IsNumber(n) && WhiteSpace(before) && WhiteSpace(after)
    ensures var text := before + NumberText(n) + after;
            var integer := && n.fraction == None && n.exponent == None
                           && -0x8000_0000_0000_0000 <= Whole(n) <= 0x7FFF_FFFF_FFFF_FFFF;
            && (integer ==> Parse(lib, text) == Good(Integer(Whole(n)), []))
            && (!integer && lib.scan(NumberText(n) + after) == Some((bits, |NumberText(n)|))
                ==> Parse(lib, text) == Good(Double(bits), []))
  {
    WhiteSpaceIsBlank(before);
    WhiteSpaceIsBlank(after);
    assert EndsHere(after);
    hide Parse, NumberText, Blank, Reads, EndsHere, DecimalValue;
    if n.fraction == None && n.exponent == None
       && -0x8000_0000_0000_0000 <= Whole(n) <= 0x7FFF_FFFF_FFFF_FFFF {
      WholeIsInteger(n);
      NoDoubleReads(lib, DInt(n.negative, n.figures), after);
      ParseAcceptsGrammar(lib, before, DInt(n.negative, n.figures), after);
    } else if lib.scan(NumberText(n) + after) == Some((bits, |NumberText(n)|)) {
      if n.fraction.Some? || n.exponent.Some? {
        FractionIsDouble(lib, n, bits, after);
      } else {
        HugeIsDouble(lib, n, bits, after);
      }
      ParseAcceptsGrammar(lib, before, DDouble(NumberText(n), bits), after);
    }
  }

  // ---- white space, escapes and names (sections 2, 3 and 7) ----

  /** One byte in front of a document is skipped exactly when it is white space. */
  lemma {:induction false} SkippedExactly(lib: FloatLib, b: byte)
    ensures Parse(lib, [b] + Ascii("null")) == Good(Null, []) <==> b in {0x20, 0x09, 0x0A, 0x0D}
  {
    var s := [b] + Ascii("null");
    assert s[1..] == Ascii("null") && Ascii("null")[0] == 110 && !IsSpace(110);
    if b in {0x20, 0x09, 0x0A, 0x0D} {
      WhiteSpaceIsBlank([b]);
      assert Blank([b]) && Blank([]) && DocText(DNull) == Ascii("null");
      assert [b] + DocText(DNull) + [] == s;
      ParseAcceptsGrammar(lib, [b], DNull, []);
    } else {
      assert SkipSpace(s) == s;
      NotNull(lib, s);
    }
  }

  /** Only the name null is read as null. */
  lemma {:induction false} NotNull(lib: FloatLib, s: bytes)
    requires SkipSpace(s) == s && !StartsWith(s, Ascii("null"))
    ensures ScanValue(lib, s).Good? ==> ScanValue(lib, s).value != Null
  {
    hide ScanMembers, ScanElements, ScanString, SkipSpace, StrToLL;
    NeitherNull(lib, SkipSpace(s[if s == [] then 0 else 1..]));
  }

  lemma {:induction false} NeitherNull(lib: FloatLib, s: bytes)
    ensures ScanMembers(lib, s, []).Good? ==> ScanMembers(lib, s, []).value != Null
    ensures ScanElements(lib, s, []).Good? ==> ScanElements(lib, s, []).value != Null
  {
    MembersAreObject(lib, s, []);
    ElementsAreArray(lib, s, []);
  }

  lemma {:induction false} MembersAreObject(lib: FloatLib, s: bytes, acc: seq<Member>)
    ensures ScanMembers(lib, s, acc).Good? ==> ScanMembers(lib, s, acc).value.Object?
    decreases |s|
  {
    hide ScanMember, SkipSpace, Set;
    var r := ScanMember(lib, s);
    if r.Good? && SkipSpace(r.rest) != [] {
      MembersAreObject(lib, SkipSpace(r.rest)[1..], Set(acc, r.value.key, r.value.value));
    }
  }

  lemma {:induction false} ElementsAreArray(lib: FloatLib, s: bytes, acc: seq<Json>)
    ensures ScanElements(lib, s, acc).Good? ==> ScanElements(lib, s, acc).value.Array?
    decreases |s|
  {
    hide ScanValue, SkipSpace;
    var r := ScanValue(lib, SkipSpace(s));
    if r.Good? && SkipSpace(r.rest) != [] {
      ElementsAreArray(lib, SkipSpace(r.rest)[1..], acc + [r.value]);
    }
  }

  /** The letters that may follow a backslash, but for u, with the byte each stands for. */
  const ESCAPES: set<(byte, byte)> :=
    {(0x22, 0x22), (0x5C, 0x5C), (0x2F, 0x2F), (0x62, 0x08), (0x66, 0x0C), (0x6E, 0x0A), (0x72, 0x0D), (0x74, 0x09)}

  /** A string of one short escape denotes a byte exactly as the table has it. */
  lemma {:induction false} EscapeParses(lib: FloatLib, letter: byte, b: byte)
    ensures Parse(lib, [0x22, 0x5C, letter, 0x22]) == Good(Str([b]), []) <==> (letter, b) in ESCAPES
  {
    var s: bytes := [0x22, 0x5C, letter, 0x22];
    var inner: bytes := [0x5C, letter, 0x22];
    assert SkipSpace(s) == s && s[1..] == inner;
    assert inner[2..] == [0x22] && [0x22][1..] == [];
    ClosingQuote([b]);
    EscapeScans(letter);
    hide ScanString;
    assert ScanValue(lib, s) == match ScanString(inner, [])
                                case Fault(left, problem) => Fault(left, problem)
                                case Good(text, rest) => Good(Str(text), rest);
    hide ScanValue;
    assert SkipSpace([]) == [];
  }

  lemma {:induction false} ClosingQuote(acc: bytes)
    ensures ScanString([0x22], acc) == Good(acc, [])
  {
  }

  lemma {:induction false} EscapeScans(letter: byte)
    ensures var r := ScanString([0x5C, letter, 0x22], []);
            match SimpleEscape(letter)
            case Some(b) => r == Good([b], [])
            case None => r.Fault?
  {
    var s: bytes := [0x5C, letter, 0x22];
    assert s[2..] == [0x22];
    match SimpleEscape(letter)
    case Some(b) =>
      ClosingQuote([] + [b]);
      assert [] + [b] == [b];
    case None =>
      assert [0x22][1..] == [];
  }

  /** b is the hex digit for v, in either case. */
  predicate HexDigitFor(b: byte, v: nat) {
    v < 16 && (b == Ascii("0123456789abcdef")[v] || b == Ascii("0123456789ABCDEF")[v])
  }

  lemma {:induction false} HexDigitsExactly(b: byte, v: nat)
    ensures HexValue(b) == Some(v) <==> HexDigitFor(b, v)
  {
    assert v < 16 ==> Ascii("0123456789abcdef")[v] == if v < 10 then 48 + v else 87 + v;
    assert v < 16 ==> Ascii("0123456789ABCDEF")[v] == if v < 10 then 48 + v else 55 + v;
  }

  /** A string of one \u escape denotes the character with the number its four hex digits spell;
      with anything else for a digit it is refused. */
  lemma {:induction false} UnicodeParses(lib: FloatLib, h: bytes, a: nat, b: nat, c: nat, d: nat)
    requires |h| == 4
    ensures var r := Parse(lib, [0x22, 0x5C, 0x75] + h + [0x22]);
            && (HexDigitFor(h[0], a) && HexDigitFor(h[1], b) && HexDigitFor(h[2], c) && HexDigitFor(h[3], d)
                ==> r == Good(Str(Utf8(0x1000 * a + 0x100 * b + 0x10 * c + d)), []))
            && ((exists i :: 0 <= i < 4 && NoHexDigit(h[i])) ==> r.Fault?)
  {
    hide *;
    FourDigits(h);
    UnicodeScans(lib, h);
    HexDigitsExactly(h[0], a);
    HexDigitsExactly(h[1], b);
    HexDigitsExactly(h[2], c);
    HexDigitsExactly(h[3], d);
    if exists i :: 0 <= i < 4 && NoHexDigit(h[i]) {
      var i :| 0 <= i < 4 && NoHexDigit(h[i]);
      NoDigitNoValue(h[i]);
    }
  }

  ghost predicate NoHexDigit(b: byte) {
    forall v :: !HexDigitFor(b, v)
  }

  lemma {:induction false} NoDigitNoValue(b: byte)
    requires NoHexDigit(b)
    ensures HexValue(b) == None
  {
    if HexValue(b).Some? {
      HexDigitsExactly(b, HexValue(b).value);
    }
  }

  lemma {:induction false} UnicodeScans(lib: FloatLib, h: bytes)
    requires |h| == 4 && (ScanHex(h + [0x22], 4, 0).Good? ==> ScanHex(h + [0x22], 4, 0).rest == [0x22])
    ensures Parse(lib, [0x22, 0x5C, 0x75] + h + [0x22])
         == match ScanHex(h + [0x22], 4, 0)
            case Fault(left, problem) => Fault(left, problem)
            case Good(code, _) => Good(Str(Utf8(code)), [])
  {
    var s := [0x22, 0x5C, 0x75] + h + [0x22];
    var inner := [0x5C, 0x75] + (h + [0x22]);
    assert SkipSpace(s) == s && s[1..] == inner && inner[2..] == h + [0x22] && SkipSpace([]) == [];
    hide ScanHex, Utf8, SkipSpace;
    var scan := ScanHex(h + [0x22], 4, 0);
    if scan.Good? {
      ClosingQuote([] + Utf8(scan.value));
      assert [] + Utf8(scan.value) == Utf8(scan.value);
    }
    assert ScanString(inner, []) == match scan
                                    case Fault(left, problem) => Fault(left, problem)
                                    case Good(code, rest) => ScanString(rest, [] + Utf8(code));
    hide ScanString;
    assert ScanValue(lib, s) == match ScanString(inner, [])
                                case Fault(left, problem) => Fault(left, problem)
                                case Good(text, rest) => Good(Str(text), rest);
    hide ScanValue;
  }

  lemma {:induction false} FourDigits(h: bytes)
    requires |h| == 4
    ensures var r := ScanHex(h + [0x22], 4, 0);
            if forall i :: 0 <= i < 4 ==> HexValue(h[i]).Some? then
              r == Good(0x1000 * HexValue(h[0]).value + 0x100 * HexValue(h[1]).value
                        + 0x10 * HexValue(h[2]).value + HexValue(h[3]).value, [0x22])
            else r.Fault?
  {
    hide HexValue;
    var s := h + [0x22];
    assert s[1..][0] == h[1] && s[1..][1..][0] == h[2] && s[1..][1..][1..][0] == h[3];
    assert s[1..][1..][1..][1..] == [0x22];
    if HexValue(h[0]).Some? {
      var x := 16 * 0 + HexValue(h[0]).value;
      assert ScanHex(s, 4, 0) == ScanHex(s[1..], 3, x);
      if HexValue(h[1]).Some? {
        var y := 16 * x + HexValue(h[1]).value;
        assert ScanHex(s[1..], 3, x) == ScanHex(s[1..][1..], 2, y);
        if HexValue(h[2]).Some? {
          var z := 16 * y + HexValue(h[2]).value;
          assert ScanHex(s[1..][1..], 2, y) == ScanHex(s[1..][1..][1..], 1, z);
        }
      }
    }
  }

  /** The structural characters, the quotation mark and the three names. */
  lemma {:induction false} Tokens(a: Doc, b: Doc, k: seq<Piece>, l: seq<Piece>)
    ensures DocText(DArr([], [Item([], a, [])] + [Item([], b, [])]))
         == [0x5B] + (DocText(a) + ([0x2C] + (DocText(b) + [0x5D])))
    ensures DocText(DObj([], [Field([], k, [], [], a, [])] + [Field([], l, [], [], b, [])]))
         == [0x7B] + (Named(k, a) + ([0x2C] + (Named(l, b) + [0x7D])))
    ensures DocText(DNull) == [0x6E, 0x75, 0x6C, 0x6C] && DocText(DBool(true)) == [0x74, 0x72, 0x75, 0x65]
    ensures DocText(DBool(false)) == [0x66, 0x61, 0x6C, 0x73, 0x65]
  {
    TwoItems(Item([], a, []), Item([], b, []));
    TwoFields(Field([], k, [], [], a, []), Field([], l, [], [], b, []));
    PlainField(k, a);
    PlainField(l, b);
    hide ItemsText, FieldsText, FieldText;
  }

  /** A name, a colon and a value, without white space. */
  function Named(k: seq<Piece>, d: Doc): bytes {
    [0x22] + PiecesText(k) + [0x22] + [0x3A] + DocText(d)
  }

  lemma {:induction false} TwoItems(x: Item, y: Item)
    requires x.before == x.after == y.before == y.after == []
    ensures ItemsText([x] + [y]) == DocText(x.doc) + ([0x2C] + (DocText(y.doc) + [0x5D]))
  {
    assert ([x] + [y])[1..] == [y];
    assert ItemsText([y]) == [] + (DocText(y.doc) + ([] + [0x5D]));
    assert [] + [0x5D] == [0x5D] && [] + (DocText(y.doc) + [0x5D]) == DocText(y.doc) + [0x5D];
    assert ItemsText([x] + [y]) == [] + (DocText(x.doc) + ([] + ([0x2C] + ItemsText([y]))));
    hide ItemsText, DocText;
  }

  lemma {:induction false} TwoFields(x: Field, y: Field)
    requires x.after == y.after == []
    ensures FieldsText([x] + [y]) == FieldText(x) + ([0x2C] + (FieldText(y) + [0x7D]))
  {
    assert ([x] + [y])[1..] == [y];
    assert FieldsText([y]) == FieldText(y) + ([] + [0x7D]);
    assert [] + [0x7D] == [0x7D];
    assert FieldsText([x] + [y]) == FieldText(x) + ([] + ([0x2C] + FieldsText([y])));
    hide FieldsText, FieldText;
  }

  lemma {:induction false} PlainField(k: seq<Piece>, d: Doc)
    ensures FieldText(Field([], k, [], [], d, [])) == Named(k, d)
  {
    var name := LiteralText(k);
    assert FieldText(Field([], k, [], [], d, [])) == [] + name + [] + [COLON] + [] + DocText(d);
    hide FieldText, DocText, PiecesText;
    assert [] + name + [] == name;
    assert name + [COLON] + [] == name + [COLON];
  }
}
