/** JsonParserImpl as the source runs it: a cursor with a line and a column, and a sticky
    error (src/mcp/json_rpc.cpp). */
module JsonParserObject {
  import opened Basics
  import opened Decimal
  import opened JsonValue
  import opened JsonParser

  /** The line of the position behind `read`: one more than the newlines in it. */
  function Line(read: bytes): nat {
    if read == [] then 1 else Line(read[..|read| - 1]) + if read[|read| - 1] == 10 then 1 else 0
  }

  /** Its column: one more than the bytes since the last newline. */
  function Column(read: bytes): nat {
    if read == [] then 1 else if read[|read| - 1] == 10 then 1 else Column(read[..|read| - 1]) + 1
  }

  /** Both count from one: the lines by their newlines, the column from the last of them. */
  lemma {:induction false} PositionMeans(read: bytes, start: nat)
    requires start <= |read| && (start == 0 || read[start - 1] == 10)
    requires forall i :: start <= i < |read| ==> read[i] != 10
    ensures Line(read) == multiset(read)[10] + 1
    ensures Column(read) == |read| - start + 1
    decreases |read|
  {
    LinesCounted(read);
    if start < |read| {
      PositionMeans(read[..|read| - 1], start);
    }
  }

  lemma {:induction false} LinesCounted(read: bytes)
    ensures Line(read) == multiset(read)[10] + 1
  {
    if read != [] {
      LinesCounted(read[..|read| - 1]);
      assert read == read[..|read| - 1] + [read[|read| - 1]];
    }
  }

  /** error_: "line:col: message" */
  datatype Error = Error(line: nat, column: nat, problem: Problem)

  lemma {:induction false} ScanEnd(acc: bytes)
    ensures ScanString([], acc) == Fault(0, UnterminatedString)
  {
  }

  /** A string's scan, but for the escapes. */
  lemma {:induction false} ScanByte(c: byte, rest: bytes, acc: bytes)
    requires c != BACKSLASH
    ensures ScanString([c] + rest, acc)
         == if c == QUOTE then Good(acc, rest)
            else if c < 0x20 then Fault(|rest|, ControlCharacter)
            else ScanString(rest, acc + [c])
  {
    hide ScanHex, SimpleEscape;
    assert ([c] + rest)[1..] == rest;
  }

  /** One turn of parseObject's loop. */
  lemma {:induction false} MembersTurn(lib: FloatLib, t: bytes, acc: seq<Member>)
    requires ScanMember(lib, t).Good?
    ensures var Good(m, after) := ScanMember(lib, t);
            var members, next := Set(acc, m.key, m.value), SkipSpace(after);
            ScanMembers(lib, t, acc)
            == if Peek(next) == CLOSE_BRACE then Good(Object(members), next[1..])
               else if Peek(next) != COMMA then Fault(|next|, ExpectedCommaOrBrace)
               else ScanMembers(lib, next[1..], members)
  {
    hide ScanMember, Set, SkipSpace;
  }

  lemma {:induction false} MembersFault(lib: FloatLib, t: bytes, acc: seq<Member>)
    requires ScanMember(lib, t).Fault?
    ensures var Fault(left, problem) := ScanMember(lib, t); ScanMembers(lib, t, acc) == Fault(left, problem)
  {
    hide ScanMember;
  }

  /** One turn of parseArray's loop. */
  lemma {:induction false} ElementsTurn(lib: FloatLib, t: bytes, acc: seq<Json>)
    requires ScanValue(lib, SkipSpace(t)).Good?
    ensures var Good(v, after) := ScanValue(lib, SkipSpace(t));
            var elements, next := acc + [v], SkipSpace(after);
            ScanElements(lib, t, acc)
            == if Peek(next) == CLOSE_BRACKET then Good(Array(elements), next[1..])
               else if Peek(next) != COMMA then Fault(|next|, ExpectedCommaOrBracket)
               else ScanElements(lib, next[1..], elements)
  {
    hide ScanValue, SkipSpace;
  }

  lemma {:induction false} ElementsFault(lib: FloatLib, t: bytes, acc: seq<Json>)
    requires ScanValue(lib, SkipSpace(t)).Fault?
    ensures var Fault(left, problem) := ScanValue(lib, SkipSpace(t)); ScanElements(lib, t, acc) == Fault(left, problem)
  {
    hide ScanValue, SkipSpace;
  }

  class JsonParserImpl {
    const input: bytes
    const lib: FloatLib
    var pos: nat
    var line: nat
    var col: nat
    var error: Option<Error>

    ghost predicate Valid()
      reads this
    {
      pos <= |input| && line == Line(input[..pos]) && col == Column(input[..pos])
    }

    ghost function Unread(): bytes
      reads this
      requires Valid()
    {
      input[pos..]
    }

    /** The error recorded when `left` bytes were still unread. */
    ghost function ErrorAt(left: nat, problem: Problem): Error
      requires left <= |input|
    {
      var read := input[..|input| - left];
      Error(Line(read), Column(read), problem)
    }

    /** The object has done what the scan says: moved past the value, or recorded the fault. */
    ghost predicate Did<T(!new)>(r: Scan<T>)
      reads this
    {
      && Valid()
      && match r
         case Good(_, rest) => error == None && Unread() == rest
         case Fault(left, problem) => left <= |input| && error == Some(ErrorAt(left, problem))
    }

    constructor (input: bytes, lib: FloatLib)
      ensures Valid() && pos == 0 && error == None
      ensures this.input == input && this.lib == lib
    {
      this.input, this.lib := input, lib;
      pos, line, col, error := 0, 1, 1, None;
      new;
      assert input[..0] == [];
    }

    // ---- lexer helpers ----

    method Advance() returns (c: byte)
      requires Valid()
      modifies this`pos, this`line, this`col
      ensures Valid()
      ensures old(pos) == |input| ==> pos == old(pos) && c == 0
      ensures old(pos) < |input| ==> pos == old(pos) + 1 && c == input[old(pos)]
      ensures Unread() == if old(Unread()) == [] then [] else old(Unread())[1..]
    {
      if pos >= |input| { return 0; }
      c := input[pos];
      assert input[..pos + 1][..|input[..pos + 1]| - 1] == input[..pos];
      pos := pos + 1;
      if c == 10 {
        line, col := line + 1, 1;
      } else {
        col := col + 1;
      }
    }

    method AdvanceBy(n: nat)
      requires Valid() && pos + n <= |input|
      modifies this`pos, this`line, this`col
      ensures Valid() && pos == old(pos) + n && Unread() == old(Unread())[n..]
    {
      for i := 0 to n
        invariant Valid() && pos == old(pos) + i
      {
        var _ := Advance();
      }
    }

    method SkipWhitespace()
      requires Valid()
      modifies this`pos, this`line, this`col
      ensures Valid() && Unread() == SkipSpace(old(Unread()))
    {
      while pos < |input|
        invariant Valid()
        invariant SkipSpace(Unread()) == SkipSpace(old(Unread()))
      {
        if !IsSpace(input[pos]) { break; }
        var _ := Advance();
      }
    }

    method PeekByte() returns (c: byte)
      requires Valid()
      ensures c == Peek(Unread())
    {
      c := if pos < |input| then input[pos] else 0;
    }

    /** Records the first problem only. */
    method SetError(problem: Problem)
      requires Valid()
      modifies this`error
      ensures error == if old(error) == None then Some(ErrorAt(|Unread()|, problem)) else old(error)
    {
      assert input[..|input| - |Unread()|] == input[..pos];
      if error == None {
        error := Some(Error(line, col, problem));
      }
    }

    // ---- parser methods ----

    method ParseHex() returns (code: nat)
      requires Valid() && error == None
      modifies this
      ensures Did(ScanHex(old(Unread()), 4, 0))
      ensures error == None ==> code == ScanHex(old(Unread()), 4, 0).value
    {
      hide Line, Column;
      code := 0;
      for i := 0 to 4
        invariant Valid() && error == None && code < Room(4 - i)
        invariant ScanHex(Unread(), 4 - i, code) == ScanHex(old(Unread()), 4, 0)
      {
        if pos >= |input| {
          SetError(UnterminatedUnicode);
          return;
        }
        var hex := Advance();
        var d := HexValue(hex);
        if d == None {
          SetError(InvalidHex);
          return;
        }
        code := 16 * code + d.value;
      }
    }

    /** parseString; the cursor is on the opening quote. */
    method ParseString() returns (text: bytes)
      requires Valid() && error == None && Peek(Unread()) == QUOTE
      modifies this
      ensures Did(ScanString(old(Unread())[1..], []))
      ensures error == None ==> text == ScanString(old(Unread())[1..], []).value
    {
      hide ScanString;
      var _ := Advance();
      text := [];
      ghost var whole := ScanString(Unread(), []);
      while pos < |input|
        invariant Valid() && error == None
        invariant ScanString(Unread(), text) == whole
        decreases |input| - pos
      {
        ghost var u := Unread();
        var c := Advance();
        assert u == [c] + Unread();
        if c != BACKSLASH { ScanByte(c, Unread(), text); }
        if c == QUOTE { return; }
        if c == BACKSLASH {
          text := ParseEscape(text);
          if error != None { return; }
        } else if c < 0x20 {
          SetError(ControlCharacter);
          return;
        } else {
          text := text + [c];
        }
      }
      ScanEnd(text);
      SetError(UnterminatedString);
    }

    /** The escape behind a backslash, put behind the text so far. */
    method ParseEscape(text: bytes) returns (out: bytes)
      requires Valid() && error == None
      modifies this
      ensures error == None
              ==> && Valid() && ScanString(Unread(), out) == ScanString([BACKSLASH] + old(Unread()), text)
                  && pos >= old(pos)
      ensures error != None ==> Did(ScanString([BACKSLASH] + old(Unread()), text))
    {
      ghost var s := [BACKSLASH] + Unread();
      assert s[1..] == Unread();
      out := text;
      if pos >= |input| {
        SetError(UnterminatedEscape);
        return;
      }
      assert s[2..] == Unread()[1..];
      var c := Advance();
      if c == LETTER_U {
        var code := ParseHex();
        if error != None { return; }
        out := text + Utf8(code);
      } else {
        var e := SimpleEscape(c);
        if e == None {
          SetError(InvalidEscape);
          return;
        }
        out := text + [e.value];
      }
    }

    method ParseWord(word: bytes, v: Json, problem: Problem) returns (r: Json)
      requires Valid() && error == None
      modifies this
      ensures Did(ScanWord(old(Unread()), word, v, problem))
      ensures error == None ==> r == v
    {
      if pos + |word| <= |input| && input[pos..pos + |word|] == word {
        assert Unread()[..|word|] == input[pos..pos + |word|];
        AdvanceBy(|word|);
        return v;
      }
      assert |word| <= |Unread()| ==> Unread()[..|word|] == input[pos..pos + |word|];
      SetError(problem);
      r := Null;
    }

    method ParseNumber() returns (r: Json)
      requires Valid() && error == None && Unread() != []
      modifies this
      ensures Did(ScanNumber(lib, old(Unread())))
      ensures error == None ==> r == ScanNumber(lib, old(Unread())).value
    {
      var s := input[pos..];
      var (v, n) := StrToLL(s);
      if n > 0 && InI64(v) {
        var next := if pos + n < |input| then input[pos + n] else 0;
        if !MarksFloat(next) {
          AdvanceBy(n);
          return Integer(v);
        }
      }
      var scanned := lib.scan(s);
      if scanned == None || scanned.value.1 == 0 {
        SetError(InvalidNumber);
        return Null;
      }
      var (bits, used) := scanned.value;
      AdvanceBy(if used <= |s| then used else |s|);
      r := Double(bits);
    }

    method ParseValue() returns (r: Json)
      requires Valid() && error == None
      modifies this
      ensures Did(ScanValue(lib, old(Unread())))
      ensures error == None ==> r == ScanValue(lib, old(Unread())).value
      decreases |input| - pos, 1
    {
      SkipWhitespace();
      var c := PeekByte();
      if c == OPEN_BRACE {
        r := ParseObject();
      } else if c == OPEN_BRACKET {
        r := ParseArray();
      } else if c == QUOTE {
        var text := ParseString();
        r := Str(text);
      } else if c == 116 {
        r := ParseWord(Ascii("true"), Bool(true), InvalidBool);
      } else if c == 102 {
        r := ParseWord(Ascii("false"), Bool(false), InvalidBool);
      } else if c == 110 {
        r := ParseWord(Ascii("null"), Null, InvalidNull);
      } else if c == MINUS || IsDigit(c) {
        r := ParseNumber();
      } else {
        SetError(UnexpectedCharacter);
        r := Null;
      }
    }

    /** parseObject; the cursor is on the opening brace. */
    method ParseObject() returns (r: Json)
      requires Valid() && error == None && Peek(Unread()) == OPEN_BRACE
      modifies this
      ensures var inner := SkipSpace(old(Unread())[1..]);
              var scan := if Peek(inner) == CLOSE_BRACE then Good(Object([]), inner[1..])
                          else ScanMembers(lib, inner, []);
              Did(scan) && (error == None ==> r == scan.value)
      decreases |input| - pos, 0
    {
      ghost var start := pos;
      var _ := Advance();
      var members: seq<Member> := [];
      SkipWhitespace();
      var c := PeekByte();
      if c == CLOSE_BRACE {
        var _ := Advance();
        return Object(members);
      }
      hide ScanMembers, SkipSpace, Line, Column;
      ghost var whole := ScanMembers(lib, Unread(), []);
      while true
        invariant Valid() && error == None && start < pos
        invariant ScanMembers(lib, Unread(), members) == whole
        decreases |input| - pos
      {
        var closed;
        members, closed := StoreMember(members);
        if error != None { return Null; }
        if closed { return Object(members); }
      }
    }

    /** One turn of the loop: a member, stored by set, then the closing brace or a comma. */
    method StoreMember(members: seq<Member>) returns (out: seq<Member>, closed: bool)
      requires Valid() && error == None
      modifies this
      ensures error != None ==> Did(ScanMembers(lib, old(Unread()), members))
      ensures error == None ==> Valid() && old(pos) < pos
      ensures error == None
              ==> ScanMembers(lib, old(Unread()), members)
                  == if closed then Good(Object(out), Unread()) else ScanMembers(lib, Unread(), out)
      decreases |input| - pos, 3
    {
      hide SkipSpace, ScanMember, ScanMembers, Set, Line, Column;
      ghost var t := Unread();
      out, closed := members, false;
      var m := ParseMember();
      if error != None {
        MembersFault(lib, t, members);
        return;
      }
      MembersTurn(lib, t, members);
      out := SetMember(members, m.key, m.value);
      SkipWhitespace();
      var c := PeekByte();
      if c == CLOSE_BRACE {
        var _ := Advance();
        closed := true;
        return;
      }
      if c != COMMA {
        SetError(ExpectedCommaOrBrace);
        return;
      }
      var _ := Advance();
    }

    /** The key, colon and value of one turn of parseObject's loop. */
    method ParseMember() returns (m: Member)
      requires Valid() && error == None
      modifies this
      ensures Did(ScanMember(lib, old(Unread())))
      ensures error == None ==> m == ScanMember(lib, old(Unread())).value
      decreases |input| - pos, 2
    {
      m := Member([], Null);
      SkipWhitespace();
      var c := PeekByte();
      if c != QUOTE {
        SetError(ExpectedKey);
        return;
      }
      var key := ParseString();
      if error != None { return; }
      SkipWhitespace();
      c := PeekByte();
      if c != COLON {
        SetError(Expected(COLON));
        return;
      }
      var _ := Advance();
      SkipWhitespace();
      var v := ParseValue();
      m := Member(key, v);
    }

    /** parseArray; the cursor is on the opening bracket. */
    method ParseArray() returns (r: Json)
      requires Valid() && error == None && Peek(Unread()) == OPEN_BRACKET
      modifies this
      ensures var inner := SkipSpace(old(Unread())[1..]);
              var scan := if Peek(inner) == CLOSE_BRACKET then Good(Array([]), inner[1..])
                          else ScanElements(lib, inner, []);
              Did(scan) && (error == None ==> r == scan.value)
      decreases |input| - pos, 0
    {
      ghost var start := pos;
      var _ := Advance();
      var elements: seq<Json> := [];
      SkipWhitespace();
      var c := PeekByte();
      if c == CLOSE_BRACKET {
        var _ := Advance();
        return Array(elements);
      }
      hide ScanElements, SkipSpace, Line, Column;
      ghost var whole := ScanElements(lib, Unread(), []);
      while true
        invariant Valid() && error == None && start < pos
        invariant ScanElements(lib, Unread(), elements) == whole
        decreases |input| - pos
      {
        var closed;
        elements, closed := ParseElement(elements);
        if error != None { return Null; }
        if closed { return Array(elements); }
      }
    }

    /** One turn of the loop: a value, then the closing bracket or a comma. */
    method ParseElement(elements: seq<Json>) returns (out: seq<Json>, closed: bool)
      requires Valid() && error == None
      modifies this
      ensures error != None ==> Did(ScanElements(lib, old(Unread()), elements))
      ensures error == None ==> Valid() && old(pos) < pos
      ensures error == None
              ==> ScanElements(lib, old(Unread()), elements)
                  == if closed then Good(Array(out), Unread()) else ScanElements(lib, Unread(), out)
      decreases |input| - pos, 2
    {
      hide SkipSpace, ScanValue, ScanElements, Line, Column;
      ghost var t := Unread();
      SkipWhitespace();
      out, closed := elements, false;
      var v := ParseValue();
      if error != None {
        ElementsFault(lib, t, elements);
        return;
      }
      ElementsTurn(lib, t, elements);
      out := elements + [v];
      SkipWhitespace();
      var c := PeekByte();
      if c == CLOSE_BRACKET {
        var _ := Advance();
        closed := true;
        return;
      }
      if c != COMMA {
        SetError(ExpectedCommaOrBracket);
        return;
      }
      var _ := Advance();
    }

    /** parse: on success the value, with no error; on failure null, with the position of the
        first problem. */
    method ParseDocument() returns (r: Json)
      requires Valid() && pos == 0 && error == None
      modifies this
      ensures match Parse(lib, input)
              case Good(v, _) => error == None && r == v
              case Fault(left, problem) => left <= |input| && error == Some(ErrorAt(left, problem)) && r == Null
    {
      assert Unread() == input;
      SkipWhitespace();
      if pos >= |input| {
        SetError(UnexpectedEnd);
        return Null;
      }
      r := ParseValue();
      if error != None { return Null; }
      SkipWhitespace();
      if pos < |input| {
        SetError(TrailingCharacters);
        return Null;
      }
    }
  }
}
