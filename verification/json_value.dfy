/** The JSON DOM and its printer (src/mcp/json_rpc.cpp, include/nexus/mcp/json_rpc.h). */
module JsonValue {
  import opened Basics
  import opened Decimal

  type i64 = n: int | -0x8000_0000_0000_0000 <= n < 0x8000_0000_0000_0000

  datatype Member = Member(key: bytes, value: Json)

  /** Doubles are opaque bit patterns. */
  datatype Json =
    | Null
    | Bool(b: bool)
    | Integer(n: i64)
    | Double(bits: nat)
    | Str(s: bytes)
    | Object(members: seq<Member>)
    | Array(elements: seq<Json>)

  /** The C library's floating point: snprintf("%.17g"), and strtod giving the value and the
      characters used, or None when it reports failure. */
  datatype FloatLib = FloatLib(format: nat -> bytes, scan: bytes -> Option<(nat, nat)>)

  // ---- JsonValue::set ----

  /** Overwrites in place, or appends. */
  function Set(members: seq<Member>, key: bytes, value: Json): seq<Member> {
    if members == [] then [Member(key, value)]
    else if members[0].key == key then [Member(key, value)] + members[1..]
    else [members[0]] + Set(members[1..], key, value)
  }

  function Keys(members: seq<Member>): seq<bytes> {
    seq(|members|, i requires 0 <= i < |members| => members[i].key)
  }

  predicate Distinct(members: seq<Member>) {
    forall i, j :: 0 <= i < j < |members| ==> members[i].key != members[j].key
  }

  method SetMember(members: seq<Member>, key: bytes, value: Json) returns (out: seq<Member>)
    ensures out == Set(members, key, value)
  {
    for i := 0 to |members|
      invariant forall j :: 0 <= j < i ==> members[j].key != key
    {
      if members[i].key == key {
        SetAt(members, key, value, i);
        return members[..i] + [Member(key, value)] + members[i + 1..];
      }
    }
    SetAt(members, key, value, |members|);
    out := members + [Member(key, value)];
  }

  /** Where set writes: over the first member with that key, or behind the last member. */
  lemma {:induction false} SetAt(members: seq<Member>, key: bytes, value: Json, i: nat)
    requires i <= |members| && forall j :: 0 <= j < i ==> members[j].key != key
    requires i < |members| ==> members[i].key == key
    ensures Set(members, key, value)
         == members[..i] + [Member(key, value)] + (if i < |members| then members[i + 1..] else [])
  {
    if i > 0 {
      SetAt(members[1..], key, value, i - 1);
      assert members[..i] == [members[0]] + members[1..][..i - 1];
      assert i < |members| ==> members[i + 1..] == members[1..][i..];
    }
  }

  /** set on distinct keys keeps them distinct and in order, stores the value under the key
      and touches no other member. */
  lemma {:induction false} SetSemantics(members: seq<Member>, key: bytes, value: Json)
    requires Distinct(members)
    ensures var out := Set(members, key, value);
            && Distinct(out)
            && |members| <= |out| <= |members| + 1
            && (forall i :: 0 <= i < |members| ==> out[i].key == members[i].key)
            && (forall i :: 0 <= i < |members| && members[i].key != key ==> out[i] == members[i])
            && (forall i :: 0 <= i < |out| && out[i].key == key ==> out[i].value == value)
            && (|out| == |members| <==> exists i :: 0 <= i < |members| && members[i].key == key)
            && exists i :: 0 <= i < |out| && out[i] == Member(key, value)
  {
    var i := FirstWith(members, key);
    SetAt(members, key, value, i);
    if i < |members| {
      assert Set(members, key, value) == members[i := Member(key, value)];
      hide Set, FirstWith;
      OverwriteSemantics(members, i, Member(key, value));
    } else {
      assert members[..i] == members && Set(members, key, value) == members + [Member(key, value)];
      hide Set, FirstWith;
      AppendSemantics(members, Member(key, value));
    }
  }

  lemma {:induction false} OverwriteSemantics(members: seq<Member>, i: nat, m: Member)
    requires Distinct(members) && i < |members| && members[i].key == m.key
    ensures var out := members[i := m];
            && Distinct(out) && out[i] == m
            && (forall j :: 0 <= j < |members| ==> out[j].key == members[j].key)
            && (forall j :: 0 <= j < |members| && members[j].key != m.key ==> out[j] == members[j])
            && (forall j :: 0 <= j < |out| && out[j].key == m.key ==> out[j].value == m.value)
  {
  }

  lemma {:induction false} AppendSemantics(members: seq<Member>, m: Member)
    requires Distinct(members) && forall j :: 0 <= j < |members| ==> members[j].key != m.key
    ensures var out := members + [m];
            && Distinct(out) && out[|members|] == m
            && (forall j :: 0 <= j < |members| ==> out[j] == members[j])
            && (forall j :: 0 <= j < |out| && out[j].key == m.key ==> out[j].value == m.value)
  {
  }

  function FirstWith(members: seq<Member>, key: bytes): (i: nat)
    ensures i <= |members|
    ensures forall j :: 0 <= j < i ==> members[j].key != key
    ensures i < |members| ==> members[i].key == key
  {
    if members == [] || members[0].key == key then 0 else 1 + FirstWith(members[1..], key)
  }

  /** JsonValue::get: the first member with that key. */
  function Get(ms: seq<Member>, key: bytes): Option<Json> {
    if ms == [] then None
    else if ms[0].key == key then Some(ms[0].value)
    else Get(ms[1..], key)
  }

  /** What set stores is what get finds; every other key keeps its value. */
  lemma {:induction false} GetAfterSet(ms: seq<Member>, key: bytes, value: Json, k: bytes)
    ensures Get(Set(ms, key, value), k) == if k == key then Some(value) else Get(ms, k)
  {
    if ms != [] {
      if ms[0].key == key {
        assert Set(ms, key, value)[1..] == ms[1..];
      } else {
        assert Set(ms, key, value)[1..] == Set(ms[1..], key, value);
        GetAfterSet(ms[1..], key, value, k);
      }
    }
  }

  /** set keeps the keys there are, and adds a new one behind them. */
  lemma {:induction false} KeysAfterSet(members: seq<Member>, key: bytes, value: Json)
    ensures Keys(Set(members, key, value)) == if key in Keys(members) then Keys(members) else Keys(members) + [key]
  {
    KeysUnfold(members);
    if members != [] {
      var rest := members[1..];
      hide Keys;
      if members[0].key != key {
        KeysAfterSet(rest, key, value);
        KeysCons(members[0], Set(rest, key, value));
        assert members[0].key !in [key];
      } else {
        KeysCons(Member(key, value), rest);
      }
    }
  }

  lemma {:induction false} KeysUnfold(members: seq<Member>)
    ensures Keys(members) == if members == [] then [] else [members[0].key] + Keys(members[1..])
  {
  }

  lemma {:induction false} KeysCons(m: Member, rest: seq<Member>)
    ensures Keys([m] + rest) == [m.key] + Keys(rest)
  {
  }

  /** Values built through the API: members set one by one, so keys are distinct. */
  predicate WellBuilt(v: Json) {
    match v
    case Object(members) => Distinct(members) && forall i :: 0 <= i < |members| ==> WellBuilt(members[i].value)
    case Array(elements) => forall i :: 0 <= i < |elements| ==> WellBuilt(elements[i])
    case _ => true
  }

  predicate DoubleFree(v: Json) {
    match v
    case Double(_) => false
    case Object(members) => forall i :: 0 <= i < |members| ==> DoubleFree(members[i].value)
    case Array(elements) => forall i :: 0 <= i < |elements| ==> DoubleFree(elements[i])
    case _ => true
  }

  // ---- serialization ----

  const QUOTE: byte := 34
  const BACKSLASH: byte := 92
  const COMMA: byte := 44
  const COLON: byte := 58
  const MINUS: byte := 45
  const OPEN_BRACE: byte := 123
  const CLOSE_BRACE: byte := 125
  const OPEN_BRACKET: byte := 91
  const CLOSE_BRACKET: byte := 93
  const LETTER_U: byte := 117

  /** A digit of %04x. */
  function HexDigit(d: nat): (b: byte)
    requires d < 16
    ensures b >= 0x20
  {
    if d < 10 then 48 + d else 87 + d
  }

  function EscapeByte(c: byte): (r: bytes)
    ensures forall i :: 0 <= i < |r| ==> r[i] >= 0x20
  {
    if c == QUOTE then [BACKSLASH, QUOTE]
    else if c == BACKSLASH then [BACKSLASH, BACKSLASH]
    else if c == 8 then [BACKSLASH, 98]
    else if c == 12 then [BACKSLASH, 102]
    else if c == 10 then [BACKSLASH, 110]
    else if c == 13 then [BACKSLASH, 114]
    else if c == 9 then [BACKSLASH, 116]
    else if c < 0x20 then [BACKSLASH, LETTER_U, 48, 48, HexDigit(c / 16), HexDigit(c % 16)]
    else [c]
  }

  function Escaped(s: bytes): bytes {
    if s == [] then [] else EscapeByte(s[0]) + Escaped(s[1..])
  }

  function StringText(s: bytes): bytes {
    [QUOTE] + Escaped(s) + [QUOTE]
  }

  function IntegerText(n: i64): bytes {
    var m: int := n;
    if m < 0 then [MINUS] + Digits(-m) else Digits(m)
  }

  function MemberText(lib: FloatLib, m: Member): bytes
    decreases m
  {
    StringText(m.key) + [COLON] + Text(lib, m.value)
  }

  function MembersText(lib: FloatLib, ms: seq<Member>): bytes
    decreases ms
  {
    if ms == [] then []
    else MemberText(lib, ms[0]) + (if |ms| > 1 then [COMMA] + MembersText(lib, ms[1..]) else [])
  }

  function ElementsText(lib: FloatLib, vs: seq<Json>): bytes
    decreases vs
  {
    if vs == [] then []
    else Text(lib, vs[0]) + (if |vs| > 1 then [COMMA] + ElementsText(lib, vs[1..]) else [])
  }

  /** JsonValue::serialize */
  function Text(lib: FloatLib, v: Json): bytes
    decreases v
  {
    match v
    case Null => Ascii("null")
    case Bool(b) => if b then Ascii("true") else Ascii("false")
    case Integer(n) => IntegerText(n)
    case Double(bits) => lib.format(bits)
    case Str(s) => StringText(s)
    case Object(members) => [OPEN_BRACE] + MembersText(lib, members) + [CLOSE_BRACE]
    case Array(elements) => [OPEN_BRACKET] + ElementsText(lib, elements) + [CLOSE_BRACKET]
  }

  lemma {:induction false} EscapedSnoc(s: bytes, c: byte)
    ensures Escaped(s + [c]) == Escaped(s) + EscapeByte(c)
  {
    if s == [] {
      assert (s + [c])[1..] == [];
    } else {
      assert (s + [c])[1..] == s[1..] + [c];
      EscapedSnoc(s[1..], c);
    }
  }

  lemma {:induction false} SnocJoins(head: bytes, tail: bytes, last: bytes)
    ensures head + ([COMMA] + (tail + [COMMA] + last)) == (head + ([COMMA] + tail)) + [COMMA] + last
    ensures head + ([COMMA] + ([] + [] + last)) == (head + []) + [COMMA] + last
  {
    assert [] + [] + last == last;
  }

  lemma {:induction false} StepJoins(out: bytes, text: bytes, comma: bytes, item: bytes)
    ensures out + text + comma + item == out + (text + comma + item)
    ensures out + text + [] == out + text
  {
  }

  lemma {:induction false} MembersTextSnoc(lib: FloatLib, ms: seq<Member>, m: Member)
    ensures MembersText(lib, ms + [m])
         == MembersText(lib, ms) + (if ms == [] then [] else [COMMA]) + MemberText(lib, m)
    decreases |ms|
  {
    if ms == [] {
      assert ms + [m] == [m];
    } else {
      hide MemberText;
      assert (ms + [m])[1..] == ms[1..] + [m];
      MembersTextSnoc(lib, ms[1..], m);
      var head, tail, last := MemberText(lib, ms[0]), MembersText(lib, ms[1..]), MemberText(lib, m);
      SnocJoins(head, tail, last);
    }
  }

  lemma {:induction false} ElementsTextSnoc(lib: FloatLib, vs: seq<Json>, v: Json)
    ensures ElementsText(lib, vs + [v])
         == ElementsText(lib, vs) + (if vs == [] then [] else [COMMA]) + Text(lib, v)
    decreases |vs|
  {
    if vs == [] {
      assert vs + [v] == [v];
    } else {
      hide Text;
      assert (vs + [v])[1..] == vs[1..] + [v];
      ElementsTextSnoc(lib, vs[1..], v);
      var head, tail, last := Text(lib, vs[0]), ElementsText(lib, vs[1..]), Text(lib, v);
      SnocJoins(head, tail, last);
    }
  }

  /** serializeString: appends to out. */
  method SerializeString(s: bytes, out: bytes) returns (r: bytes)
    ensures r == out + StringText(s)
  {
    r := out + [QUOTE];
    ghost var text: bytes := [];
    for i := 0 to |s|
      invariant r == out + [QUOTE] + text && text == Escaped(s[..i])
    {
      assert s[..i + 1] == s[..i] + [s[i]];
      EscapedSnoc(s[..i], s[i]);
      hide Escaped, EscapeByte;
      Assoc(out + [QUOTE], text, EscapeByte(s[i]));
      r := r + EscapeByte(s[i]);
      text := text + EscapeByte(s[i]);
    }
    assert s[..|s|] == s;
    r := r + [QUOTE];
  }

  /** serializeValue: appends to out. */
  method SerializeValue(lib: FloatLib, v: Json, out: bytes) returns (r: bytes)
    ensures r == out + Text(lib, v)
    decreases v
  {
    match v
    case Null => r := out + Ascii("null");
    case Bool(b) => r := out + if b then Ascii("true") else Ascii("false");
    case Integer(n) => r := out + IntegerText(n);
    case Double(bits) => r := out + lib.format(bits);
    case Str(s) => r := SerializeString(s, out);
    case Object(members) =>
      r := SerializeMembers(lib, members, out + [OPEN_BRACE]);
      r := r + [CLOSE_BRACE];
    case Array(elements) =>
      r := SerializeElements(lib, elements, out + [OPEN_BRACKET]);
      r := r + [CLOSE_BRACKET];
  }

  method SerializeMember(lib: FloatLib, m: Member, first: bool, out: bytes) returns (r: bytes)
    ensures r == out + (if first then [] else [COMMA]) + MemberText(lib, m)
    decreases m
  {
    r := out;
    if !first { r := r + [COMMA]; }
    r := SerializeString(m.key, r);
    r := r + [COLON];
    r := SerializeValue(lib, m.value, r);
  }

  /** The object case of serializeValue. */
  method SerializeMembers(lib: FloatLib, members: seq<Member>, out: bytes) returns (r: bytes)
    ensures r == out + MembersText(lib, members)
    decreases members
  {
    r := out;
    var first := true;
    for i := 0 to |members|
      invariant first == (i == 0)
      invariant r == out + MembersText(lib, members[..i])
    {
      assert members[..i + 1] == members[..i] + [members[i]];
      MembersTextSnoc(lib, members[..i], members[i]);
      hide *;
      StepJoins(out, MembersText(lib, members[..i]), if first then [] else [COMMA], MemberText(lib, members[i]));
      r := SerializeMember(lib, members[i], first, r);
      first := false;
    }
    assert members[..|members|] == members;
  }

  /** The array case of serializeValue. */
  method SerializeElements(lib: FloatLib, elements: seq<Json>, out: bytes) returns (r: bytes)
    ensures r == out + ElementsText(lib, elements)
    decreases elements
  {
    r := out;
    var first := true;
    for i := 0 to |elements|
      invariant first == (i == 0)
      invariant r == out + ElementsText(lib, elements[..i])
    {
      assert elements[..i + 1] == elements[..i] + [elements[i]];
      ElementsTextSnoc(lib, elements[..i], elements[i]);
      hide *;
      StepJoins(out, ElementsText(lib, elements[..i]), if first then [] else [COMMA], Text(lib, elements[i]));
      if !first { r := r + [COMMA]; }
      first := false;
      r := SerializeValue(lib, elements[i], r);
    }
    assert elements[..|elements|] == elements;
  }
}
