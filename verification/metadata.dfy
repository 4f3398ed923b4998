/** Metadata blocks: the Protobuf wire format of map<string, string> (src/rpc/frame_codec.cpp). */
module Metadata {
  import opened Basics
  import opened Wire

  type Meta = map<bytes, bytes>

  const TAG_ENTRY: byte := 0x0A
  const TAG_KEY: byte := 0x0A
  const TAG_VALUE: byte := 0x12
  const WIRE_LEN_DELIM: byte := 2

  // ---- the in-order traversal of a std::map<std::string, std::string> ----

  datatype Pair = Pair(key: bytes, value: bytes)

  /** std::string's operator<: byte-wise lexicographic. */
  predicate Less(a: bytes, b: bytes) {
    b != [] && (a == [] || a[0] < b[0] || (a[0] == b[0] && Less(a[1..], b[1..])))
  }

  /** Less is the order of a dictionary: at the first difference, or when one text ends. */
  lemma {:induction false} LessIsLexicographic(a: bytes, b: bytes)
    ensures Less(a, b)
            <==> exists k :: 0 <= k <= |a| && k < |b| && a[..k] == b[..k] && (k == |a| || a[k] < b[k])
  {
    if Less(a, b) {
      if a == [] || a[0] < b[0] {
        assert a[..0] == b[..0];
      } else {
        LessIsLexicographic(a[1..], b[1..]);
        var k :| 0 <= k <= |a[1..]| && k < |b[1..]| && a[1..][..k] == b[1..][..k]
                 && (k == |a[1..]| || a[1..][k] < b[1..][k]);
        assert a[..k + 1] == [a[0]] + a[1..][..k] && b[..k + 1] == [b[0]] + b[1..][..k];
      }
    }
    if k :| 0 <= k <= |a| && k < |b| && a[..k] == b[..k] && (k == |a| || a[k] < b[k]) {
      if k > 0 {
        assert a[0] == a[..k][0] == b[..k][0] == b[0];
        assert a[1..][..k - 1] == a[..k][1..] && b[1..][..k - 1] == b[..k][1..];
        LessIsLexicographic(a[1..], b[1..]);
      }
    }
  }

  lemma {:induction false} LessTotal(a: bytes, b: bytes)
    ensures a == b || Less(a, b) || Less(b, a)
  {
    if a != [] && b != [] && a[0] == b[0] {
      LessTotal(a[1..], b[1..]);
      assert a == [a[0]] + a[1..] && b == [b[0]] + b[1..];
    }
  }

  lemma {:induction false} LessTransitive(a: bytes, b: bytes, c: bytes)
    requires Less(a, b) && Less(b, c)
    ensures Less(a, c)
  {
    if a != [] && a[0] == b[0] == c[0] {
      LessTransitive(a[1..], b[1..], c[1..]);
    }
  }

  lemma {:induction false} LessIrreflexive(a: bytes)
    ensures !Less(a, a)
  {
    if a != [] {
      LessIrreflexive(a[1..]);
    }
  }

  ghost predicate IsLeast(k: bytes, keys: set<bytes>) {
    k in keys && forall other :: other in keys && other != k ==> Less(k, other)
  }

  lemma {:induction false} LeastExists(keys: set<bytes>)
    requires keys != {}
    ensures exists k :: IsLeast(k, keys)
  {
    var k :| k in keys;
    var rest := keys - {k};
    if rest == {} {
      assert keys == {k};
      assert IsLeast(k, keys);
    } else {
      LeastExists(rest);
      var l :| IsLeast(l, rest);
      LessTotal(k, l);
      var best := if Less(l, k) then l else k;
      forall other | other in keys && other != best ensures Less(best, other) {
        if other != k && other != l {
          assert Less(l, other);
          if best == k { LessTransitive(k, l, other); }
        }
      }
      assert IsLeast(best, keys);
    }
  }

  ghost function Least(keys: set<bytes>): (k: bytes)
    requires keys != {}
    ensures IsLeast(k, keys)
  {
    LeastExists(keys);
    var k :| IsLeast(k, keys);
    k
  }

  /** The entries of m in iteration order. */
  ghost function Entries(m: Meta): seq<Pair>
    decreases |m|
  {
    if m == map[] then []
    else
      var k := Least(m.Keys);
      [Pair(k, m[k])] + Entries(m - {k})
  }

  /** Insertion of the entries one after another: a repeated key keeps the later value. */
  function Insert(m: Meta, entries: seq<Pair>): Meta
    decreases |entries|
  {
    if entries == [] then m else Insert(m[entries[0].key := entries[0].value], entries[1..])
  }

  predicate Ascending(entries: seq<Pair>) {
    forall i, j :: 0 <= i < j < |entries| ==> Less(entries[i].key, entries[j].key)
  }

  lemma {:induction false} InsertAllIsMerge(m: Meta, entries: seq<Pair>)
    ensures Insert(m, entries) == m + Insert(map[], entries)
    decreases |entries|
  {
    if entries != [] {
      var e := entries[0];
      InsertAllIsMerge(m[e.key := e.value], entries[1..]);
      InsertAllIsMerge(map[][e.key := e.value], entries[1..]);
    }
  }

  lemma {:induction false} EntriesHoldTheMap(m: Meta)
    ensures Insert(map[], Entries(m)) == m
    decreases |m|
  {
    if m != map[] {
      var k := Least(m.Keys);
      EntriesHoldTheMap(m - {k});
      assert Entries(m)[0] == Pair(k, m[k]) && Entries(m)[1..] == Entries(m - {k});
      InsertAllIsMerge(map[][k := m[k]], Entries(m - {k}));
    }
  }

  lemma {:induction false} InsertKeys(entries: seq<Pair>, k: bytes)
    ensures k in Insert(map[], entries) <==> exists i :: 0 <= i < |entries| && entries[i].key == k
    decreases |entries|
  {
    if entries != [] {
      InsertAllIsMerge(map[][entries[0].key := entries[0].value], entries[1..]);
      InsertKeys(entries[1..], k);
      if k in Insert(map[], entries[1..]) {
        var i :| 0 <= i < |entries[1..]| && entries[1..][i].key == k;
        assert entries[i + 1].key == k;
      }
    }
  }

  /** The first entry of an ascending list is the least key of the map, and removing it
      leaves the map of the rest. */
  lemma {:induction false} AscendingHead(entries: seq<Pair>)
    requires entries != [] && Ascending(entries)
    ensures var m := Insert(map[], entries);
            m != map[] && Least(m.Keys) == entries[0].key && m[entries[0].key] == entries[0].value
            && m - {entries[0].key} == Insert(map[], entries[1..])
  {
    var e, rest := entries[0], Insert(map[], entries[1..]);
    var m := Insert(map[], entries);
    InsertAllIsMerge(map[][e.key := e.value], entries[1..]);
    InsertKeys(entries[1..], e.key);
    LessIrreflexive(e.key);
    var k := Least(m.Keys);
    if k != e.key {
      InsertKeys(entries[1..], k);
      LessTransitive(k, e.key, k);
      LessIrreflexive(k);
    }
  }

  /** A strictly ascending list is the traversal of the map it builds. */
  lemma {:induction false} AscendingIsTraversal(entries: seq<Pair>)
    requires Ascending(entries)
    ensures Entries(Insert(map[], entries)) == entries
    decreases |entries|
  {
    if entries != [] {
      AscendingHead(entries);
      AscendingIsTraversal(entries[1..]);
    }
  }

  /** The map an ascending list stands for. */
  ghost function MapOf(entries: seq<Pair>): Meta {
    Insert(map[], entries)
  }

  lemma {:induction false} LookUp(entries: seq<Pair>, i: nat)
    requires Ascending(entries) && i < |entries|
    ensures entries[i].key in MapOf(entries) && MapOf(entries)[entries[i].key] == entries[i].value
    decreases |entries|
  {
    var e, rest := entries[0], entries[1..];
    InsertAllIsMerge(map[][e.key := e.value], rest);
    if i == 0 {
      InsertKeys(rest, e.key);
      LessIrreflexive(e.key);
    } else {
      LookUp(rest, i - 1);
    }
  }

  lemma {:induction false} MapOfKeys(entries: seq<Pair>, k: bytes)
    ensures k in MapOf(entries) <==> exists i :: 0 <= i < |entries| && entries[i].key == k
  {
    InsertKeys(entries, k);
  }

  /** Ascending lists with the same keys and values stand for the same map. */
  lemma {:induction false} MapOfIs(entries: seq<Pair>, m: Meta)
    requires Ascending(entries)
    requires forall i :: 0 <= i < |entries| ==> entries[i].key in m && m[entries[i].key] == entries[i].value
    requires forall k :: k in m ==> exists i :: 0 <= i < |entries| && entries[i].key == k
    ensures MapOf(entries) == m
  {
    forall k ensures k in MapOf(entries) <==> k in m {
      InsertKeys(entries, k);
    }
    forall k | k in m ensures MapOf(entries)[k] == m[k] {
      var i :| 0 <= i < |entries| && entries[i].key == k;
      LookUp(entries, i);
    }
  }

  /** meta[key] = value on a std::map. */
  method SetKey(meta: seq<Pair>, key: bytes, value: bytes) returns (out: seq<Pair>)
    requires Ascending(meta)
    ensures Ascending(out) && MapOf(out) == MapOf(meta)[key := value]
  {
    var i := 0;
    while i < |meta| && Less(meta[i].key, key)
      invariant 0 <= i <= |meta|
      invariant forall j :: 0 <= j < i ==> Less(meta[j].key, key)
    {
      i := i + 1;
    }
    forall j | i <= j < |meta| ensures (meta[j].key == key && j == i) || Less(key, meta[j].key) {
      LessTotal(meta[i].key, key);
      if j > i && Less(key, meta[i].key) { LessTransitive(key, meta[i].key, meta[j].key); }
    }
    var next := if i < |meta| && meta[i].key == key then i + 1 else i;
    out := meta[..i] + [Pair(key, value)] + meta[next..];
    SetKeyIsUpdate(meta, key, value, i, next);
  }

  lemma {:induction false} SetKeyIsUpdate(meta: seq<Pair>, key: bytes, value: bytes, i: nat, next: nat)
    requires Ascending(meta) && i <= next <= |meta| && next <= i + 1
    requires next == i + 1 ==> meta[i].key == key
    requires forall j :: 0 <= j < i ==> Less(meta[j].key, key)
    requires forall j :: next <= j < |meta| ==> Less(key, meta[j].key)
    ensures var out := meta[..i] + [Pair(key, value)] + meta[next..];
            Ascending(out) && MapOf(out) == MapOf(meta)[key := value]
  {
    hide MapOf, Less;
    var out := meta[..i] + [Pair(key, value)] + meta[next..];
    var m := MapOf(meta)[key := value];
    forall a, b | 0 <= a < b < |out| ensures Less(out[a].key, out[b].key) {
      if a < i && b > i { LessTransitive(out[a].key, key, out[b].key); }
    }
    forall j | 0 <= j < |out| ensures out[j].key in m && m[out[j].key] == out[j].value {
      if j != i {
        LookUp(meta, if j < i then j else j - i - 1 + next);
        LessIrreflexive(key);
      }
    }
    forall k | k in m ensures exists j :: 0 <= j < |out| && out[j].key == k {
      if k == key {
        assert out[i].key == k;
      } else {
        MapOfKeys(meta, k);
        var j :| 0 <= j < |meta| && meta[j].key == k;
        assert out[if j < i then j else j - next + i + 1].key == k;
      }
    }
    MapOfIs(out, m);
  }

  // ---- encoding ----

  /** inner_size, computed in uint32 arithmetic from lengths cast to uint32. */
  function InnerSize(key: bytes, value: bytes): u32 {
    var keyLen, valLen := ToU32(|key|), ToU32(|value|);
    ToU32(2 + VarintByteSize(keyLen) + keyLen + VarintByteSize(valLen) + valLen)
  }

  function InnerBytes(key: bytes, value: bytes): bytes {
    [TAG_KEY] + VarintBytes(ToU32(|key|)) + key + [TAG_VALUE] + VarintBytes(ToU32(|value|)) + value
  }

  function EncodePair(p: Pair): bytes {
    [TAG_ENTRY] + VarintBytes(InnerSize(p.key, p.value)) + InnerBytes(p.key, p.value)
  }

  function EncodeEntries(entries: seq<Pair>): bytes {
    if entries == [] then [] else EncodePair(entries[0]) + EncodeEntries(entries[1..])
  }

  ghost function EncodeMeta(m: Meta): bytes {
    EncodeEntries(Entries(m))
  }

  /** The declared size of an entry is the number of bytes emitted for it exactly when
      that number fits the uint32 it is held in. */
  lemma {:induction false} InnerSizeExact(key: bytes, value: bytes)
    ensures InnerSize(key, value) == |InnerBytes(key, value)| <==> |InnerBytes(key, value)| < 0x1_0000_0000
  {
    VarintSizeExact(ToU32(|key|));
    VarintSizeExact(ToU32(|value|));
  }

  lemma {:induction false} EncodeEntriesSnoc(entries: seq<Pair>, i: nat)
    requires i < |entries|
    ensures EncodeEntries(entries[..i + 1]) == EncodeEntries(entries[..i]) + EncodePair(entries[i])
  {
    EncodeEntriesAppend(entries[..i], [entries[i]]);
    assert entries[..i + 1] == entries[..i] + [entries[i]];
  }

  lemma {:induction false} EncodeEntriesAppend(a: seq<Pair>, b: seq<Pair>)
    ensures EncodeEntries(a + b) == EncodeEntries(a) + EncodeEntries(b)
  {
    if a == [] {
      assert a + b == b;
    } else {
      assert (a + b)[1..] == a[1..] + b;
      EncodeEntriesAppend(a[1..], b);
    }
  }

  method AppendPair(buf: bytes, p: Pair) returns (out: bytes)
    ensures out == buf + EncodePair(p)
  {
    var keyLen, valLen := ToU32(|p.key|), ToU32(|p.value|);
    var innerSize := ToU32(2 + VarintByteSize(keyLen) + keyLen + VarintByteSize(valLen) + valLen);
    out := AppendVarint32(buf + [TAG_ENTRY], innerSize);
    ghost var head := out;
    out := AppendVarint32(out + [TAG_KEY], keyLen);
    out := AppendVarint32(out + p.key + [TAG_VALUE], valLen);
    out := out + p.value;
    AppendInner(head, p.key, p.value);
    Assoc(buf, [TAG_ENTRY], VarintBytes(innerSize));
    Assoc(buf, [TAG_ENTRY] + VarintBytes(innerSize), InnerBytes(p.key, p.value));
    hide VarintBytes, InnerBytes;
  }

  lemma {:induction false} AppendInner(head: bytes, key: bytes, value: bytes)
    ensures head + [TAG_KEY] + VarintBytes(ToU32(|key|)) + key + [TAG_VALUE] + VarintBytes(ToU32(|value|)) + value
         == head + InnerBytes(key, value)
  {
    hide VarintBytes;
  }

  /** encodeMetadata, over the in-order traversal of the map. */
  method EncodeMetadata(meta: seq<Pair>) returns (buf: bytes)
    requires Ascending(meta)
    ensures buf == EncodeMeta(MapOf(meta))
  {
    buf := [];
    for i := 0 to |meta|
      invariant buf == EncodeEntries(meta[..i])
    {
      EncodeEntriesSnoc(meta, i);
      buf := AppendPair(buf, meta[i]);
    }
    assert meta[..|meta|] == meta;
    AscendingIsTraversal(meta);
  }

  /** The encoded size is the sum over the entries, whatever their order. */
  lemma {:induction false} EncodeMetaAdds(m: Meta, key: bytes, value: bytes)
    requires key !in m
    ensures |EncodeMeta(m[key := value])| == |EncodeMeta(m)| + |EncodePair(Pair(key, value))|
    decreases |m|
  {
    var m' := m[key := value];
    var k := Least(m'.Keys);
    hide EncodePair;
    if k == key {
      assert m' - {k} == m;
    } else {
      assert m != map[] && IsLeast(k, m.Keys);
      LeastUnique(k, m.Keys);
      assert m' - {k} == (m - {k})[key := value];
      EncodeMetaAdds(m - {k}, key, value);
    }
  }

  lemma {:induction false} LeastUnique(k: bytes, keys: set<bytes>)
    requires IsLeast(k, keys)
    ensures Least(keys) == k
  {
    var l := Least(keys);
    if l != k {
      LessTransitive(k, l, k);
      LessIrreflexive(k);
    }
  }

  // ---- decoding ----

  /** A length-delimited chunk at the head of s: one tag byte, a varint length, the payload.
      left is the distance to the end of the enclosing block; s runs to the end of the
      backing bytes. As in the source, the length is compared with the room left before the
      varint is skipped, so a chunk may reach past its block. */
  datatype Chunk =
    | Chunk(payload: bytes, rest: bytes)
    | BadChunk
    | BeyondChunk   // the chunk ends past the end of the backing bytes

  function ReadChunk(s: bytes, left: nat): (c: Chunk)
    requires 0 < left <= |s|
    ensures c.Chunk? ==> |c.payload| + |c.rest| < |s|
    ensures c.Chunk? ==> |s| - |c.rest| <= left + VARINT_MAX_BYTES
    ensures c.BeyondChunk? ==> |s| < left + VARINT_MAX_BYTES
  {
    match ReadVarint(s[1..left])
    case None => BadChunk
    case Some((len, n)) =>
      if len > left - 1 then BadChunk
      else if 1 + n + len > |s| then BeyondChunk
      else Chunk(s[1 + n..1 + n + len], s[1 + n + len..])
  }

  /** The same step at a cursor; `start` and `next` delimit the payload. */
  method ReadChunkAt(data: bytes, pos: nat, end: nat) returns (result: ParseResult, start: nat, next: nat)
    requires pos < end <= |data|
    ensures match ReadChunk(data[pos..], end - pos)
            case BadChunk => result == MetadataParseError
            case BeyondChunk => result == Undefined
            case Chunk(payload, rest) =>
              result == Ok && pos < start <= next <= |data| && payload == data[start..next] && rest == data[next..]
  {
    ghost var s := data[pos..];
    assert s[1..end - pos] == data[pos + 1..end];
    var r := DecodeVarint(data[pos + 1..end]);
    if r == None || r.value.0 > end - (pos + 1) { return MetadataParseError, 0, 0; }
    var (len, consumed) := r.value;
    start := pos + 1 + consumed;
    next := start + len;
    if next > |data| { return Undefined, 0, 0; }
    assert s[1 + consumed..1 + consumed + len] == data[start..next];
    assert s[1 + consumed + len..] == data[next..];
    result := Ok;
  }

  datatype Entry = Entry(key: Option<bytes>, value: bytes)

  const NO_FIELDS := Entry(None, [])

  /** Field 1 is the key, field 2 the value; other fields are skipped. */
  function Assign(e: Entry, number: nat, payload: bytes): Entry {
    if number == 1 then e.(key := Some(payload))
    else if number == 2 then e.(value := payload)
    else e
  }

  datatype FieldsResult =
    | Fields(rest: bytes, entry: Entry)
    | BadFields
    | FieldsBeyond

  /** The inner loop; left = entry_end - pos, negative once a field has overrun its entry. */
  function DecodeFields(s: bytes, left: int, e: Entry): (r: FieldsResult)
    requires left <= |s|
    ensures r.Fields? ==> |r.rest| <= |s|
    decreases |s|
  {
    if left <= 0 then Fields(s, e)
    else if s[0] % 8 != WIRE_LEN_DELIM then BadFields
    else
      match ReadChunk(s, left)
      case BadChunk => BadFields
      case BeyondChunk => FieldsBeyond
      case Chunk(payload, rest) =>
        DecodeFields(rest, left - (|s| - |rest|), Assign(e, s[0] / 8, payload))
  }

  datatype MetaResult =
    | MetaOk(meta: Meta)
    | MetaBad(meta: Meta)   // entries before the faulty one are already stored
    | MetaBeyond(meta: Meta)

  function Verdict(r: MetaResult): ParseResult {
    match r
    case MetaOk(_) => Ok
    case MetaBad(_) => MetadataParseError
    case MetaBeyond(_) => Undefined
  }

  datatype EntryResult =
    | Stored(next: bytes, key: bytes, value: bytes)
    | BadEntry
    | BeyondEntry

  /** One turn of the outer loop: an entry chunk whose fields include a key. */
  function ReadEntry(s: bytes, left: nat): (r: EntryResult)
    requires 0 < left <= |s|
    ensures r.Stored? ==> |r.next| < |s|
  {
    if s[0] != TAG_ENTRY then BadEntry
    else
      match ReadChunk(s, left)
      case BadChunk => BadEntry
      case BeyondChunk => BeyondEntry
      case Chunk(payload, rest) =>
        match DecodeFields(payload + rest, |payload|, NO_FIELDS)
        case BadFields => BadEntry
        case FieldsBeyond => BeyondEntry
        case Fields(next, e) =>
          if e.key == None then BadEntry else Stored(next, e.key.value, e.value)
  }

  /** The outer loop; left = end - pos. */
  function DecodeEntries(s: bytes, left: int, m: Meta): MetaResult
    requires left <= |s|
    decreases |s|
  {
    if left <= 0 then MetaOk(m)
    else
      match ReadEntry(s, left)
      case BadEntry => MetaBad(m)
      case BeyondEntry => MetaBeyond(m)
      case Stored(next, key, value) => DecodeEntries(next, left - (|s| - |next|), m[key := value])
  }

  /** The inner loop of decodeMetadata as the source runs it, over cursor positions. */
  method DecodeEntryFields(data: bytes, start: nat, entryEnd: nat)
    returns (result: ParseResult, pos: nat, e: Entry)
    requires start <= entryEnd <= |data|
    ensures match DecodeFields(data[start..], entryEnd - start, NO_FIELDS)
            case BadFields => result == MetadataParseError
            case FieldsBeyond => result == Undefined
            case Fields(rest, entry) => result == Ok && start <= pos <= |data| && rest == data[pos..] && e == entry
  {
    hide ReadChunk;
    pos, e := start, NO_FIELDS;
    while pos < entryEnd
      invariant start <= pos <= |data|
      invariant DecodeFields(data[start..], entryEnd - start, NO_FIELDS) == DecodeFields(data[pos..], entryEnd - pos, e)
      decreases |data| - pos
    {
      var tag := data[pos];
      if tag % 8 != WIRE_LEN_DELIM { return MetadataParseError, pos, e; }
      var r, from, next := ReadChunkAt(data, pos, entryEnd);
      if r != Ok { return r, pos, e; }
      if tag / 8 == 1 {
        e := Entry(Some(data[from..next]), e.value);
      } else if tag / 8 == 2 {
        e := Entry(e.key, data[from..next]);
      }
      pos := next;
    }
    result := Ok;
  }

  method DecodeEntryAt(data: bytes, pos: nat, end: nat)
    returns (result: ParseResult, next: nat, key: bytes, value: bytes)
    requires pos < end <= |data|
    ensures match ReadEntry(data[pos..], end - pos)
            case BadEntry => result == MetadataParseError
            case BeyondEntry => result == Undefined
            case Stored(rest, k, v) =>
              result == Ok && pos < next <= |data| && rest == data[next..] && key == k && value == v
  {
    hide ReadChunk, DecodeFields;
    if data[pos] != TAG_ENTRY { return MetadataParseError, 0, [], []; }
    var r, from, entryEnd := ReadChunkAt(data, pos, end);
    if r != Ok { return r, 0, [], []; }
    assert data[from..entryEnd] + data[entryEnd..] == data[from..];
    var r', after, e := DecodeEntryFields(data, from, entryEnd);
    if r' != Ok { return r', 0, [], []; }
    if e.key == None { return MetadataParseError, 0, [], []; }
    return Ok, after, e.key.value, e.value;
  }

  /** decodeMetadata: `data` is the whole buffer behind the pointer, of which the first
      `length` bytes are the metadata block. */
  method DecodeMetadata(data: bytes, length: nat, meta: Meta) returns (result: ParseResult, out: Meta)
    requires length <= |data|
    ensures result == Verdict(DecodeEntries(data, length, meta))
    ensures out == DecodeEntries(data, length, meta).meta
  {
    hide ReadEntry;
    out := meta;
    var pos := 0;
    assert data[0..] == data;
    while pos < length
      invariant 0 <= pos <= |data|
      invariant DecodeEntries(data, length, meta) == DecodeEntries(data[pos..], length - pos, out)
      decreases |data| - pos
    {
      var r, next, key, value := DecodeEntryAt(data, pos, length);
      if r != Ok { return r, out; }
      out := out[key := value];
      pos := next;
    }
    result := Ok;
  }

  // ---- extending the bytes behind a decode ----

  lemma {:induction false} ScanExtends(s: bytes, ext: bytes, budget: nat)
    requires ScanVarint(s, budget).Some?
    ensures ScanVarint(s + ext, budget) == ScanVarint(s, budget)
  {
    if s[0] >= 0x80 {
      assert (s + ext)[1..] == s[1..] + ext;
      ScanExtends(s[1..], ext, budget - 1);
    }
  }

  /** A chunk that stays inside its buffer does not depend on what follows the buffer. */
  lemma {:induction false} ChunkExtends(s: bytes, ext: bytes, left: nat)
    requires 0 < left <= |s| && !ReadChunk(s, left).BeyondChunk?
    ensures var c := ReadChunk(s, left);
            ReadChunk(s + ext, left) == if c.Chunk? then Chunk(c.payload, c.rest + ext) else c
  {
    assert (s + ext)[1..left] == s[1..left];
    match ReadVarint(s[1..left])
    case None =>
    case Some((len, n)) =>
      if len <= left - 1 {
        assert (s + ext)[1 + n + len..] == s[1 + n + len..] + ext;
        assert (s + ext)[1 + n..1 + n + len] == s[1 + n..1 + n + len];
      }
  }

  /** A chunk accepted at the end of its block is the same chunk in a longer block. */
  lemma {:induction false} ChunkInLongerBlock(s: bytes, ext: bytes)
    requires s != [] && ReadChunk(s, |s|).Chunk?
    ensures var c := ReadChunk(s, |s|); ReadChunk(s + ext, |s + ext|) == Chunk(c.payload, c.rest + ext)
  {
    var t := s + ext;
    assert t[1..|t|] == s[1..|s|] + ext;
    ScanExtends(s[1..|s|], ext, VARINT_MAX_BYTES);
    var (len, n) := ReadVarint(s[1..|s|]).value;
    assert t[1 + n + len..] == s[1 + n + len..] + ext;
    assert t[1 + n..1 + n + len] == s[1 + n..1 + n + len];
  }

  lemma {:induction false} FieldsExtend(s: bytes, ext: bytes, left: int, e: Entry)
    requires left <= |s| && !DecodeFields(s, left, e).FieldsBeyond?
    ensures var r := DecodeFields(s, left, e);
            DecodeFields(s + ext, left, e) == if r.Fields? then Fields(r.rest + ext, r.entry) else r
    decreases |s|
  {
    hide ReadChunk, Assign;
    if left > 0 && s[0] % 8 == WIRE_LEN_DELIM {
      ChunkExtends(s, ext, left);
      var c := ReadChunk(s, left);
      if c.Chunk? {
        FieldsExtend(c.rest, ext, left - (|s| - |c.rest|), Assign(e, s[0] / 8, c.payload));
      }
    }
  }

  lemma {:induction false} EntryExtends(s: bytes, ext: bytes, left: nat)
    requires 0 < left <= |s| && !ReadEntry(s, left).BeyondEntry?
    ensures var r := ReadEntry(s, left);
            ReadEntry(s + ext, left) == if r.Stored? then r.(next := r.next + ext) else r
  {
    if s[0] == TAG_ENTRY {
      ChunkExtends(s, ext, left);
      var c := ReadChunk(s, left);
      if c.Chunk? {
        FieldsExtend(c.payload + c.rest, ext, |c.payload|, NO_FIELDS);
        assert (c.payload + c.rest) + ext == c.payload + (c.rest + ext);
      }
    }
  }

  /** A decode that stays inside its buffer does not look at what follows the buffer. */
  lemma {:induction false} EntriesExtend(s: bytes, ext: bytes, left: int, m: Meta)
    requires left <= |s| && !DecodeEntries(s, left, m).MetaBeyond?
    ensures DecodeEntries(s + ext, left, m) == DecodeEntries(s, left, m)
    decreases |s|
  {
    hide ReadEntry;
    if left > 0 {
      EntryExtends(s, ext, left);
      var r := ReadEntry(s, left);
      if r.Stored? {
        EntriesExtend(r.next, ext, left - (|s| - |r.next|), m[r.key := r.value]);
      }
    }
  }

  /** The bytes a decode may need behind its block: ten for a field, ten more for an entry. */
  const OVERRUN := 2 * VARINT_MAX_BYTES

  lemma {:induction false} FieldsWithinSlack(s: bytes, left: int, e: Entry)
    requires left + VARINT_MAX_BYTES <= |s|
    ensures !DecodeFields(s, left, e).FieldsBeyond?
    decreases |s|
  {
    if left > 0 && s[0] % 8 == WIRE_LEN_DELIM {
      var c := ReadChunk(s, left);
      if c.Chunk? {
        FieldsWithinSlack(c.rest, left - (|s| - |c.rest|), Assign(e, s[0] / 8, c.payload));
      }
    }
  }

  lemma {:induction false} EntryWithinSlack(s: bytes, left: nat)
    requires 0 < left && left + OVERRUN <= |s|
    ensures !ReadEntry(s, left).BeyondEntry?
  {
    var c := ReadChunk(s, left);
    if c.Chunk? {
      FieldsWithinSlack(c.payload + c.rest, |c.payload|, NO_FIELDS);
    }
  }

  /** For every block, well formed or not: with OVERRUN bytes behind it the decoder never
      leaves its buffer. */
  lemma {:induction false} DecodeWithinSlack(s: bytes, left: int, m: Meta)
    requires left + OVERRUN <= |s|
    ensures !DecodeEntries(s, left, m).MetaBeyond?
    decreases |s|
  {
    hide ReadEntry;
    if left > 0 {
      EntryWithinSlack(s, left);
      var r := ReadEntry(s, left);
      if r.Stored? {
        DecodeWithinSlack(r.next, left - (|s| - |r.next|), m[r.key := r.value]);
      }
    }
  }

  // ---- when a decode leaves its buffer ----

  /** At an entry, left bytes before the end of its block: the first length that the guards let
      through although it is larger than the room behind its varint. s holds all that is there,
      in the block and behind it. */
  predicate Overhangs(s: bytes, left: int)
    requires left <= |s|
    decreases |s|, 0
  {
    && 0 < left && s[0] == TAG_ENTRY
    && match ReadVarint(s[1..left])
       case None => false
       case Some((len, n)) =>
         len <= left - 1 && (len > |s[1 + n..]| || FieldOverhangs(s[1 + n..], len, left - 1 - n, false))
  }

  /** The same at a field, with fieldsLeft bytes before the end of its entry. */
  predicate FieldOverhangs(s: bytes, fieldsLeft: int, left: int, hasKey: bool)
    requires fieldsLeft <= |s| && left <= |s|
    decreases |s|, 1
  {
    if fieldsLeft <= 0 then hasKey && Overhangs(s, left)
    else
      && s[0] % 8 == WIRE_LEN_DELIM
      && match ReadVarint(s[1..fieldsLeft])
         case None => false
         case Some((len, n)) =>
           && len <= fieldsLeft - 1
           && (len > |s[1 + n..]|
               || FieldOverhangs(s[1 + n + len..], fieldsLeft - 1 - n - len, left - 1 - n - len,
                                 hasKey || s[0] / 8 == 1))
  }

  /** The decoder, from a field of an entry on, leaves s. */
  ghost predicate FieldsLeave(s: bytes, fieldsLeft: int, left: int, e: Entry, m: Meta)
    requires fieldsLeft <= |s| && left <= |s|
  {
    match DecodeFields(s, fieldsLeft, e)
    case BadFields => false
    case FieldsBeyond => true
    case Fields(rest, out) =>
      out.key.Some? && DecodeEntries(rest, left - (|s| - |rest|), m[out.key.value := out.value]).MetaBeyond?
  }

  lemma {:induction false} FieldOverhangsStep(s: bytes, fieldsLeft: nat, left: int, hasKey: bool)
    requires 0 < fieldsLeft <= |s| && left <= |s|
    ensures var c := ReadChunk(s, fieldsLeft);
            FieldOverhangs(s, fieldsLeft, left, hasKey)
            <==> s[0] % 8 == WIRE_LEN_DELIM
                 && (c.BeyondChunk?
                     || (c.Chunk? && FieldOverhangs(c.rest, fieldsLeft - (|s| - |c.rest|), left - (|s| - |c.rest|),
                                                    hasKey || s[0] / 8 == 1)))
  {
    hide Overhangs, ReadVarint;
  }

  lemma {:induction false} FieldsLeaveStep(s: bytes, fieldsLeft: nat, left: int, e: Entry, m: Meta)
    requires 0 < fieldsLeft <= |s| && left <= |s|
    ensures var c := ReadChunk(s, fieldsLeft);
            FieldsLeave(s, fieldsLeft, left, e, m)
            <==> s[0] % 8 == WIRE_LEN_DELIM
                 && (c.BeyondChunk?
                     || (c.Chunk? && FieldsLeave(c.rest, fieldsLeft - (|s| - |c.rest|), left - (|s| - |c.rest|),
                                                 Assign(e, s[0] / 8, c.payload), m)))
  {
    hide DecodeEntries, ReadChunk, Assign;
  }

  lemma {:induction false} FieldsDone(s: bytes, fieldsLeft: int, left: int, e: Entry, m: Meta)
    requires fieldsLeft <= 0 && left <= |s|
    ensures FieldOverhangs(s, fieldsLeft, left, e.key.Some?) <==> e.key.Some? && Overhangs(s, left)
    ensures FieldsLeave(s, fieldsLeft, left, e, m)
            <==> e.key.Some? && DecodeEntries(s, left, m[e.key.value := e.value]).MetaBeyond?
  {
    hide DecodeEntries, Overhangs;
  }

  lemma {:induction false} FieldsLeaveExactly(s: bytes, fieldsLeft: int, left: int, e: Entry, m: Meta)
    requires fieldsLeft <= |s| && left <= |s|
    ensures FieldsLeave(s, fieldsLeft, left, e, m) <==> FieldOverhangs(s, fieldsLeft, left, e.key.Some?)
    decreases |s|, 1
  {
    hide FieldsLeave, FieldOverhangs, Overhangs, DecodeEntries, ReadChunk;
    if fieldsLeft <= 0 {
      FieldsDone(s, fieldsLeft, left, e, m);
      if e.key.Some? {
        LeavesExactly(s, left, m[e.key.value := e.value]);
      }
    } else {
      FieldsLeaveStep(s, fieldsLeft, left, e, m);
      FieldOverhangsStep(s, fieldsLeft, left, e.key.Some?);
      var c := ReadChunk(s, fieldsLeft);
      if c.Chunk? {
        var used := |s| - |c.rest|;
        FieldsLeaveExactly(c.rest, fieldsLeft - used, left - used, Assign(e, s[0] / 8, c.payload), m);
      }
    }
  }

  lemma {:induction false} OverhangsStep(s: bytes, left: nat)
    requires 0 < left <= |s|
    ensures var c := ReadChunk(s, left);
            Overhangs(s, left)
            <==> s[0] == TAG_ENTRY
                 && (c.BeyondChunk?
                     || (c.Chunk? && FieldOverhangs(c.payload + c.rest, |c.payload|,
                                                    left - (|s| - |c.payload + c.rest|), false)))
  {
    hide FieldOverhangs;
    match ReadVarint(s[1..left])
    case None =>
    case Some((len, n)) =>
      hide ReadVarint;
      if len <= left - 1 && 1 + n + len <= |s| {
        assert s[1 + n..1 + n + len] + s[1 + n + len..] == s[1 + n..];
      }
  }

  lemma {:induction false} LeavesStep(s: bytes, left: nat, m: Meta)
    requires 0 < left <= |s|
    ensures var c := ReadChunk(s, left);
            DecodeEntries(s, left, m).MetaBeyond?
            <==> s[0] == TAG_ENTRY
                 && (c.BeyondChunk?
                     || (c.Chunk? && FieldsLeave(c.payload + c.rest, |c.payload|,
                                                 left - (|s| - |c.payload + c.rest|), NO_FIELDS, m)))
  {
    hide ReadChunk, DecodeFields;
  }

  lemma {:induction false} BlockDone(s: bytes, left: int, m: Meta)
    requires left <= 0 && left <= |s|
    ensures DecodeEntries(s, left, m) == MetaOk(m) && !Overhangs(s, left)
  {
  }

  lemma {:induction false} LeavesExactly(s: bytes, left: int, m: Meta)
    requires left <= |s|
    ensures DecodeEntries(s, left, m).MetaBeyond? <==> Overhangs(s, left)
    decreases |s|, 0
  {
    hide DecodeEntries, Overhangs, FieldsLeave, FieldOverhangs, ReadChunk;
    if left <= 0 {
      BlockDone(s, left, m);
    } else {
      LeavesStep(s, left, m);
      OverhangsStep(s, left);
      var c := ReadChunk(s, left);
      if c.Chunk? {
        FieldsLeaveExactly(c.payload + c.rest, |c.payload|, left - (|s| - |c.payload + c.rest|), NO_FIELDS, m);
      }
    }
  }

  /** For every block and whatever lies behind it: decodeMetadata stays inside those bytes if
      and only if no length overhangs them. */
  lemma {:induction false} LeavesBufferExactly(data: bytes, length: nat, m: Meta)
    requires length <= |data|
    ensures Verdict(DecodeEntries(data, length, m)) == Undefined <==> Overhangs(data, length)
  {
    LeavesExactly(data, length, m);
  }

  /** A value below 128 as a varint of all ten bytes. */
  function Padded(v: nat): (r: bytes)
    requires v < 0x80
    ensures |r| == VARINT_MAX_BYTES
  {
    [0x80 + v] + Padding(8)
  }

  function Padding(k: nat): (r: bytes)
    ensures |r| == k + 1
  {
    if k == 0 then [0] else [0x80] + Padding(k - 1)
  }

  lemma {:induction false} PaddingScans(k: nat, rest: bytes, budget: nat)
    requires k < budget
    ensures ScanVarint(Padding(k) + rest, budget) == Some((0, k + 1))
  {
    if k > 0 {
      assert (Padding(k) + rest)[1..] == Padding(k - 1) + rest;
      PaddingScans(k - 1, rest, budget - 1);
    }
  }

  lemma {:induction false} PaddedReads(v: nat, rest: bytes)
    requires v < 0x80
    ensures ReadVarint(Padded(v) + rest) == Some((v, VARINT_MAX_BYTES))
  {
    assert (Padded(v) + rest)[1..] == Padding(8) + rest;
    PaddingScans(8, rest, VARINT_MAX_BYTES - 1);
  }

  /** The smallest block that leaves its buffer: an entry of one byte, where there is none. */
  lemma {:induction false} ShortestOverhang(m: Meta)
    ensures DecodeEntries([TAG_ENTRY, 1], 2, m) == MetaBeyond(m)
  {
    var s: bytes := [TAG_ENTRY, 1];
    assert s[1..2] == [1];
    assert ScanVarint([1], VARINT_MAX_BYTES) == Some((1, 1));
  }

  /** A block of twelve bytes whose decode reads all of the twenty bytes behind it: with fewer
      it leaves its buffer, with all of them it ends in success. */
  lemma {:induction false} OverrunAttained(tail: bytes, m: Meta)
    requires |tail| <= VARINT_MAX_BYTES
    ensures var block := [TAG_ENTRY] + Padded(11) + [TAG_KEY];
            && |block| == 12
            && DecodeEntries(block + Padded(10) + tail, |block|, m)
               == if |tail| == VARINT_MAX_BYTES then MetaOk(m[tail := []]) else MetaBeyond(m)
  {
    var block := [TAG_ENTRY] + Padded(11) + [TAG_KEY];
    var data := block + Padded(10) + tail;
    var inner := [TAG_KEY] + Padded(10) + tail;
    OverrunEntry(tail);
    OverrunField(tail);
    hide ReadChunk, Padded;
    assert inner[..11] + tail == inner;
    if |tail| == VARINT_MAX_BYTES {
      assert DecodeFields(inner, 11, NO_FIELDS) == DecodeFields([], -10, Entry(Some(tail), []));
      assert ReadEntry(data, 12) == Stored([], tail, []);
    }
  }

  lemma {:induction false} OverrunEntry(tail: bytes)
    ensures var inner := [TAG_KEY] + Padded(10) + tail;
            ReadChunk([TAG_ENTRY] + Padded(11) + [TAG_KEY] + Padded(10) + tail, 12) == Chunk(inner[..11], tail)
  {
    var data := [TAG_ENTRY] + Padded(11) + [TAG_KEY] + Padded(10) + tail;
    assert data[1..12] == Padded(11) + [TAG_KEY];
    PaddedReads(11, [TAG_KEY]);
    hide ReadVarint, Padded;
    assert data[11..22] == ([TAG_KEY] + Padded(10) + tail)[..11] && data[22..] == tail;
  }

  lemma {:induction false} OverrunField(tail: bytes)
    requires |tail| <= VARINT_MAX_BYTES
    ensures ReadChunk([TAG_KEY] + Padded(10) + tail, 11)
         == if |tail| == VARINT_MAX_BYTES then Chunk(tail, []) else BeyondChunk
  {
    var inner := [TAG_KEY] + Padded(10) + tail;
    assert inner[1..11] == Padded(10) && Padded(10) + [] == Padded(10);
    PaddedReads(10, []);
    hide ReadVarint, Padded;
    if |tail| == VARINT_MAX_BYTES {
      assert inner[11..21] == tail && inner[21..] == [];
    }
  }

  // ---- accepted blocks concatenate ----

  lemma {:induction false} EntryInLongerBlock(s: bytes, ext: bytes)
    requires s != [] && ReadEntry(s, |s|).Stored?
    ensures var r := ReadEntry(s, |s|); ReadEntry(s + ext, |s + ext|) == r.(next := r.next + ext)
  {
    hide ReadChunk;
    ChunkInLongerBlock(s, ext);
    var c := ReadChunk(s, |s|);
    FieldsExtend(c.payload + c.rest, ext, |c.payload|, NO_FIELDS);
    assert (c.payload + c.rest) + ext == c.payload + (c.rest + ext);
  }

  /** Decoding two accepted blocks laid end to end is decoding one after the other. */
  lemma {:induction false} DecodeConcatenation(a: bytes, b: bytes, m: Meta)
    requires DecodeEntries(a, |a|, m).MetaOk?
    ensures DecodeEntries(a + b, |a + b|, m) == DecodeEntries(b, |b|, DecodeEntries(a, |a|, m).meta)
    decreases |a|
  {
    if a == [] {
      assert a + b == b;
    } else {
      EntryInLongerBlock(a, b);
      var r := ReadEntry(a, |a|);
      DecodeConcatenation(r.next, b, m[r.key := r.value]);
    }
  }

  // ---- the wire grammar the decoder understands ----

  /** A length-delimited Protobuf field with a one-byte tag. */
  datatype Field = Field(number: nat, payload: bytes)

  predicate ValidFields(fs: seq<Field>) {
    forall i :: 0 <= i < |fs| ==> fs[i].number < 32 && |fs[i].payload| < 0x1_0000_0000
  }

  function ChunkBytes(tag: byte, payload: bytes): bytes {
    [tag] + VarintBytes(|payload|) + payload
  }

  function FieldsBytes(fs: seq<Field>): bytes
    requires ValidFields(fs)
  {
    if fs == [] then [] else ChunkBytes(fs[0].number * 8 + 2, fs[0].payload) + FieldsBytes(fs[1..])
  }

  /** Protobuf scalar semantics: the last occurrence of a field wins. */
  function AssignAll(e: Entry, fs: seq<Field>): Entry
    decreases |fs|
  {
    if fs == [] then e else AssignAll(Assign(e, fs[0].number, fs[0].payload), fs[1..])
  }

  lemma {:induction false} ChunkInverts(tag: byte, payload: bytes, tail: bytes, rest: bytes)
    requires |payload| < 0x1_0000_0000
    ensures var s := ChunkBytes(tag, payload) + tail;
            ReadChunk(s + rest, |s|) == Chunk(payload, tail + rest)
  {
    var s := ChunkBytes(tag, payload) + tail;
    var n := |VarintBytes(|payload|)|;
    assert (s + rest)[1..|s|] == VarintBytes(|payload|) + (payload + tail);
    VarintRoundTrip(|payload|, payload + tail);
    assert (s + rest)[1 + n..1 + n + |payload|] == payload;
    assert (s + rest)[1 + n + |payload|..] == tail + rest;
  }

  lemma {:induction false} FieldsInvert(fs: seq<Field>, rest: bytes, e: Entry)
    requires ValidFields(fs)
    ensures DecodeFields(FieldsBytes(fs) + rest, |FieldsBytes(fs)|, e) == Fields(rest, AssignAll(e, fs))
    decreases |fs|
  {
    if fs == [] {
      assert FieldsBytes(fs) + rest == rest;
    } else {
      var f := fs[0];
      var tag := f.number * 8 + 2;
      assert tag % 8 == WIRE_LEN_DELIM && tag / 8 == f.number;
      ChunkInverts(tag, f.payload, FieldsBytes(fs[1..]), rest);
      assert (FieldsBytes(fs) + rest)[0] == tag;
      FieldsInvert(fs[1..], rest, Assign(e, f.number, f.payload));
    }
  }

  /** The payload of the last field with this number. */
  function LastOf(fs: seq<Field>, number: nat): Option<bytes> {
    if fs == [] then None
    else
      var later := LastOf(fs[1..], number);
      if later.Some? then later else if fs[0].number == number then Some(fs[0].payload) else None
  }

  lemma {:induction false} AssignedAreLast(e: Entry, fs: seq<Field>)
    ensures var out := AssignAll(e, fs);
            && out.key == (if LastOf(fs, 1).Some? then LastOf(fs, 1) else e.key)
            && out.value == (if LastOf(fs, 2).Some? then LastOf(fs, 2).value else e.value)
    decreases |fs|
  {
    if fs != [] {
      AssignedAreLast(Assign(e, fs[0].number, fs[0].payload), fs[1..]);
    }
  }

  /** One entry of any well-formed shape, its fields in any order and any number: the last
      field 1 is the key and the last field 2 the value, empty when there is none; all other
      fields are skipped; and an entry without field 1 is refused. */
  lemma {:induction false} EntryInverts(fs: seq<Field>, m: Meta)
    requires ValidFields(fs) && |FieldsBytes(fs)| < 0x1_0000_0000
    ensures var s, key, value := ChunkBytes(TAG_ENTRY, FieldsBytes(fs)), LastOf(fs, 1), LastOf(fs, 2);
            DecodeEntries(s, |s|, m)
            == if key == None then MetaBad(m) else MetaOk(m[key.value := if value.Some? then value.value else []])
  {
    AssignedAreLast(NO_FIELDS, fs);
    EntryReads(fs);
    hide ReadEntry, LastOf, AssignAll, ChunkBytes, FieldsBytes;
    OneEntry(ChunkBytes(TAG_ENTRY, FieldsBytes(fs)), m);
  }

  lemma {:induction false} EntryReads(fs: seq<Field>)
    requires ValidFields(fs) && |FieldsBytes(fs)| < 0x1_0000_0000
    ensures var s, e := ChunkBytes(TAG_ENTRY, FieldsBytes(fs)), AssignAll(NO_FIELDS, fs);
            s != [] && ReadEntry(s, |s|) == if e.key == None then BadEntry else Stored([], e.key.value, e.value)
  {
    var inner := FieldsBytes(fs);
    hide ReadChunk, DecodeFields, AssignAll, VarintBytes, FieldsBytes;
    var s := ChunkBytes(TAG_ENTRY, inner);
    ChunkInverts(TAG_ENTRY, inner, [], []);
    assert s + [] + [] == s && s + [] == s && inner + [] == inner;
    FieldsInvert(fs, [], NO_FIELDS);
  }

  lemma {:induction false} OneEntry(s: bytes, m: Meta)
    requires s != []
    ensures ReadEntry(s, |s|).BadEntry? ==> DecodeEntries(s, |s|, m) == MetaBad(m)
    ensures var r := ReadEntry(s, |s|);
            r.Stored? && r.next == [] ==> DecodeEntries(s, |s|, m) == MetaOk(m[r.key := r.value])
  {
    hide ReadEntry;
  }

  // ---- inversion of encodeMetadata ----

  function PairFields(key: bytes, value: bytes): (fs: seq<Field>) {
    [Field(1, key)] + [Field(2, value)]
  }

  lemma {:induction false} FieldsOfPairBytes(key: bytes, value: bytes)
    requires |key| < 0x1_0000_0000 && |value| < 0x1_0000_0000
    ensures FieldsBytes(PairFields(key, value)) == InnerBytes(key, value)
  {
    var last := [Field(2, value)];
    assert PairFields(key, value)[1..] == last && last[1..] == [];
    hide VarintBytes, ChunkBytes;
    assert FieldsBytes(last) == ChunkBytes(TAG_VALUE, value) + [];
    assert FieldsBytes(PairFields(key, value)) == ChunkBytes(TAG_KEY, key) + FieldsBytes(last);
    hide FieldsBytes;
    TwoChunks(key, value);
  }

  lemma {:induction false} TwoChunks(key: bytes, value: bytes)
    requires |key| < 0x1_0000_0000 && |value| < 0x1_0000_0000
    ensures ChunkBytes(TAG_KEY, key) + (ChunkBytes(TAG_VALUE, value) + []) == InnerBytes(key, value)
  {
    hide VarintBytes;
  }

  lemma {:induction false} FieldsOfPairEntry(key: bytes, value: bytes)
    ensures LastOf(PairFields(key, value), 1) == Some(key) && LastOf(PairFields(key, value), 2) == Some(value)
  {
    var fs := PairFields(key, value);
    assert fs[1..] == [Field(2, value)] && [Field(2, value)][1..] == [];
    assert LastOf([], 1) == None && LastOf([], 2) == None;
    assert LastOf([Field(2, value)], 1) == None && LastOf([Field(2, value)], 2) == Some(value);
  }

  lemma {:induction false} EncodePairDecodes(p: Pair, m: Meta)
    requires |EncodePair(p)| <= MAX_METADATA_LENGTH
    ensures DecodeEntries(EncodePair(p), |EncodePair(p)|, m) == MetaOk(m[p.key := p.value])
  {
    var fs := PairFields(p.key, p.value);
    InnerSizeExact(p.key, p.value);
    FieldsOfPairBytes(p.key, p.value);
    FieldsOfPairEntry(p.key, p.value);
    hide VarintBytes, DecodeEntries, LastOf, InnerBytes, InnerSize, FieldsBytes;
    EntryInverts(fs, m);
  }

  lemma {:induction false} EncodeEntriesDecodes(entries: seq<Pair>, m: Meta)
    requires |EncodeEntries(entries)| <= MAX_METADATA_LENGTH
    ensures DecodeEntries(EncodeEntries(entries), |EncodeEntries(entries)|, m) == MetaOk(Insert(m, entries))
  {
    if entries != [] {
      EncodePairDecodes(entries[0], m);
      EncodeEntriesDecodes(entries[1..], m[entries[0].key := entries[0].value]);
      DecodeConcatenation(EncodePair(entries[0]), EncodeEntries(entries[1..]), m);
    }
  }

  /** Metadata inversion: decoding an encoded map into any map overlays it. */
  lemma {:induction false} MetadataRoundTrip(m: Meta, base: Meta)
    requires |EncodeMeta(m)| <= MAX_METADATA_LENGTH
    ensures DecodeEntries(EncodeMeta(m), |EncodeMeta(m)|, base) == MetaOk(base + m)
    ensures DecodeEntries(EncodeMeta(m), |EncodeMeta(m)|, map[]) == MetaOk(m)
  {
    EncodeEntriesDecodes(Entries(m), base);
    EncodeEntriesDecodes(Entries(m), map[]);
    InsertAllIsMerge(base, Entries(m));
    EntriesHoldTheMap(m);
  }

  /** Two encoded maps laid end to end decode to their merge, the later one winning. */
  lemma {:induction false} ConcatenatedMapsMerge(a: Meta, b: Meta)
    requires |EncodeMeta(a)| <= MAX_METADATA_LENGTH && |EncodeMeta(b)| <= MAX_METADATA_LENGTH
    ensures var both := EncodeMeta(a) + EncodeMeta(b);
            DecodeEntries(both, |both|, map[]) == MetaOk(a + b)
  {
    MetadataRoundTrip(a, map[]);
    MetadataRoundTrip(b, a);
    DecodeConcatenation(EncodeMeta(a), EncodeMeta(b), map[]);
  }
}
