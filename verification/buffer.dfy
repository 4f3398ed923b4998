/** The growing byte buffer (src/net/buffer.cpp): indices into one backing array, with the
    consumed space in front reclaimed by moving the readable bytes down over themselves. */
module Buffers {
  import opened Basics

  const CHEAP_PREPEND := 8
  const SIZE_MAX := 0xFFFF_FFFF_FFFF_FFFF
  const EXTRA := 65536

  /** std::length_error, or not. */
  datatype Space = Granted | LengthError

  /** What readv reports: an errno, or the bytes it placed (none at end of file). */
  datatype ReadOutcome = ReadFailed(errno: int) | ReadBytes(data: bytes)

  function Max(a: nat, b: nat): nat { if a < b then b else a }

  function Min(a: nat, b: nat): nat { if a < b then a else b }

  /** The largest backing array a buffer may have asked for. */
  function SizeBound(initial: nat, peak: nat): nat {
    Max(Max(initial, CHEAP_PREPEND + 1), CHEAP_PREPEND + 2 * peak)
  }

  /** memmove to a lower address: a forward copy, right even where the ranges overlap. */
  method MoveDown(a: array<byte>, from: nat, to: nat, length: nat)
    requires to <= from && from + length <= a.Length
    modifies a
    ensures a[to..to + length] == old(a[from..from + length])
  {
    for i := 0 to length
      invariant a[to..to + i] == old(a[from..from + i])
      invariant forall j :: from + i <= j < a.Length ==> a[j] == old(a[j])
    {
      a[to + i] := a[from + i];
    }
  }

  /** memcpy of data into the array. */
  method Store(a: array<byte>, at: nat, data: bytes)
    requires at + |data| <= a.Length
    modifies a
    ensures a[..] == old(a[..at]) + data + old(a[at + |data|..])
  {
    for i := 0 to |data|
      invariant a[..at] == old(a[..at])
      invariant a[at..at + i] == data[..i]
      invariant a[at + i..] == old(a[at + i..])
    {
      a[at + i] := data[i];
    }
    assert a[..] == a[..at] + a[at..at + |data|] + a[at + |data|..];
  }

  class Buffer {
    var storage: array<byte>
    var reader: nat
    var writer: nat
    ghost const initial: nat
    /** The peak of readable plus requested bytes over all requests so far. */
    ghost var peak: nat

    ghost predicate Valid()
      reads this
    {
      && CHEAP_PREPEND <= reader <= writer <= storage.Length <= SIZE_MAX
      && storage.Length <= SizeBound(initial, peak)
    }

    ghost function Contents(): (s: bytes)
      requires Valid()
      reads this, storage
    {
      storage[reader..writer]
    }

    constructor (initialSize: nat)
      requires initialSize <= SIZE_MAX
      ensures Valid() && fresh(storage) && Contents() == []
      ensures initial == initialSize && peak == 0 && storage.Length == Max(initialSize, CHEAP_PREPEND + 1)
    {
      storage := new byte[Max(initialSize, CHEAP_PREPEND + 1)];
      reader, writer := CHEAP_PREPEND, CHEAP_PREPEND;
      initial, peak := initialSize, 0;
    }

    function ReadableBytes(): (n: nat)
      requires Valid()
      reads this, storage
      ensures n == |Contents()|
    {
      writer - reader
    }

    function WritableBytes(): (n: nat)
      requires Valid()
      reads this
    {
      storage.Length - writer
    }

    method Retrieve(length: nat)
      requires Valid()
      modifies this
      ensures Valid() && storage == old(storage) && peak == old(peak)
      ensures Contents() == old(Contents())[Min(length, |old(Contents())|)..]
    {
      if length < ReadableBytes() {
        reader := reader + length;
      } else {
        RetrieveAll();
      }
    }

    method RetrieveAll()
      requires Valid()
      modifies this
      ensures Valid() && storage == old(storage) && peak == old(peak)
      ensures Contents() == []
    {
      reader, writer := CHEAP_PREPEND, CHEAP_PREPEND;
    }

    method RetrieveAsString(length: nat) returns (r: bytes)
      requires Valid()
      modifies this
      ensures Valid() && storage == old(storage) && peak == old(peak)
      ensures r + Contents() == old(Contents())
      ensures |r| == Min(length, |old(Contents())|)
    {
      var actual := Min(length, ReadableBytes());
      r := storage[reader..reader + actual];
      Retrieve(actual);
    }

    /** Makes room by moving the readable bytes down when that is enough, else by growing. */
    method MakeSpace(length: nat) returns (space: Space)
      requires Valid() && WritableBytes() < length
      modifies this, storage
      ensures Valid() && fresh({storage} - {old(storage)}) && Contents() == old(Contents())
      ensures space == if length > SIZE_MAX - old(writer) then LengthError else Granted
      ensures space.Granted? ==> WritableBytes() >= length
      ensures peak == if space.Granted? then Max(old(peak), |old(Contents())| + length) else old(peak)
    {
      if length > SIZE_MAX - writer {
        return LengthError;
      }
      peak := Max(peak, ReadableBytes() + length);
      if WritableBytes() + reader - CHEAP_PREPEND >= length {
        var readable := ReadableBytes();
        MoveDown(storage, reader, CHEAP_PREPEND, readable);
        reader := CHEAP_PREPEND;
        writer := reader + readable;
        return Granted;
      }
      ghost var before := storage[..];
      Resize(writer + length);
      assert storage[reader..writer] == before[reader..writer];
      return Granted;
    }

    /** vector::resize to a larger size: the old bytes, then zeros. */
    method Resize(size: nat)
      requires storage.Length <= size
      modifies this`storage
      ensures fresh(storage) && storage.Length == size
      ensures storage[..] == old(storage[..]) + seq(size - old(storage.Length), _ => 0)
    {
      var old_ := storage;
      var grown := new byte[size](_ => 0);
      for i := 0 to old_.Length
        invariant grown[..i] == old_[..i]
        invariant forall j :: i <= j < size ==> grown[j] == 0
        invariant old_[..] == old(storage[..])
      {
        grown[i] := old_[i];
      }
      assert grown[..] == grown[..old_.Length] + grown[old_.Length..];
      storage := grown;
    }

    method EnsureWritableBytes(length: nat) returns (space: Space)
      requires Valid()
      modifies this, storage
      ensures Valid() && fresh({storage} - {old(storage)}) && Contents() == old(Contents())
      ensures space == if old(WritableBytes()) < length && length > SIZE_MAX - old(writer) then LengthError else Granted
      ensures space.Granted? ==> WritableBytes() >= length
      ensures old(peak) <= peak <= Max(old(peak), |old(Contents())| + length)
    {
      space := Granted;
      if WritableBytes() < length {
        space := MakeSpace(length);
      }
    }

    method Append(data: bytes) returns (space: Space)
      requires Valid()
      modifies this, storage
      ensures Valid() && fresh({storage} - {old(storage)})
      ensures Contents() == if space.Granted? then old(Contents()) + data else old(Contents())
      ensures space.LengthError? <==> old(WritableBytes()) < |data| && |data| > SIZE_MAX - old(writer)
      ensures old(peak) <= peak <= Max(old(peak), |old(Contents())| + |data|)
    {
      if |data| == 0 {
        return Granted;
      }
      space := EnsureWritableBytes(|data|);
      if space.LengthError? {
        return;
      }
      Place(data);
    }

    /** Bytes copied behind the writer, where there is room, and taken over. */
    method Place(data: bytes)
      requires Valid() && |data| <= WritableBytes()
      modifies this`writer, storage
      ensures Valid() && Contents() == old(Contents()) + data
    {
      ghost var before := storage[..];
      Store(storage, writer, data);
      assert storage[reader..writer] == before[reader..writer];
      assert storage[writer..writer + |data|] == data;
      HasWritten(|data|);
    }

    /** Takes over bytes already placed behind the writer; a claim beyond the space is ignored. */
    method HasWritten(length: nat)
      requires Valid()
      modifies this`writer
      ensures Valid()
      ensures Contents()
           == old(Contents()) + if length <= old(WritableBytes()) then old(storage[writer..writer + length]) else []
    {
      if length <= WritableBytes() {
        assert storage[reader..writer + length] == storage[reader..writer] + storage[writer..writer + length];
        writer := writer + length;
      }
    }

    /** readFd: one readv over the free space and, when that is small, the extra buffer. A
        length_error for the overflow leaves the part that fitted. */
    method ReadFd(outcome: ReadOutcome) returns (n: int, errno: int, space: Space)
      requires Valid()
      requires outcome.ReadBytes? ==> |outcome.data| <= WritableBytes() + if WritableBytes() < EXTRA then EXTRA else 0
      modifies this, storage
      ensures Valid() && fresh({storage} - {old(storage)})
      ensures outcome.ReadFailed?
              ==> n == -1 && errno == outcome.errno && Contents() == old(Contents()) && space.Granted?
      ensures outcome.ReadBytes? && space.Granted?
              ==> n == |outcome.data| && errno == 0 && Contents() == old(Contents()) + outcome.data
      ensures space.LengthError?
              ==> && outcome.ReadBytes? && |outcome.data| > old(WritableBytes())
                  && |outcome.data| - old(WritableBytes()) > SIZE_MAX - old(storage.Length)
                  && Contents() == old(Contents()) + outcome.data[..old(WritableBytes())]
      ensures old(peak) <= peak
      ensures outcome.ReadFailed? ==> peak == old(peak)
      ensures outcome.ReadBytes? ==> peak <= Max(old(peak), |old(Contents())| + |outcome.data|)
    {
      errno, space := 0, Granted;
      var writable := WritableBytes();
      match outcome
      case ReadFailed(e) => return -1, e, Granted;
      case ReadBytes(data) =>
        var direct := Min(|data|, writable);
        Place(data[..direct]);
        n := |data|;
        assert data == data[..direct] + data[direct..];
        if |data| > writable {
          Assoc(old(Contents()), data[..direct], data[direct..]);
          space := Append(data[direct..]);
        }
    }
  }

  // ---- whole runs ----

  /** What a user of the buffer does: append, take bytes out, or read all that has arrived. */
  datatype Op = Put(data: bytes) | Take(length: nat) | Arrive(data: bytes)

  /** A first-in first-out byte queue, what came out of it, and the peak demand on it. */
  datatype Queue = Queue(contents: bytes, taken: bytes, peak: nat)

  function Step(q: Queue, op: Op): Queue {
    match op
    case Put(data) => Queue(q.contents + data, q.taken, Max(q.peak, |q.contents| + |data|))
    case Arrive(data) => Queue(q.contents + data, q.taken, Max(q.peak, |q.contents| + |data|))
    case Take(length) =>
      var n := Min(length, |q.contents|);
      Queue(q.contents[n..], q.taken + q.contents[..n], q.peak)
  }

  function Run(q: Queue, ops: seq<Op>): Queue
    decreases |ops|
  {
    if ops == [] then q else Run(Step(q, ops[0]), ops[1..])
  }

  /** All bytes put in, in order. */
  function Given(ops: seq<Op>): bytes {
    if ops == [] then [] else (if ops[0].Take? then [] else ops[0].data) + Given(ops[1..])
  }

  /** Conservation: what came out followed by what is still inside is what went in. */
  lemma {:induction false} FifoConservation(q: Queue, ops: seq<Op>)
    ensures Run(q, ops).taken + Run(q, ops).contents == q.taken + q.contents + Given(ops)
    ensures Run(q, ops).peak >= q.peak
    decreases |ops|
  {
    if ops != [] {
      var next := Step(q, ops[0]);
      FifoConservation(next, ops[1..]);
      var given := if ops[0].Take? then [] else ops[0].data;
      assert next.taken + next.contents == q.taken + q.contents + given;
      Assoc(q.taken + q.contents, given, Given(ops[1..]));
    }
  }

  lemma {:induction false} JoinPrefix(head: bytes, s: bytes, k: nat, n: nat)
    requires k + n <= |s|
    ensures head + s[..k] + s[k..][..n] == head + s[..k + n]
  {
    assert s[..k + n] == s[..k] + s[k..][..n];
  }

  /** One turn of the read loop: as much as the buffer and the extra one take. */
  method DrainOnce(b: Buffer, left: bytes) returns (taken: nat, space: Space)
    requires b.Valid() && left != []
    modifies b, b.storage
    ensures b.Valid() && fresh({b.storage} - {old(b.storage)})
    ensures 0 < taken <= |left|
    ensures space.Granted? ==> b.Contents() == old(b.Contents()) + left[..taken]
    ensures old(b.peak) <= b.peak <= Max(old(b.peak), |old(b.Contents())| + taken)
    ensures space.LengthError? ==> SizeBound(b.initial, b.peak) + taken > SIZE_MAX
  {
    var room := b.WritableBytes() + if b.WritableBytes() < EXTRA then EXTRA else 0;
    taken := Min(room, |left|);
    var n, errno;
    n, errno, space := b.ReadFd(ReadBytes(left[..taken]));
  }

  /** The read loop: readFd over and over until everything that arrived is in. */
  method Drain(b: Buffer, incoming: bytes) returns (space: Space)
    requires b.Valid()
    modifies b, b.storage
    ensures b.Valid() && fresh({b.storage} - {old(b.storage)})
    ensures space.Granted? ==> b.Contents() == old(b.Contents()) + incoming
    ensures b.peak <= Max(old(b.peak), |old(b.Contents())| + |incoming|)
    ensures space.LengthError? ==> SizeBound(b.initial, b.peak) + |incoming| > SIZE_MAX
  {
    space := Granted;
    var done := 0;
    while done < |incoming|
      invariant done <= |incoming| && space.Granted? && b.Valid() && fresh({b.storage} - {old(b.storage)})
      invariant b.Contents() == old(b.Contents()) + incoming[..done]
      invariant b.peak <= Max(old(b.peak), |old(b.Contents())| + |incoming|)
    {
      var taken;
      taken, space := DrainOnce(b, incoming[done..]);
      if space.LengthError? {
        return;
      }
      JoinPrefix(old(b.Contents()), incoming, done, taken);
      done := done + taken;
    }
    assert incoming[..done] == incoming;
  }

  /** One operation, as the queue does it. */
  method Perform(b: Buffer, op: Op, ghost q: Queue) returns (piece: bytes, space: Space)
    requires b.Valid() && b.Contents() == q.contents && b.peak <= q.peak
    modifies b, b.storage
    ensures b.Valid() && fresh({b.storage} - {old(b.storage)}) && b.peak <= Step(q, op).peak
    ensures space.Granted? ==> b.Contents() == Step(q, op).contents && q.taken + piece == Step(q, op).taken
    ensures space.LengthError? ==> op.Put? || op.Arrive?
    ensures space.LengthError? ==> SizeBound(b.initial, Step(q, op).peak) + |op.data| > SIZE_MAX
  {
    piece, space := [], Granted;
    match op {
      case Put(data) => space := b.Append(data);
      case Arrive(data) => space := Drain(b, data);
      case Take(length) =>
        piece := b.RetrieveAsString(length);
        assert q.contents[..|piece|] == piece && q.contents[|piece|..] == b.Contents();
    }
  }

  /** In every run the buffer is a byte queue, and its backing array stays within twice the
      peak demand; it gives up only when that bound leaves the address space. */
  method Replay(b: Buffer, ops: seq<Op>) returns (taken: bytes, completed: bool)
    requires b.Valid() && b.Contents() == [] && b.peak == 0
    modifies b, b.storage
    ensures b.Valid()
    ensures completed ==> taken == Run(Queue([], [], 0), ops).taken
    ensures completed ==> b.Contents() == Run(Queue([], [], 0), ops).contents
    ensures completed ==> taken + b.Contents() == Given(ops)
    ensures b.storage.Length <= SizeBound(b.initial, Run(Queue([], [], 0), ops).peak)
    ensures !completed ==> SizeBound(b.initial, Run(Queue([], [], 0), ops).peak) + |Given(ops)| > SIZE_MAX
  {
    taken, completed := [], true;
    ghost var q := Queue([], [], 0);
    FifoConservation(q, ops);
    ghost var end := Run(q, ops);
    assert ops[0..] == ops;
    for i := 0 to |ops|
      invariant b.Valid() && fresh({b.storage} - {old(b.storage)})
      invariant completed && taken == q.taken && b.Contents() == q.contents && b.peak <= q.peak <= end.peak
      invariant end == Run(q, ops[i..])
      invariant |Given(ops[i..])| <= |Given(ops)|
    {
      RunStep(q, ops, i);
      hide Run, Step, Given;
      var piece, space := Perform(b, ops[i], q);
      if space.LengthError? {
        completed := false;
        return;
      }
      taken := taken + piece;
      q := Step(q, ops[i]);
    }
    assert ops[|ops|..] == [];
  }

  lemma {:induction false} RunStep(q: Queue, ops: seq<Op>, i: nat)
    requires i < |ops|
    ensures Run(q, ops[i..]) == Run(Step(q, ops[i]), ops[i + 1..])
    ensures Step(q, ops[i]).peak <= Run(q, ops[i..]).peak
    ensures |Given(ops[i + 1..])| <= |Given(ops[i..])|
    ensures !ops[i].Take? ==> |ops[i].data| <= |Given(ops[i..])|
  {
    assert ops[i..][1..] == ops[i + 1..];
    FifoConservation(Step(q, ops[i]), ops[i + 1..]);
  }
}
