/** Shared value types: bytes, C++ integer widths and an option type. */
module Basics {
  datatype Option<+T> = None | Some(value: T)

  type byte = b: int | 0 <= b < 0x100
  type u32 = n: int | 0 <= n < 0x1_0000_0000
  type u64 = n: int | 0 <= n < 0x1_0000_0000_0000_0000
  type bytes = seq<byte>

  /** The conversion static_cast<uint32_t>(n) of a size_t. */
  function ToU32(n: nat): u32 { n % 0x1_0000_0000 }

  /** The bytes of an ASCII literal. */
  function Ascii(s: string): (r: bytes)
    requires forall i :: 0 <= i < |s| ==> s[i] as int < 128
    ensures |r| == |s|
  {
    seq(|s|, i requires 0 <= i < |s| => s[i] as int)
  }

  lemma {:induction false} Assoc(a: bytes, b: bytes, c: bytes)
    ensures (a + b) + c == a + (b + c)
  {
  }

  /** Concatenation of a list of byte strings, in order. */
  function Flatten(parts: seq<bytes>): bytes {
    if parts == [] then [] else parts[0] + Flatten(parts[1..])
  }

  lemma {:induction false} FlattenAppend(a: seq<bytes>, b: seq<bytes>)
    ensures Flatten(a + b) == Flatten(a) + Flatten(b)
  {
    if a == [] {
      assert a + b == b;
    } else {
      assert (a + b)[1..] == a[1..] + b;
      FlattenAppend(a[1..], b);
    }
  }

  lemma {:induction false} FlattenSnoc(a: seq<bytes>, last: bytes)
    ensures Flatten(a + [last]) == Flatten(a) + last
  {
    FlattenAppend(a, [last]);
  }
}

/** Decimal digits: std::to_string, std::from_chars and strtoll all rest on these. */
module Decimal {
  import opened Basics

  predicate IsDigit(b: byte) { 48 <= b <= 57 }

  predicate AllDigits(s: bytes) {
    forall i :: 0 <= i < |s| ==> IsDigit(s[i])
  }

  function DecimalValue(digits: bytes): nat
    requires AllDigits(digits)
  {
    if digits == [] then 0
    else
      var last: int := digits[|digits| - 1];
      10 * DecimalValue(digits[..|digits| - 1]) + last - 48
  }

  /** The decimal text of n, without leading zeros. */
  function Digits(n: nat): (r: bytes)
    ensures r != [] && AllDigits(r)
  {
    if n < 10 then [48 + n] else Digits(n / 10) + [48 + n % 10]
  }

  lemma {:induction false} DigitsValue(n: nat)
    ensures DecimalValue(Digits(n)) == n
  {
    var s := Digits(n);
    if n < 10 {
      assert s[..0] == [];
      assert DecimalValue(s) == 10 * DecimalValue(s[..0]) + n;
    } else {
      DigitsValue(n / 10);
      assert s[..|s| - 1] == Digits(n / 10);
    }
  }
}
