/** Machine integer types, the error outcome of a failed call, and the
    little/big-endian readers shared by every part of the ROM engine. */
module Common {

  type uint8 = x: int | 0 <= x < 0x100
  type uint16 = x: int | 0 <= x < 0x1_0000
  type uint32 = x: int | 0 <= x < 0x1_0000_0000
  type bytes = seq<uint8>

  const TWO_POW_31: int := 0x8000_0000
  const TWO_POW_32: int := 0x1_0000_0000

  /** The exceptions the .NET runtime raises in the modelled code. */
  datatype Error =
    | IndexOutOfRange      // an array index outside the array
    | CopyOutOfRange       // Array.Copy asked for bytes past the end of an array
    | AllocationTooLarge   // an array length beyond what .NET can allocate

  /** Either the value a call returns or the exception it throws. */
  datatype Result<T> = Ok(value: T) | Err(error: Error) {
    predicate IsFailure() {
      Err?
    }

    function PropagateFailure<U>(): Result<U>
      requires Err?
    {
      Err(error)
    }

    function Extract(): T
      requires Ok?
    {
      value
    }
  }

  /** `uint` arithmetic: the value modulo 2^32. */
  function U32(x: int): (r: uint32)
    ensures (r - x) % TWO_POW_32 == 0
  {
    x % TWO_POW_32
  }

  /** `int` arithmetic in an unchecked context: two's-complement wrap to 32 bits. */
  function I32(x: int): (r: int)
    ensures -TWO_POW_31 <= r < TWO_POW_31
    ensures (r - x) % TWO_POW_32 == 0
    ensures -TWO_POW_31 <= x < TWO_POW_31 ==> r == x
  {
    var u := x % TWO_POW_32;
    if u < TWO_POW_31 then u else u - TWO_POW_32
  }

  /** The signed reading of a 32-bit register. */
  function Signed(x: uint32): (r: int)
    ensures -TWO_POW_31 <= r < TWO_POW_31
    ensures (r - x) % TWO_POW_32 == 0
  {
    if x < TWO_POW_31 then x else x - TWO_POW_32
  }

  function LE16(s: bytes, i: nat): (r: uint16)
    requires i + 2 <= |s|
    ensures r % 0x100 == s[i] && r / 0x100 == s[i + 1]
  {
    s[i] as int + s[i + 1] as int * 0x100
  }

  function LE24(s: bytes, i: nat): (r: int)
    requires i + 3 <= |s|
    ensures 0 <= r < 0x100_0000
    ensures r % 0x100 == s[i] && (r / 0x100) % 0x100 == s[i + 1] && r / 0x1_0000 == s[i + 2]
  {
    s[i] as int + (s[i + 1] as int + s[i + 2] as int * 0x100) * 0x100
  }

  function LE32(s: bytes, i: nat): (r: uint32)
    requires i + 4 <= |s|
    ensures r % 0x100_0000 == LE24(s, i) && r / 0x100_0000 == s[i + 3]
  {
    LE24(s, i) + s[i + 3] as int * 0x100_0000
  }

  /** A 24-bit field reads the same after more bytes are appended ... */
  lemma LE24Prefix(a: bytes, b: bytes, i: nat)
    requires i + 3 <= |a|
    ensures LE24(a + b, i) == LE24(a, i)
  {
    assert (a + b)[i] == a[i] && (a + b)[i + 1] == a[i + 1] && (a + b)[i + 2] == a[i + 2];
  }

  /** ... and after bytes are prepended, shifted by their count. */
  lemma LE24Suffix(a: bytes, b: bytes, i: nat)
    requires i + 3 <= |b|
    ensures LE24(a + b, |a| + i) == LE24(b, i)
  {
    assert (a + b)[|a| + i] == b[i] && (a + b)[|a| + i + 1] == b[i + 1] && (a + b)[|a| + i + 2] == b[i + 2];
  }

  function BE32(s: bytes, i: nat): (r: uint32)
    requires i + 4 <= |s|
    ensures r / 0x100_0000 == s[i] && r % 0x100 == s[i + 3]
  {
    ((s[i] as int * 0x100 + s[i + 1] as int) * 0x100 + s[i + 2] as int) * 0x100 + s[i + 3] as int
  }

  /** The four bytes of a 32-bit value, least significant first. */
  function LE32Bytes(x: int): (r: bytes)
    ensures |r| == 4
    ensures 0 <= x < TWO_POW_32 ==> LE32(r, 0) == x
  {
    var u := x % TWO_POW_32;
    var q1 := u / 0x100;
    var q2 := q1 / 0x100;
    var q3 := q2 / 0x100;
    [u % 0x100, q1 % 0x100, q2 % 0x100, q3]
  }

  /** The four bytes of a 32-bit value, most significant first. */
  function BE32Bytes(x: int): (r: bytes)
    ensures |r| == 4
    ensures 0 <= x < TWO_POW_32 ==> BE32(r, 0) == x
  {
    var u := x % TWO_POW_32;
    var q1 := u / 0x100;
    var q2 := q1 / 0x100;
    var q3 := q2 / 0x100;
    [q3, q2 % 0x100, q1 % 0x100, u % 0x100]
  }

  function Zeros(n: nat): (r: bytes)
    ensures |r| == n
    ensures forall i :: 0 <= i < n ==> r[i] == 0
  {
    seq(n, _ => 0)
  }

  function Min(a: int, b: int): int {
    if a < b then a else b
  }

  function Max(a: int, b: int): int {
    if a < b then b else a
  }

  /** The bytes `s` appear in `src` starting at offset `at`. */
  predicate At(src: bytes, at: int, s: bytes) {
    && 0 <= at && at + |s| <= |src|
    && forall t :: 0 <= t < |s| ==> src[at + t] == s[t]
  }

  lemma AtSplit(src: bytes, at: int, a: bytes, b: bytes)
    requires At(src, at, a + b)
    ensures At(src, at, a) && At(src, at + |a|, b)
  {
    forall t | 0 <= t < |a|
      ensures src[at + t] == a[t]
    {
      assert (a + b)[t] == a[t];
    }
    forall t | 0 <= t < |b|
      ensures src[at + |a| + t] == b[t]
    {
      assert (a + b)[|a| + t] == b[t];
    }
  }

  /** The first of the bytes `[b] + rest` found at `at`, and the rest after it. */
  lemma AtHead(src: bytes, at: int, b: uint8, rest: bytes)
    requires At(src, at, [b] + rest)
    ensures 0 <= at < |src| && src[at] == b && At(src, at + 1, rest)
  {
    assert src[at + 0] == ([b] + rest)[0];
    AtSplit(src, at, [b], rest);
  }

  lemma AtEnd(a: bytes, b: bytes)
    ensures At(a + b, |a|, b)
  {
    forall t | 0 <= t < |b|
      ensures (a + b)[|a| + t] == b[t]
    {
    }
  }
}
