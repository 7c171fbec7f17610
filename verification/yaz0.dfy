/** The Yaz0 codec of NSMBe5's ROM class (`Yaz0_Compress`,
    `Yaz0_Decompress`).

    Container: the tag "Yaz0", the decompressed length as a big-endian word,
    eight zero bytes, then groups of one flag byte followed by up to eight
    units; the stream is padded with zero bytes to a multiple of four. A set
    flag bit (most significant first) marks one literal byte; a clear bit
    marks a back-reference: the low nibble of its first byte and its second
    byte give the distance minus 1, and the high nibble gives the length
    minus 2, or is 0 when a third byte holds the length minus 0x12. */
module Yaz0 {
  import opened Common
  import opened BackRef

  const MAX_BACK: int := 0x400     // the encoder looks back at most this far
  const MAX_RUN: int := 0x111      // the longest run a reference can carry
  const LONG_RUN: int := 0x12      // runs from here on take the three-byte form
  const HEADER_SIZE: int := 16
  const MAGIC: bytes := [0x59, 0x61, 0x7A, 0x30]   // "Yaz0"

  /*---------------------------------------------------------------------
   * Match search
   *---------------------------------------------------------------------*/

  /** `maxnum`: how long a run at `pos` may be. */
  function MaxRun(data: bytes, pos: int): int {
    Min(MAX_RUN, |data| - pos)
  }

  /** `maxback`: how many positions back the search looks. */
  function Window(pos: int): int {
    Min(pos, MAX_BACK)
  }

  /** The `len` bytes at `pos` repeat the bytes `back` positions earlier.
      The repeated bytes may run into `pos` itself: the decoder copies one
      byte at a time. */
  predicate Matches(data: bytes, pos: int, back: int, len: int) {
    && 1 <= back <= pos
    && 0 <= len <= MaxRun(data, pos)
    && (len > 0 ==> data[pos - back..pos - back + len] == data[pos..pos + len])
  }

  /** The inner `while` of the search: extends a match one byte at a time,
      up to `maxnum` bytes. */
  function MatchLength(data: bytes, pos: int, back: int, len: int): (r: int)
    requires Matches(data, pos, back, len)
    ensures len <= r && Matches(data, pos, back, r)
    ensures r == MaxRun(data, pos) || data[pos - back + r] != data[pos + r]
    decreases MaxRun(data, pos) - len
  {
    if len < MaxRun(data, pos) && data[pos - back + len] == data[pos + len] then
      MatchGrows(data, pos, back, len);
      MatchLength(data, pos, back, len + 1)
    else len
  }

  /** A match followed by one more equal byte is a match one byte longer. */
  lemma MatchGrows(data: bytes, pos: int, back: int, len: int)
    requires Matches(data, pos, back, len) && len < MaxRun(data, pos)
    requires data[pos - back + len] == data[pos + len]
    ensures Matches(data, pos, back, len + 1)
  {
    var a := data[pos - back..pos - back + len + 1];
    var b := data[pos..pos + len + 1];
    forall i | 0 <= i < len + 1
      ensures a[i] == b[i]
    {
      if i < len {
        assert a[i] == data[pos - back..pos - back + len][i];
        assert b[i] == data[pos..pos + len][i];
      }
    }
  }

  /** No match at distance `back` is longer than the one the inner loop finds. */
  lemma MatchLengthIsLongest(data: bytes, pos: int, back: int, len: int)
    requires Matches(data, pos, back, len)
    ensures len <= MatchLength(data, pos, back, 0)
  {
    MatchExtends(data, pos, back, 0, len);
  }

  /** The inner loop, started from a shorter match `m`, does not stop before
      reaching the longer match `len`. */
  lemma {:induction false} MatchExtends(data: bytes, pos: int, back: int, m: int, len: int)
    requires Matches(data, pos, back, m) && Matches(data, pos, back, len) && m <= len
    ensures len <= MatchLength(data, pos, back, m)
    decreases len - m
  {
    if m < len {
      assert data[pos - back + m] == data[pos - back..pos - back + len][m];
      assert data[pos + m] == data[pos..pos + len][m];
      assert data[pos - back..pos - back + m + 1] == data[pos - back..pos - back + len][..m + 1];
      assert data[pos..pos + m + 1] == data[pos..pos + len][..m + 1];
      MatchExtends(data, pos, back, m + 1, len);
    }
  }

  /** `back` and `nr` of the search: length 2 (with distance 1) means no
      usable match. */
  datatype Found = Found(back: int, length: int)

  /** The search starts from `nr = 2`, `back = 1`. */
  const NONE: Found := Found(1, 2)

  /** `f` is a result the search may hold for `pos`: nothing, or a match of
      more than 2 bytes inside the window. */
  predicate InWindow(data: bytes, pos: int, f: Found) {
    && 2 <= f.length
    && (f.length == 2 ==> f.back == 1)
    && (f.length > 2 ==> f.back <= Window(pos) && Matches(data, pos, f.back, f.length))
  }

  /** The `while (maxback <= ptr)` loop from distance `back` on: nearer
      candidates first, a strictly longer match replaces the best one, and
      the scan stops once the best run has the maximum length. */
  function SearchFrom(data: bytes, pos: int, back: int, best: Found): (r: Found)
    requires 0 <= pos < |data| && 1 <= back
    requires InWindow(data, pos, best)
    ensures InWindow(data, pos, r)
    decreases Window(pos) + 1 - back
  {
    if back > Window(pos) then best
    else
      var len := MatchLength(data, pos, back, 0);
      var best' := if len > best.length then Found(back, len) else best;
      if best'.length == MaxRun(data, pos) then best'
      else SearchFrom(data, pos, back + 1, best')
  }

  /** The search block of `Yaz0_Compress`: the longest run at `pos` repeating
      bytes at most 0x400 back, capped at `maxnum` (see `SearchIsLongest` and
      `SearchIsNearest`). */
  function Search(data: bytes, pos: int): (r: Found)
    requires 0 <= pos < |data|
    ensures 2 <= r.length
    ensures r.length > 2 ==>
      && 1 <= r.back <= Window(pos)
      && r.length <= MaxRun(data, pos)
      && data[pos - r.back..pos - r.back + r.length] == data[pos..pos + r.length]
  {
    SearchFrom(data, pos, 1, NONE)
  }

  /** What the scan has established once distances `[1, upto)` are looked
      at: no scanned distance beats `best`, and every one nearer than it is
      strictly shorter. Lemmas that only pass this fact along state it as
      `BestSoFar(..) == true`, which keeps the verifier from splitting it into
      its quantified parts at every call. */
  predicate BestSoFar(data: bytes, pos: int, upto: int, best: Found) {
    && 0 <= pos < |data|
    && (best.length > 2 ==> best.back < upto)
    && (forall b :: 1 <= b < upto && b <= Window(pos) ==> AtMost(data, pos, b, best.length))
    && (forall b :: 1 <= b < best.back && b <= Window(pos) ==> Shorter(data, pos, b, best.length))
  }

  /** The longest match at distance `b` has at most `len` bytes. */
  predicate AtMost(data: bytes, pos: int, b: int, len: int)
    requires 1 <= b <= pos <= |data|
  {
    MatchLength(data, pos, b, 0) <= len
  }

  /** The longest match at distance `b` has fewer than `len` bytes. */
  predicate Shorter(data: bytes, pos: int, b: int, len: int)
    requires 1 <= b <= pos <= |data|
  {
    MatchLength(data, pos, b, 0) < len
  }

  /** One distance of the scan keeps `BestSoFar`. */
  lemma ScanStep(data: bytes, pos: int, back: int, best: Found) returns (best': Found)
    requires 1 <= back <= Window(pos)
    requires BestSoFar(data, pos, back, best)
    ensures best' == if MatchLength(data, pos, back, 0) > best.length
      then Found(back, MatchLength(data, pos, back, 0)) else best
    ensures BestSoFar(data, pos, back + 1, best')
  {
    var len := MatchLength(data, pos, back, 0);
    best' := if len > best.length then Found(back, len) else best;
    forall b | 1 <= b < back + 1 && b <= Window(pos)
      ensures AtMost(data, pos, b, best'.length)
    {
      if b < back {
        assert AtMost(data, pos, b, best.length);
      }
    }
    forall b | 1 <= b < best'.back && b <= Window(pos)
      ensures Shorter(data, pos, b, best'.length)
    {
      if len > best.length {
        assert AtMost(data, pos, b, best.length);
      } else {
        assert Shorter(data, pos, b, best.length);
      }
    }
  }

  /** One unfolding of the scan at distance `back`. */
  lemma SearchFromStep(data: bytes, pos: int, back: int, best: Found) returns (best': Found)
    requires 0 <= pos < |data| && 1 <= back <= Window(pos)
    requires InWindow(data, pos, best)
    ensures best' == if MatchLength(data, pos, back, 0) > best.length
      then Found(back, MatchLength(data, pos, back, 0)) else best
    ensures InWindow(data, pos, best')
    ensures best'.length == MaxRun(data, pos) ==> SearchFrom(data, pos, back, best) == best'
    ensures best'.length != MaxRun(data, pos) ==> SearchFrom(data, pos, back, best) == SearchFrom(data, pos, back + 1, best')
  {
    var len := MatchLength(data, pos, back, 0);
    best' := if len > best.length then Found(back, len) else best;
  }

  /** One distance of the scan: the best match after it, from which the
      scan either stops or goes on. */
  lemma ScanNext(data: bytes, pos: int, back: int, best: Found) returns (best': Found)
    requires 0 <= pos < |data| && 1 <= back <= Window(pos)
    requires InWindow(data, pos, best)
    requires BestSoFar(data, pos, back, best) == true
    ensures InWindow(data, pos, best')
    ensures BestSoFar(data, pos, back + 1, best') == true
    ensures best'.length == MaxRun(data, pos) ==> SearchFrom(data, pos, back, best) == best'
    ensures best'.length != MaxRun(data, pos) ==> SearchFrom(data, pos, back, best) == SearchFrom(data, pos, back + 1, best')
  {
    best' := SearchFromStep(data, pos, back, best);
    var kept := ScanStep(data, pos, back, best);
  }

  /** Once every distance in the window is scanned, the best one so far is
      the best one. */
  lemma ScanDone(data: bytes, pos: int, upto: int, best: Found)
    requires Window(pos) < upto && InWindow(data, pos, best)
    requires BestSoFar(data, pos, upto, best) == true
    ensures BestSoFar(data, pos, Window(pos) + 1, best)
  {
  }

  /** A run of the maximum length cannot be beaten, so the scan may stop at
      it. */
  lemma CappedIsBest(data: bytes, pos: int, upto: int, best: Found)
    requires best.length == MaxRun(data, pos) && InWindow(data, pos, best)
    requires BestSoFar(data, pos, upto, best) == true
    ensures BestSoFar(data, pos, Window(pos) + 1, best)
  {
    forall b | 1 <= b <= Window(pos)
      ensures AtMost(data, pos, b, best.length)
    {
    }
  }

  /** The scan keeps `BestSoFar`: at its end no distance in the window has a
      longer run than the result, and the nearer ones have shorter runs. */
  lemma {:induction false} SearchFromIsBest(data: bytes, pos: int, back: int, best: Found) returns (r: Found)
    requires 0 <= pos < |data| && 1 <= back
    requires InWindow(data, pos, best)
    requires BestSoFar(data, pos, back, best) == true
    ensures r == SearchFrom(data, pos, back, best)
    ensures BestSoFar(data, pos, Window(pos) + 1, r) == true
    decreases Window(pos) + 1 - back, 1
  {
    if back > Window(pos) {
      r := best;
      ScanDone(data, pos, back, best);
    } else {
      r := SearchFromNext(data, pos, back, best);
    }
  }

  /** The scan from a distance inside the window: it stops at a run of the
      maximum length, and goes on to the next distance otherwise. */
  lemma {:induction false} SearchFromNext(data: bytes, pos: int, back: int, best: Found) returns (r: Found)
    requires 0 <= pos < |data| && 1 <= back <= Window(pos)
    requires InWindow(data, pos, best)
    requires BestSoFar(data, pos, back, best) == true
    ensures r == SearchFrom(data, pos, back, best)
    ensures BestSoFar(data, pos, Window(pos) + 1, r) == true
    decreases Window(pos) + 1 - back, 0
  {
    var best' := ScanNext(data, pos, back, best);
    if best'.length != MaxRun(data, pos) {
      r := SearchFromIsBest(data, pos, back + 1, best');
    } else {
      r := best';
      CappedIsBest(data, pos, back + 1, best');
    }
  }

  /** No distance in the window repeats more bytes than the search reports
      (a report of 2 bytes meaning no run of 3 or more exists). */
  lemma SearchIsLongest(data: bytes, pos: int, back: int, len: int)
    requires 0 <= pos < |data| && 1 <= back <= Window(pos) && Matches(data, pos, back, len)
    ensures len <= Search(data, pos).length
  {
    var r := SearchFromIsBest(data, pos, 1, NONE);
    MatchLengthIsLongest(data, pos, back, len);
    assert AtMost(data, pos, back, r.length);
  }

  /** Among equally long runs the nearest wins: every distance nearer than
      the reported one has a strictly shorter run. */
  lemma SearchIsNearest(data: bytes, pos: int, back: int)
    requires 0 <= pos < |data| && 1 <= back < Search(data, pos).back
    ensures MatchLength(data, pos, back, 0) < Search(data, pos).length
  {
    var r := SearchFromIsBest(data, pos, 1, NONE);
    assert Shorter(data, pos, back, r.length);
  }

  /*---------------------------------------------------------------------
   * Compression
   *---------------------------------------------------------------------*/

  /** What the compressor emits for one position: a literal byte, or a run of
      `length` bytes repeating the ones `back` positions earlier. */
  datatype Unit = Literal(b: uint8) | Ref(length: int, back: int)

  /** How many input bytes a unit covers. */
  function Advance(u: Unit): int {
    match u
    case Literal(_) => 1
    case Ref(length, _) => length
  }

  /** The bytes of a back-reference: runs of 0x12 or more take three bytes,
      the distance and then the length minus 0x12; shorter runs put the length
      minus 2 in the high nibble of the first byte. */
  function RefCode(length: int, back: int): (r: bytes)
    ensures |r| == if length >= LONG_RUN then 3 else 2
  {
    if length >= LONG_RUN then
      [((back - 1) / 0x100) % 0x10, (back - 1) % 0x100, (length - LONG_RUN) % 0x100]
    else
      [((length - 2) % 0x10) * 0x10 + ((back - 1) / 0x100) % 0x10, (back - 1) % 0x100]
  }

  /** The bytes a unit occupies in a group. */
  function Code(u: Unit): (r: bytes)
    ensures 1 <= |r| <= 3
  {
    match u
    case Literal(b) => [b]
    case Ref(length, back) => RefCode(length, back)
  }

  /** Unit `u` at position `cur` stands for the bytes it covers: a literal is
      the byte at `cur`; a reference fits the encoder's limits and its bytes
      repeat the ones `back` earlier. */
  predicate Rebuilds(data: bytes, cur: int, u: Unit) {
    && 0 <= cur < |data|
    && match u
       case Literal(b) => b == data[cur]
       case Ref(length, back) =>
         && 3 <= length <= MAX_RUN && 1 <= back <= MAX_BACK
         && back <= cur && cur + length <= |data|
         && data[cur - back..cur - back + length] == data[cur..cur + length]
  }

  /** One pass of the inner `for` loop of `Yaz0_Compress` at `cur`: a
      reference when the search finds more than 2 bytes, otherwise the
      literal byte. */
  function UnitAt(data: bytes, cur: int): (u: Unit)
    requires 0 <= cur < |data|
    ensures Rebuilds(data, cur, u)
    ensures 1 <= Advance(u)
  {
    var found := Search(data, cur);
    if found.length > 2 then Ref(found.length, found.back) else Literal(data[cur])
  }

  /** The units `us`, laid end to end from `cur`, cover the input up to its
      end, each standing for the bytes it covers. */
  predicate Explains(data: bytes, cur: int, us: seq<Unit>)
    decreases |us|
  {
    if us == [] then cur == |data|
    else Rebuilds(data, cur, us[0]) && Explains(data, cur + Advance(us[0]), us[1..])
  }

  /** A unit that stands for the bytes at `cur`, followed by units that
      explain the input after it, explains the input from `cur`. */
  lemma ExplainsCons(data: bytes, cur: int, u: Unit, rest: seq<Unit>)
    requires Rebuilds(data, cur, u) && Explains(data, cur + Advance(u), rest)
    ensures Explains(data, cur, [u] + rest)
  {
    assert ([u] + rest)[1..] == rest;
  }

  /** The units the compressor chooses from `cur` to the end of the input,
      one search per unit. */
  function Parse(data: bytes, cur: int): (us: seq<Unit>)
    requires 0 <= cur <= |data|
    ensures Explains(data, cur, us)
    decreases |data| - cur
  {
    if cur == |data| then []
    else
      var u := UnitAt(data, cur);
      var rest := Parse(data, cur + Advance(u));
      ExplainsCons(data, cur, u, rest);
      [u] + rest
  }

  /** The units after the first. */
  function Tail(us: seq<Unit>): seq<Unit> {
    if us == [] then [] else us[1..]
  }

  /** The flags of the `k` last slots of a group holding the units `us`,
      the first slot at the top bit: a literal sets its slot's bit, and the
      slots after the input is used up stay clear, as the final
      `header << (7 - i)` leaves them. */
  function GroupFlags(us: seq<Unit>, k: nat): (f: bv8)
    requires k <= 8
    ensures f & LowMask(8 - k) == 0
  {
    if k == 0 then 0
    else
      var rest := GroupFlags(Tail(us), k - 1);
      FlagStep(rest, 8 - k, us != [] && us[0].Literal?);
      PushFlag(us != [] && us[0].Literal?, rest)
  }

  /** The codes of the units in the `k` last slots of a group. The last
      group stops at the last unit: nothing fills its empty slots. */
  function GroupBody(us: seq<Unit>, k: nat): (r: bytes)
    requires k <= 8
    decreases k
  {
    if k == 0 || us == [] then [] else Code(us[0]) + GroupBody(us[1..], k - 1)
  }

  /** The outer `while` of `Yaz0_Compress`: one flag byte and up to eight
      units per pass. */
  function Serialize(us: seq<Unit>): (r: bytes)
    decreases |us|
  {
    if us == [] then []
    else [GroupFlags(us, 8) as int] + GroupBody(us, 8) + Serialize(us[Min(8, |us|)..])
  }

  /** The 16-byte header: the tag, the length as a big-endian word, then
      eight zero bytes. */
  function Header(n: int): (r: bytes)
    ensures |r| == HEADER_SIZE
  {
    MAGIC + BE32Bytes(n) + Zeros(8)
  }

  /** How many zero bytes bring a stream of `n` bytes to a multiple of 4. */
  function PadLength(n: int): (r: int)
    requires n >= 0
    ensures 0 <= r < 4 && (n + r) % 4 == 0
  {
    if n % 4 == 0 then 0 else 4 - n % 4
  }

  /** The stream `s` followed by zero bytes up to a multiple of 4. */
  function Pad(s: bytes): (r: bytes)
    ensures |r| % 4 == 0 && |s| <= |r| < |s| + 4
  {
    s + Zeros(PadLength(|s|))
  }

  /** The stream `Yaz0_Compress` writes for a non-empty input, before its
      final copy: header, groups, zero padding. */
  function Encode(data: bytes): (r: bytes)
    ensures |r| % 4 == 0 && |r| >= HEADER_SIZE
  {
    Pad(Header(|data|) + Serialize(Parse(data, 0)))
  }

  /** `Yaz0_Compress` with a work buffer of `capacity` bytes: the stream is
      written through a raw pointer with no bound check, and the final
      `Array.Copy` of `dstoffs` bytes throws once the stream is longer than
      the buffer. A buffer of the worst-case size always suffices, and
      whatever is returned decompresses to the input. */
  function CompressWith(data: bytes, capacity: int): (r: Result<bytes>)
    requires |data| > 0
    ensures capacity >= |data| + (|data| + 7) / 8 + 0x13 ==> r.Ok?
    ensures r.Err? ==> r.error == CopyOutOfRange
    ensures r.Ok? ==> HEADER_SIZE <= |r.value| <= capacity && |r.value| % 4 == 0
    ensures r.Ok? && |data| < TWO_POW_31 ==> Decompress(r.value) == Ok(data)
  {
    var out := Encode(data);
    EncodeSize(data);
    assert |data| < TWO_POW_31 ==> Decompress(out) == Ok(data) by {
      if |data| < TWO_POW_31 {
        EncodeRoundTrip(data);
      }
    }
    if |out| > capacity then Err(CopyOutOfRange) else Ok(out)
  }

  /** `Yaz0_Compress` as written, with a buffer of `n + n / 8 + 0x10` bytes.
      That size is computed in `int`: from 2^31 on it wraps negative and the
      allocation throws. An empty input fills its 16-byte buffer with the
      header, so storing the first group's flag byte at offset 16 is already
      out of range. */
  function Compress(data: bytes): (r: Result<bytes>)
  {
    var n := |data|;
    if n + n / 8 + 0x10 >= TWO_POW_31 then Err(AllocationTooLarge)
    else if n == 0 then Err(IndexOutOfRange)
    else CompressWith(data, n + n / 8 + 0x10)
  }

  /** Whatever `Yaz0_Compress` as written does return decompresses to its
      input. */
  lemma CompressRoundTrip(data: bytes)
    requires Compress(data).Ok?
    ensures Decompress(Compress(data).value) == Ok(data)
  {
  }

  /** `Yaz0_Compress` with the buffer sized for its worst case: every unit a
      literal, one flag byte per eight of them, and up to 3 bytes of
      padding. */
  function CompressFixed(data: bytes): (r: Result<bytes>)
  {
    var n := |data|;
    if n == 0 then Err(CopyOutOfRange) else CompressWith(data, n + (n + 7) / 8 + 0x13)
  }

  /*---------------------------------------------------------------------
   * Decompression
   *---------------------------------------------------------------------*/

  /** The distance of a back-reference: the low nibble of its first byte
      and its second byte, plus 1. */
  function Dist(src: bytes, xin: int): int
    requires 0 <= xin && xin + 1 < |src|
  {
    (src[xin] as int % 0x10) * 0x100 + src[xin + 1] as int + 1
  }

  /** The high nibble of a back-reference's first byte. */
  function Nibble(src: bytes, xin: int): int
    requires 0 <= xin < |src|
  {
    src[xin] / 0x10
  }

  /** The bytes of a back-reference at `xin` are all there: two, or three
      when the high nibble is 0. */
  predicate RefFits(src: bytes, xin: int)
    requires 0 <= xin
  {
    xin + 1 < |src| && (Nibble(src, xin) == 0 ==> xin + 2 < |src|)
  }

  /** The run length of a back-reference: the high nibble plus 2, or the
      third byte plus 0x12 when the nibble is 0. */
  function RunLength(src: bytes, xin: int): int
    requires 0 <= xin && RefFits(src, xin)
  {
    if Nibble(src, xin) == 0 then src[xin + 2] as int + LONG_RUN else Nibble(src, xin) + 2
  }

  /** Where reading goes on after a back-reference. */
  function RefEnd(src: bytes, xin: int): int
    requires 0 <= xin && RefFits(src, xin)
  {
    if Nibble(src, xin) == 0 then xin + 3 else xin + 2
  }

  /** One unit of a group: a literal when its flag bit is set, otherwise a
      back-reference. A reference that reaches before the output or past the
      declared length writes outside `Result` and throws. */
  function DecodeUnit(src: bytes, xin: int, isLiteral: bool, dest: bytes, total: int): (r: Step)
    requires 0 <= xin && |dest| < total
    ensures r.Done? ==> |r.out| == total
    ensures r.Next? ==> |dest| < |r.out| < total && r.xin > xin
  {
    if isLiteral then
      if xin >= |src| then Fail(IndexOutOfRange)
      else
        var dest' := dest + [src[xin]];
        if |dest'| == total then Done(dest') else Next(xin + 1, dest')
    else if !RefFits(src, xin) then Fail(IndexOutOfRange)
    else if |dest| < Dist(src, xin) || |dest| + RunLength(src, xin) > total then Fail(IndexOutOfRange)
    else
      var dest' := CopyBack(dest, Dist(src, xin), RunLength(src, xin));
      if |dest'| == total then Done(dest') else Next(RefEnd(src, xin), dest')
  }

  /** The `for` loop over the `k` last units of a group, the flag byte
      shifted left after each unit. */
  function DecodeUnits(src: bytes, xin: int, d: bv8, k: nat, dest: bytes, total: int): (r: Step)
    requires 0 <= xin && |dest| < total && k <= 8
    ensures r.Done? ==> |r.out| == total
    ensures r.Next? ==> |dest| + k <= |r.out| < total && r.xin >= xin
    decreases k
  {
    if k == 0 then Next(xin, dest)
    else match DecodeUnit(src, xin, d & 0x80 != 0, dest, total)
      case Next(x, out) => DecodeUnits(src, x, d << 1, k - 1, out, total)
      case other => other
  }

  /** The `while (true)` loop: one flag byte, then its group. */
  function DecodeGroups(src: bytes, xin: int, dest: bytes, total: int): (r: Result<bytes>)
    requires 0 <= xin && |dest| < total
    ensures r.Ok? ==> |r.value| == total
    decreases total - |dest|
  {
    if xin >= |src| then Err(IndexOutOfRange)
    else match DecodeUnits(src, xin + 1, FlagOf(src, xin), 8, dest, total)
      case Fail(e) => Err(e)
      case Done(out) => Ok(out)
      case Next(x, out) => DecodeGroups(src, x, out, total)
  }

  /** `Yaz0_Decompress`. The tag is not checked. The length is a `uint`:
      a length of 2^31 or more cannot be allocated, and a length of 0 makes
      the first unit write outside the empty result. */
  function Decompress(src: bytes): (r: Result<bytes>)
    ensures r.Ok? ==> |src| >= 8 && |r.value| == BE32(src, 4)
  {
    if |src| < 8 then Err(IndexOutOfRange)
    else
      var total := BE32(src, 4);
      if total >= TWO_POW_31 then Err(AllocationTooLarge)
      else if total == 0 then Err(IndexOutOfRange)
      else DecodeGroups(src, HEADER_SIZE, [], total)
  }

  /*---------------------------------------------------------------------
   * Round trip
   *---------------------------------------------------------------------*/

  /** The decoder reads a reference's bytes back as its distance and
      length, and goes on after them. */
  lemma RefCodeRead(src: bytes, xin: int, length: int, back: int)
    requires 3 <= length <= MAX_RUN && 1 <= back <= MAX_BACK
    requires At(src, xin, RefCode(length, back))
    ensures 0 <= xin && RefFits(src, xin)
    ensures Dist(src, xin) == back && RunLength(src, xin) == length
    ensures RefEnd(src, xin) == xin + |RefCode(length, back)|
  {
    var c := RefCode(length, back);
    assert src[xin + 0] == c[0] && src[xin + 1] == c[1];
    if length >= LONG_RUN {
      assert src[xin + 2] == c[2];
    }
  }

  /** A reference whose run fits the output decodes to `CopyBack`. */
  lemma RefUnitStep(src: bytes, xin: int, dest: bytes, total: int, length: int, back: int) returns (out: bytes)
    requires 0 <= xin && |dest| < total && |dest| + length <= total
    requires 3 <= length <= MAX_RUN && 1 <= back <= MAX_BACK && back <= |dest|
    requires At(src, xin, RefCode(length, back))
    ensures out == CopyBack(dest, back, length)
    ensures DecodeUnit(src, xin, false, dest, total)
      == if |out| == total then Done(out) else Next(xin + |RefCode(length, back)|, out)
  {
    RefCodeRead(src, xin, length, back);
    out := CopyBack(dest, back, length);
  }

  /** A reference that stands for its bytes extends the rebuilt prefix by
      them. */
  lemma RefUnitDecodes(data: bytes, cur: int, length: int, back: int, src: bytes, xin: int)
    requires Rebuilds(data, cur, Ref(length, back))
    requires At(src, xin, RefCode(length, back))
    ensures DecodeUnit(src, xin, false, data[..cur], |data|)
      == if cur + length == |data| then Done(data)
         else Next(xin + |RefCode(length, back)|, data[..cur + length])
  {
    var out := RefUnitStep(src, xin, data[..cur], |data|, length, back);
    CopyBackRebuilds(data, cur, back, length);
    assert out == data[..cur + length];
    if cur + length == |data| {
      assert data[..cur + length] == data;
    }
  }

  /** A literal extends the rebuilt prefix `data[..cur]` by `data[cur]`. */
  lemma LiteralUnitDecodes(data: bytes, cur: int, src: bytes, xin: int)
    requires 0 <= cur < |data|
    requires 0 <= xin < |src| && src[xin] == data[cur]
    ensures DecodeUnit(src, xin, true, data[..cur], |data|)
      == if cur + 1 == |data| then Done(data) else Next(xin + 1, data[..cur + 1])
  {
    assert data[..cur] + [data[cur]] == data[..cur + 1];
    if cur + 1 == |data| {
      assert data[..cur + 1] == data;
    }
  }

  /** Every unit that stands for its bytes decodes to them. */
  lemma UnitDecodes(data: bytes, cur: int, u: Unit, src: bytes, xin: int)
    requires Rebuilds(data, cur, u)
    requires At(src, xin, Code(u))
    ensures DecodeUnit(src, xin, u.Literal?, data[..cur], |data|)
      == if cur + Advance(u) == |data| then Done(data)
         else Next(xin + |Code(u)|, data[..cur + Advance(u)])
  {
    match u
    case Ref(length, back) =>
      RefUnitDecodes(data, cur, length, back, src, xin);
    case Literal(b) =>
      assert src[xin + 0] == Code(u)[0];
      LiteralUnitDecodes(data, cur, src, xin);
  }

  /** A group's unit loop goes on after a unit that leaves bytes to decode,
      with the flag byte shifted to the next unit's flag. */
  lemma UnitsNext(src: bytes, xin: int, d: bv8, k: nat, dest: bytes, total: int,
                  isLiteral: bool, x: int, out: bytes, d': bv8)
    requires 0 <= xin && |dest| < total && 1 <= k <= 8
    requires (d & 0x80 != 0) == isLiteral && d << 1 == d'
    requires DecodeUnit(src, xin, isLiteral, dest, total) == Next(x, out)
    ensures DecodeUnits(src, xin, d, k, dest, total) == DecodeUnits(src, x, d', k - 1, out, total)
  {
  }

  /** A group's unit loop stops at the unit that completes the output. */
  lemma UnitsDone(src: bytes, xin: int, d: bv8, k: nat, dest: bytes, total: int, isLiteral: bool, out: bytes)
    requires 0 <= xin && |dest| < total && 1 <= k <= 8
    requires (d & 0x80 != 0) == isLiteral
    requires DecodeUnit(src, xin, isLiteral, dest, total) == Done(out)
    ensures DecodeUnits(src, xin, d, k, dest, total) == Done(out)
  {
  }

  /** A unit that stands for bytes of the input covers at least one of them
      and does not run past its end. */
  lemma RebuildsAdvance(data: bytes, cur: int, u: Unit)
    requires Rebuilds(data, cur, u)
    ensures 0 <= cur < cur + Advance(u) <= |data|
  {
  }

  /** The first of a non-empty run of units stands for the bytes at `cur`,
      and the others explain the input from `next`, where it ends. */
  lemma ExplainsFront(data: bytes, cur: int, us: seq<Unit>) returns (next: int)
    requires us != [] && Explains(data, cur, us)
    ensures next == cur + Advance(us[0])
    ensures Rebuilds(data, cur, us[0]) && 0 <= cur < next <= |data|
    ensures Explains(data, next, us[1..])
  {
    next := cur + Advance(us[0]);
    RebuildsAdvance(data, cur, us[0]);
  }

  /** The input position after the first `k` of the units `us`. */
  function After(cur: int, us: seq<Unit>, k: nat): int
    decreases k
  {
    if k == 0 || us == [] then cur else After(cur + Advance(us[0]), us[1..], k - 1)
  }

  /** Counting the first `k` units from `cur` is counting `k - 1` of them
      after the first. */
  lemma AfterFront(cur: int, us: seq<Unit>, k: nat)
    requires 1 <= k && us != []
    ensures After(cur, us, k) == After(cur + Advance(us[0]), us[1..], k - 1)
  {
  }

  /** The units after the first `k` explain the input from where those end. */
  lemma {:induction false} ExplainsAfter(data: bytes, cur: int, us: seq<Unit>, k: nat)
    requires Explains(data, cur, us) && k <= |us|
    ensures Explains(data, After(cur, us, k), us[k..])
    decreases k
  {
    if k > 0 {
      ExplainsAfter(data, cur + Advance(us[0]), us[1..], k - 1);
      assert us[1..][k - 1..] == us[k..];
    }
  }

  /** The first slot of a group holds the first unit. */
  lemma GroupUnfold(us: seq<Unit>, k: nat)
    requires 1 <= k <= 8 && us != []
    ensures GroupFlags(us, k) == PushFlag(us[0].Literal?, GroupFlags(us[1..], k - 1))
    ensures GroupBody(us, k) == Code(us[0]) + GroupBody(us[1..], k - 1)
  {
  }

  /** The first unit's flag is the top bit of the group's remaining flags,
      and shifting it out leaves the flags of the slots after it. */
  lemma FlagsFront(us: seq<Unit>, k: nat)
    requires 1 <= k <= 8 && us != []
    ensures (GroupFlags(us, k) & 0x80 != 0) == us[0].Literal?
    ensures GroupFlags(us, k) << 1 == GroupFlags(us[1..], k - 1)
  {
    GroupUnfold(us, k);
    FlagStep(GroupFlags(us[1..], k - 1), 8 - k, us[0].Literal?);
  }

  /** The bit `1 << (7 - j)` of a group's flags is set exactly when slot
      `j` holds a literal; the slots after the last unit stay clear. */
  lemma {:induction false} GroupFlagBits(us: seq<Unit>, k: nat, j: nat)
    requires j < k <= 8
    ensures GroupFlags(us, k) & SlotMask(j) != 0 <==> j < |us| && us[j].Literal?
    decreases j, 1
  {
    if us == [] {
      NoUnitsNoFlags(k);
    } else if j == 0 {
      FlagsFront(us, k);
    } else {
      GroupFlagBitsAfter(us, k, j);
    }
  }

  /** `GroupFlagBits` past the first slot: the shift that drops the first
      unit's flag brings slot `j` to slot `j - 1` of the units after it. */
  lemma {:induction false} GroupFlagBitsAfter(us: seq<Unit>, k: nat, j: nat)
    requires 1 <= j < k <= 8 && us != []
    ensures GroupFlags(us, k) & SlotMask(j) != 0 <==> j < |us| && us[j].Literal?
    decreases j, 0
  {
    FlagsFront(us, k);
    GroupFlagBits(us[1..], k - 1, j - 1);
    ShiftedBit(GroupFlags(us, k), j);
  }

  /** A group with no units left has no flags set. */
  lemma {:induction false} NoUnitsNoFlags(k: nat)
    requires k <= 8
    ensures GroupFlags([], k) == 0
    decreases k
  {
    if k > 0 {
      NoUnitsNoFlags(k - 1);
    }
  }

  /** The first unit's code opens the group's bytes; the slots after it
      follow from offset `x1`. */
  lemma BodyFront(us: seq<Unit>, k: nat, src: bytes, xin: int) returns (x1: int)
    requires 1 <= k <= 8 && us != []
    requires At(src, xin, GroupBody(us, k))
    ensures x1 == xin + |Code(us[0])|
    ensures At(src, xin, Code(us[0])) && At(src, x1, GroupBody(us[1..], k - 1))
    ensures x1 + |GroupBody(us[1..], k - 1)| == xin + |GroupBody(us, k)|
  {
    GroupUnfold(us, k);
    x1 := xin + |Code(us[0])|;
    AtSplit(src, xin, Code(us[0]), GroupBody(us[1..], k - 1));
  }

  /** The first unit of a group decodes to the bytes it stands for. */
  lemma GroupFirst(data: bytes, cur: int, us: seq<Unit>, k: nat, src: bytes, xin: int) returns (cur': int, x1: int)
    requires 1 <= k <= 8 && us != [] && Explains(data, cur, us)
    requires At(src, xin, GroupBody(us, k))
    ensures cur' == cur + Advance(us[0]) && x1 == xin + |Code(us[0])|
    ensures 0 <= cur < cur' <= |data| && 0 <= xin < x1
    ensures Explains(data, cur', us[1..]) && At(src, x1, GroupBody(us[1..], k - 1))
    ensures x1 + |GroupBody(us[1..], k - 1)| == xin + |GroupBody(us, k)|
    ensures DecodeUnit(src, xin, us[0].Literal?, data[..cur], |data|)
      == if cur' == |data| then Done(data) else Next(x1, data[..cur'])
  {
    cur' := ExplainsFront(data, cur, us);
    x1 := BodyFront(us, k, src, xin);
    UnitDecodes(data, cur, us[0], src, xin);
  }

  /** A group's last unit rebuilds the whole input. */
  lemma GroupLast(data: bytes, cur: int, us: seq<Unit>, k: nat, src: bytes, xin: int)
    requires 1 <= k <= 8 && |us| == 1 && Explains(data, cur, us)
    requires At(src, xin, GroupBody(us, k))
    ensures DecodeUnits(src, xin, GroupFlags(us, k), k, data[..cur], |data|) == Done(data)
  {
    var cur', x1 := GroupFirst(data, cur, us, k, src, xin);
    assert us[1..] == [];
    FlagsFront(us, k);
    UnitsDone(src, xin, GroupFlags(us, k), k, data[..cur], |data|, us[0].Literal?, data);
  }

  /** Any other unit hands the rest of the group, from offset `x1` of the
      compressed bytes and input position `cur'`, to the units after it. */
  lemma GroupNext(data: bytes, cur: int, us: seq<Unit>, k: nat, src: bytes, xin: int) returns (cur': int, x1: int)
    requires 1 <= k <= 8 && |us| > 1 && Explains(data, cur, us)
    requires At(src, xin, GroupBody(us, k))
    ensures cur' == cur + Advance(us[0]) && 0 <= cur' < |data| && 0 <= x1
    ensures Explains(data, cur', us[1..]) && At(src, x1, GroupBody(us[1..], k - 1))
    ensures x1 + |GroupBody(us[1..], k - 1)| == xin + |GroupBody(us, k)|
    ensures DecodeUnits(src, xin, GroupFlags(us, k), k, data[..cur], |data|)
      == DecodeUnits(src, x1, GroupFlags(us[1..], k - 1), k - 1, data[..cur'], |data|)
  {
    cur', x1 := GroupFirst(data, cur, us, k, src, xin);
    var cur'' := ExplainsFront(data, cur', us[1..]);
    FlagsFront(us, k);
    var out := data[..cur'];
    assert DecodeUnit(src, xin, us[0].Literal?, data[..cur], |data|) == Next(x1, out);
    UnitsNext(src, xin, GroupFlags(us, k), k, data[..cur], |data|, us[0].Literal?, x1, out,
              GroupFlags(us[1..], k - 1));
  }

  /** Decoding the last `k` slots of a group whose units are the front of
      `us` rebuilds the input up to `next`, where those units end, and stops
      reading at `x`; or it rebuilds all of the input when the units run out
      inside the group (the clear flags of the empty slots are never read). */
  lemma {:induction false} GroupDecodes(data: bytes, cur: int, us: seq<Unit>, k: nat, src: bytes, xin: int)
    returns (r: Step, next: int, x: int)
    requires 1 <= k <= 8 && us != [] && Explains(data, cur, us)
    requires At(src, xin, GroupBody(us, k))
    ensures r == DecodeUnits(src, xin, GroupFlags(us, k), k, data[..cur], |data|)
    ensures next == After(cur, us, k) && x == xin + |GroupBody(us, k)|
    ensures |us| <= k ==> r == Done(data)
    ensures |us| > k ==> 0 <= next < |data| && r == Next(x, data[..next])
    decreases k, 2
  {
    if |us| == 1 {
      r := DecodeUnits(src, xin, GroupFlags(us, k), k, data[..cur], |data|);
      next := After(cur, us, k);
      x := xin + |GroupBody(us, k)|;
      GroupLast(data, cur, us, k, src, xin);
    } else {
      r, next, x := GroupDecodesNext(data, cur, us, k, src, xin);
    }
  }

  /** `GroupDecodes` when a unit follows the first one. */
  lemma {:induction false} GroupDecodesNext(data: bytes, cur: int, us: seq<Unit>, k: nat, src: bytes, xin: int)
    returns (r: Step, next: int, x: int)
    requires 1 <= k <= 8 && |us| > 1 && Explains(data, cur, us)
    requires At(src, xin, GroupBody(us, k))
    ensures r == DecodeUnits(src, xin, GroupFlags(us, k), k, data[..cur], |data|)
    ensures next == After(cur, us, k) && x == xin + |GroupBody(us, k)|
    ensures |us| <= k ==> r == Done(data)
    ensures |us| > k ==> 0 <= next < |data| && r == Next(x, data[..next])
    decreases k, 1
  {
    if k == 1 {
      r, next, x := GroupDecodesOne(data, cur, us, k, src, xin);
    } else {
      r, next, x := GroupDecodesMore(data, cur, us, k, src, xin);
    }
  }

  /** The group's last slot holds the first unit, and the next unit opens
      the next group. */
  lemma GroupDecodesOne(data: bytes, cur: int, us: seq<Unit>, k: nat, src: bytes, xin: int)
    returns (r: Step, next: int, x: int)
    requires k == 1
    requires 1 <= k <= 8 && |us| > 1 && Explains(data, cur, us)
    requires At(src, xin, GroupBody(us, k))
    ensures r == DecodeUnits(src, xin, GroupFlags(us, k), k, data[..cur], |data|)
    ensures next == After(cur, us, k) && x == xin + |GroupBody(us, k)|
    ensures |us| <= k ==> r == Done(data)
    ensures |us| > k ==> 0 <= next < |data| && r == Next(x, data[..next])
  {
    var cur', x1 := GroupNext(data, cur, us, k, src, xin);
    AfterFront(cur, us, k);
    r := DecodeUnits(src, x1, GroupFlags(us[1..], 0), 0, data[..cur'], |data|);
    next := cur';
    x := x1;
    NoSlotsLeft(src, x1, GroupFlags(us[1..], 0), data[..cur'], |data|, cur', us[1..]);
  }

  /** Slots remain after the first unit: the units after it decode in them. */
  lemma {:induction false} GroupDecodesMore(data: bytes, cur: int, us: seq<Unit>, k: nat, src: bytes, xin: int)
    returns (r: Step, next: int, x: int)
    requires k > 1
    requires 1 <= k <= 8 && |us| > 1 && Explains(data, cur, us)
    requires At(src, xin, GroupBody(us, k))
    ensures r == DecodeUnits(src, xin, GroupFlags(us, k), k, data[..cur], |data|)
    ensures next == After(cur, us, k) && x == xin + |GroupBody(us, k)|
    ensures |us| <= k ==> r == Done(data)
    ensures |us| > k ==> 0 <= next < |data| && r == Next(x, data[..next])
    decreases k, 0
  {
    var cur', x1 := GroupNext(data, cur, us, k, src, xin);
    AfterFront(cur, us, k);
    r, next, x := GroupDecodes(data, cur', us[1..], k - 1, src, x1);
  }

  /** A group with no slots left reads nothing and rebuilds nothing. */
  lemma NoSlotsLeft(src: bytes, xin: int, d: bv8, dest: bytes, total: int, cur: int, us: seq<Unit>)
    requires 0 <= xin && |dest| < total
    ensures DecodeUnits(src, xin, d, 0, dest, total) == Next(xin, dest)
    ensures GroupBody(us, 0) == [] && After(cur, us, 0) == cur
  {
  }

  /** The group loop goes on after a group that leaves bytes to decode. */
  lemma GroupsNext(src: bytes, xin: int, d: bv8, dest: bytes, total: int, x: int, out: bytes)
    requires 0 <= xin < |src| && |dest| < total && FlagOf(src, xin) == d
    requires DecodeUnits(src, xin + 1, d, 8, dest, total) == Next(x, out)
    ensures DecodeGroups(src, xin, dest, total) == DecodeGroups(src, x, out, total)
  {
  }

  /** The group loop stops at the group that completes the output. */
  lemma GroupsDone(src: bytes, xin: int, d: bv8, dest: bytes, total: int, out: bytes)
    requires 0 <= xin < |src| && |dest| < total && FlagOf(src, xin) == d
    requires DecodeUnits(src, xin + 1, d, 8, dest, total) == Done(out)
    ensures DecodeGroups(src, xin, dest, total) == Ok(out)
  {
  }

  /** One group of `Serialize`, and the groups after it. */
  lemma SerializeUnfold(us: seq<Unit>) returns (tail: bytes)
    requires us != []
    ensures Serialize(us) == [GroupFlags(us, 8) as int] + (GroupBody(us, 8) + tail)
    ensures |us| > 8 ==> tail == Serialize(us[8..])
  {
    tail := Serialize(us[Min(8, |us|)..]);
  }

  /** `Serialize` writes a group's flag byte, then its body, then the
      groups of the units after it. */
  lemma SerializeSplit(us: seq<Unit>, src: bytes, xin: int)
    requires us != [] && At(src, xin, Serialize(us))
    ensures 0 <= xin < |src| && FlagOf(src, xin) == GroupFlags(us, 8)
    ensures At(src, xin + 1, GroupBody(us, 8))
    ensures |us| > 8 ==> At(src, xin + 1 + |GroupBody(us, 8)|, Serialize(us[8..]))
  {
    var tail := SerializeUnfold(us);
    GroupAt(src, xin, GroupFlags(us, 8), GroupBody(us, 8), tail);
  }

  /** The last group of the stream completes the output. */
  lemma StreamLast(data: bytes, cur: int, us: seq<Unit>, src: bytes, xin: int)
    requires us != [] && |us| <= 8 && Explains(data, cur, us)
    requires At(src, xin, Serialize(us))
    ensures DecodeGroups(src, xin, data[..cur], |data|) == Ok(data)
  {
    SerializeSplit(us, src, xin);
    var r, n, x := GroupDecodes(data, cur, us, 8, src, xin + 1);
    GroupsDone(src, xin, GroupFlags(us, 8), data[..cur], |data|, data);
  }

  /** Any other group hands the rest of the stream, from offset `x` of the
      compressed bytes, to the units after it, which explain the input from
      `next` on. */
  lemma StreamNext(data: bytes, cur: int, us: seq<Unit>, src: bytes, xin: int) returns (x: int, next: int)
    requires |us| > 8 && Explains(data, cur, us)
    requires At(src, xin, Serialize(us))
    ensures x == xin + 1 + |GroupBody(us, 8)| && next == After(cur, us, 8)
    ensures 0 <= next < |data| && 0 <= x
    ensures At(src, x, Serialize(us[8..]))
    ensures DecodeGroups(src, xin, data[..cur], |data|) == DecodeGroups(src, x, data[..next], |data|)
  {
    SerializeSplit(us, src, xin);
    var r;
    r, next, x := GroupDecodes(data, cur, us, 8, src, xin + 1);
    GroupsNext(src, xin, GroupFlags(us, 8), data[..cur], |data|, x, data[..next]);
  }

  /** Decoding the groups `Serialize` writes for units that explain the input
      from `cur` rebuilds the whole input. */
  lemma {:induction false} StreamDecodes(data: bytes, cur: int, us: seq<Unit>, src: bytes, xin: int)
    requires us != [] && Explains(data, cur, us)
    requires At(src, xin, Serialize(us))
    ensures DecodeGroups(src, xin, data[..cur], |data|) == Ok(data)
    decreases |us|
  {
    if |us| <= 8 {
      StreamLast(data, cur, us, src, xin);
    } else {
      var x, next := StreamNext(data, cur, us, src, xin);
      ExplainsAfter(data, cur, us, 8);
      StreamDecodes(data, next, us[8..], src, x);
    }
  }

  /** Where `Encode` puts things: the tag first, the length word at offset
      4, eight zero bytes, the groups from offset 16. */
  lemma EncodeLayout(data: bytes)
    ensures |Encode(data)| >= HEADER_SIZE && Encode(data)[..4] == MAGIC
    ensures BE32(Encode(data), 4) == |data| % TWO_POW_32
    ensures Encode(data)[8..HEADER_SIZE] == Zeros(8)
    ensures At(Encode(data), HEADER_SIZE, Serialize(Parse(data, 0)))
  {
    var body := Serialize(Parse(data, 0));
    var out := Header(|data|) + body;
    var pad := Zeros(PadLength(|out|));
    assert Encode(data) == Pad(out) == out + pad;
    assert Encode(data) == Header(|data|) + (body + pad);
    var w := BE32Bytes(|data|);
    assert Header(|data|) == MAGIC + w + Zeros(8);
    AtEnd(Header(|data|), body + pad);
    AtSplit(Encode(data), HEADER_SIZE, body, pad);
    var e := Encode(data);
    assert e[4] == w[0] && e[5] == w[1] && e[6] == w[2] && e[7] == w[3];
    assert e[..4] == MAGIC;
    assert e[8..HEADER_SIZE] == Header(|data|)[8..] == Zeros(8);
  }

  /** A stream that declares a length the decoder can allocate goes
      straight to its groups. */
  lemma DecompressStart(src: bytes)
    requires |src| >= 8 && 0 < BE32(src, 4) < TWO_POW_31
    ensures Decompress(src) == DecodeGroups(src, HEADER_SIZE, [], BE32(src, 4))
  {
  }

  /** `Yaz0_Decompress` gives back every non-empty input from the stream
      `Yaz0_Compress` builds for it. */
  lemma EncodeRoundTrip(data: bytes)
    requires 0 < |data| < TWO_POW_31
    ensures Decompress(Encode(data)) == Ok(data)
  {
    var src := Encode(data);
    EncodeLayout(data);
    DecompressStart(src);
    assert data[..0] == [];
    StreamDecodes(data, 0, Parse(data, 0), src, HEADER_SIZE);
  }

  /*---------------------------------------------------------------------
   * Output size and the work buffer
   *---------------------------------------------------------------------*/

  /** A unit's code is never longer than the bytes it covers. */
  lemma CodeFits(data: bytes, cur: int, u: Unit)
    requires Rebuilds(data, cur, u)
    ensures |Code(u)| <= Advance(u)
  {
  }

  /** A group's codes take no more bytes than the input they cover, and a
      group that holds the last unit ends at the end of the input. */
  lemma {:induction false} GroupBodySize(data: bytes, cur: int, us: seq<Unit>, k: nat)
    requires k <= 8 && Explains(data, cur, us)
    ensures cur <= After(cur, us, k) <= |data|
    ensures |GroupBody(us, k)| <= After(cur, us, k) - cur
    ensures |us| <= k ==> After(cur, us, k) == |data|
    decreases k
  {
    if k > 0 && us != [] {
      var next := ExplainsFront(data, cur, us);
      CodeFits(data, cur, us[0]);
      GroupBodySize(data, next, us[1..], k - 1);
    }
  }

  /** Units that explain the input cover at least one byte each. */
  lemma {:induction false} UnitCount(data: bytes, cur: int, us: seq<Unit>)
    requires Explains(data, cur, us)
    ensures |us| <= |data| - cur
    decreases |us|
  {
    if us != [] {
      var next := ExplainsFront(data, cur, us);
      UnitCount(data, next, us[1..]);
    }
  }

  /** The groups take at most one byte per input byte, plus one flag byte
      per eight units. */
  lemma {:induction false} SerializeSize(data: bytes, cur: int, us: seq<Unit>)
    requires Explains(data, cur, us)
    ensures |Serialize(us)| <= (|data| - cur) + (|us| + 7) / 8
    decreases |us|
  {
    if us != [] {
      var tail := SerializeUnfold(us);
      GroupBodySize(data, cur, us, 8);
      if |us| > 8 {
        ExplainsAfter(data, cur, us, 8);
        SerializeSize(data, After(cur, us, 8), us[8..]);
      } else {
        assert us[Min(8, |us|)..] == [];
      }
    }
  }

  /** `Yaz0_Compress` never writes more than `n + ceil(n / 8) + 19` bytes:
      the header, one byte per input byte, one flag byte per eight input
      bytes, and up to 3 bytes of padding. */
  lemma EncodeSize(data: bytes)
    ensures |Encode(data)| <= |data| + (|data| + 7) / 8 + 0x13
  {
    var us := Parse(data, 0);
    SerializeSize(data, 0, us);
    UnitCount(data, 0, us);
    assert (|us| + 7) / 8 <= (|data| + 7) / 8;
  }

  /** With a buffer sized for the worst case the compressor always succeeds,
      and its output decompresses to the input. */
  lemma CompressFixedRoundTrip(data: bytes)
    requires 0 < |data| < TWO_POW_31
    ensures CompressFixed(data).Ok?
    ensures Decompress(CompressFixed(data).value) == Ok(data)
  {
    EncodeSize(data);
    EncodeRoundTrip(data);
  }

  /** The buffer `Yaz0_Compress` allocates is too small for a one-byte
      input: the stream is 20 bytes, the buffer 17, so the final copy throws,
      although the stream would decompress to the input. */
  lemma OneByteOverflows()
    ensures Compress([0x41]) == Err(CopyOutOfRange)
    ensures CompressFixed([0x41]).Ok?
  {
    var data: bytes := [0x41];
    assert Search(data, 0) == NONE;
    assert UnitAt(data, 0) == Literal(0x41);
    assert Parse(data, 1) == [];
    assert Parse(data, 0) == [Literal(0x41)];
    assert |GroupBody([Literal(0x41)], 8)| == 1;
    assert |Serialize([Literal(0x41)])| == 2;
    assert |Encode(data)| == 20;
  }
}
