/** The type-0x10 sliding-window LZ codec of NSMBe5's ROM class
    (`LZ77_Compress_Search`, `LZ77_Compress`, `LZ77_FastCompress`,
    `LZ77_GetDecompressedSize`, `LZ77_Decompress`).

    Container: an optional "LZ77" tag, then the little-endian word
    `(n << 8) | 0x10` whose upper 24 bits give the decompressed length `n`.
    Body: groups of one flag byte followed by up to eight units; a set flag bit
    (most significant first) marks a two-byte back-reference whose high nibble
    is the length minus 3 and whose low 12 bits are the distance minus 1; a
    clear bit marks one literal byte. */
module Lz77 {
  import opened Common
  import opened BackRef

  const MAX_MATCH_DIFF: int := 4096
  const MAX_MATCH_LEN: int := 18
  const TAG: int := 0x37375A4C   // "LZ77" read as a little-endian word

  /*---------------------------------------------------------------------
   * Match search
   *---------------------------------------------------------------------*/

  /** The first candidate position the search looks at. */
  function WindowStart(pos: int): int {
    Max(0, pos - MAX_MATCH_DIFF)
  }

  /** The `len` bytes at `pos` repeat the bytes at candidate `cand`, without
      reaching into `pos` itself, without running off the data, and within the
      length cap. A match of length 0 is always available. */
  predicate Matches(data: bytes, pos: int, cand: int, len: int) {
    && 0 <= cand < pos
    && 0 <= len <= MAX_MATCH_LEN
    && (len > 0 ==>
         && cand + len <= pos
         && pos + len <= |data|
         && data[cand..cand + len] == data[pos..pos + len])
  }

  /** The inner `while` of the search: extends a match of length `len` at
      candidate `cand` one byte at a time. */
  function MatchLength(data: bytes, pos: int, cand: int, len: int): (r: int)
    requires Matches(data, pos, cand, len)
    ensures len <= r && Matches(data, pos, cand, r)
    ensures r == MAX_MATCH_LEN || cand + r == pos || pos + r >= |data| || data[pos + r] != data[cand + r]
    decreases MAX_MATCH_LEN - len
  {
    if len < MAX_MATCH_LEN && cand + len < pos && pos + len < |data| && data[pos + len] == data[cand + len]
    then
      MatchGrows(data, pos, cand, len);
      MatchLength(data, pos, cand, len + 1)
    else len
  }

  /** A match followed by one more equal byte is a match one byte longer. */
  lemma MatchGrows(data: bytes, pos: int, cand: int, len: int)
    requires Matches(data, pos, cand, len) && len < MAX_MATCH_LEN
    requires cand + len < pos && pos + len < |data| && data[pos + len] == data[cand + len]
    ensures Matches(data, pos, cand, len + 1)
  {
    assert data[cand..cand + len + 1] == data[cand..cand + len] + [data[cand + len]];
    assert data[pos..pos + len + 1] == data[pos..pos + len] + [data[pos + len]];
  }

  /** No match at `cand` is longer than the one the inner loop finds. */
  lemma MatchLengthIsLongest(data: bytes, pos: int, cand: int, len: int)
    requires Matches(data, pos, cand, len)
    ensures len <= MatchLength(data, pos, cand, 0)
  {
    MatchExtends(data, pos, cand, 0, len);
  }

  /** The inner loop, started from a shorter match `m`, does not stop before
      reaching the longer match `len`. */
  lemma {:induction false} MatchExtends(data: bytes, pos: int, cand: int, m: int, len: int)
    requires Matches(data, pos, cand, m) && Matches(data, pos, cand, len) && m <= len
    ensures len <= MatchLength(data, pos, cand, m)
    decreases len - m
  {
    if m < len {
      assert data[cand + m] == data[cand..cand + len][m];
      assert data[pos + m] == data[pos..pos + len][m];
      MatchGrows(data, pos, cand, m);
      MatchExtends(data, pos, cand, m + 1, len);
    }
  }

  /** Where the search found its match: `length` 0 means none. */
  datatype Found = Found(at: int, length: int)

  /** `f` is a match the search may report for `pos`: none at all, or a real
      match inside the window. */
  predicate InWindow(data: bytes, pos: int, f: Found) {
    && 0 <= f.length <= MAX_MATCH_LEN
    && (f.length == 0 ==> f.at == 0)
    && (f.length > 0 ==> WindowStart(pos) <= f.at && Matches(data, pos, f.at, f.length))
  }

  /** The `for` loop of `LZ77_Compress_Search` from candidate `cand` on: a
      strictly longer match replaces the best one, and the scan stops as soon as
      the best has the maximum length. */
  function SearchFrom(data: bytes, pos: int, cand: int, best: Found): (r: Found)
    requires WindowStart(pos) <= cand
    requires InWindow(data, pos, best)
    ensures InWindow(data, pos, r)
    decreases pos - cand
  {
    if cand >= pos then best
    else
      var len := MatchLength(data, pos, cand, 0);
      var best' := if len > best.length then Found(cand, len) else best;
      if best'.length == MAX_MATCH_LEN then best'
      else SearchFrom(data, pos, cand + 1, best')
  }

  /** `LZ77_Compress_Search`: the longest match for the bytes at `pos` among
      the 4096 positions before it, capped at 18 bytes (see `SearchIsLongest`
      and `SearchIsEarliest`). */
  function Search(data: bytes, pos: int): (r: Found)
    ensures 0 <= r.length <= MAX_MATCH_LEN
    ensures r.length == 0 ==> r.at == 0
    ensures r.length > 0 ==>
      && WindowStart(pos) <= r.at < pos
      && r.at + r.length <= pos
      && pos + r.length <= |data|
      && data[r.at..r.at + r.length] == data[pos..pos + r.length]
  {
    SearchFrom(data, pos, WindowStart(pos), Found(0, 0))
  }

  /** What the scan has established once candidates `[start, upto)` are
      looked at: no scanned candidate beats `best`, and every scanned
      candidate before it is strictly shorter. Lemmas that only pass this
      fact along state it as `BestSoFar(..) == true`, which keeps the
      verifier from splitting it into its quantified parts at every call. */
  predicate BestSoFar(data: bytes, pos: int, start: int, upto: int, best: Found) {
    && 0 <= start
    && (best.length > 0 ==> best.at < upto)
    && (forall c :: start <= c < upto && c < pos ==> AtMost(data, pos, c, best.length))
    && (forall c :: start <= c < best.at && c < pos ==> Shorter(data, pos, c, best.length))
  }

  /** The longest match at candidate `c` has at most `len` bytes. */
  predicate AtMost(data: bytes, pos: int, c: int, len: int)
    requires 0 <= c < pos
  {
    MatchLength(data, pos, c, 0) <= len
  }

  /** The longest match at candidate `c` has fewer than `len` bytes. */
  predicate Shorter(data: bytes, pos: int, c: int, len: int)
    requires 0 <= c < pos
  {
    MatchLength(data, pos, c, 0) < len
  }

  /** One candidate of the scan keeps `BestSoFar`. */
  lemma ScanStep(data: bytes, pos: int, start: int, cand: int, best: Found) returns (best': Found)
    requires 0 <= start <= cand < pos
    requires BestSoFar(data, pos, start, cand, best)
    ensures best' == if MatchLength(data, pos, cand, 0) > best.length
      then Found(cand, MatchLength(data, pos, cand, 0)) else best
    ensures BestSoFar(data, pos, start, cand + 1, best')
  {
    var len := MatchLength(data, pos, cand, 0);
    best' := if len > best.length then Found(cand, len) else best;
    forall c | start <= c < cand + 1 && c < pos
      ensures AtMost(data, pos, c, best'.length)
    {
      if c < cand {
        assert AtMost(data, pos, c, best.length);
      }
    }
    forall c | start <= c < best'.at && c < pos
      ensures Shorter(data, pos, c, best'.length)
    {
      if len > best.length {
        assert AtMost(data, pos, c, best.length);
      } else {
        assert Shorter(data, pos, c, best.length);
      }
    }
  }

  /** The scan keeps `BestSoFar`: at its end every candidate in the window is
      at most as long as the result, and the earlier ones strictly shorter. */
  lemma {:induction false} SearchFromIsBest(data: bytes, pos: int, cand: int, best: Found) returns (r: Found)
    requires WindowStart(pos) <= cand
    requires InWindow(data, pos, best)
    requires BestSoFar(data, pos, WindowStart(pos), cand, best) == true
    ensures r == SearchFrom(data, pos, cand, best)
    ensures BestSoFar(data, pos, WindowStart(pos), pos, r) == true
    decreases pos - cand, 2
  {
    if cand >= pos {
      r := best;
      ScanDone(data, pos, WindowStart(pos), cand, best);
    } else {
      r := SearchFromNext(data, pos, cand, best);
    }
  }

  /** The scan from a candidate before `pos`: it stops at a match of the
      maximum length, and goes on to the next candidate otherwise. */
  lemma {:induction false} SearchFromNext(data: bytes, pos: int, cand: int, best: Found) returns (r: Found)
    requires WindowStart(pos) <= cand < pos
    requires InWindow(data, pos, best)
    requires BestSoFar(data, pos, WindowStart(pos), cand, best) == true
    ensures r == SearchFrom(data, pos, cand, best)
    ensures BestSoFar(data, pos, WindowStart(pos), pos, r) == true
    decreases pos - cand, 1
  {
    var best' := ScanNext(data, pos, cand, best);
    if best'.length < MAX_MATCH_LEN {
      r := SearchFromGoesOn(data, pos, cand, best, best');
    } else {
      r := SearchFromStops(data, pos, cand, best, best');
    }
  }

  /** The scan goes on past a candidate that leaves the best match short of
      the maximum length. */
  lemma {:induction false} SearchFromGoesOn(data: bytes, pos: int, cand: int, best: Found, best': Found)
    returns (r: Found)
    requires WindowStart(pos) <= cand < pos
    requires InWindow(data, pos, best) && InWindow(data, pos, best')
    requires BestSoFar(data, pos, WindowStart(pos), cand + 1, best') == true
    requires best'.length < MAX_MATCH_LEN
    requires SearchFrom(data, pos, cand, best) == SearchFrom(data, pos, cand + 1, best')
    ensures r == SearchFrom(data, pos, cand, best)
    ensures BestSoFar(data, pos, WindowStart(pos), pos, r) == true
    decreases pos - cand, 0
  {
    r := SearchFromIsBest(data, pos, cand + 1, best');
  }

  /** The scan stops at a candidate with a match of the maximum length. */
  lemma SearchFromStops(data: bytes, pos: int, cand: int, best: Found, best': Found)
    returns (r: Found)
    requires WindowStart(pos) <= cand < pos && best'.at < pos && InWindow(data, pos, best)
    requires BestSoFar(data, pos, WindowStart(pos), cand + 1, best') == true
    requires best'.length == MAX_MATCH_LEN
    requires SearchFrom(data, pos, cand, best) == best'
    ensures r == SearchFrom(data, pos, cand, best)
    ensures BestSoFar(data, pos, WindowStart(pos), pos, r) == true
  {
    r := best';
    CappedIsBest(data, pos, WindowStart(pos), cand + 1, best');
  }

  /** Once every candidate before `pos` is scanned, the best one so far is
      the best one. */
  lemma ScanDone(data: bytes, pos: int, start: int, upto: int, best: Found)
    requires pos <= upto && InWindow(data, pos, best)
    requires BestSoFar(data, pos, start, upto, best) == true
    ensures BestSoFar(data, pos, start, pos, best)
  {
  }

  /** One candidate of the scan: the best match after it, from which the
      scan either stops or goes on. */
  lemma ScanNext(data: bytes, pos: int, cand: int, best: Found) returns (best': Found)
    requires WindowStart(pos) <= cand < pos
    requires InWindow(data, pos, best)
    requires BestSoFar(data, pos, WindowStart(pos), cand, best) == true
    ensures InWindow(data, pos, best')
    ensures BestSoFar(data, pos, WindowStart(pos), cand + 1, best') == true
    ensures best'.length == MAX_MATCH_LEN ==> SearchFrom(data, pos, cand, best) == best'
    ensures best'.length < MAX_MATCH_LEN ==> SearchFrom(data, pos, cand, best) == SearchFrom(data, pos, cand + 1, best')
  {
    best' := SearchFromStep(data, pos, cand, best);
    var kept := ScanStep(data, pos, WindowStart(pos), cand, best);
  }

  /** One unfolding of the scan at candidate `cand`. */
  lemma SearchFromStep(data: bytes, pos: int, cand: int, best: Found) returns (best': Found)
    requires WindowStart(pos) <= cand < pos
    requires InWindow(data, pos, best)
    ensures best' == if MatchLength(data, pos, cand, 0) > best.length
      then Found(cand, MatchLength(data, pos, cand, 0)) else best
    ensures InWindow(data, pos, best')
    ensures best'.length == MAX_MATCH_LEN ==> SearchFrom(data, pos, cand, best) == best'
    ensures best'.length < MAX_MATCH_LEN ==> SearchFrom(data, pos, cand, best) == SearchFrom(data, pos, cand + 1, best')
  {
    var len := MatchLength(data, pos, cand, 0);
    best' := if len > best.length then Found(cand, len) else best;
  }

  /** A match of the maximum length cannot be beaten, so the scan may stop
      at it. */
  lemma CappedIsBest(data: bytes, pos: int, start: int, upto: int, best: Found)
    requires best.length == MAX_MATCH_LEN && best.at < pos
    requires BestSoFar(data, pos, start, upto, best) == true
    ensures BestSoFar(data, pos, start, pos, best)
  {
    forall c | start <= c < pos
      ensures AtMost(data, pos, c, best.length)
    {
    }
  }

  /** No candidate in the window has a longer match than the search reports. */
  lemma SearchIsLongest(data: bytes, pos: int, c: int, len: int)
    requires WindowStart(pos) <= c < pos && Matches(data, pos, c, len)
    ensures len <= Search(data, pos).length
  {
    var r := SearchFromIsBest(data, pos, WindowStart(pos), Found(0, 0));
    MatchLengthIsLongest(data, pos, c, len);
    assert AtMost(data, pos, c, r.length);
  }

  /** Among equally long matches the earliest (farthest back) wins: every
      candidate before the reported one is strictly shorter. */
  lemma SearchIsEarliest(data: bytes, pos: int, c: int)
    requires WindowStart(pos) <= c < Search(data, pos).at
    ensures MatchLength(data, pos, c, 0) < Search(data, pos).length
  {
    var r := SearchFromIsBest(data, pos, WindowStart(pos), Found(0, 0));
    assert Shorter(data, pos, c, r.length);
  }

  /*---------------------------------------------------------------------
   * Compression
   *---------------------------------------------------------------------*/

  /** What the compressor emits for one position: a literal byte, or a
      back-reference of `length` bytes to the bytes `disp + 1` before. */
  datatype Unit = Literal(b: uint8) | Ref(length: int, disp: int)

  /** How many input bytes a unit covers. */
  function Advance(u: Unit): int {
    match u
    case Literal(_) => 1
    case Ref(length, _) => length
  }

  /** The two bytes of a back-reference: length-3 in the high nibble, then the
      12-bit displacement (distance - 1), high nibble first. */
  function RefBytes(length: int, disp: int): (r: bytes)
    ensures |r| == 2
  {
    [((length - 3) % 16) * 16 + (disp / 256) % 16, disp % 256]
  }

  /** The bytes a unit occupies in a group. */
  function Code(u: Unit): (r: bytes)
    ensures |r| == (if u.Ref? then 2 else 1)
  {
    match u
    case Literal(b) => [b]
    case Ref(length, disp) => RefBytes(length, disp)
  }

  /** Unit `u` at position `cur` stands for the bytes it covers: a literal is
      the byte at `cur`; a reference fits the length and displacement fields
      and its bytes repeat the ones `disp + 1` earlier. */
  predicate Rebuilds(data: bytes, cur: int, u: Unit) {
    && 0 <= cur < |data|
    && match u
       case Literal(b) => b == data[cur]
       case Ref(length, disp) =>
         && 3 <= length <= MAX_MATCH_LEN && 0 <= disp < MAX_MATCH_DIFF
         && disp < cur && cur + length <= |data|
         && data[cur - disp - 1..cur - disp - 1 + length] == data[cur..cur + length]
  }

  /** The body of the inner `for` loop of `LZ77_Compress` at `cur`: a
      reference when the search finds more than 2 bytes, otherwise the
      literal byte. */
  function UnitAt(data: bytes, cur: int): (u: Unit)
    requires 0 <= cur < |data|
    ensures Rebuilds(data, cur, u)
    ensures 1 <= Advance(u)
  {
    var found := Search(data, cur);
    if found.length > 2 then
      SearchGivesRef(data, cur);
      Ref(found.length, cur - found.at - 1)
    else
      assert Rebuilds(data, cur, Literal(data[cur]));
      Literal(data[cur])
  }

  /** A match of more than 2 bytes makes a reference that fits its fields
      and repeats earlier bytes. */
  lemma SearchGivesRef(data: bytes, cur: int)
    requires 0 <= cur < |data| && Search(data, cur).length > 2
    ensures var found := Search(data, cur);
      Rebuilds(data, cur, Ref(found.length, cur - found.at - 1))
  {
    var found := Search(data, cur);
    assert cur - (cur - found.at - 1) - 1 == found.at;
  }

  /** The units the compressor chooses from `cur` to the end of the input,
      one search per unit. */
  function Parse(data: bytes, cur: int): (us: seq<Unit>)
    requires 0 <= cur <= |data|
    ensures Explains(data, cur, us)
    decreases |data| - cur
  {
    if cur == |data| then []
    else
      var u := UnitAt(data, cur);
      var rest := Parse(data, cur + Advance(u));
      ExplainsCons(data, cur, u, rest);
      [u] + rest
  }

  /** A unit that stands for the bytes at `cur`, followed by units that
      explain the input after it, explains the input from `cur`. */
  lemma ExplainsCons(data: bytes, cur: int, u: Unit, rest: seq<Unit>)
    requires Rebuilds(data, cur, u) && Explains(data, cur + Advance(u), rest)
    ensures Explains(data, cur, [u] + rest)
  {
    assert ([u] + rest)[1..] == rest;
  }

  /** The units `us`, laid end to end from `cur`, cover the input up to its
      end, each standing for the bytes it covers. */
  predicate Explains(data: bytes, cur: int, us: seq<Unit>)
    decreases |us|
  {
    if us == [] then cur == |data|
    else Rebuilds(data, cur, us[0]) && Explains(data, cur + Advance(us[0]), us[1..])
  }

  /** The units after the first. */
  function Tail(us: seq<Unit>): seq<Unit> {
    if us == [] then [] else us[1..]
  }

  /** The flags of the `k` last slots of a group, holding the units `us`
      (placeholders once they run out), aligned so that the first slot is the
      top bit: a reference sets its slot's bit, as `1 << (7 - i)` does for
      slot `i`. */
  function GroupFlags(us: seq<Unit>, k: nat): (f: bv8)
    requires k <= 8
    ensures f & LowMask(8 - k) == 0
  {
    if k == 0 then 0
    else
      var rest := GroupFlags(Tail(us), k - 1);
      FlagStep(rest, 8 - k, us != [] && us[0].Ref?);
      PushFlag(us != [] && us[0].Ref?, rest)
  }

  /** The bytes of the `k` last slots of a group: each unit's code, and one
      zero byte for each slot after the input is used up. */
  function GroupBody(us: seq<Unit>, k: nat): (r: bytes)
    requires k <= 8
  {
    if k == 0 then []
    else (if us == [] then [0] else Code(us[0])) + GroupBody(Tail(us), k - 1)
  }

  /** A flag byte as written to the output. */
  function FlagByte(f: bv8): (r: bytes)
    ensures |r| == 1 && r[0] as bv8 == f
  {
    [f as int]
  }

  /** The outer `while` of `LZ77_Compress`: one flag byte and eight slots per
      pass. */
  function Serialize(us: seq<Unit>): (r: bytes)
    decreases |us|
  {
    if us == [] then []
    else FlagByte(GroupFlags(us, 8)) + GroupBody(us, 8) + Serialize(us[Min(8, |us|)..])
  }

  /** `LZ77_Compress`. The length word is an `int` shift, so only the low 24
      bits of the length survive in it. */
  function Compress(data: bytes, withHeader: bool): (r: bytes)
  {
    var tag := if withHeader then LE32Bytes(TAG) else [];
    tag + LE32Bytes(|data| * 0x100 + 0x10) + Serialize(Parse(data, 0))
  }

  /** The length word `(n << 8) | 0x10` carries 0x10 in its low byte and
      the low 24 bits of `n` above it. */
  lemma LengthWord(n: int)
    requires n >= 0
    ensures var w := LE32Bytes(n * 0x100 + 0x10); w[0] == 0x10 && LE24(w, 1) == n % 0x100_0000
  {
    var r := n % 0x100_0000;
    assert (n * 0x100 + 0x10) % 0x1_0000_0000 == r * 0x100 + 0x10 by {
      var q := n / 0x100_0000;
      assert n * 0x100 + 0x10 == q * 0x1_0000_0000 + (r * 0x100 + 0x10);
    }
    var u := r * 0x100 + 0x10;
    assert u / 0x100 == r && u % 0x100 == 0x10;
    LowBytes(r);
  }

  /** The bytes of `r * 0x100 + 0x10` for a 24-bit `r`. */
  lemma LowBytes(r: int)
    requires 0 <= r < 0x100_0000
    ensures var w := [0x10, r % 0x100, (r / 0x100) % 0x100, (r / 0x100) / 0x100];
      w[0] == 0x10 && LE24(w, 1) == r
  {
    assert r / 0x100 == (r / 0x100) % 0x100 + ((r / 0x100) / 0x100) * 0x100;
  }

  /** `LZ77_FastCompress` after its length word: every group is a zero flag
      byte and up to eight input bytes, the last group unpadded. */
  function FastBody(source: bytes, pos: nat): (r: bytes)
    decreases |source| - pos
  {
    if pos >= |source| then []
    else [0] + source[pos..Min(pos + 8, |source|)] + FastBody(source, pos + 8)
  }

  /** `LZ77_FastCompress`: a "compression" that stores every byte as a
      literal. Its first byte is 0, not 0x10; the decoder never reads it.
      The output length `4 + n + ceil(n / 8)` is computed in `int`: from
      2^31 on it wraps negative and the allocation throws. */
  function FastCompress(source: bytes): (r: Result<bytes>)
  {
    var n := |source|;
    if 4 + n + (n + 7) / 8 >= TWO_POW_31 then Err(AllocationTooLarge)
    else Ok([0, n % 0x100, (n / 0x100) % 0x100, (n / 0x1_0000) % 0x100] + FastBody(source, 0))
  }

  /*---------------------------------------------------------------------
   * Decompression
   *---------------------------------------------------------------------*/

  /** One unit of a group: a back-reference when its flag bit is set,
      otherwise a literal. Decoding stops with `Done` the moment `total` bytes
      exist, even in the middle of a reference. */
  function DecodeUnit(src: bytes, xin: int, isRef: bool, dest: bytes, total: int): (r: Step)
    requires 0 <= xin && |dest| < total
    ensures r.Done? ==> |r.out| == total
    ensures r.Next? ==> |dest| < |r.out| < total && r.xin > xin
  {
    if isRef then
      if xin + 1 >= |src| then Fail(IndexOutOfRange)
      else
        var length := RefWord(src, xin) / 0x1000 + 3;
        var offset := RefWord(src, xin) % 0x1000;
        if |dest| - offset - 1 < 0 then Fail(IndexOutOfRange)
        else
          var dest' := CopyBack(dest, offset + 1, Min(length, total - |dest|));
          if |dest'| == total then Done(dest') else Next(xin + 2, dest')
    else if xin >= |src| then Fail(IndexOutOfRange)
    else
      var dest' := dest + [src[xin]];
      if |dest'| == total then Done(dest') else Next(xin + 1, dest')
  }

  /** The big-endian word of a back-reference's two bytes. */
  function RefWord(src: bytes, xin: int): int
    requires 0 <= xin && xin + 1 < |src|
  {
    src[xin] as int * 0x100 + src[xin + 1] as int
  }

  /** The remaining `k` units of a group whose flag byte, shifted left once per
      unit already decoded, is `d`: the unit's flag is the top bit. */
  function DecodeUnits(src: bytes, xin: int, d: bv8, k: nat, dest: bytes, total: int): (r: Step)
    requires 0 <= xin && |dest| < total && k <= 8
    ensures r.Done? ==> |r.out| == total
    ensures r.Next? ==> |dest| + k <= |r.out| < total && r.xin >= xin
    decreases k
  {
    if k == 0 then Next(xin, dest)
    else match DecodeUnit(src, xin, d & 0x80 != 0, dest, total)
      case Next(x, out) => DecodeUnits(src, x, d << 1, k - 1, out, total)
      case other => other
  }

  /** The `while (DataLen > 0)` loop: one flag byte, then its group. */
  function DecodeGroups(src: bytes, xin: int, dest: bytes, total: int): (r: Result<bytes>)
    requires 0 <= xin && |dest| < total
    ensures r.Ok? ==> |r.value| == total
    decreases total - |dest|
  {
    if xin >= |src| then Err(IndexOutOfRange)
    else match DecodeUnits(src, xin + 1, FlagOf(src, xin), 8, dest, total)
      case Fail(e) => Err(e)
      case Done(out) => Ok(out)
      case Next(x, out) => DecodeGroups(src, x, out, total)
  }

  /** `LZ77_GetDecompressedSize`: the 24-bit length after the type byte. */
  function GetDecompressedSize(src: bytes, withHeader: bool): (r: Result<int>)
    ensures r.Ok? <==> |src| >= (if withHeader then 8 else 4)
    ensures r.Ok? ==> r.value == LE24(src, if withHeader then 5 else 1) && r.value < 0x100_0000
  {
    if withHeader then
      if |src| < 8 then Err(IndexOutOfRange) else Ok(LE24(src, 5))
    else
      if |src| < 4 then Err(IndexOutOfRange) else Ok(LE24(src, 1))
  }

  /** `LZ77_Decompress`. The tag and the type byte are not checked; the
      length word is read at offset 0 first, so a buffer shorter than 4 bytes
      fails even with the header. */
  function Decompress(src: bytes, withHeader: bool): (r: Result<bytes>)
    ensures r.Ok? ==> GetDecompressedSize(src, withHeader) == Ok(|r.value|)
  {
    if |src| < 4 then Err(IndexOutOfRange)
    else if withHeader && |src| < 8 then Err(IndexOutOfRange)
    else
      var total := if withHeader then LE24(src, 5) else LE24(src, 1);
      var xin := if withHeader then 8 else 4;
      if total == 0 then Ok([])
      else DecodeGroups(src, xin, [], total)
  }

  /*---------------------------------------------------------------------
   * Round trips
   *---------------------------------------------------------------------*/

  /** A reference's two bytes give back its length and displacement. */
  lemma RefRoundTrip(length: int, disp: int)
    requires 3 <= length <= MAX_MATCH_LEN && 0 <= disp < MAX_MATCH_DIFF
    ensures var b := RefBytes(length, disp); var word := b[0] as int * 0x100 + b[1] as int;
      word / 0x1000 + 3 == length && word % 0x1000 == disp
  {
    var b := RefBytes(length, disp);
    assert b[0] == (length - 3) * 16 + disp / 256;
    assert disp == (disp / 256) * 256 + disp % 256;
    var word := b[0] as int * 0x100 + b[1] as int;
    assert word == (length - 3) * 0x1000 + disp;
  }

  /** A back-reference to `length` bytes that repeat the bytes at `at`
      extends the rebuilt prefix `data[..cur]` to `data[..cur + length]`. */
  lemma RefUnitDecodes(data: bytes, cur: int, at: int, length: int, src: bytes, xin: int)
    requires 0 <= at < cur && cur - at <= MAX_MATCH_DIFF
    requires 3 <= length <= MAX_MATCH_LEN && cur + length <= |data|
    requires data[at..at + length] == data[cur..cur + length]
    requires At(src, xin, RefBytes(length, cur - at - 1))
    ensures DecodeUnit(src, xin, true, data[..cur], |data|)
      == if cur + length == |data| then Done(data) else Next(xin + 2, data[..cur + length])
  {
    var out := RefUnitStep(src, xin, data[..cur], |data|, length, cur - at - 1);
    CopyBackRebuilds(data, cur, cur - at, length);
    assert out == data[..cur + length];
    if cur + length == |data| {
      assert data[..cur + length] == data;
    }
  }

  /** The decoder reads a reference's two bytes back as its length and
      displacement and copies from `disp + 1` bytes back. */
  lemma RefUnitStep(src: bytes, xin: int, dest: bytes, total: int, length: int, disp: int) returns (out: bytes)
    requires 0 <= xin && |dest| < total && |dest| + length <= total
    requires 3 <= length <= MAX_MATCH_LEN && 0 <= disp < MAX_MATCH_DIFF && disp < |dest|
    requires At(src, xin, RefBytes(length, disp))
    ensures out == CopyBack(dest, disp + 1, length)
    ensures DecodeUnit(src, xin, true, dest, total) == if |out| == total then Done(out) else Next(xin + 2, out)
  {
    RefWordRead(src, xin, length, disp);
    assert Min(length, total - |dest|) == length;
    out := CopyBack(dest, disp + 1, length);
  }

  /** The reference word as the decoder assembles it from the two bytes. */
  lemma RefWordRead(src: bytes, xin: int, length: int, disp: int)
    requires 3 <= length <= MAX_MATCH_LEN && 0 <= disp < MAX_MATCH_DIFF
    requires At(src, xin, RefBytes(length, disp))
    ensures 0 <= xin && xin + 1 < |src|
    ensures RefWord(src, xin) / 0x1000 + 3 == length && RefWord(src, xin) % 0x1000 == disp
  {
    var b := RefBytes(length, disp);
    RefRoundTrip(length, disp);
    assert src[xin + 0] == b[0] && src[xin + 1] == b[1];
  }

  /** A literal extends the rebuilt prefix `data[..cur]` by `data[cur]`. */
  lemma LiteralUnitDecodes(data: bytes, cur: int, src: bytes, xin: int)
    requires 0 <= cur < |data|
    requires 0 <= xin < |src| && src[xin] == data[cur]
    ensures DecodeUnit(src, xin, false, data[..cur], |data|)
      == if cur + 1 == |data| then Done(data) else Next(xin + 1, data[..cur + 1])
  {
    assert data[..cur] + [data[cur]] == data[..cur + 1];
    if cur + 1 == |data| {
      assert data[..cur + 1] == data;
    }
  }

  /** Every unit that stands for its bytes decodes to them. */
  lemma UnitDecodes(data: bytes, cur: int, u: Unit, src: bytes, xin: int)
    requires Rebuilds(data, cur, u)
    requires At(src, xin, Code(u))
    ensures DecodeUnit(src, xin, u.Ref?, data[..cur], |data|)
      == if cur + Advance(u) == |data| then Done(data)
         else Next(xin + |Code(u)|, data[..cur + Advance(u)])
  {
    match u
    case Ref(length, disp) =>
      RefUnitDecodes(data, cur, cur - disp - 1, length, src, xin);
    case Literal(b) =>
      assert src[xin + 0] == Code(u)[0];
      LiteralUnitDecodes(data, cur, src, xin);
  }

  /** A group's unit loop goes on after a unit that leaves bytes to decode,
      with the flag byte shifted to the next unit's flag. */
  lemma UnitsNext(src: bytes, xin: int, d: bv8, k: nat, dest: bytes, total: int,
                  isRef: bool, x: int, out: bytes, d': bv8)
    requires 0 <= xin && |dest| < total && 1 <= k <= 8
    requires (d & 0x80 != 0) == isRef && d << 1 == d'
    requires DecodeUnit(src, xin, isRef, dest, total) == Next(x, out)
    ensures DecodeUnits(src, xin, d, k, dest, total) == DecodeUnits(src, x, d', k - 1, out, total)
  {
  }

  /** A group's unit loop stops at the unit that completes the output. */
  lemma UnitsDone(src: bytes, xin: int, d: bv8, k: nat, dest: bytes, total: int, isRef: bool, out: bytes)
    requires 0 <= xin && |dest| < total && 1 <= k <= 8
    requires (d & 0x80 != 0) == isRef
    requires DecodeUnit(src, xin, isRef, dest, total) == Done(out)
    ensures DecodeUnits(src, xin, d, k, dest, total) == Done(out)
  {
  }

  /** The first of a non-empty run of units stands for the bytes at `cur`,
      and the others explain the input from `next`, where it ends. */
  lemma ExplainsFront(data: bytes, cur: int, us: seq<Unit>) returns (next: int)
    requires us != [] && Explains(data, cur, us)
    ensures next == cur + Advance(us[0])
    ensures Rebuilds(data, cur, us[0]) && 0 <= cur < next <= |data|
    ensures Explains(data, next, us[1..])
  {
    next := cur + Advance(us[0]);
    RebuildsAdvance(data, cur, us[0]);
  }

  /** The input position after the first `k` of the units `us`. */
  function After(cur: int, us: seq<Unit>, k: nat): int
    decreases k
  {
    if k == 0 || us == [] then cur else After(cur + Advance(us[0]), us[1..], k - 1)
  }

  /** Counting the first `k` units from `cur` is counting `k - 1` of them
      after the first. */
  lemma AfterFront(cur: int, us: seq<Unit>, k: nat)
    requires 1 <= k && us != []
    ensures After(cur, us, k) == After(cur + Advance(us[0]), us[1..], k - 1)
  {
  }

  /** The first slot of a group holds the first unit. */
  lemma GroupUnfold(us: seq<Unit>, k: nat)
    requires 1 <= k <= 8 && us != []
    ensures GroupFlags(us, k) == PushFlag(us[0].Ref?, GroupFlags(us[1..], k - 1))
    ensures GroupBody(us, k) == Code(us[0]) + GroupBody(us[1..], k - 1)
  {
  }

  /** The units after the first `k` explain the input from where those end. */
  lemma {:induction false} ExplainsAfter(data: bytes, cur: int, us: seq<Unit>, k: nat)
    requires Explains(data, cur, us) && k <= |us|
    ensures Explains(data, After(cur, us, k), us[k..])
    decreases k
  {
    if k > 0 {
      ExplainsAfter(data, cur + Advance(us[0]), us[1..], k - 1);
      assert us[1..][k - 1..] == us[k..];
    }
  }

  /** The first unit's flag is the top bit of the group's remaining flags,
      and shifting it out leaves the flags of the slots after it. */
  lemma FlagsFront(us: seq<Unit>, k: nat)
    requires 1 <= k <= 8 && us != []
    ensures (GroupFlags(us, k) & 0x80 != 0) == us[0].Ref?
    ensures GroupFlags(us, k) << 1 == GroupFlags(us[1..], k - 1)
  {
    GroupUnfold(us, k);
    FlagStep(GroupFlags(us[1..], k - 1), 8 - k, us[0].Ref?);
  }

  /** The bit `1 << (7 - j)` of a group's flags is set exactly when slot
      `j` holds a reference; the slots after the last unit stay clear. */
  lemma {:induction false} GroupFlagBits(us: seq<Unit>, k: nat, j: nat)
    requires j < k <= 8
    ensures GroupFlags(us, k) & SlotMask(j) != 0 <==> j < |us| && us[j].Ref?
    decreases j, 1
  {
    if us == [] {
      NoUnitsNoFlags(k);
    } else if j == 0 {
      FlagsFront(us, k);
    } else {
      GroupFlagBitsAfter(us, k, j);
    }
  }

  /** `GroupFlagBits` past the first slot: the shift that drops the first
      unit's flag brings slot `j` to slot `j - 1` of the units after it. */
  lemma {:induction false} GroupFlagBitsAfter(us: seq<Unit>, k: nat, j: nat)
    requires 1 <= j < k <= 8 && us != []
    ensures GroupFlags(us, k) & SlotMask(j) != 0 <==> j < |us| && us[j].Ref?
    decreases j, 0
  {
    FlagsFront(us, k);
    GroupFlagBits(us[1..], k - 1, j - 1);
    ShiftedBit(GroupFlags(us, k), j);
  }

  /** A group with no units left has no flags set. */
  lemma {:induction false} NoUnitsNoFlags(k: nat)
    requires k <= 8
    ensures GroupFlags([], k) == 0
    decreases k
  {
    if k > 0 {
      NoUnitsNoFlags(k - 1);
    }
  }

  /** The first unit's code opens the group's bytes; the slots after it
      follow from offset `x1`. */
  lemma BodyFront(us: seq<Unit>, k: nat, src: bytes, xin: int) returns (x1: int)
    requires 1 <= k <= 8 && us != []
    requires At(src, xin, GroupBody(us, k))
    ensures x1 == xin + |Code(us[0])|
    ensures At(src, xin, Code(us[0])) && At(src, x1, GroupBody(us[1..], k - 1))
    ensures x1 + |GroupBody(us[1..], k - 1)| == xin + |GroupBody(us, k)|
  {
    GroupUnfold(us, k);
    x1 := xin + |Code(us[0])|;
    AtSplit(src, xin, Code(us[0]), GroupBody(us[1..], k - 1));
  }

  /** The first unit of a group decodes to the bytes it stands for. */
  lemma GroupFirst(data: bytes, cur: int, us: seq<Unit>, k: nat, src: bytes, xin: int) returns (cur': int, x1: int)
    requires 1 <= k <= 8 && us != [] && Explains(data, cur, us)
    requires At(src, xin, GroupBody(us, k))
    ensures cur' == cur + Advance(us[0]) && x1 == xin + |Code(us[0])|
    ensures 0 <= cur < cur' <= |data| && 0 <= xin < x1
    ensures Explains(data, cur', us[1..]) && At(src, x1, GroupBody(us[1..], k - 1))
    ensures x1 + |GroupBody(us[1..], k - 1)| == xin + |GroupBody(us, k)|
    ensures DecodeUnit(src, xin, us[0].Ref?, data[..cur], |data|)
      == if cur' == |data| then Done(data) else Next(x1, data[..cur'])
  {
    cur' := ExplainsFront(data, cur, us);
    x1 := BodyFront(us, k, src, xin);
    UnitDecodes(data, cur, us[0], src, xin);
  }

  /** A unit that stands for bytes of the input covers at least one of them
      and does not run past its end. */
  lemma RebuildsAdvance(data: bytes, cur: int, u: Unit)
    requires Rebuilds(data, cur, u)
    ensures 0 <= cur < cur + Advance(u) <= |data|
  {
  }

  /** A group's last unit rebuilds the whole input. */
  lemma GroupLast(data: bytes, cur: int, us: seq<Unit>, k: nat, src: bytes, xin: int)
    requires 1 <= k <= 8 && |us| == 1 && Explains(data, cur, us)
    requires At(src, xin, GroupBody(us, k))
    ensures DecodeUnits(src, xin, GroupFlags(us, k), k, data[..cur], |data|) == Done(data)
  {
    var cur', x1 := GroupFirst(data, cur, us, k, src, xin);
    assert us[1..] == [];
    FlagsFront(us, k);
    UnitsDone(src, xin, GroupFlags(us, k), k, data[..cur], |data|, us[0].Ref?, data);
  }

  /** Any other unit hands the rest of the group, from offset `x1` of the
      compressed bytes and input position `cur'`, to the units after it. */
  lemma GroupNext(data: bytes, cur: int, us: seq<Unit>, k: nat, src: bytes, xin: int) returns (cur': int, x1: int)
    requires 1 <= k <= 8 && |us| > 1 && Explains(data, cur, us)
    requires At(src, xin, GroupBody(us, k))
    ensures cur' == cur + Advance(us[0]) && 0 <= cur' < |data| && 0 <= x1
    ensures Explains(data, cur', us[1..]) && At(src, x1, GroupBody(us[1..], k - 1))
    ensures x1 + |GroupBody(us[1..], k - 1)| == xin + |GroupBody(us, k)|
    ensures DecodeUnits(src, xin, GroupFlags(us, k), k, data[..cur], |data|)
      == DecodeUnits(src, x1, GroupFlags(us[1..], k - 1), k - 1, data[..cur'], |data|)
  {
    cur', x1 := GroupFirst(data, cur, us, k, src, xin);
    var cur'' := ExplainsFront(data, cur', us[1..]);
    FlagsFront(us, k);
    var out := data[..cur'];
    assert DecodeUnit(src, xin, us[0].Ref?, data[..cur], |data|) == Next(x1, out);
    UnitsNext(src, xin, GroupFlags(us, k), k, data[..cur], |data|, us[0].Ref?, x1, out,
              GroupFlags(us[1..], k - 1));
  }

  /** Decoding the last `k` slots of a group whose units are the front of
      `us` rebuilds the input up to `next`, where those units end, and stops
      reading at `x`; or it rebuilds all of the input when the units run out
      inside the group (the placeholder bytes are never read). */
  lemma {:induction false} GroupDecodes(data: bytes, cur: int, us: seq<Unit>, k: nat, src: bytes, xin: int)
    returns (r: Step, next: int, x: int)
    requires 1 <= k <= 8 && us != [] && Explains(data, cur, us)
    requires At(src, xin, GroupBody(us, k))
    ensures r == DecodeUnits(src, xin, GroupFlags(us, k), k, data[..cur], |data|)
    ensures next == After(cur, us, k) && x == xin + |GroupBody(us, k)|
    ensures |us| <= k ==> r == Done(data)
    ensures |us| > k ==> 0 <= next < |data| && r == Next(x, data[..next])
    decreases k, 2
  {
    if |us| == 1 {
      r := DecodeUnits(src, xin, GroupFlags(us, k), k, data[..cur], |data|);
      next := After(cur, us, k);
      x := xin + |GroupBody(us, k)|;
      GroupLast(data, cur, us, k, src, xin);
    } else {
      r, next, x := GroupDecodesNext(data, cur, us, k, src, xin);
    }
  }

  /** `GroupDecodes` when a unit follows the first one. */
  lemma {:induction false} GroupDecodesNext(data: bytes, cur: int, us: seq<Unit>, k: nat, src: bytes, xin: int)
    returns (r: Step, next: int, x: int)
    requires 1 <= k <= 8 && |us| > 1 && Explains(data, cur, us)
    requires At(src, xin, GroupBody(us, k))
    ensures r == DecodeUnits(src, xin, GroupFlags(us, k), k, data[..cur], |data|)
    ensures next == After(cur, us, k) && x == xin + |GroupBody(us, k)|
    ensures |us| <= k ==> r == Done(data)
    ensures |us| > k ==> 0 <= next < |data| && r == Next(x, data[..next])
    decreases k, 1
  {
    if k == 1 {
      r, next, x := GroupDecodesOne(data, cur, us, k, src, xin);
    } else {
      r, next, x := GroupDecodesMore(data, cur, us, k, src, xin);
    }
  }

  /** The group's last slot holds the first unit, and the next unit opens
      the next group. */
  lemma GroupDecodesOne(data: bytes, cur: int, us: seq<Unit>, k: nat, src: bytes, xin: int)
    returns (r: Step, next: int, x: int)
    requires k == 1
    requires 1 <= k <= 8 && |us| > 1 && Explains(data, cur, us)
    requires At(src, xin, GroupBody(us, k))
    ensures r == DecodeUnits(src, xin, GroupFlags(us, k), k, data[..cur], |data|)
    ensures next == After(cur, us, k) && x == xin + |GroupBody(us, k)|
    ensures |us| <= k ==> r == Done(data)
    ensures |us| > k ==> 0 <= next < |data| && r == Next(x, data[..next])
  {
    var cur', x1 := GroupNext(data, cur, us, k, src, xin);
    AfterFront(cur, us, k);
    r := DecodeUnits(src, x1, GroupFlags(us[1..], 0), 0, data[..cur'], |data|);
    next := cur';
    x := x1;
    NoSlotsLeft(src, x1, GroupFlags(us[1..], 0), data[..cur'], |data|, cur', us[1..]);
  }

  /** Slots remain after the first unit: the units after it decode in them. */
  lemma {:induction false} GroupDecodesMore(data: bytes, cur: int, us: seq<Unit>, k: nat, src: bytes, xin: int)
    returns (r: Step, next: int, x: int)
    requires k > 1
    requires 1 <= k <= 8 && |us| > 1 && Explains(data, cur, us)
    requires At(src, xin, GroupBody(us, k))
    ensures r == DecodeUnits(src, xin, GroupFlags(us, k), k, data[..cur], |data|)
    ensures next == After(cur, us, k) && x == xin + |GroupBody(us, k)|
    ensures |us| <= k ==> r == Done(data)
    ensures |us| > k ==> 0 <= next < |data| && r == Next(x, data[..next])
    decreases k, 0
  {
    var cur', x1 := GroupNext(data, cur, us, k, src, xin);
    AfterFront(cur, us, k);
    r, next, x := GroupDecodes(data, cur', us[1..], k - 1, src, x1);
  }

  /** A group with no slots left reads nothing and rebuilds nothing. */
  lemma NoSlotsLeft(src: bytes, xin: int, d: bv8, dest: bytes, total: int, cur: int, us: seq<Unit>)
    requires 0 <= xin && |dest| < total
    ensures DecodeUnits(src, xin, d, 0, dest, total) == Next(xin, dest)
    ensures GroupBody(us, 0) == [] && After(cur, us, 0) == cur
  {
  }

  /** The group loop goes on after a group that leaves bytes to decode. */
  lemma GroupsNext(src: bytes, xin: int, d: bv8, dest: bytes, total: int, x: int, out: bytes)
    requires 0 <= xin < |src| && |dest| < total && FlagOf(src, xin) == d
    requires DecodeUnits(src, xin + 1, d, 8, dest, total) == Next(x, out)
    ensures DecodeGroups(src, xin, dest, total) == DecodeGroups(src, x, out, total)
  {
  }

  /** The group loop stops at the group that completes the output. */
  lemma GroupsDone(src: bytes, xin: int, d: bv8, dest: bytes, total: int, out: bytes)
    requires 0 <= xin < |src| && |dest| < total && FlagOf(src, xin) == d
    requires DecodeUnits(src, xin + 1, d, 8, dest, total) == Done(out)
    ensures DecodeGroups(src, xin, dest, total) == Ok(out)
  {
  }

  /** `Serialize` writes a group's flag byte, then its body, then the
      groups of the units after it. */
  lemma SerializeSplit(us: seq<Unit>, src: bytes, xin: int)
    requires us != [] && At(src, xin, Serialize(us))
    ensures 0 <= xin < |src| && FlagOf(src, xin) == GroupFlags(us, 8)
    ensures At(src, xin + 1, GroupBody(us, 8))
    ensures |us| > 8 ==> At(src, xin + 1 + |GroupBody(us, 8)|, Serialize(us[8..]))
  {
    var tail := SerializeUnfold(us);
    GroupAt(src, xin, GroupFlags(us, 8), GroupBody(us, 8), tail);
  }

  /** One group of `Serialize`, and the groups after it. */
  lemma SerializeUnfold(us: seq<Unit>) returns (tail: bytes)
    requires us != []
    ensures Serialize(us) == [GroupFlags(us, 8) as int] + (GroupBody(us, 8) + tail)
    ensures |us| > 8 ==> tail == Serialize(us[8..])
  {
    tail := Serialize(us[Min(8, |us|)..]);
  }

  /** The last group of the stream completes the output. */
  lemma StreamLast(data: bytes, cur: int, us: seq<Unit>, src: bytes, xin: int)
    requires us != [] && |us| <= 8 && Explains(data, cur, us)
    requires At(src, xin, Serialize(us))
    ensures DecodeGroups(src, xin, data[..cur], |data|) == Ok(data)
  {
    SerializeSplit(us, src, xin);
    var r, n, x := GroupDecodes(data, cur, us, 8, src, xin + 1);
    GroupsDone(src, xin, GroupFlags(us, 8), data[..cur], |data|, data);
  }

  /** Any other group hands the rest of the stream, from offset `x` of the
      compressed bytes, to the units after it, which explain the input from
      `next` on. */
  lemma StreamNext(data: bytes, cur: int, us: seq<Unit>, src: bytes, xin: int) returns (x: int, next: int)
    requires |us| > 8 && Explains(data, cur, us)
    requires At(src, xin, Serialize(us))
    ensures x == xin + 1 + |GroupBody(us, 8)| && next == After(cur, us, 8)
    ensures 0 <= next < |data| && 0 <= x
    ensures At(src, x, Serialize(us[8..]))
    ensures DecodeGroups(src, xin, data[..cur], |data|) == DecodeGroups(src, x, data[..next], |data|)
  {
    SerializeSplit(us, src, xin);
    var r;
    r, next, x := GroupDecodes(data, cur, us, 8, src, xin + 1);
    GroupsNext(src, xin, GroupFlags(us, 8), data[..cur], |data|, x, data[..next]);
  }

  /** Decoding the groups `Serialize` writes for units that explain the input
      from `cur` rebuilds the whole input. */
  lemma {:induction false} StreamDecodes(data: bytes, cur: int, us: seq<Unit>, src: bytes, xin: int)
    requires us != [] && Explains(data, cur, us)
    requires At(src, xin, Serialize(us))
    ensures DecodeGroups(src, xin, data[..cur], |data|) == Ok(data)
    decreases |us|
  {
    if |us| <= 8 {
      StreamLast(data, cur, us, src, xin);
    } else {
      var x, next := StreamNext(data, cur, us, src, xin);
      ExplainsAfter(data, cur, us, 8);
      StreamDecodes(data, next, us[8..], src, x);
    }
  }

  /** Where `LZ77_Compress` puts things: the length word after the `h`
      bytes of the optional tag, then the groups. */
  lemma CompressLayout(data: bytes, withHeader: bool) returns (h: int)
    ensures h == if withHeader then 4 else 0
    ensures |Compress(data, withHeader)| >= h + 4
    ensures LE24(Compress(data, withHeader), h + 1) == |data| % 0x100_0000
    ensures At(Compress(data, withHeader), h + 4, Serialize(Parse(data, 0)))
  {
    var tag := if withHeader then LE32Bytes(TAG) else [];
    var word := LE32Bytes(|data| * 0x100 + 0x10);
    var body := Serialize(Parse(data, 0));
    h := |tag|;
    assert Compress(data, withHeader) == (tag + word) + body;
    LengthWord(|data|);
    LE24Prefix(tag + word, body, h + 1);
    LE24Suffix(tag, word, 1);
    AtEnd(tag + word, body);
  }

  /** `LZ77_Decompress(LZ77_Compress(d, h), h) == d` in both header modes,
      for every input whose length fits the 24-bit length field, the empty
      input included. */
  lemma CompressRoundTrip(data: bytes, withHeader: bool)
    requires |data| < 0x100_0000
    ensures Decompress(Compress(data, withHeader), withHeader) == Ok(data)
  {
    var src := Compress(data, withHeader);
    var h := CompressLayout(data, withHeader);
    var xin := if withHeader then 8 else 4;
    assert xin == h + 4;
    assert LE24(src, xin - 3) == |data|;
    if |data| > 0 {
      assert data[..0] == [];
      StreamDecodes(data, 0, Parse(data, 0), src, xin);
      assert Decompress(src, withHeader) == DecodeGroups(src, xin, [], |data|);
    }
  }

  /** The length an `LZ77_Compress` output declares is the input's length
      modulo 2^24, in both header modes. */
  lemma CompressDeclaresLength(data: bytes, withHeader: bool)
    ensures GetDecompressedSize(Compress(data, withHeader), withHeader) == Ok(|data| % 0x100_0000)
  {
    var h := CompressLayout(data, withHeader);
  }

  /** `LZ77_FastCompress` emits exactly `4 + n + ceil(n / 8)` bytes. */
  lemma {:induction false} FastBodySize(source: bytes, pos: nat)
    requires pos <= |source|
    ensures |FastBody(source, pos)| == (|source| - pos) + (|source| - pos + 7) / 8
    decreases |source| - pos
  {
    if pos < |source| {
      if pos + 8 < |source| {
        FastBodySize(source, pos + 8);
      } else {
        assert FastBody(source, pos + 8) == [];
      }
    }
  }

  /** With a zero flag byte, the remaining `k` units of a group append the
      literal bytes `chunk` to `dest`: decoding is done once the output has
      `total` bytes, and otherwise goes on to the next group after `k` bytes. */
  lemma {:induction false} LiteralRun(src: bytes, xin: int, dest: bytes, chunk: bytes, k: nat, total: int)
    requires 0 <= xin && 1 <= |chunk| <= k <= 8 && |dest| + |chunk| <= total
    requires At(src, xin, chunk)
    ensures |dest| + |chunk| == total ==> DecodeUnits(src, xin, 0, k, dest, total) == Done(dest + chunk)
    ensures |dest| + |chunk| < total && |chunk| == k ==>
      DecodeUnits(src, xin, 0, k, dest, total) == Next(xin + k, dest + chunk)
    decreases k, 1
  {
    if |chunk| == 1 {
      LiteralRunLast(src, xin, dest, chunk, k, total);
    } else {
      LiteralRunMore(src, xin, dest, chunk, k, total);
    }
  }

  /** The run's last literal: it completes the output, or ends the group. */
  lemma LiteralRunLast(src: bytes, xin: int, dest: bytes, chunk: bytes, k: nat, total: int)
    requires 0 <= xin && |chunk| == 1 && 1 <= k <= 8 && |dest| + 1 <= total
    requires At(src, xin, chunk)
    ensures |dest| + 1 == total ==> DecodeUnits(src, xin, 0, k, dest, total) == Done(dest + chunk)
    ensures |dest| + 1 < total && k == 1 ==>
      DecodeUnits(src, xin, 0, k, dest, total) == Next(xin + 1, dest + chunk)
  {
    LiteralFirst(src, xin, dest, chunk, total);
    assert chunk == [chunk[0]];
    if |dest| + 1 == total {
      UnitsDone(src, xin, 0, k, dest, total, false, dest + chunk);
    } else if k == 1 {
      UnitsNext(src, xin, 0, k, dest, total, false, xin + 1, dest + chunk, 0);
    }
  }

  /** A literal with more of the run after it hands the rest of the group
      the rest of the run. */
  lemma {:induction false} LiteralRunMore(src: bytes, xin: int, dest: bytes, chunk: bytes, k: nat, total: int)
    requires 0 <= xin && 1 < |chunk| <= k <= 8 && |dest| + |chunk| <= total
    requires At(src, xin, chunk)
    ensures |dest| + |chunk| == total ==> DecodeUnits(src, xin, 0, k, dest, total) == Done(dest + chunk)
    ensures |dest| + |chunk| < total && |chunk| == k ==>
      DecodeUnits(src, xin, 0, k, dest, total) == Next(xin + k, dest + chunk)
    decreases k, 0
  {
    var dest' := dest + [chunk[0]];
    LiteralFirst(src, xin, dest, chunk, total);
    UnitsNext(src, xin, 0, k, dest, total, false, xin + 1, dest', 0);
    LiteralRun(src, xin + 1, dest', chunk[1..], k - 1, total);
    assert dest' + chunk[1..] == dest + chunk;
  }

  /** The first literal of a run appends its byte, and the rest of the run
      follows it in the input. */
  lemma LiteralFirst(src: bytes, xin: int, dest: bytes, chunk: bytes, total: int)
    requires 0 <= xin && 1 <= |chunk| && |dest| < total
    requires At(src, xin, chunk)
    ensures At(src, xin + 1, chunk[1..])
    ensures DecodeUnit(src, xin, false, dest, total)
      == if |dest| + 1 == total then Done(dest + [chunk[0]]) else Next(xin + 1, dest + [chunk[0]])
  {
    assert chunk == [chunk[0]] + chunk[1..];
    AtHead(src, xin, chunk[0], chunk[1..]);
  }

  /** Every group `LZ77_FastCompress` writes is a zero flag byte followed by
      up to eight input bytes, so the decoder reads every byte as a literal. */
  lemma {:induction false} FastBodyRoundTrip(source: bytes, pos: nat, src: bytes, xin: int)
    requires pos < |source|
    requires At(src, xin, FastBody(source, pos))
    ensures DecodeGroups(src, xin, source[..pos], |source|) == Ok(source)
    decreases |source| - pos
  {
    var m := Min(8, |source| - pos);
    FastSplit(source, pos, src, xin);
    LiteralRun(src, xin + 1, source[..pos], source[pos..pos + m], 8, |source|);
    assert source[..pos] + source[pos..pos + m] == source[..pos + m];
    if pos + 8 < |source| {
      GroupsNext(src, xin, 0, source[..pos], |source|, xin + 9, source[..pos + 8]);
      FastBodyRoundTrip(source, pos + 8, src, xin + 9);
    } else {
      assert source[..pos + m] == source;
      GroupsDone(src, xin, 0, source[..pos], |source|, source);
    }
  }

  /** A group of `LZ77_FastCompress`: a zero flag byte, up to eight input
      bytes, then the groups after it. */
  lemma FastSplit(source: bytes, pos: nat, src: bytes, xin: int)
    requires pos < |source|
    requires At(src, xin, FastBody(source, pos))
    ensures 0 <= xin < |src| && FlagOf(src, xin) == 0
    ensures At(src, xin + 1, source[pos..pos + Min(8, |source| - pos)])
    ensures pos + 8 < |source| ==> At(src, xin + 9, FastBody(source, pos + 8))
  {
    var chunk := source[pos..pos + Min(8, |source| - pos)];
    var tail := FastBody(source, pos + 8);
    FastBodyUnfold(source, pos);
    AtHead(src, xin, 0, chunk + tail);
    AtSplit(src, xin + 1, chunk, tail);
  }

  /** The first group of `FastBody` and the groups after it. */
  lemma FastBodyUnfold(source: bytes, pos: nat)
    requires pos < |source|
    ensures FastBody(source, pos)
      == [0] + (source[pos..pos + Min(8, |source| - pos)] + FastBody(source, pos + 8))
  {
    var chunk := source[pos..pos + Min(8, |source| - pos)];
    assert source[pos..Min(pos + 8, |source|)] == chunk;
    assert [0] + chunk + FastBody(source, pos + 8) == [0] + (chunk + FastBody(source, pos + 8));
  }

  /** `LZ77_Decompress(LZ77_FastCompress(s), false) == s` for every `s` whose
      length fits the 24-bit length field, and the output has exactly
      `4 + n + ceil(n / 8)` bytes. */
  lemma FastCompressRoundTrip(source: bytes)
    requires |source| < 0x100_0000
    ensures FastCompress(source).Ok?
    ensures |FastCompress(source).value| == 4 + |source| + (|source| + 7) / 8
    ensures Decompress(FastCompress(source).value, false) == Ok(source)
  {
    var n := |source|;
    var src := FastCompress(source).value;
    var head: bytes := [0, n % 0x100, (n / 0x100) % 0x100, (n / 0x1_0000) % 0x100];
    var body := FastBody(source, 0);
    FastBodySize(source, 0);
    assert LE24(src, 1) == n by {
      var q := n / 0x100;
      assert n == q * 0x100 + n % 0x100;
      assert q == (q / 0x100) * 0x100 + q % 0x100;
      assert n / 0x1_0000 == q / 0x100;
    }
    if n > 0 {
      AtEnd(head, body);
      assert source[..0] == [];
      FastBodyRoundTrip(source, 0, src, 4);
    }
  }

  /** A declared length of 0 gives the empty output whatever follows the
      length word: the body is never read. */
  lemma ZeroLengthReadsNothing(src: bytes, withHeader: bool)
    requires GetDecompressedSize(src, withHeader) == Ok(0)
    ensures Decompress(src, withHeader) == Ok([])
  {
  }
}
