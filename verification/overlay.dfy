/** The in-place decompressor of the game's code overlays
    (`DecompressOverlay`), a register-for-register transcription of the ARM
    routine, and the `SUBS` flags it tests (`SubS`).

    An overlay ends with two little-endian words: the first holds in its top
    byte how far before the end the compressed stream ends, and in its low 24
    bits how far before the end it starts; the second is how many bytes the
    overlay grows by. The buffer is enlarged by that many zero bytes, then the
    stream is read backward from `r3` while the output is written backward
    from the end of the buffer at `r2`. A flag byte drives eight units, most
    significant bit first: a clear bit copies one byte, a set bit a run of
    earlier output. */
module OverlayCodec {
  import opened Common

  /*---------------------------------------------------------------------
   * The SUBS instruction
   *---------------------------------------------------------------------*/

  /** The result and the N (negative) and V (signed overflow) flags of
      `SUBS dest, v1, v2`. */
  datatype Sub = Sub(dest: uint32, n: bool, v: bool)

  /** Bit 31 of a register, `x & 2147483648`. */
  predicate Bit31(x: uint32) {
    x >= TWO_POW_31
  }

  /** `SubS`: the difference modulo 2^32, N its bit 31, V set when operands
      of opposite signs give a result of the subtrahend's sign. */
  function SubS(v1: uint32, v2: uint32): Sub {
    var dest := U32(v1 - v2);
    Sub(dest, Bit31(dest),
        (Bit31(v1) && !Bit31(v2) && !Bit31(dest)) || (!Bit31(v1) && Bit31(v2) && Bit31(dest)))
  }

  /** `N != V` is the ARM "less than" condition: it holds exactly when `v1`
      is below `v2` as signed 32-bit numbers. `dest` is `v1 - v2` wrapped to
      32 bits. */
  lemma SubSIsSignedLess(v1: uint32, v2: uint32)
    ensures SubS(v1, v2).dest == if v1 >= v2 then v1 - v2 else v1 - v2 + TWO_POW_32
    ensures (SubS(v1, v2).n != SubS(v1, v2).v) <==> Signed(v1) < Signed(v2)
  {
    var d := v1 - v2;
    assert -TWO_POW_32 < d < TWO_POW_32;
    if d >= 0 {
      assert U32(d) == d;
    } else {
      assert U32(d) == d + TWO_POW_32;
    }
  }

  /*---------------------------------------------------------------------
   * The routine as written
   *---------------------------------------------------------------------*/

  /** The live registers: `r3` reads the stream backward, `r2` writes the
      output backward, both inside `mem`. */
  datatype Regs = Regs(mem: bytes, r3: uint32, r2: uint32)

  /** `memory[i]`, which throws outside the buffer. */
  function Load(mem: bytes, i: int): (r: Result<uint8>)
    ensures r.Ok? <==> 0 <= i < |mem|
    ensures r.Ok? ==> r.value == mem[i]
  {
    if 0 <= i < |mem| then Ok(mem[i]) else Err(IndexOutOfRange)
  }

  /** `r2 -= 1; memory[r2] = b`: the output grows downward by one byte. */
  function Store(mem: bytes, r2: uint32, b: uint8): (r: Result<(bytes, uint32)>)
    requires |mem| < TWO_POW_31
    ensures r.Ok? <==> 1 <= r2 <= |mem|
    ensures r.Ok? ==> r.value.1 == r2 - 1 && r.value.0 == mem[r2 - 1 := b]
  {
    var r2' := U32(r2 - 1);
    if r2' < |mem| then Ok((mem[r2' := b], r2')) else Err(IndexOutOfRange)
  }

  /** One pass of the run loop at `a99C`: the byte `r7` above the write
      cursor moves to just below it. */
  function CopyStep(mem: bytes, r2: uint32, r7: uint32): (r: Result<(bytes, uint32)>)
    requires |mem| < TWO_POW_31
    ensures r.Ok? ==> |r.value.0| == |mem| && r.value.1 == r2 - 1
  {
    var b :- Load(mem, U32(r2 + r7));
    Store(mem, r2, b)
  }

  /** The run loop at `a99C` as written: a counter starting at `r12`, lowered
      by 0x10 after each byte, the loop going on while `SubS` reports it was
      not below 0x10 (see `CopyRunCount`). */
  function CopyRun(mem: bytes, r2: uint32, r7: uint32, r12: uint32): (r: Result<(bytes, uint32)>)
    requires |mem| < TWO_POW_31 && r12 < TWO_POW_31
    ensures r.Ok? ==> |r.value.0| == |mem| && r.value.1 < r2
    decreases r12
  {
    var p :- CopyStep(mem, r2, r7);
    var s := SubS(r12, 0x10);
    SubSIsSignedLess(r12, 0x10);
    if s.n == s.v then CopyRun(p.0, p.1, r7, s.dest) else Ok(p)
  }

  /** Whether unit flag bit `r5 & 0x80` is set. */
  predicate FlagBit(r5: uint32) {
    (r5 / 0x80) % 2 == 1
  }

  /** The first byte of a run holds in its high nibble the run length less
      3, and with the second byte the distance. */
  function RunDistance(hi: uint8, lo: uint8): uint32 {
    (hi * 0x100 + lo) % 0x1000 + 2
  }

  /** One unit, `a968` to `a9AC`: with its flag clear, one byte read from
      below `r3` and written below `r2`; with it set, a two-byte reference
      and its run. */
  function Unit(rg: Regs, isRun: bool): (r: Result<Regs>)
    requires |rg.mem| < TWO_POW_31
    ensures r.Ok? ==> |r.value.mem| == |rg.mem| && r.value.r3 < rg.r3
  {
    var r3 := U32(rg.r3 - 1);
    var hi :- Load(rg.mem, r3);
    if !isRun then
      var p :- Store(rg.mem, rg.r2, hi);
      Ok(Regs(p.0, r3, p.1))
    else
      var r3' := U32(r3 - 1);
      var lo :- Load(rg.mem, r3');
      var p :- CopyRun(rg.mem, rg.r2, RunDistance(hi, lo), hi + 0x20);
      Ok(Regs(p.0, r3', p.1))
  }

  /** The block loop at `a958`: stop once `r3` is down to `r1`, otherwise
      read the next flag byte. */
  function Blocks(rg: Regs, r1: uint32): (r: Result<bytes>)
    requires |rg.mem| < TWO_POW_31
    ensures r.Ok? ==> |r.value| == |rg.mem|
    decreases rg.r3, 0
  {
    if rg.r3 <= r1 then Ok(rg.mem)
    else
      var r3 := rg.r3 - 1;
      var r5 :- Load(rg.mem, r3);
      BlockUnits(Regs(rg.mem, r3, rg.r2), r1, r5, 8)
  }

  /** The unit loop at `a968`: `SubS(r6, 1)` ends the block once the counter
      `r6` is below 1; otherwise one unit, the flags shifted left, and a stop
      once `r3` is down to `r1`. */
  function BlockUnits(rg: Regs, r1: uint32, r5: uint32, r6: uint32): (r: Result<bytes>)
    requires |rg.mem| < TWO_POW_31
    ensures r.Ok? ==> |r.value| == |rg.mem|
    decreases rg.r3, 1
  {
    var s := SubS(r6, 1);
    if s.n != s.v then Blocks(rg, r1)
    else
      var rg' :- Unit(rg, FlagBit(r5));
      if rg'.r3 > r1 then BlockUnits(rg', r1, U32(r5 * 2), s.dest) else Ok(rg'.mem)
  }

  /** `DecompressOverlay`. Reading the footer throws for inputs shorter than
      8 bytes, so the routine's own check for an empty input is never
      reached. The grown buffer is allocated with a 64-bit length, which
      fails from 2^31 bytes on. */
  function DecompressOverlay(src: bytes): (r: Result<bytes>)
    ensures |src| < 8 ==> r == Err(IndexOutOfRange)
    ensures r.Ok? ==> |src| >= 8 && |r.value| == |src| + LE32(src, |src| - 4)
  {
    var n := |src|;
    if n < 8 then Err(IndexOutOfRange)
    else
      var word1 := LE32(src, n - 8);
      var word2 := LE32(src, n - 4);
      if n + word2 >= TWO_POW_31 then Err(AllocationTooLarge)
      else
        Blocks(Regs(src + Zeros(word2), U32(n - word1 / 0x100_0000), n + word2),
               U32(n - word1 % 0x100_0000))
  }

  /*---------------------------------------------------------------------
   * The same routine with counted loops
   *---------------------------------------------------------------------*/

  /** `count` passes of the run loop: the write cursor moves down by
      `count`. */
  function CopyBytes(mem: bytes, r2: uint32, r7: uint32, count: nat): (r: Result<(bytes, uint32)>)
    requires |mem| < TWO_POW_31
    ensures r.Ok? ==> |r.value.0| == |mem| && r.value.1 == r2 - count
    decreases count
  {
    if count == 0 then Ok((mem, r2))
    else
      var p :- CopyStep(mem, r2, r7);
      CopyBytes(p.0, p.1, r7, count - 1)
  }

  /** The `SubS` counter of the run loop copies `r12 / 16 + 1` bytes. */
  lemma {:induction false} CopyRunCount(mem: bytes, r2: uint32, r7: uint32, r12: uint32)
    requires |mem| < TWO_POW_31 && r12 < TWO_POW_31
    ensures CopyRun(mem, r2, r7, r12) == CopyBytes(mem, r2, r7, r12 / 0x10 + 1)
    decreases r12
  {
    SubSIsSignedLess(r12, 0x10);
    var step := CopyStep(mem, r2, r7);
    if step.Ok? {
      var p := step.value;
      if r12 >= 0x10 {
        CopyRunCount(p.0, p.1, r7, r12 - 0x10);
        assert (r12 - 0x10) / 0x10 + 1 == r12 / 0x10;
      }
    }
  }

  /** A unit as the format describes it: a literal byte, or a run of
      `hi / 16 + 3` bytes read `RunDistance(hi, lo)` above the write
      cursor. */
  function CountedUnit(rg: Regs, isRun: bool): (r: Result<Regs>)
    requires |rg.mem| < TWO_POW_31
    ensures r.Ok? ==> |r.value.mem| == |rg.mem| && r.value.r3 < rg.r3
  {
    var r3 := U32(rg.r3 - 1);
    var hi :- Load(rg.mem, r3);
    if !isRun then
      var p :- Store(rg.mem, rg.r2, hi);
      Ok(Regs(p.0, r3, p.1))
    else
      var r3' := U32(r3 - 1);
      var lo :- Load(rg.mem, r3');
      var p :- CopyBytes(rg.mem, rg.r2, RunDistance(hi, lo), hi / 0x10 + 3);
      Ok(Regs(p.0, r3', p.1))
  }

  /** The block loop with a plain count of the units left in a block. */
  function CountedBlocks(rg: Regs, r1: uint32): (r: Result<bytes>)
    requires |rg.mem| < TWO_POW_31
    decreases rg.r3, 0
  {
    if rg.r3 <= r1 then Ok(rg.mem)
    else
      var r3 := rg.r3 - 1;
      var r5 :- Load(rg.mem, r3);
      CountedUnits(Regs(rg.mem, r3, rg.r2), r1, r5, 8)
  }

  /** The last `k` units of a block. */
  function CountedUnits(rg: Regs, r1: uint32, r5: uint32, k: nat): (r: Result<bytes>)
    requires |rg.mem| < TWO_POW_31
    decreases rg.r3, 1
  {
    if k == 0 then CountedBlocks(rg, r1)
    else
      var rg' :- CountedUnit(rg, FlagBit(r5));
      if rg'.r3 > r1 then CountedUnits(rg', r1, U32(r5 * 2), k - 1) else Ok(rg'.mem)
  }

  /** A reference is a run of `(hi >> 4) + 3` bytes: the `SubS` counter
      started at `hi + 0x20` runs that many times. */
  lemma UnitIsCounted(rg: Regs, isRun: bool)
    requires |rg.mem| < TWO_POW_31
    ensures Unit(rg, isRun) == CountedUnit(rg, isRun)
  {
    var r3 := U32(rg.r3 - 1);
    var r3' := U32(r3 - 1);
    if isRun && 0 <= r3 < |rg.mem| && 0 <= r3' < |rg.mem| {
      var hi: int := rg.mem[r3];
      CopyRunCount(rg.mem, rg.r2, RunDistance(hi, rg.mem[r3']), hi + 0x20);
      assert (hi + 0x20) / 0x10 + 1 == hi / 0x10 + 3;
    }
  }

  /** The `SubS(r6, 1)` test ends a block after exactly its eight units. */
  lemma {:induction false} BlocksAreCounted(rg: Regs, r1: uint32)
    requires |rg.mem| < TWO_POW_31
    ensures Blocks(rg, r1) == CountedBlocks(rg, r1)
    decreases rg.r3, 0
  {
    if rg.r3 > r1 && Load(rg.mem, rg.r3 - 1).Ok? {
      BlockUnitsAreCounted(Regs(rg.mem, rg.r3 - 1, rg.r2), r1, rg.mem[rg.r3 - 1], 8);
    }
  }

  /** The unit loop with `r6` units left is the counted one with `r6` left. */
  lemma {:induction false} BlockUnitsAreCounted(rg: Regs, r1: uint32, r5: uint32, r6: uint32)
    requires |rg.mem| < TWO_POW_31 && r6 <= 8
    ensures BlockUnits(rg, r1, r5, r6) == CountedUnits(rg, r1, r5, r6)
    decreases rg.r3, 1
  {
    SubSIsSignedLess(r6, 1);
    if r6 == 0 {
      BlocksAreCounted(rg, r1);
    } else {
      UnitIsCounted(rg, FlagBit(r5));
      var u := Unit(rg, FlagBit(r5));
      if u.Ok? && u.value.r3 > r1 {
        BlockUnitsAreCounted(u.value, r1, U32(r5 * 2), r6 - 1);
      }
    }
  }

  /** `DecompressOverlay` with counted loops in place of the `SubS` tests. */
  function CountedDecompress(src: bytes): (r: Result<bytes>)
  {
    var n := |src|;
    if n < 8 then Err(IndexOutOfRange)
    else
      var word1 := LE32(src, n - 8);
      var word2 := LE32(src, n - 4);
      if n + word2 >= TWO_POW_31 then Err(AllocationTooLarge)
      else
        CountedBlocks(Regs(src + Zeros(word2), U32(n - word1 / 0x100_0000), n + word2),
                      U32(n - word1 % 0x100_0000))
  }

  /** The routine as written decodes every input exactly as the counted
      reading does: eight units per flag byte, `(hi >> 4) + 3` bytes per
      run. */
  lemma DecompressIsCounted(src: bytes)
    ensures DecompressOverlay(src) == CountedDecompress(src)
  {
    var n := |src|;
    if n >= 8 && n + LE32(src, n - 4) < TWO_POW_31 {
      var word1 := LE32(src, n - 8);
      var word2 := LE32(src, n - 4);
      BlocksAreCounted(Regs(src + Zeros(word2), U32(n - word1 / 0x100_0000), n + word2),
                       U32(n - word1 % 0x100_0000));
    }
  }

  /** When the footer's bounds leave no stream to read (`r3 <= r1`, as with
      a first word of 0), the result is the input followed by the zero bytes
      it grows by. */
  lemma FooterBoundsStop(src: bytes)
    requires |src| >= 8 && |src| + LE32(src, |src| - 4) < TWO_POW_31
    requires U32(|src| - LE32(src, |src| - 8) / 0x100_0000) <= U32(|src| - LE32(src, |src| - 8) % 0x100_0000)
    ensures DecompressOverlay(src) == Ok(src + Zeros(LE32(src, |src| - 4)))
  {
  }
}
