/** What the two forward sliding-window codecs share: copying a back-reference
    into the output one byte at a time, and walking a flag byte from its most
    significant bit down. */
module BackRef {
  import opened Common

  /** Appends `n` bytes, each copied from `dist` bytes before the position it
      is written to. Copying byte by byte lets a reference overlap the bytes it
      produces, which is how both decoders repeat a run. */
  function CopyBack(out: bytes, dist: int, n: nat): (r: bytes)
    requires 1 <= dist <= |out|
    ensures |r| == |out| + n
    ensures r[..|out|] == out
    decreases n
  {
    if n == 0 then out else CopyBack(out + [out[|out| - dist]], dist, n - 1)
  }

  /** Every byte a reference appends equals the byte `dist` before it. */
  lemma {:induction false} CopyBackRepeats(out: bytes, dist: int, n: nat, j: int)
    requires 1 <= dist <= |out|
    requires |out| <= j < |out| + n
    ensures var r := CopyBack(out, dist, n); r[j] == r[j - dist]
    decreases n
  {
    var out' := out + [out[|out| - dist]];
    var r := CopyBack(out', dist, n - 1);
    if j == |out| {
      assert r[..|out'|] == out';
      assert r[j] == out'[j] && r[j - dist] == out'[j - dist];
    } else {
      CopyBackRepeats(out', dist, n - 1, j);
    }
  }

  /** When the `len` bytes at `pos` repeat the bytes `dist` earlier, copying
      the reference after `data[..pos]` rebuilds `data[..pos + len]`,
      overlapping or not. */
  lemma {:induction false} CopyBackRebuilds(data: bytes, pos: nat, dist: int, len: nat)
    requires 1 <= dist <= pos
    requires pos + len <= |data|
    requires data[pos - dist..pos - dist + len] == data[pos..pos + len]
    ensures CopyBack(data[..pos], dist, len) == data[..pos + len]
    decreases len
  {
    if len > 0 {
      assert data[pos - dist] == data[pos - dist..pos - dist + len][0];
      assert data[..pos] + [data[..pos][pos - dist]] == data[..pos + 1];
      assert data[pos + 1 - dist..pos + 1 - dist + (len - 1)] == data[pos - dist..pos - dist + len][1..];
      CopyBackRebuilds(data, pos + 1, dist, len - 1);
    }
  }

  /** The low `i` bits of a byte: where the flags of a group's units from `i`
      on never reach once that unit's flag is moved to the top bit. */
  function LowMask(i: nat): (m: bv8)
    requires i <= 8
  {
    match i
    case 0 => 0x00
    case 1 => 0x01
    case 2 => 0x03
    case 3 => 0x07
    case 4 => 0x0F
    case 5 => 0x1F
    case 6 => 0x3F
    case 7 => 0x7F
    case _ => 0xFF
  }

  /** The flags of units `i..7` of a group, unit `i` at the top bit and each
      later unit one bit lower: a unit's flag followed by the flags of the
      units after it. At `i = 0` this is the group's flag byte, unit `j` at
      bit `7 - j`. */
  function PushFlag(on: bool, rest: bv8): bv8 {
    (if on then 0x80 else 0) | (rest >> 1)
  }

  /** A decoder that tests `0x80` and shifts its flag byte left once per unit
      sees the flag of the unit in front, then the flags of the units after
      it, provided those leave the low bits free. */
  lemma FlagStep(rest: bv8, i: nat, on: bool)
    requires i < 8
    requires rest & LowMask(i + 1) == 0
    ensures var f := PushFlag(on, rest);
      && f & LowMask(i) == 0
      && (f & 0x80 != 0 <==> on)
      && f << 1 == rest
  {
    match i
    case 0 => {}
    case 1 => {}
    case 2 => {}
    case 3 => {}
    case 4 => {}
    case 5 => {}
    case 6 => {}
    case 7 => {}
  }

  /** The flag bit of slot `j` of a group, `1 << (7 - j)`. */
  function SlotMask(j: nat): (m: bv8)
    requires j < 8
  {
    match j
    case 0 => 0x80
    case 1 => 0x40
    case 2 => 0x20
    case 3 => 0x10
    case 4 => 0x08
    case 5 => 0x04
    case 6 => 0x02
    case _ => 0x01
  }

  /** Shifting a flag byte left moves the bit of slot `j` to the bit of
      slot `j - 1`. */
  lemma ShiftedBit(f: bv8, j: nat)
    requires 1 <= j < 8
    ensures (f & SlotMask(j) != 0) == ((f << 1) & SlotMask(j - 1) != 0)
  {
    match j
    case 1 => {}
    case 2 => {}
    case 3 => {}
    case 4 => {}
    case 5 => {}
    case 6 => {}
    case 7 => {}
  }

  /** The outcome of decoding one unit or one group: an exception, the
      finished output, or where reading goes on and the output so far. */
  datatype Step = Fail(error: Error) | Done(out: bytes) | Next(xin: int, out: bytes)

  /** A flag byte as a decoder reads it. */
  function FlagOf(src: bytes, xin: int): bv8
    requires 0 <= xin < |src|
  {
    src[xin] as bv8
  }

  /** A flag byte, a body and what follows, found at `xin`. */
  lemma GroupAt(src: bytes, xin: int, f: bv8, body: bytes, tail: bytes)
    requires At(src, xin, [f as int] + (body + tail))
    ensures 0 <= xin < |src| && FlagOf(src, xin) == f
    ensures At(src, xin + 1, body) && At(src, xin + 1 + |body|, tail)
  {
    AtHead(src, xin, f as int, body + tail);
    AtSplit(src, xin + 1, body, tail);
  }
}
