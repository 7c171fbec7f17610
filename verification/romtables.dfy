/** The accessors over the resident overlay (`Overlay0`), the first code
    overlay of the game, which holds the tables that map a level's tilesets,
    backgrounds and sprites to files of the file system, and two small files
    stored inline. Where a table sits depends on the release, so every
    accessor goes through `ROM.Offsets` indexed by the image's origin.

    `Overlay0` and `Region` are static fields in the source; here they are
    parameters, and the writers return the new image. */
module RomTables {
  import opened Common
  import opened RomHeader

  type int32 = x: int | -TWO_POW_31 <= x < TWO_POW_31

  /** `ROM.Data`: the tables and inline files of the resident overlay. */
  datatype Data =
    | NumberFileOffset
    | TableTsUntHd | TableTsUnt | TableTsChk | TableTsAnimNcg
    | TableBgNcg | TableTsNcg | TableFgNcg | TableFgNsc | TableBgNsc
    | TableBgNcl | TableTsNcl | TableFgNcl | TableTsPnl | TableJyotyuNcl
    | FileJyotyuChk | FileModifiers
    | TableSpriteClassId

  /** The row of `ROM.Offsets` a kind of data selects (`(int)datatype`). */
  function DataIndex(d: Data): (i: nat)
    ensures i < 18
  {
    match d
    case NumberFileOffset => 0
    case TableTsUntHd => 1
    case TableTsUnt => 2
    case TableTsChk => 3
    case TableTsAnimNcg => 4
    case TableBgNcg => 5
    case TableTsNcg => 6
    case TableFgNcg => 7
    case TableFgNsc => 8
    case TableBgNsc => 9
    case TableBgNcl => 10
    case TableTsNcl => 11
    case TableFgNcl => 12
    case TableTsPnl => 13
    case TableJyotyuNcl => 14
    case FileJyotyuChk => 15
    case FileModifiers => 16
    case TableSpriteClassId => 17
  }

  const SPRITE_COUNT: int := 326

  /** `ROM.Offsets`: one row per kind of data, one column per release (US,
      EU, JP, KR, CH). Row 0 is not an offset but the number of the first
      file the tables count from; the last row belongs to no kind of data. */
  const OFFSETS: seq<seq<int>> := [
    [131, 135, 131, 131, 131],
    [0x2F8E4, 0x2F0F8, 0x2ECE4, 0x2EDA4, 0x2EDA4],
    [0x2FA14, 0x2F228, 0x2EE14, 0x2EED4, 0x2EED4],
    [0x2FB44, 0x2F358, 0x2EF44, 0x2F004, 0x2F004],
    [0x2FC74, 0x2F488, 0x2F074, 0x2F134, 0x2F134],
    [0x30D74, 0x30588, 0x30174, 0x30234, 0x30234],
    [0x30EA4, 0x306B8, 0x302A4, 0x30364, 0x30364],
    [0x30FD4, 0x307E8, 0x303D4, 0x30494, 0x30494],
    [0x31104, 0x30918, 0x30504, 0x305C4, 0x305C4],
    [0x31234, 0x30A48, 0x30634, 0x306F4, 0x306F4],
    [0x31364, 0x30B78, 0x30764, 0x30824, 0x30824],
    [0x31494, 0x30CA8, 0x30894, 0x30954, 0x30954],
    [0x315C4, 0x30DD8, 0x309C4, 0x30A84, 0x30A84],
    [0x316F4, 0x30F08, 0x30AF4, 0x30BB4, 0x30BB4],
    [0x30CD8, 0x304EC, 0x300D8, 0x30198, 0x30198],
    [0x2FDA4, 0x2F5B8, 0x2F1A4, 0x2FC74, 0x2FC74],
    [0x2C930, 0x2BDF0, 0x2BD30, 0x2BDF0, 0x2BDF0],
    [0x29BD8, 0x290C4, 0x29008, 0x290E0, 0x290DC],
    [0x2CBBC, 0, 0, 0, 0]
  ]

  /** `ROM.FileSizes`: the sizes of the inline files; the tables have no
      size (0), and the sprite class table has no entry at all. */
  const FILE_SIZES: seq<int> := [0, 0, 0, 0, 0, 0, 0, 0, 0, 0, 0, 0, 0, 0, 0, 0x400, SPRITE_COUNT * 2]

  /** `GetOffset`: where the data sits in the resident overlay of this
      release. The table has no column for an unknown origin. */
  function GetOffset(d: Data, region: Origin): (r: Result<int>)
    ensures r.Ok? <==> region != UNK
    ensures r.Ok? ==> 0 <= r.value < 0x40000
  {
    var row := OFFSETS[DataIndex(d)];
    var col := RegionIndex(region);
    if col < |row| then Ok(row[col]) else Err(IndexOutOfRange)
  }

  /** `Overlay0[i]`, which throws outside the image. */
  function ByteAt(image: bytes, i: int): (r: Result<uint8>)
  {
    if 0 <= i < |image| then Ok(image[i]) else Err(IndexOutOfRange)
  }

  /** `tableoffset + (id << 2)`: the entry of `id` in a table of 4-byte
      entries, in wrapping 32-bit arithmetic. */
  function FileSlot(id: int32, tableOffset: int32): int32 {
    I32(tableOffset + I32(id * 4))
  }

  /** `GetFileIDFromTable(int, int)`: the entry's low 16 bits, plus the
      number of the first file, cut to 16 bits. */
  function GetFileIdAt(image: bytes, id: int32, tableOffset: int32, region: Origin): (r: Result<uint16>)
    requires |image| < TWO_POW_31
    ensures r.Ok? <==> region != UNK && 0 <= FileSlot(id, tableOffset) && FileSlot(id, tableOffset) + 1 < |image|
    ensures r.Ok? ==> (r.value - LE16(image, FileSlot(id, tableOffset)) - OFFSETS[0][RegionIndex(region)]) % 0x1_0000 == 0
  {
    var off := FileSlot(id, tableOffset);
    var lo :- ByteAt(image, off);
    var hi :- ByteAt(image, I32(off + 1));
    var first :- GetOffset(NumberFileOffset, region);
    Ok(((lo + hi * 0x100) + first) % 0x1_0000)
  }

  /** `GetFileIDFromTable(int, Data)`. */
  function GetFileId(image: bytes, id: int32, d: Data, region: Origin): (r: Result<uint16>)
    requires |image| < TWO_POW_31
    ensures region == UNK ==> r == Err(IndexOutOfRange)
    ensures region != UNK ==> r == GetFileIdAt(image, id, OFFSETS[DataIndex(d)][RegionIndex(region)], region)
  {
    var t :- GetOffset(d, region);
    GetFileIdAt(image, id, t, region)
  }

  /** Whether a writer returned or threw. */
  datatype Outcome = Returned | Threw(error: Error)

  /** The image after a writer, and how the writer ended: a writer that
      throws may already have changed the image. */
  datatype Written = Written(image: bytes, outcome: Outcome)

  /** `SetFileIDFromTable(int, int, ushort)`: the number of the first file
      is taken off, in 16 bits, and the two low bytes of the entry are
      written. When only the second byte is outside the image, the first is
      written before the exception. */
  function SetFileIdAt(image: bytes, id: int32, tableOffset: int32, fid: uint16, region: Origin): (w: Written)
    ensures |w.image| == |image|
  {
    var off := FileSlot(id, tableOffset);
    match GetOffset(NumberFileOffset, region)
    case Err(e) => Written(image, Threw(e))
    case Ok(first) =>
      var entry := (fid - first % 0x1_0000) % 0x1_0000;
      if !(0 <= off < |image|) then Written(image, Threw(IndexOutOfRange))
      else
        var image' := image[off := entry % 0x100];
        var off' := I32(off + 1);
        if !(0 <= off' < |image'|) then Written(image', Threw(IndexOutOfRange))
        else Written(image'[off' := entry / 0x100], Returned)
  }

  /** `SetFileIDFromTable(int, Data, ushort)`: the `int` overload at the
      data's offset, after which the `Data` reader gives back the number
      written. */
  function SetFileId(image: bytes, id: int32, d: Data, fid: uint16, region: Origin): (w: Written)
    ensures |w.image| == |image|
    ensures region == UNK ==> w == Written(image, Threw(IndexOutOfRange))
    ensures region != UNK ==> w == SetFileIdAt(image, id, OFFSETS[DataIndex(d)][RegionIndex(region)], fid, region)
    ensures |image| < TWO_POW_31 && w.outcome == Returned ==> GetFileId(w.image, id, d, region) == Ok(fid)
  {
    match GetOffset(d, region)
    case Err(e) => Written(image, Threw(e))
    case Ok(t) =>
      assert |image| < TWO_POW_31 && SetFileIdAt(image, id, t, fid, region).outcome == Returned
        ==> GetFileIdAt(SetFileIdAt(image, id, t, fid, region).image, id, t, region) == Ok(fid) by {
        if |image| < TWO_POW_31 {
          SetThenGetFileId(image, id, t, fid, region);
        }
      }
      SetFileIdAt(image, id, t, fid, region)
  }

  /** The writer returns exactly when the origin is known and both bytes of
      the entry are inside the image; then reading the entry back gives the
      number written, the bias the writer takes off being the one the reader
      adds. */
  lemma SetThenGetFileId(image: bytes, id: int32, tableOffset: int32, fid: uint16, region: Origin)
    requires |image| < TWO_POW_31
    ensures var w := SetFileIdAt(image, id, tableOffset, fid, region);
      w.outcome == Returned
      <==> region != UNK && 0 <= FileSlot(id, tableOffset) && FileSlot(id, tableOffset) + 1 < |image|
    ensures var w := SetFileIdAt(image, id, tableOffset, fid, region);
      w.outcome == Returned ==> GetFileIdAt(w.image, id, tableOffset, region) == Ok(fid)
  {
    var off := FileSlot(id, tableOffset);
    if region != UNK && 0 <= off && off + 1 < |image| {
      var first := OFFSETS[0][RegionIndex(region)];
      var entry := (fid - first % 0x1_0000) % 0x1_0000;
      var w := SetFileIdAt(image, id, tableOffset, fid, region);
      assert I32(off + 1) == off + 1;
      assert w.image == image[off := entry % 0x100][off + 1 := entry / 0x100];
      assert LE16(w.image, off) == entry;
      BiasCancels(fid, first);
    }
  }

  /** Taking the bias off in 16 bits and adding it back in 16 bits gives
      the number back. */
  lemma BiasCancels(fid: uint16, first: nat)
    ensures ((fid - first % 0x1_0000) % 0x1_0000 + first) % 0x1_0000 == fid
  {
    var q := first / 0x1_0000;
    var rem := first % 0x1_0000;
    assert first == q * 0x1_0000 + rem;
    var entry := (fid - rem) % 0x1_0000;
    assert entry == if fid >= rem then fid - rem else fid - rem + 0x1_0000;
    assert entry + first == fid + (if fid >= rem then q else q + 1) * 0x1_0000;
  }

  /** The writer changes at most the two bytes of the entry, whether it
      returns or throws. */
  lemma SetFileIdFrame(image: bytes, id: int32, tableOffset: int32, fid: uint16, region: Origin, i: int)
    requires 0 <= i < |image| && i != FileSlot(id, tableOffset) && i != FileSlot(id, tableOffset) + 1
    ensures SetFileIdAt(image, id, tableOffset, fid, region).image[i] == image[i]
  {
    assert FileSlot(id, tableOffset) + 1 < TWO_POW_31 ==> I32(FileSlot(id, tableOffset) + 1) == FileSlot(id, tableOffset) + 1;
  }

  /** `GetClassIDFromTable`: the sprite's 2-byte entry in the class table. */
  function GetClassId(image: bytes, id: int32, region: Origin): (r: Result<uint16>)
    requires |image| < TWO_POW_31
    ensures r.Ok? <==> region != UNK && 0 <= ClassSlot(id, region) && ClassSlot(id, region) + 1 < |image|
    ensures r.Ok? ==> r.value == LE16(image, ClassSlot(id, region))
  {
    var t :- GetOffset(TableSpriteClassId, region);
    var off := I32(t + I32(id * 2));
    var lo :- ByteAt(image, off);
    var hi :- ByteAt(image, I32(off + 1));
    Ok(lo + hi * 0x100)
  }

  /** Where a sprite's class entry sits: `GetOffset(Table_Sprite_CLASSID) +
      (id << 1)`, in wrapping 32-bit arithmetic (0 stands in for an unknown
      origin, for which the reader throws first). */
  function ClassSlot(id: int32, region: Origin): int32 {
    var t := if region == UNK then 0 else OFFSETS[17][RegionIndex(region)];
    I32(t + I32(id * 2))
  }

  /** `GetInlineFile`: a copy of the `FileSizes` bytes at the data's offset.
      The size is looked up first, so the sprite class table, which has no
      size, throws even for a known origin; a copy past the end of the image
      is refused by `Array.Copy`. */
  function GetInlineFile(image: bytes, d: Data, region: Origin): (r: Result<bytes>)
    ensures r.Ok? <==> (DataIndex(d) < |FILE_SIZES| && region != UNK
      && OFFSETS[DataIndex(d)][RegionIndex(region)] + FILE_SIZES[DataIndex(d)] <= |image|)
    ensures r.Ok? ==> var off := OFFSETS[DataIndex(d)][RegionIndex(region)];
      |r.value| == FILE_SIZES[DataIndex(d)] && r.value == image[off..off + |r.value|]
  {
    if DataIndex(d) >= |FILE_SIZES| then Err(IndexOutOfRange)
    else
      var size := FILE_SIZES[DataIndex(d)];
      var off :- GetOffset(d, region);
      if off + size > |image| then Err(CopyOutOfRange) else Ok(image[off..off + size])
  }

  /** The copy half of `ReplaceInlineFile`: the new bytes, of any length,
      over the image at the data's offset, refused when they would run past
      its end. The source then writes the overlay back to the file system. */
  function ReplaceInlineFile(image: bytes, d: Data, file: bytes, region: Origin): (r: Result<bytes>)
    ensures r.Ok? <==> region != UNK && OFFSETS[DataIndex(d)][RegionIndex(region)] + |file| <= |image|
    ensures r.Ok? ==> var off := OFFSETS[DataIndex(d)][RegionIndex(region)];
      |r.value| == |image| && r.value[off..off + |file|] == file
      && r.value[..off] == image[..off] && r.value[off + |file|..] == image[off + |file|..]
  {
    var off :- GetOffset(d, region);
    if off + |file| > |image| then Err(CopyOutOfRange)
    else
      var image' := image[..off] + file + image[off + |file|..];
      assert image'[off..off + |file|] == file;
      assert image'[..off] == image[..off];
      assert image'[off + |file|..] == image[off + |file|..];
      Ok(image')
  }

  /** Reading an inline file back after replacing it with one of its size
      gives the new bytes, and the rest of the image is untouched. */
  lemma ReplaceThenGetInline(image: bytes, d: Data, file: bytes, region: Origin)
    requires ReplaceInlineFile(image, d, file, region).Ok?
    requires DataIndex(d) < |FILE_SIZES| && |file| == FILE_SIZES[DataIndex(d)]
    ensures GetInlineFile(ReplaceInlineFile(image, d, file, region).value, d, region) == Ok(file)
    ensures var off := OFFSETS[DataIndex(d)][RegionIndex(region)];
      var image' := ReplaceInlineFile(image, d, file, region).value;
      image'[..off] == image[..off] && image'[off + |file|..] == image[off + |file|..]
  {
    var off := GetOffset(d, region).value;
    var image' := image[..off] + file + image[off + |file|..];
    assert image'[off..off + |file|] == file;
    assert image'[..off] == image[..off];
    assert image'[off + |file|..] == image[off + |file|..];
  }

  /** Writing back what was read leaves the image as it was. */
  lemma GetThenReplaceInline(image: bytes, d: Data, region: Origin)
    requires GetInlineFile(image, d, region).Ok?
    ensures ReplaceInlineFile(image, d, GetInlineFile(image, d, region).value, region) == Ok(image)
  {
    var off := OFFSETS[DataIndex(d)][RegionIndex(region)];
    var file := GetInlineFile(image, d, region).value;
    var r := ReplaceInlineFile(image, d, file, region);
    var image' := r.value;
    assert image'[..off] == image[..off] && image'[off + |file|..] == image[off + |file|..];
    assert image'[off..off + |file|] == image[off..off + |file|];
    assert image' == image'[..off] + image'[off..off + |file|] + image'[off + |file|..];
    assert image == image[..off] + image[off..off + |file|] + image[off + |file|..];
  }
}
