/** `ROM.loadOvTable` and `ROM.loadOvTable2`: reading an overlay table file
    (records of 32 bytes) into an array of overlays, indexed either by the
    record's overlay id or by its file id.

    The file system lookup `FS.getFileById` is not modelled; an overlay
    keeps the file id it names and the offset of its record in the table. */
module OverlayTable {
  import opened Common

  const RECORD_SIZE: nat := 32
  /** Where the file id sits inside a record, after six 32-bit words. */
  const FILE_ID_FIELD: nat := 24

  /** An `Overlay` object: the file it loads from and its record's offset. */
  datatype Overlay = Overlay(fileId: uint16, recordOffset: nat)

  /** One element of the result array: still `null`, or an overlay. */
  datatype Slot = Empty | Loaded(overlay: Overlay)

  /** Which field of a record picks its slot: the overlay id
      (`loadOvTable`) or the file id (`loadOvTable2`). */
  datatype Key = ByOverlayId | ByFileId

  /** Both the array length and the number of loop rounds: a trailing
      partial record is neither read nor given a slot. */
  function RecordCount(table: bytes): nat {
    |table| / RECORD_SIZE
  }

  function OverlayIdOf(table: bytes, i: nat): uint32
    requires i < RecordCount(table)
  {
    LE32(table, RECORD_SIZE * i)
  }

  function FileIdOf(table: bytes, i: nat): uint16
    requires i < RecordCount(table)
  {
    LE16(table, RECORD_SIZE * i + FILE_ID_FIELD)
  }

  function KeyOf(table: bytes, key: Key, i: nat): int
    requires i < RecordCount(table)
  {
    match key
    case ByOverlayId => OverlayIdOf(table, i)
    case ByFileId => FileIdOf(table, i)
  }

  /** The overlay the `i`-th record makes. */
  function RecordAt(table: bytes, i: nat): Overlay
    requires i < RecordCount(table)
  {
    Overlay(FileIdOf(table, i), RECORD_SIZE * i)
  }

  /** Reference definition: slot `j` after the first `n` records have been
      stored, each overwriting the slot its key names. */
  function SlotAfter(table: bytes, key: Key, j: int, n: nat): Slot
    requires n <= RecordCount(table)
  {
    if n == 0 then Empty
    else if KeyOf(table, key, n - 1) == j then Loaded(RecordAt(table, n - 1))
    else SlotAfter(table, key, j, n - 1)
  }

  /** Every record names a slot inside the array. */
  predicate KeysFit(table: bytes, key: Key) {
    forall i :: 0 <= i < RecordCount(table) ==> KeyOf(table, key, i) < RecordCount(table)
  }

  /** The loop shared by both loaders. A key past the end of the array
      throws, abandoning the partly filled array. */
  method LoadTable(table: bytes, key: Key) returns (r: Result<seq<Slot>>)
    ensures r.Ok? <==> KeysFit(table, key)
    ensures r.Err? ==> r.error == IndexOutOfRange
    ensures r.Ok? ==> |r.value| == RecordCount(table)
    ensures r.Ok? ==> forall j :: 0 <= j < |r.value| ==>
      r.value[j] == SlotAfter(table, key, j, RecordCount(table))
  {
    var count := |table| / RECORD_SIZE;
    var ovs := seq(count, _ => Empty);
    var i := 0;
    while i < count
      invariant 0 <= i <= count
      invariant |ovs| == count
      invariant forall k :: 0 <= k < i ==> KeyOf(table, key, k) < count
      invariant forall j :: 0 <= j < count ==> ovs[j] == SlotAfter(table, key, j, i)
    {
      var id := KeyOf(table, key, i);
      if id >= count {
        return Err(IndexOutOfRange);
      }
      ovs := ovs[id := Loaded(RecordAt(table, i))];
      i := i + 1;
    }
    return Ok(ovs);
  }

  method LoadOvTable(table: bytes) returns (r: Result<seq<Slot>>)
    ensures r.Ok? <==> KeysFit(table, ByOverlayId)
    ensures r.Ok? ==> |r.value| == RecordCount(table)
    ensures r.Ok? ==> forall j :: 0 <= j < |r.value| ==>
      r.value[j] == SlotAfter(table, ByOverlayId, j, RecordCount(table))
  {
    r := LoadTable(table, ByOverlayId);
  }

  method LoadOvTable2(table: bytes) returns (r: Result<seq<Slot>>)
    ensures r.Ok? <==> KeysFit(table, ByFileId)
    ensures r.Ok? ==> |r.value| == RecordCount(table)
    ensures r.Ok? ==> forall j :: 0 <= j < |r.value| ==>
      r.value[j] == SlotAfter(table, ByFileId, j, RecordCount(table))
  {
    r := LoadTable(table, ByFileId);
  }

  /** A slot stays empty exactly when no record names it. */
  lemma {:induction false} EmptyIffUnnamed(table: bytes, key: Key, j: int, n: nat)
    requires n <= RecordCount(table)
    ensures SlotAfter(table, key, j, n) == Empty
      <==> forall i :: 0 <= i < n ==> KeyOf(table, key, i) != j
  {
    if n > 0 {
      EmptyIffUnnamed(table, key, j, n - 1);
    }
  }

  /** A slot holds the overlay of record `i` exactly when record `i` names
      it and no later record does: the last record naming a slot wins. */
  lemma {:induction false} LastRecordWins(table: bytes, key: Key, j: int, n: nat, i: nat)
    requires n <= RecordCount(table) && i < n
    ensures SlotAfter(table, key, j, n) == Loaded(RecordAt(table, i))
      <==> KeyOf(table, key, i) == j && forall k :: i < k < n ==> KeyOf(table, key, k) != j
  {
    if i < n - 1 {
      LastRecordWins(table, key, j, n - 1, i);
    } else if KeyOf(table, key, i) != j {
      OnlyEarlierRecords(table, key, j, n - 1, i);
    }
  }

  /** Before record `i` is stored, no slot holds its overlay. */
  lemma {:induction false} OnlyEarlierRecords(table: bytes, key: Key, j: int, n: nat, i: nat)
    requires n <= i < RecordCount(table)
    ensures SlotAfter(table, key, j, n) != Loaded(RecordAt(table, i))
  {
    if n > 0 {
      OnlyEarlierRecords(table, key, j, n - 1, i);
    }
  }

  /** Any overlay in a slot came from a record naming that slot. */
  lemma {:induction false} LoadedComesFromRecord(table: bytes, key: Key, j: int, n: nat)
    requires n <= RecordCount(table)
    requires SlotAfter(table, key, j, n).Loaded?
    ensures exists i ::
      0 <= i < n && KeyOf(table, key, i) == j && SlotAfter(table, key, j, n) == Loaded(RecordAt(table, i))
  {
    if KeyOf(table, key, n - 1) != j {
      LoadedComesFromRecord(table, key, j, n - 1);
    }
  }

  /** In the table `loadOvTable2` builds, each overlay sits at the slot of
      its own file id. */
  lemma ByFileIdSlotsMatch(table: bytes, j: int)
    requires SlotAfter(table, ByFileId, j, RecordCount(table)).Loaded?
    ensures SlotAfter(table, ByFileId, j, RecordCount(table)).overlay.fileId == j
  {
    LoadedComesFromRecord(table, ByFileId, j, RecordCount(table));
  }

  /** In the table `loadOvTable` builds, each overlay's record carries the
      overlay id of its slot. */
  lemma ByOverlayIdSlotsMatch(table: bytes, j: int)
    requires SlotAfter(table, ByOverlayId, j, RecordCount(table)).Loaded?
    ensures var ov := SlotAfter(table, ByOverlayId, j, RecordCount(table)).overlay;
      ov.recordOffset % RECORD_SIZE == 0 && ov.recordOffset / RECORD_SIZE < RecordCount(table)
      && OverlayIdOf(table, ov.recordOffset / RECORD_SIZE) == j
  {
    LoadedComesFromRecord(table, ByOverlayId, j, RecordCount(table));
  }
}
