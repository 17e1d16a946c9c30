/**
 * Reading and rewriting the run path of an ELF file in place
 * (`RemoveRPath`, `ChangeRPath`, `CheckRPath`, `LookupRPath`).
 *
 * The file is a byte sequence and every write to it is a splice of bytes at
 * a fixed offset, so a patch never changes the file's length.  The parse
 * these operations start from (the RPATH/RUNPATH string entries, the dynamic
 * entries and the positions of the first two of them) is an `ElfView` given
 * as input, with `ValidView` stating what the operations need of it.
 */
module ChRPath {
  import opened ByteOrder
  import opened Dynamic
  import opened RPathSearch

  /** Values of `unsigned long` wrap modulo 2^64. */
  const ULONG_WRAP: nat := 0x1_0000_0000_0000_0000

  /**
   * A run-path string in the string table: its file offset, the bytes
   * reserved for it, its value, and the index of its dynamic entry.
   */
  datatype StringEntry = StringEntry(position: nat, size: nat, value: Bytes, indexInSection: nat)

  /**
   * What the operations learn from parsing the file: the RPATH and RUNPATH
   * string entries (if any), the dynamic entries (empty when a DT_NULL comes
   * before the end of the table), the file offsets of dynamic entries 0 and
   * 1 as the parser reports them, and the word size and byte order the
   * table is encoded with.
   */
  datatype ElfView = ElfView(
    rpath: Option<StringEntry>,
    runpath: Option<StringEntry>,
    entries: seq<DynamicEntry>,
    entryPosition0: nat,
    entryPosition1: nat,
    word: WordSize,
    bigEndian: bool)

  datatype EntryName = RPATH | RUNPATH

  datatype NamedEntry = NamedEntry(entry: StringEntry, name: EntryName)

  datatype Failure =
    | NullBeforeEnd                        // "DYNAMIC section contains a DT_NULL before the end."
    | NoRunPathEntry                       // "No valid ELF RPATH or RUNPATH entry exists in the file; ..."
    | MissingOldPath(name: EntryName)      // "The current RPATH is: ... which does not contain: ..."
    | ReplacementTooLong(name: EntryName)  // "The replacement path is too long for the RPATH entry."

  /** The result of a patch: the removed/changed flag and the file afterwards, or a failure. */
  datatype Outcome = Done(flag: bool, file: Bytes) | Failed(failure: Failure)

  predicate SlotInFile(e: StringEntry, fileSize: nat) {
    e.position + e.size <= fileSize
  }

  /** The parse is consistent with the file: string slots and the dynamic table lie inside it. */
  predicate ValidView(file: Bytes, view: ElfView) {
    && (view.rpath.Some? ==> SlotInFile(view.rpath.value, |file|))
    && (view.runpath.Some? ==> SlotInFile(view.runpath.value, |file|))
    && view.entryPosition0 + |view.entries| * view.word.EntryBytes() <= |file|
  }

  /** The present run-path entries: RPATH first, then RUNPATH. */
  function PresentEntries(view: ElfView): (r: seq<NamedEntry>)
    ensures |r| <= 2
    ensures |r| == 0 <==> view.rpath.None? && view.runpath.None?
    ensures forall e :: e in r ==> Some(e.entry) == (if e.name == RPATH then view.rpath else view.runpath)
    ensures view.rpath.Some? ==> r[0] == NamedEntry(view.rpath.value, RPATH)
    ensures view.runpath.Some? ==> r[|r| - 1] == NamedEntry(view.runpath.value, RUNPATH)
  {
    (if view.rpath.Some? then [NamedEntry(view.rpath.value, RPATH)] else [])
      + (if view.runpath.Some? then [NamedEntry(view.runpath.value, RUNPATH)] else [])
  }

  lemma PresentEntriesInFile(file: Bytes, view: ElfView)
    requires ValidView(file, view)
    ensures forall e :: e in PresentEntries(view) ==> SlotInFile(e.entry, |file|)
  {
  }

  // ---------------------------------------------------------------------
  // Writing into the file
  // ---------------------------------------------------------------------

  function Zeros(n: nat): (r: Bytes)
    ensures |r| == n
    ensures forall k :: 0 <= k < n ==> r[k] == 0
  {
    seq(n, _ => 0)
  }

  /** Writing bytes over the file at offset at. */
  function Splice(file: Bytes, at: nat, bytes: Bytes): (r: Bytes)
    requires at + |bytes| <= |file|
    ensures |r| == |file|
    ensures forall k :: at <= k < at + |bytes| ==> r[k] == bytes[k - at]
    ensures forall k :: 0 <= k < |file| && !(at <= k < at + |bytes|) ==> r[k] == file[k]
  {
    file[..at] + bytes + file[at + |bytes|..]
  }

  /** Byte i after a splice. */
  lemma SpliceAt(file: Bytes, at: nat, bytes: Bytes, i: nat)
    requires at + |bytes| <= |file| && i < |file|
    ensures Splice(file, at, bytes)[i] == if at <= i < at + |bytes| then bytes[i - at] else file[i]
  {
  }

  /** A string written into a slot: value, then NUL bytes up to the slot's size. */
  datatype SlotWrite = SlotWrite(position: nat, size: nat, value: Bytes)

  function Padded(w: SlotWrite): (r: Bytes)
    requires |w.value| <= w.size
    ensures |r| == w.size
    ensures r[..|w.value|] == w.value
    ensures forall k :: |w.value| <= k < w.size ==> r[k] == 0
  {
    w.value + Zeros(w.size - |w.value|)
  }

  predicate InSlot(w: SlotWrite, i: int) {
    w.position <= i < w.position + w.size
  }

  predicate WritesFit(fileSize: nat, ws: seq<SlotWrite>) {
    forall k :: 0 <= k < |ws| ==> |ws[k].value| <= ws[k].size && ws[k].position + ws[k].size <= fileSize
  }

  predicate Disjoint(a: SlotWrite, b: SlotWrite) {
    a.position + a.size <= b.position || b.position + b.size <= a.position
  }

  /** No write after the k-th touches its slot. */
  predicate DisjointFromLater(ws: seq<SlotWrite>, k: nat) {
    forall j :: k < j < |ws| ==> Disjoint(ws[j], ws[k])
  }

  /** The writes, one after the other, each a splice of the padded value over its slot. */
  function WriteSlots(file: Bytes, ws: seq<SlotWrite>): (r: Bytes)
    requires WritesFit(|file|, ws)
    ensures |r| == |file|
    decreases |ws|
  {
    if |ws| == 0 then file
    else WriteSlots(Splice(file, ws[0].position, Padded(ws[0])), ws[1..])
  }

  /** i lies in none of the slots written. */
  predicate InNoSlot(ws: seq<SlotWrite>, i: int) {
    forall k :: 0 <= k < |ws| ==> !InSlot(ws[k], i)
  }

  lemma InNoSlotTail(ws: seq<SlotWrite>, i: int)
    requires |ws| > 0 && InNoSlot(ws, i)
    ensures InNoSlot(ws[1..], i)
  {
    forall k | 0 <= k < |ws| - 1 ensures !InSlot(ws[1..][k], i) {
      assert ws[1..][k] == ws[k + 1];
    }
  }

  /** The writes leave every byte outside their slots unchanged. */
  lemma {:induction false} WriteSlotsOutside(file: Bytes, ws: seq<SlotWrite>)
    requires WritesFit(|file|, ws)
    ensures forall i :: 0 <= i < |file| && InNoSlot(ws, i) ==> WriteSlots(file, ws)[i] == file[i]
    decreases |ws|
  {
    if |ws| > 0 {
      var f1 := Splice(file, ws[0].position, Padded(ws[0]));
      WriteSlotsOutside(f1, ws[1..]);
      forall i | 0 <= i < |file| && InNoSlot(ws, i) ensures WriteSlots(file, ws)[i] == file[i] {
        InNoSlotTail(ws, i);
        assert !InSlot(ws[0], i);
      }
    }
  }

  /** The bytes outside every slot, after a splice and then the writes. */
  lemma SpliceThenWrite(file: Bytes, at: nat, bytes: Bytes, ws: seq<SlotWrite>)
    requires at + |bytes| <= |file| && WritesFit(|file|, ws)
    ensures forall i :: 0 <= i < |file| && InNoSlot(ws, i) ==>
              WriteSlots(Splice(file, at, bytes), ws)[i] == if at <= i < at + |bytes| then bytes[i - at] else file[i]
  {
    WriteSlotsOutside(Splice(file, at, bytes), ws);
  }

  /** Slot k of a file after the writes holds the padded k-th value, provided no later write overlaps it. */
  lemma {:induction false} WriteSlotsLastWriteWins(file: Bytes, ws: seq<SlotWrite>, k: nat)
    requires WritesFit(|file|, ws)
    requires k < |ws| && DisjointFromLater(ws, k)
    ensures forall i :: InSlot(ws[k], i) ==> WriteSlots(file, ws)[i] == Padded(ws[k])[i - ws[k].position]
    decreases |ws|
  {
    var f1 := Splice(file, ws[0].position, Padded(ws[0]));
    if k == 0 {
      WriteSlotsOutside(f1, ws[1..]);
      forall i | InSlot(ws[0], i) ensures WriteSlots(file, ws)[i] == Padded(ws[0])[i - ws[0].position] {
        forall j | 0 <= j < |ws| - 1 ensures !InSlot(ws[1..][j], i) {
          assert ws[1..][j] == ws[j + 1];
          assert Disjoint(ws[j + 1], ws[0]);
        }
      }
    } else {
      assert ws[1..][k - 1] == ws[k];
      assert DisjointFromLater(ws[1..], k - 1) by {
        forall j | k - 1 < j < |ws| - 1 ensures Disjoint(ws[1..][j], ws[1..][k - 1]) {
          assert ws[1..][j] == ws[j + 1];
        }
      }
      WriteSlotsLastWriteWins(f1, ws[1..], k - 1);
    }
  }

  /** Writing empty values NUL-fills every slot, whatever the overlaps. */
  lemma {:induction false} WriteSlotsZeroFill(file: Bytes, ws: seq<SlotWrite>)
    requires WritesFit(|file|, ws)
    requires forall k :: 0 <= k < |ws| ==> ws[k].value == []
    ensures forall k, i :: 0 <= k < |ws| && InSlot(ws[k], i) ==> WriteSlots(file, ws)[i] == 0
    decreases |ws|
  {
    if |ws| > 0 {
      var f1 := Splice(file, ws[0].position, Padded(ws[0]));
      assert forall k :: 0 <= k < |ws| - 1 ==> ws[1..][k] == ws[k + 1];
      WriteSlotsZeroFill(f1, ws[1..]);
      WriteSlotsOutside(f1, ws[1..]);
      forall k, i | 0 <= k < |ws| && InSlot(ws[k], i) ensures WriteSlots(file, ws)[i] == 0 {
        if k > 0 {
          assert InSlot(ws[1..][k - 1], i);
        } else if !InNoSlot(ws[1..], i) {
          var j :| 0 <= j < |ws| - 1 && InSlot(ws[1..][j], i);
        }
      }
    }
  }

  /** The slot w in file already holds w's padded value. */
  predicate SlotHolds(file: Bytes, w: SlotWrite) {
    |w.value| <= w.size && w.position + w.size <= |file|
    && file[w.position..w.position + w.size] == Padded(w)
  }

  /** After the writes, every slot no later write overlaps holds its padded value. */
  lemma WriteSlotsHold(file: Bytes, ws: seq<SlotWrite>)
    requires WritesFit(|file|, ws)
    ensures forall k :: 0 <= k < |ws| && DisjointFromLater(ws, k) ==> SlotHolds(WriteSlots(file, ws), ws[k])
  {
    var r := WriteSlots(file, ws);
    forall k | 0 <= k < |ws| && DisjointFromLater(ws, k) ensures SlotHolds(r, ws[k]) {
      WriteSlotsLastWriteWins(file, ws, k);
      var w := ws[k];
      assert r[w.position..w.position + w.size] == Padded(w) by {
        forall j | 0 <= j < w.size ensures r[w.position..w.position + w.size][j] == Padded(w)[j] {
          assert InSlot(w, w.position + j);
        }
      }
    }
  }

  /** Writes whose slots already hold their values leave the file as it is. */
  lemma {:induction false} WriteSlotsUnchanged(file: Bytes, ws: seq<SlotWrite>)
    requires forall k :: 0 <= k < |ws| ==> SlotHolds(file, ws[k])
    ensures WritesFit(|file|, ws)
    ensures WriteSlots(file, ws) == file
    decreases |ws|
  {
    if |ws| > 0 {
      var w := ws[0];
      assert SlotHolds(file, w);
      var f1 := Splice(file, w.position, Padded(w));
      assert f1 == file by {
        forall i | w.position <= i < w.position + w.size ensures f1[i] == file[i] {
          assert file[w.position..w.position + w.size][i - w.position] == file[i];
        }
      }
      assert forall k :: 0 <= k < |ws| - 1 ==> ws[1..][k] == ws[k + 1];
      WriteSlotsUnchanged(file, ws[1..]);
    }
  }

  // ---------------------------------------------------------------------
  // RemoveRPath
  // ---------------------------------------------------------------------

  /** The two present entries ordered by their index in the dynamic section. */
  function OrderByIndex(ses: seq<NamedEntry>): (r: seq<NamedEntry>)
    ensures |r| == |ses|
    ensures forall e :: e in r <==> e in ses
    ensures |r| == 2 ==> r[0].entry.indexInSection <= r[1].entry.indexInSection
  {
    if |ses| == 2 && ses[1].entry.indexInSection < ses[0].entry.indexInSection then [ses[1], ses[0]]
    else ses
  }

  /** NUL-filling each entry's whole recorded slot. */
  function ZeroWrites(ses: seq<NamedEntry>): (r: seq<SlotWrite>)
    ensures |r| == |ses|
    ensures forall k :: 0 <= k < |ses| ==> r[k] == SlotWrite(ses[k].entry.position, ses[k].entry.size, [])
  {
    if |ses| == 0 then [] else [SlotWrite(ses[0].entry.position, ses[0].entry.size, [])] + ZeroWrites(ses[1..])
  }

  /**
   * The size of one dynamic entry as the patcher computes it: the
   * difference of the positions of entries 1 and 0, in `unsigned long`.
   */
  function DynamicEntrySize(view: ElfView): (sz: nat)
    ensures sz < ULONG_WRAP
    ensures view.entryPosition0 <= view.entryPosition1 < view.entryPosition0 + ULONG_WRAP
            ==> sz == view.entryPosition1 - view.entryPosition0
  {
    (view.entryPosition1 - view.entryPosition0) % ULONG_WRAP
  }

  /**
   * The MIPS fix-up: a DT_MIPS_RLD_MAP_REL entry that moves up by `erased`
   * entries has its value increased by that many entry sizes (in
   * `unsigned long`); every other entry is unchanged.
   */
  function AdjustEntry(e: DynamicEntry, erased: nat, entrySize: nat): (r: DynamicEntry)
    ensures r.tag == e.tag
    ensures e.tag != DT_MIPS_RLD_MAP_REL ==> r == e
    ensures e.tag == DT_MIPS_RLD_MAP_REL && e.value + erased * entrySize < ULONG_WRAP
            ==> r.value == e.value + erased * entrySize
    ensures e.tag == DT_MIPS_RLD_MAP_REL ==>
              r.value < ULONG_WRAP && (e.value + erased * entrySize - r.value) % ULONG_WRAP == 0
  {
    if e.tag == DT_MIPS_RLD_MAP_REL then e.(value := (e.value + erased * entrySize) % ULONG_WRAP)
    else e
  }

  /** Reference: the number of RPATH/RUNPATH entries. */
  function CountRunPath(es: seq<DynamicEntry>): (n: nat)
    ensures n <= |es|
  {
    if |es| == 0 then 0
    else (if IsRunPathTag(es[0].tag) then 1 else 0) + CountRunPath(es[1..])
  }

  /**
   * The erase loop of `RemoveRPath` from a point where `erased` entries have
   * already been removed: RPATH and RUNPATH entries are dropped, the others
   * kept (with the MIPS fix-up).
   */
  function StripRunPath(es: seq<DynamicEntry>, erased: nat, entrySize: nat): (r: seq<DynamicEntry>)
    ensures |r| == |es| - CountRunPath(es)
    ensures forall j :: 0 <= j < |r| ==> !IsRunPathTag(r[j].tag)
  {
    if |es| == 0 then []
    else if IsRunPathTag(es[0].tag) then StripRunPath(es[1..], erased + 1, entrySize)
    else [AdjustEntry(es[0], erased, entrySize)] + StripRunPath(es[1..], erased, entrySize)
  }

  /** Every tag kept is a tag of the input, so a bound on the input's tags holds for the output's. */
  lemma {:induction false} StripKeepsTagBound(es: seq<DynamicEntry>, erased: nat, entrySize: nat, bound: nat)
    requires forall i :: 0 <= i < |es| ==> es[i].tag < bound
    ensures forall j :: 0 <= j < |StripRunPath(es, erased, entrySize)| ==> StripRunPath(es, erased, entrySize)[j].tag < bound
    decreases |es|
  {
    if |es| > 0 {
      assert forall i :: 0 <= i < |es| - 1 ==> es[1..][i] == es[i + 1];
      StripKeepsTagBound(es[1..], erased + (if IsRunPathTag(es[0].tag) then 1 else 0), entrySize, bound);
    }
  }

  lemma CountRunPathPrefix(es: seq<DynamicEntry>, i: nat)
    requires 0 < i <= |es|
    ensures CountRunPath(es[..i]) == (if IsRunPathTag(es[0].tag) then 1 else 0) + CountRunPath(es[1..][..i - 1])
  {
    assert es[..i][1..] == es[1..][..i - 1];
  }

  /**
   * Every entry that is not RPATH/RUNPATH is kept, in its original relative
   * order: entry i lands at i minus the number of entries erased before it,
   * and a DT_MIPS_RLD_MAP_REL entry is adjusted by exactly that number.
   */
  lemma {:induction false} StripKeepsOthersInOrder(es: seq<DynamicEntry>, erased: nat, entrySize: nat)
    ensures forall i :: 0 <= i < |es| && !IsRunPathTag(es[i].tag) ==>
              && i - CountRunPath(es[..i]) < |StripRunPath(es, erased, entrySize)|
              && StripRunPath(es, erased, entrySize)[i - CountRunPath(es[..i])]
                 == AdjustEntry(es[i], erased + CountRunPath(es[..i]), entrySize)
  {
    if |es| > 0 {
      var r := StripRunPath(es, erased, entrySize);
      var head := if IsRunPathTag(es[0].tag) then 1 else 0;
      StripKeepsOthersInOrder(es[1..], erased + head, entrySize);
      var tail := StripRunPath(es[1..], erased + head, entrySize);
      forall i | 0 <= i < |es| && !IsRunPathTag(es[i].tag)
        ensures i - CountRunPath(es[..i]) < |r|
        ensures r[i - CountRunPath(es[..i])] == AdjustEntry(es[i], erased + CountRunPath(es[..i]), entrySize)
      {
        if i == 0 {
          assert es[..0] == [];
        } else {
          CountRunPathPrefix(es, i);
          assert es[1..][i - 1] == es[i];
        }
      }
    }
  }

  /** The dynamic entries `RemoveRPath` keeps. */
  function KeptEntries(view: ElfView): (r: seq<DynamicEntry>)
    ensures |r| <= |view.entries|
    ensures |r| == |view.entries| - CountRunPath(view.entries)
    ensures forall j :: 0 <= j < |r| ==> !IsRunPathTag(r[j].tag)
  {
    StripRunPath(view.entries, 0, DynamicEntrySize(view))
  }

  /** The bytes of the re-encoded table that `RemoveRPath` writes at the table's offset. */
  function KeptTable(view: ElfView): (r: Bytes)
    ensures |r| == |KeptEntries(view)| * view.word.EntryBytes()
    ensures |r| <= |view.entries| * view.word.EntryBytes()
  {
    MulLe(|KeptEntries(view)|, |view.entries|, view.word.EntryBytes());
    EncodeEntries(KeptEntries(view), view.word, view.bigEndian)
  }

  /** Whether byte i lies in the RPATH or the RUNPATH slot. */
  predicate InStringSlot(view: ElfView, i: int) {
    || (view.rpath.Some? && view.rpath.value.position <= i < view.rpath.value.position + view.rpath.value.size)
    || (view.runpath.Some? && view.runpath.value.position <= i < view.runpath.value.position + view.runpath.value.size)
  }

  /**
   * `RemoveRPath`: drop the RPATH and RUNPATH entries from the dynamic
   * table, write the re-encoded table at its original offset, and NUL-fill
   * both strings' slots.
   */
  function RemoveRPath(file: Bytes, view: ElfView): (r: Outcome)
    requires ValidView(file, view)
    ensures view.rpath.None? && view.runpath.None? ==> r == Done(false, file)
    ensures (view.rpath.Some? || view.runpath.Some?) && |view.entries| == 0 ==> r == Failed(NullBeforeEnd)
    ensures (view.rpath.Some? || view.runpath.Some?) && |view.entries| > 0 ==> r.Done? && r.flag
    ensures r.Done? ==> |r.file| == |file|
    ensures r.Done? && r.flag ==> r.file == RemovedFile(file, view)
  {
    var ses := PresentEntries(view);
    if |ses| == 0 then Done(false, file)
    else if |view.entries| == 0 then Failed(NullBeforeEnd)
    else Done(true, RemovedFile(file, view))
  }

  /** The file after `RemoveRPath` has written the new table and NUL-filled both string slots. */
  function RemovedFile(file: Bytes, view: ElfView): (r: Bytes)
    requires ValidView(file, view)
    ensures |r| == |file|
  {
    WriteSlots(Splice(file, view.entryPosition0, KeptTable(view)), NulFills(view))
  }

  /** After `RemoveRPath` every byte of the RPATH and RUNPATH slots is NUL. */
  lemma RemovedFileSlots(file: Bytes, view: ElfView)
    requires ValidView(file, view)
    ensures forall i :: 0 <= i < |file| && InStringSlot(view, i) ==> RemovedFile(file, view)[i] == 0
  {
    var f1 := Splice(file, view.entryPosition0, KeptTable(view));
    NulFillsFit(file, view);
    WriteSlotsZeroFill(f1, NulFills(view));
    forall i | 0 <= i < |file| && InStringSlot(view, i) ensures RemovedFile(file, view)[i] == 0 {
      NulFillsCover(view, i);
    }
  }

  /**
   * Outside the string slots, the file after `RemoveRPath` holds the
   * re-encoded table at the table's offset and the original bytes
   * everywhere else, the old table's trailing bytes included.
   */
  lemma RemovedFileOutside(file: Bytes, view: ElfView)
    requires ValidView(file, view)
    ensures forall i :: 0 <= i < |file| && !InStringSlot(view, i) ==>
              RemovedFile(file, view)[i]
              == (if view.entryPosition0 <= i < view.entryPosition0 + |KeptTable(view)|
                  then KeptTable(view)[i - view.entryPosition0] else file[i])
  {
    NulFillsFit(file, view);
    NulFillsAvoid(view);
    SpliceThenWrite(file, view.entryPosition0, KeptTable(view), NulFills(view));
  }

  /** The NUL-fill writes of `RemoveRPath`, in dynamic-entry order. */
  function NulFills(view: ElfView): (r: seq<SlotWrite>)
    ensures |r| == |PresentEntries(view)|
    ensures forall k :: 0 <= k < |r| ==>
              exists e :: e in PresentEntries(view) && r[k] == SlotWrite(e.entry.position, e.entry.size, [])
  {
    var ordered := OrderByIndex(PresentEntries(view));
    assert forall k :: 0 <= k < |ordered| ==> ordered[k] in PresentEntries(view);
    ZeroWrites(ordered)
  }

  /** The NUL-fill writes of `RemoveRPath` lie inside the file. */
  lemma NulFillsFit(file: Bytes, view: ElfView)
    requires ValidView(file, view)
    ensures WritesFit(|file|, NulFills(view))
    ensures forall k :: 0 <= k < |NulFills(view)| ==> NulFills(view)[k].value == []
  {
    var ses := PresentEntries(view);
    PresentEntriesInFile(file, view);
    var ordered := OrderByIndex(ses);
    forall k | 0 <= k < |ordered| ensures SlotInFile(ordered[k].entry, |file|) {
      assert ordered[k] in ses;
    }
  }

  /** Every byte of the two string slots lies in one of the NUL-fill writes of `RemoveRPath`. */
  lemma NulFillsCover(view: ElfView, i: int)
    requires InStringSlot(view, i)
    ensures exists k :: 0 <= k < |NulFills(view)| && InSlot(NulFills(view)[k], i)
  {
    var ordered := OrderByIndex(PresentEntries(view));
    var e := if view.rpath.Some? && view.rpath.value.position <= i < view.rpath.value.position + view.rpath.value.size
             then NamedEntry(view.rpath.value, RPATH) else NamedEntry(view.runpath.value, RUNPATH);
    assert e in ordered;
    var k :| 0 <= k < |ordered| && ordered[k] == e;
    assert InSlot(NulFills(view)[k], i);
  }

  /** No NUL-fill write of `RemoveRPath` touches a byte outside the two string slots. */
  lemma NulFillsAvoid(view: ElfView)
    ensures forall i :: !InStringSlot(view, i) ==> InNoSlot(NulFills(view), i)
  {
    var ses := PresentEntries(view);
    var ordered := OrderByIndex(ses);
    forall i, k | !InStringSlot(view, i) && 0 <= k < |NulFills(view)| ensures !InSlot(NulFills(view)[k], i) {
      assert ordered[k] in ses;
    }
  }

  // ---------------------------------------------------------------------
  // ChangeRPath
  // ---------------------------------------------------------------------

  /**
   * The replacement value: the part of value before the match, the new
   * path, and the part after it.  When the new path is empty and the match
   * was the last segment, the ':' in front of it is dropped too.
   */
  function ReplaceSegment(value: Bytes, oldPath: Bytes, newPath: Bytes, pos: nat): (r: Bytes)
    requires pos + |oldPath| <= |value|
    ensures |value| - |oldPath| + |newPath| - 1 <= |r| <= |value| - |oldPath| + |newPath|
    ensures |r| < |value| - |oldPath| + |newPath|
            <==> |newPath| == 0 && pos > 0 && value[pos - 1] == COLON && pos + |oldPath| == |value|
  {
    var dropColon := |newPath| == 0 && pos > 0 && value[pos - 1] == COLON && pos + |oldPath| == |value|;
    var prefixLen := if dropColon then pos - 1 else pos;
    value[..prefixLen] + newPath + value[pos + |oldPath|..]
  }

  /** The newPath value of an entry whose value holds oldPath as a segment, or None when it does not. */
  function Replacement(e: StringEntry, oldPath: Bytes, newPath: Bytes): (r: Option<Bytes>)
    ensures r.None? <==> forall q :: 0 <= q < |e.value| ==> !SegmentAt(e.value, oldPath, q)
  {
    match FindRPath(e.value, oldPath)
    case None => None
    case Some(pos) => Some(ReplaceSegment(e.value, oldPath, newPath, pos))
  }

  /**
   * Where the new path is not empty it takes the old one's place as a whole
   * segment, and replacing it back restores the value.
   */
  lemma ReplaceSegmentInPlace(value: Bytes, oldPath: Bytes, newPath: Bytes, pos: nat)
    requires SegmentAt(value, oldPath, pos)
    requires |newPath| > 0
    ensures var r := ReplaceSegment(value, oldPath, newPath, pos);
            && r == value[..pos] + newPath + value[pos + |oldPath|..]
            && |r| == |value| - |oldPath| + |newPath|
            && SegmentAt(r, newPath, pos)
            && (|oldPath| > 0 ==> ReplaceSegment(r, newPath, oldPath, pos) == value)
  {
    var r := ReplaceSegment(value, oldPath, newPath, pos);
    assert r[..pos] == value[..pos];
    assert r[pos..pos + |newPath|] == newPath;
    assert r[pos + |newPath|..] == value[pos + |oldPath|..];
    if pos > 0 { assert r[pos - 1] == value[pos - 1]; }
    if pos + |newPath| < |r| { assert r[pos + |newPath|] == value[pos + |oldPath|]; }
    if |oldPath| > 0 {
      assert value == value[..pos] + oldPath + value[pos + |oldPath|..] by {
        assert value[pos..pos + |oldPath|] == oldPath;
      }
    }
  }

  /**
   * A non-empty new path replaces the first segment equal to the old path:
   * the value keeps what came before that segment and holds the new path
   * as a segment in its place.
   */
  lemma ReplacementInPlace(e: StringEntry, oldPath: Bytes, newPath: Bytes)
    requires Replacement(e, oldPath, newPath).Some? && |newPath| > 0
    ensures var pos := FindRPath(e.value, oldPath).value;
            var v := Replacement(e, oldPath, newPath).value;
            && |v| == |e.value| - |oldPath| + |newPath|
            && v[..pos] == e.value[..pos]
            && SegmentAt(v, newPath, pos)
            && forall q :: 0 <= q < pos ==> !SegmentAt(e.value, oldPath, q)
  {
    ReplaceSegmentInPlace(e.value, oldPath, newPath, FindRPath(e.value, oldPath).value);
  }

  /**
   * With an empty new path, removing the last of several segments also
   * removes the ':' before it; any other segment leaves its neighbouring
   * ':' separators in place.
   */
  lemma ReplaceSegmentWithEmpty(value: Bytes, oldPath: Bytes, pos: nat)
    requires SegmentAt(value, oldPath, pos)
    ensures pos > 0 && pos + |oldPath| == |value| ==> ReplaceSegment(value, oldPath, [], pos) == value[..pos - 1]
    ensures pos == 0 || pos + |oldPath| < |value| ==>
              ReplaceSegment(value, oldPath, [], pos) == value[..pos] + value[pos + |oldPath|..]
  {
  }

  /** Work planned so far: the slots to rewrite, and whether every new value is empty. */
  datatype Plan = Plan(writes: seq<SlotWrite>, removeRPath: bool)

  datatype PlanStep = Continue(plan: Plan) | Stop(failure: Failure)

  /** w rewrites e's whole slot with e's replacement, which fits with its NUL terminator. */
  predicate WriteFrom(w: SlotWrite, e: NamedEntry, oldPath: Bytes, newPath: Bytes) {
    && e.entry.position == w.position && e.entry.size == w.size
    && |w.value| < w.size
    && Replacement(e.entry, oldPath, newPath) == Some(w.value)
  }

  /**
   * Every planned write comes from a present entry, and the removal flag is
   * only still set when every planned value is empty.
   */
  predicate SoundPlan(p: Plan, ses: seq<NamedEntry>, oldPath: Bytes, newPath: Bytes) {
    && (forall w :: w in p.writes ==> exists e :: e in ses && WriteFrom(w, e, oldPath, newPath))
    && (p.removeRPath ==> forall w :: w in p.writes ==> w.value == [])
  }

  /** One pass of the loop over the present entries in `ChangeRPath`. */
  function PlanEntry(p: Plan, e: NamedEntry, oldPath: Bytes, newPath: Bytes): (r: PlanStep)
    // An entry at the position of the first accepted one (RPATH and RUNPATH sharing a string) is done once.
    ensures |p.writes| > 0 && p.writes[0].position == e.entry.position ==> r == Continue(p)
    // Holding the new path but not the old one: already done, nothing to write.
    ensures !(|p.writes| > 0 && p.writes[0].position == e.entry.position)
            && FindRPath(e.entry.value, oldPath).None? ==>
              (r.Stop? <==> FindRPath(e.entry.value, newPath).None?)
              && (r.Stop? ==> r.failure == MissingOldPath(e.name))
              && (r.Continue? ==> r.plan == p.(removeRPath := false))
    // Holding the old path: the replacement is planned exactly when it fits with its NUL terminator.
    ensures !(|p.writes| > 0 && p.writes[0].position == e.entry.position)
            && Replacement(e.entry, oldPath, newPath).Some? ==>
              var v := Replacement(e.entry, oldPath, newPath).value;
              && (r.Stop? <==> e.entry.size < |v| + 1)
              && (r.Stop? ==> r.failure == ReplacementTooLong(e.name))
              && (r.Continue? ==> r.plan == Plan(p.writes + [SlotWrite(e.entry.position, e.entry.size, v)],
                                                 p.removeRPath && |v| == 0))
  {
    var se := e.entry;
    if |p.writes| > 0 && p.writes[0].position == se.position then Continue(p)
    else
      match FindRPath(se.value, oldPath)
      case None =>
        if FindRPath(se.value, newPath).Some? then Continue(p.(removeRPath := false))
        else Stop(MissingOldPath(e.name))
      case Some(pos) =>
        var v := ReplaceSegment(se.value, oldPath, newPath, pos);
        var removeRPath := p.removeRPath && |v| == 0;
        if se.size < |v| + 1 then Stop(ReplacementTooLong(e.name))
        else Continue(Plan(p.writes + [SlotWrite(se.position, se.size, v)], removeRPath))
  }

  /** The loop over the present entries from the i-th on. */
  function PlanWrites(ses: seq<NamedEntry>, i: nat, p: Plan, oldPath: Bytes, newPath: Bytes): (r: PlanStep)
    requires i <= |ses|
    ensures r.Continue? ==> |p.writes| <= |r.plan.writes| <= |p.writes| + |ses| - i
    decreases |ses| - i
  {
    if i == |ses| then Continue(p)
    else
      match PlanEntry(p, ses[i], oldPath, newPath)
      case Stop(f) => Stop(f)
      case Continue(p') => PlanWrites(ses, i + 1, p', oldPath, newPath)
  }

  /** Every entry holding the old path from the i-th on has a planned write at its position. */
  predicate EntriesCovered(ws: seq<SlotWrite>, ses: seq<NamedEntry>, i: nat, oldPath: Bytes, newPath: Bytes) {
    forall k :: i <= k < |ses| && Replacement(ses[k].entry, oldPath, newPath).Some? ==>
      exists w :: w in ws && w.position == ses[k].entry.position
  }

  /** One step of the loop keeps the plan sound and covers the entry it looks at. */
  lemma PlanEntryFacts(p: Plan, e: NamedEntry, ses: seq<NamedEntry>, oldPath: Bytes, newPath: Bytes)
    requires e in ses
    requires SoundPlan(p, ses, oldPath, newPath)
    ensures var r := PlanEntry(p, e, oldPath, newPath);
            r.Continue? ==>
              && SoundPlan(r.plan, ses, oldPath, newPath)
              && |p.writes| <= |r.plan.writes|
              && r.plan.writes[..|p.writes|] == p.writes
              && (Replacement(e.entry, oldPath, newPath).Some? ==>
                    exists w :: w in r.plan.writes && w.position == e.entry.position)
    ensures var r := PlanEntry(p, e, oldPath, newPath);
            r.Stop? ==> (r.failure.MissingOldPath? || r.failure.ReplacementTooLong?) && r.failure.name == e.name
  {
    var r := PlanEntry(p, e, oldPath, newPath);
    if r.Continue? {
      if |p.writes| > 0 && p.writes[0].position == e.entry.position {
        assert p.writes[0] in p.writes;
      } else if Replacement(e.entry, oldPath, newPath).Some? {
        var w := SlotWrite(e.entry.position, e.entry.size, Replacement(e.entry, oldPath, newPath).value);
        assert r.plan.writes == p.writes + [w];
        assert WriteFrom(w, e, oldPath, newPath);
        assert w in r.plan.writes;
      }
    }
  }

  /** A write at a position in a prefix of the writes is among the writes. */
  lemma PrefixKeepsPosition(ws: seq<SlotWrite>, prefix: seq<SlotWrite>, position: nat)
    requires |prefix| <= |ws| && ws[..|prefix|] == prefix
    requires exists w :: w in prefix && w.position == position
    ensures exists w :: w in ws && w.position == position
  {
    var w :| w in prefix && w.position == position;
    var j :| 0 <= j < |prefix| && prefix[j] == w;
    assert ws[j] == w;
  }

  /** The loop from the i-th entry on keeps the plan sound and the earlier writes in place. */
  lemma {:induction false} PlanWritesSound(ses: seq<NamedEntry>, i: nat, p: Plan, oldPath: Bytes, newPath: Bytes)
    requires i <= |ses|
    requires SoundPlan(p, ses, oldPath, newPath)
    ensures var r := PlanWrites(ses, i, p, oldPath, newPath);
            r.Continue? ==> SoundPlan(r.plan, ses, oldPath, newPath) && r.plan.writes[..|p.writes|] == p.writes
    decreases |ses| - i
  {
    if i < |ses| {
      var e := ses[i];
      assert e in ses;
      var s := PlanEntry(p, e, oldPath, newPath);
      PlanEntryFacts(p, e, ses, oldPath, newPath);
      if s.Continue? {
        var p' := s.plan;
        PlanWritesSound(ses, i + 1, p', oldPath, newPath);
        var r := PlanWrites(ses, i + 1, p', oldPath, newPath);
        assert PlanWrites(ses, i, p, oldPath, newPath) == r;
        if r.Continue? {
          var ws := r.plan.writes;
          assert ws[..|p'.writes|][..|p.writes|] == p'.writes[..|p.writes|];
        }
      }
    }
  }

  /** The loop from the i-th entry on plans a write for every entry holding the old path. */
  lemma {:induction false} PlanWritesCovers(ses: seq<NamedEntry>, i: nat, p: Plan, oldPath: Bytes, newPath: Bytes)
    requires i <= |ses|
    requires SoundPlan(p, ses, oldPath, newPath)
    ensures var r := PlanWrites(ses, i, p, oldPath, newPath);
            r.Continue? ==> EntriesCovered(r.plan.writes, ses, i, oldPath, newPath)
    decreases |ses| - i
  {
    if i < |ses| {
      var e := ses[i];
      assert e in ses;
      var s := PlanEntry(p, e, oldPath, newPath);
      PlanEntryFacts(p, e, ses, oldPath, newPath);
      if s.Continue? {
        var p' := s.plan;
        PlanWritesSound(ses, i + 1, p', oldPath, newPath);
        PlanWritesCovers(ses, i + 1, p', oldPath, newPath);
        var r := PlanWrites(ses, i + 1, p', oldPath, newPath);
        assert PlanWrites(ses, i, p, oldPath, newPath) == r;
        if r.Continue? && Replacement(e.entry, oldPath, newPath).Some? {
          PrefixKeepsPosition(r.plan.writes, p'.writes, e.entry.position);
        }
      }
    }
  }

  /** When the loop from the i-th entry on fails, the failure names an entry it looked at. */
  lemma {:induction false} PlanWritesStop(ses: seq<NamedEntry>, i: nat, p: Plan, oldPath: Bytes, newPath: Bytes)
    requires i <= |ses|
    requires SoundPlan(p, ses, oldPath, newPath)
    ensures var r := PlanWrites(ses, i, p, oldPath, newPath);
            r.Stop? ==> (r.failure.MissingOldPath? || r.failure.ReplacementTooLong?)
                        && exists k :: i <= k < |ses| && ses[k].name == r.failure.name
    decreases |ses| - i
  {
    if i < |ses| {
      var e := ses[i];
      assert e in ses;
      var s := PlanEntry(p, e, oldPath, newPath);
      PlanEntryFacts(p, e, ses, oldPath, newPath);
      if s.Continue? {
        PlanWritesStop(ses, i + 1, s.plan, oldPath, newPath);
        assert PlanWrites(ses, i, p, oldPath, newPath) == PlanWrites(ses, i + 1, s.plan, oldPath, newPath);
      } else {
        assert PlanWrites(ses, i, p, oldPath, newPath) == s;
        assert ses[i].name == s.failure.name;
      }
    }
  }

  /** The whole loop of `ChangeRPath` over the present entries. */
  function PlanChange(view: ElfView, oldPath: Bytes, newPath: Bytes): (r: PlanStep)
    ensures r.Continue? ==> SoundPlan(r.plan, PresentEntries(view), oldPath, newPath)
    ensures r.Continue? ==> |r.plan.writes| <= |PresentEntries(view)|
    ensures r.Continue? ==> EntriesCovered(r.plan.writes, PresentEntries(view), 0, oldPath, newPath)
    ensures r.Stop? ==> (r.failure.MissingOldPath? || r.failure.ReplacementTooLong?)
                        && exists k :: 0 <= k < |PresentEntries(view)| && PresentEntries(view)[k].name == r.failure.name
  {
    PlanWritesSound(PresentEntries(view), 0, Plan([], true), oldPath, newPath);
    PlanWritesCovers(PresentEntries(view), 0, Plan([], true), oldPath, newPath);
    PlanWritesStop(PresentEntries(view), 0, Plan([], true), oldPath, newPath);
    PlanWrites(PresentEntries(view), 0, Plan([], true), oldPath, newPath)
  }

  /** Every planned write lies inside the file. */
  lemma PlannedWritesFit(file: Bytes, view: ElfView, p: Plan, oldPath: Bytes, newPath: Bytes)
    requires ValidView(file, view)
    requires SoundPlan(p, PresentEntries(view), oldPath, newPath)
    ensures WritesFit(|file|, p.writes)
  {
    PresentEntriesInFile(file, view);
    forall k | 0 <= k < |p.writes|
      ensures |p.writes[k].value| <= p.writes[k].size && p.writes[k].position + p.writes[k].size <= |file|
    {
      assert p.writes[k] in p.writes;
    }
  }

  /**
   * `ChangeRPath`: replace the segment oldPath by newPath in the RPATH and
   * RUNPATH values, writing each changed value over its slot with NUL
   * padding; when every new value would be empty, remove the run path
   * instead.
   */
  function ChangeRPath(file: Bytes, view: ElfView, oldPath: Bytes, newPath: Bytes): (r: Outcome)
    requires ValidView(file, view)
    ensures view.rpath.None? && view.runpath.None? ==>
              r == (if |newPath| == 0 then Done(false, file) else Failed(NoRunPathEntry))
    ensures (view.rpath.Some? || view.runpath.Some?) && PlanChange(view, oldPath, newPath).Stop? ==>
              r == Failed(PlanChange(view, oldPath, newPath).failure)
    ensures r.Done? ==> |r.file| == |file|
    ensures r.Done? && !r.flag ==> r.file == file
    ensures (view.rpath.Some? || view.runpath.Some?) && PlanChange(view, oldPath, newPath).Continue? ==>
              var p := PlanChange(view, oldPath, newPath).plan;
              && (|p.writes| == 0 ==> r == Done(false, file))
              && (|p.writes| > 0 && p.removeRPath ==> r == RemoveRPath(file, view))
              && (|p.writes| > 0 && !p.removeRPath ==> r.Done? && r.flag)
  {
    var ses := PresentEntries(view);
    if |ses| == 0 then
      if |newPath| == 0 then Done(false, file) else Failed(NoRunPathEntry)
    else
      match PlanChange(view, oldPath, newPath)
      case Stop(f) => Failed(f)
      case Continue(p) =>
        if |p.writes| == 0 then Done(false, file)
        else if p.removeRPath then RemoveRPath(file, view)
        else
          PlannedWritesFit(file, view, p, oldPath, newPath);
          Done(true, WriteSlots(file, p.writes))
  }

  /**
   * After a rewrite, each planned slot that no later write overlaps holds
   * its new value followed by NULs up to the slot's size; bytes in no
   * planned slot are unchanged.
   */
  lemma ChangedSlotsHoldNewValues(file: Bytes, view: ElfView, oldPath: Bytes, newPath: Bytes)
    requires ValidView(file, view)
    requires view.rpath.Some? || view.runpath.Some?
    requires PlanChange(view, oldPath, newPath).Continue?
    requires |PlanChange(view, oldPath, newPath).plan.writes| > 0
    requires !PlanChange(view, oldPath, newPath).plan.removeRPath
    ensures var ws := PlanChange(view, oldPath, newPath).plan.writes;
            var r := ChangeRPath(file, view, oldPath, newPath);
            && r.Done? && r.flag
            && (forall k :: 0 <= k < |ws| && DisjointFromLater(ws, k) ==> SlotHolds(r.file, ws[k]))
            && (forall i :: 0 <= i < |file| && InNoSlot(ws, i) ==> r.file[i] == file[i])
  {
    var p := PlanChange(view, oldPath, newPath).plan;
    PlannedWritesFit(file, view, p, oldPath, newPath);
    WriteSlotsOutside(file, p.writes);
    WriteSlotsHold(file, p.writes);
  }

  /**
   * RPATH and RUNPATH sharing one string (the same position) are rewritten
   * once: the plan has at most one write.
   */
  lemma AliasedEntryWrittenOnce(view: ElfView, oldPath: Bytes, newPath: Bytes)
    requires view.rpath.Some? && view.runpath.Some?
    requires view.rpath.value.position == view.runpath.value.position
    ensures PlanChange(view, oldPath, newPath).Continue? ==> |PlanChange(view, oldPath, newPath).plan.writes| <= 1
  {
    var ses := PresentEntries(view);
    assert |ses| == 2;
    var p0 := Plan([], true);
    var s0 := PlanEntry(p0, ses[0], oldPath, newPath);
    if s0.Continue? {
      var s1 := PlanEntry(s0.plan, ses[1], oldPath, newPath);
      assert PlanWrites(ses, 0, p0, oldPath, newPath) == PlanWrites(ses, 1, s0.plan, oldPath, newPath);
      if s1.Continue? {
        assert PlanWrites(ses, 1, s0.plan, oldPath, newPath) == PlanWrites(ses, 2, s1.plan, oldPath, newPath);
        assert |s0.plan.writes| <= 1;
        if |s0.plan.writes| == 1 {
          assert s0.plan.writes[0].position == ses[0].entry.position;
        }
      }
    }
  }

  /** A value that is exactly path is found as a segment at position 0. */
  lemma FindWholeValue(path: Bytes)
    requires |path| > 0
    ensures FindRPath(path, path) == Some(0)
  {
    assert path[0..|path|] == path;
    assert SegmentAt(path, path, 0);
  }

  /**
   * Changing a run path to the empty path when every present value is that
   * path alone removes the run path: `ChangeRPath` delegates to
   * `RemoveRPath`.
   */
  lemma ChangeToEmptyRemoves(file: Bytes, view: ElfView, path: Bytes)
    requires ValidView(file, view)
    requires view.rpath.Some? || view.runpath.Some?
    requires |path| > 0
    requires view.rpath.Some? ==> view.rpath.value.value == path && view.rpath.value.size >= 1
    requires view.runpath.Some? ==> view.runpath.value.value == path && view.runpath.value.size >= 1
    ensures ChangeRPath(file, view, path, []) == RemoveRPath(file, view)
  {
    FindWholeValue(path);
    assert ReplaceSegment(path, path, [], 0) == [];
    var ses := PresentEntries(view);
    var p0 := Plan([], true);
    var s0 := PlanEntry(p0, ses[0], path, []);
    assert s0 == Continue(Plan([SlotWrite(ses[0].entry.position, ses[0].entry.size, [])], true));
    assert PlanWrites(ses, 0, p0, path, []) == PlanWrites(ses, 1, s0.plan, path, []);
    if |ses| == 2 {
      var s1 := PlanEntry(s0.plan, ses[1], path, []);
      assert s1.Continue? && s1.plan.removeRPath;
      assert PlanWrites(ses, 1, s0.plan, path, []) == PlanWrites(ses, 2, s1.plan, path, []);
    }
  }

  /** Replacing a segment by itself gives back the value. */
  lemma ReplaceSegmentBySelf(value: Bytes, path: Bytes, pos: nat)
    requires pos < |value| && SegmentAt(value, path, pos)
    ensures ReplaceSegment(value, path, path, pos) == value
  {
    assert value[pos..pos + |path|] == path;
    assert value == value[..pos] + value[pos..pos + |path|] + value[pos + |path|..];
  }

  /**
   * Changing a path to itself, in a file whose slots hold their values
   * NUL-padded, rewrites the same bytes: the file is unchanged, yet the
   * result still reports a change.
   */
  lemma ChangeToSameKeepsBytes(file: Bytes, view: ElfView, path: Bytes)
    requires ValidView(file, view)
    requires view.rpath.Some? || view.runpath.Some?
    requires forall e :: e in PresentEntries(view) ==>
               && FindRPath(e.entry.value, path).Some?
               && SlotHolds(file, SlotWrite(e.entry.position, e.entry.size, e.entry.value))
    requires forall e :: e in PresentEntries(view) ==> |e.entry.value| < e.entry.size
    ensures ChangeRPath(file, view, path, path) == Done(true, file)
  {
    var ses := PresentEntries(view);
    forall e | e in ses ensures Replacement(e.entry, path, path) == Some(e.entry.value) {
      ReplaceSegmentBySelf(e.entry.value, path, FindRPath(e.entry.value, path).value);
    }
    var s := PlanChange(view, path, path);
    if s.Stop? {
      var k :| 0 <= k < |ses| && ses[k].name == s.failure.name;
      PlanStopsOnlyWhen(view, path, path);
      assert false;
    }
    var ws := s.plan.writes;
    forall k | 0 <= k < |ws| ensures SlotHolds(file, ws[k]) {
      assert ws[k] in ws;
      var e :| e in ses && WriteFrom(ws[k], e, path, path);
      assert ws[k] == SlotWrite(e.entry.position, e.entry.size, e.entry.value);
    }
    WriteSlotsUnchanged(file, ws);
    assert ses[0] in ses;
    assert |ws| > 0 by {
      assert Replacement(ses[0].entry, path, path).Some?;
      assert exists w :: w in ws && w.position == ses[0].entry.position;
    }
  }

  /**
   * The loop only fails at an entry that either lacks both paths or whose
   * replacement does not fit.
   */
  lemma PlanStopsOnlyWhen(view: ElfView, oldPath: Bytes, newPath: Bytes)
    ensures PlanChange(view, oldPath, newPath).Stop? ==>
              exists e :: e in PresentEntries(view) && (
                || (Replacement(e.entry, oldPath, newPath).None? && FindRPath(e.entry.value, newPath).None?)
                || (Replacement(e.entry, oldPath, newPath).Some?
                    && e.entry.size < |Replacement(e.entry, oldPath, newPath).value| + 1))
  {
    var ses := PresentEntries(view);
    var p0 := Plan([], true);
    if |ses| > 0 {
      assert ses[0] in ses;
      var s0 := PlanEntry(p0, ses[0], oldPath, newPath);
      if s0.Continue? {
        assert PlanWrites(ses, 0, p0, oldPath, newPath) == PlanWrites(ses, 1, s0.plan, oldPath, newPath);
        if |ses| == 2 {
          assert ses[1] in ses;
          var s1 := PlanEntry(s0.plan, ses[1], oldPath, newPath);
          if s1.Continue? {
            assert PlanWrites(ses, 1, s0.plan, oldPath, newPath) == PlanWrites(ses, 2, s1.plan, oldPath, newPath);
          }
        }
      }
    }
  }

  /**
   * When neither string slot overlaps the table, decoding the patched file
   * at the table's offset gives back exactly the kept entries (narrowed to
   * the word width), none of which is RPATH or RUNPATH.
   */
  lemma RemovedTableReadsBack(file: Bytes, view: ElfView)
    requires ValidView(file, view)
    requires view.rpath.Some? || view.runpath.Some?
    requires |view.entries| > 0
    requires forall i :: view.entryPosition0 <= i < view.entryPosition0 + |KeptTable(view)| ==> !InStringSlot(view, i)
    ensures var r := RemoveRPath(file, view);
            && r.Done?
            && |KeptEntries(view)| * view.word.EntryBytes() <= |r.file| - view.entryPosition0
            && DecodeEntries(r.file[view.entryPosition0..], |KeptEntries(view)|, view.word, view.bigEndian)
               == NarrowAll(KeptEntries(view), view.word)
    ensures forall j :: 0 <= j < |KeptEntries(view)| ==> !IsRunPathTag(KeptEntries(view)[j].tag)
  {
    var r := RemoveRPath(file, view).file;
    var p0 := view.entryPosition0;
    var table := KeptTable(view);
    var rest := r[p0 + |table|..];
    assert r[p0..] == table + rest by {
      RemovedTableInPlace(file, view);
      SplitAt(r, p0, p0 + |table|);
    }
    DecodeEncodeEntries(KeptEntries(view), rest, view.word, view.bigEndian);
  }

  /** Where no string slot overlaps it, the patched file holds the re-encoded table at the table's offset. */
  lemma RemovedTableInPlace(file: Bytes, view: ElfView)
    requires ValidView(file, view)
    requires view.rpath.Some? || view.runpath.Some?
    requires |view.entries| > 0
    requires forall i :: view.entryPosition0 <= i < view.entryPosition0 + |KeptTable(view)| ==> !InStringSlot(view, i)
    ensures view.entryPosition0 + |KeptTable(view)| <= |file|
    ensures RemoveRPath(file, view).Done?
    ensures RemoveRPath(file, view).file[view.entryPosition0..view.entryPosition0 + |KeptTable(view)|] == KeptTable(view)
  {
    assert RemoveRPath(file, view) == Done(true, RemovedFile(file, view));
    var r := RemovedFile(file, view);
    var p0 := view.entryPosition0;
    var table := KeptTable(view);
    RemovedFileOutside(file, view);
    forall i | 0 <= i < |table| ensures r[p0 + i] == table[i] {
      assert !InStringSlot(view, p0 + i);
    }
    WindowIs(r, p0, table);
  }

  // ---------------------------------------------------------------------
  // CheckRPath and LookupRPath
  // ---------------------------------------------------------------------

  /** path is one of the ':'-separated segments of value. */
  predicate HasSegment(value: Bytes, path: Bytes) {
    exists p :: 0 <= p < |value| && SegmentAt(value, path, p)
  }

  /**
   * `CheckRPath`: the run path (RPATH if present, else RUNPATH) holds path
   * as a segment; an empty path is "present" exactly when there is no run
   * path at all.
   */
  function CheckRPath(view: ElfView, path: Bytes): (r: bool)
    ensures |path| == 0 ==> (r <==> view.rpath.None? && view.runpath.None?)
    ensures |path| > 0 && view.rpath.Some? ==> (r <==> HasSegment(view.rpath.value.value, path))
    ensures |path| > 0 && view.rpath.None? && view.runpath.Some? ==> (r <==> HasSegment(view.runpath.value.value, path))
    ensures view.rpath.None? && view.runpath.None? ==> (r <==> |path| == 0)
  {
    var se := if view.rpath.Some? then view.rpath else view.runpath;
    if |path| == 0 then se.None?
    else se.Some? && FindRPath(se.value.value, path).Some?
  }

  /** `LookupRPath`: the RPATH value, else the RUNPATH value, else empty. */
  function LookupRPath(view: ElfView): (r: Bytes)
    ensures view.rpath.Some? ==> r == view.rpath.value.value
    ensures view.rpath.None? && view.runpath.Some? ==> r == view.runpath.value.value
    ensures view.rpath.None? && view.runpath.None? ==> r == []
  {
    if view.rpath.Some? then view.rpath.value.value
    else if view.runpath.Some? then view.runpath.value.value
    else []
  }

  /** For a non-empty path, checking is searching the looked-up run path. */
  lemma CheckIsSearchOfLookup(view: ElfView, path: Bytes)
    requires |path| > 0
    ensures CheckRPath(view, path) <==> FindRPath(LookupRPath(view), path).Some?
  {
  }
}
