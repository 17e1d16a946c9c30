/**
 * The patcher and the reader agree: after `RemoveRPath`, reading the
 * dynamic table of the patched file back through the ELF reader's view
 * yields exactly the kept entries, and none of them is RPATH or RUNPATH.
 */
module ReadBack {
  import opened ByteOrder
  import opened Dynamic
  import opened ElfReader
  import opened ChRPath

  lemma RemovedRunPathInvisibleToReader(file: Bytes, view: ElfView, host: Host)
    requires ValidView(file, view)
    requires view.rpath.Some? || view.runpath.Some?
    requires |view.entries| > 0
    // The table is written in the file's own byte order, after e_ident.
    requires |file| > EI_DATA && view.bigEndian == FileIsBigEndian(file)
    requires view.entryPosition0 > EI_DATA && !InStringSlot(view, EI_DATA)
    // The string slots lie outside the table, and every tag fits the word.
    requires forall i :: view.entryPosition0 <= i < view.entryPosition0 + |KeptTable(view)| ==> !InStringSlot(view, i)
    requires forall i :: 0 <= i < |view.entries| ==> view.entries[i].tag < Pow256(view.word.WordBytes())
    ensures var r := RemoveRPath(file, view);
            && r.Done?
            && view.entryPosition0 + |KeptEntries(view)| * view.word.EntryBytes() <= |r.file|
            && var read := ReadDynamic(ViewOf(r.file, host), view.word, view.entryPosition0, |KeptEntries(view)|);
               && read == NarrowAll(KeptEntries(view), view.word)
               && forall j :: 0 <= j < |read| ==> !IsRunPathTag(read[j].tag)
  {
    var r := RemoveRPath(file, view).file;
    var kept := KeptEntries(view);
    RemovedTableReadsBack(file, view);
    RemovedFileOutside(file, view);
    assert r[EI_DATA] == file[EI_DATA];
    ReadDynamicInFileOrder(r, host, view.word, view.entryPosition0, |kept|);
    StripKeepsTagBound(view.entries, 0, DynamicEntrySize(view), Pow256(view.word.WordBytes()));
  }
}
