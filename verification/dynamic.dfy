/**
 * The dynamic table: ordered (d_tag, d_val) pairs, the tags this system
 * recognises, and the on-disk encoding of the table for 32- and 64-bit files
 * in either byte order.  The reader decodes tables with it and the patcher
 * re-encodes the table it writes back.
 */
module Dynamic {
  import opened ByteOrder

  const DT_NULL: nat := 0
  const DT_NEEDED: nat := 1
  const DT_SONAME: nat := 14
  const DT_RPATH: nat := 15
  const DT_RUNPATH: nat := 29
  /**
   * The MIPS relative dynamic-linker-map tag, as `cmELF::TagMipsRldMapRel`
   * has it in a build whose `<elf.h>` defines DT_MIPS_RLD_MAP_REL.
   */
  const DT_MIPS_RLD_MAP_REL: nat := 0x7000_0035

  /**
   * One entry of the dynamic table.  The tag is held as the bit pattern of
   * the (signed) d_tag; every tag compared against here is non-negative, so
   * the two readings agree on them.
   */
  datatype DynamicEntry = DynamicEntry(tag: nat, value: nat)

  /** Word size of the file: ELFCLASS32 or ELFCLASS64. */
  datatype WordSize = Word32 | Word64 {
    /** Bytes of one d_tag or d_val field. */
    function WordBytes(): nat {
      if Word32? then 4 else 8
    }

    /** sizeof(Elf32_Dyn) or sizeof(Elf64_Dyn). */
    function EntryBytes(): nat {
      2 * WordBytes()
    }
  }

  /** Whether a tag is one of the two run-path tags. */
  predicate IsRunPathTag(tag: nat) {
    tag == DT_RPATH || tag == DT_RUNPATH
  }

  /**
   * The entry as it is stored in an Elf32_Dyn or Elf64_Dyn: tag and value
   * are narrowed (truncated) to the word width.
   */
  function Narrow(e: DynamicEntry, word: WordSize): (r: DynamicEntry)
    ensures r.tag < Pow256(word.WordBytes()) && r.value < Pow256(word.WordBytes())
    ensures e.tag < Pow256(word.WordBytes()) ==> r.tag == e.tag
    ensures e.value < Pow256(word.WordBytes()) ==> r.value == e.value
  {
    var p := Pow256(word.WordBytes());
    ModBelow(e.tag, p);
    ModBelow(e.value, p);
    DynamicEntry(e.tag % p, e.value % p)
  }

  function NarrowAll(es: seq<DynamicEntry>, word: WordSize): (r: seq<DynamicEntry>)
    ensures |r| == |es|
    ensures forall i :: 0 <= i < |es| ==> r[i] == Narrow(es[i], word)
  {
    if |es| == 0 then [] else [Narrow(es[0], word)] + NarrowAll(es[1..], word)
  }

  /** The bytes of one entry in the file's byte order: d_tag, then d_val. */
  function EncodeEntry(e: DynamicEntry, word: WordSize, bigEndian: bool): (r: Bytes)
    ensures |r| == word.EntryBytes()
  {
    var n := Narrow(e, word);
    FileStore(n.tag, word.WordBytes(), bigEndian) + FileStore(n.value, word.WordBytes(), bigEndian)
  }

  /** Entries decoded from one entry's bytes, in the file's byte order. */
  function DecodeEntry(bs: Bytes, word: WordSize, bigEndian: bool): (r: DynamicEntry)
    requires |bs| == word.EntryBytes()
    ensures r.tag < Pow256(word.WordBytes()) && r.value < Pow256(word.WordBytes())
  {
    var w := word.WordBytes();
    DynamicEntry(Load(bs[..w], bigEndian), Load(bs[w..], bigEndian))
  }

  /** `EncodeDynamicEntries`: the entries' bytes, one after the other. */
  function EncodeEntries(es: seq<DynamicEntry>, word: WordSize, bigEndian: bool): (r: Bytes)
    ensures |r| == |es| * word.EntryBytes()
  {
    if |es| == 0 then []
    else EncodeEntry(es[0], word, bigEndian) + EncodeEntries(es[1..], word, bigEndian)
  }

  /** The first n entries of a table that starts at the front of bs. */
  function DecodeEntries(bs: Bytes, n: nat, word: WordSize, bigEndian: bool): (r: seq<DynamicEntry>)
    requires n * word.EntryBytes() <= |bs|
    ensures |r| == n
  {
    if n == 0 then []
    else
      var e := word.EntryBytes();
      [DecodeEntry(bs[..e], word, bigEndian)] + DecodeEntries(bs[e..], n - 1, word, bigEndian)
  }

  /** Decoding one encoded entry gives back the entry, narrowed to the word width. */
  lemma DecodeEncodeEntry(e: DynamicEntry, word: WordSize, bigEndian: bool)
    ensures DecodeEntry(EncodeEntry(e, word, bigEndian), word, bigEndian) == Narrow(e, word)
  {
    var w := word.WordBytes();
    var n := Narrow(e, word);
    var bs := EncodeEntry(e, word, bigEndian);
    assert bs[..w] == FileStore(n.tag, w, bigEndian);
    assert bs[w..] == FileStore(n.value, w, bigEndian);
  }

  /**
   * Decoding an encoded table (or any byte string that starts with one)
   * gives back every entry, narrowed to the word width.
   */
  lemma {:induction false} DecodeEncodeEntries(es: seq<DynamicEntry>, rest: Bytes, word: WordSize, bigEndian: bool)
    ensures |es| * word.EntryBytes() <= |EncodeEntries(es, word, bigEndian) + rest|
    ensures DecodeEntries(EncodeEntries(es, word, bigEndian) + rest, |es|, word, bigEndian)
            == NarrowAll(es, word)
  {
    var bs := EncodeEntries(es, word, bigEndian) + rest;
    if |es| > 0 {
      var e := word.EntryBytes();
      var head := EncodeEntry(es[0], word, bigEndian);
      var tail := EncodeEntries(es[1..], word, bigEndian);
      assert bs == head + (tail + rest);
      assert bs[..e] == head;
      assert bs[e..] == tail + rest;
      DecodeEncodeEntry(es[0], word, bigEndian);
      DecodeEncodeEntries(es[1..], rest, word, bigEndian);
      assert NarrowAll(es, word) == [Narrow(es[0], word)] + NarrowAll(es[1..], word);
    }
  }
}
