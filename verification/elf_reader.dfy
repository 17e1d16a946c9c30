/**
 * The ELF reader (`elf_memview::inquisitive`): reads the identification
 * bytes, the file header, the section header table and the dynamic section
 * of a mapped file and fills in the summary of its dynamic-linking metadata.
 *
 * The mapped file is a byte sequence; every multi-byte field is decoded by a
 * native load followed by `resive` (see ByteOrder), at the field offsets of
 * Elf32_Ehdr/Elf64_Ehdr, Elf32_Shdr/Elf64_Shdr and Elf32_Dyn/Elf64_Dyn.  The
 * 32- and 64-bit code paths of the source are one function here,
 * parameterised by a `Layout`.
 */
module ElfReader {
  import opened ByteOrder
  import opened Dynamic

  // Indices into e_ident.
  const EI_CLASS: nat := 4
  const EI_DATA: nat := 5
  const EI_VERSION: nat := 6
  const EI_OSABI: nat := 7

  const ELFCLASS32: Byte := 1
  const ELFCLASS64: Byte := 2
  const ELFDATANONE: Byte := 0
  const ELFDATA2LSB: Byte := 1
  const ELFDATA2MSB: Byte := 2

  const SHT_DYNAMIC: nat := 6
  const NUL: Byte := 0

  /** sizeof(Elf32_Ehdr): the mapping refuses files shorter than this. */
  const ELF32_EHDR_SIZE: nat := 52

  // Header fields common to both classes: e_type and e_machine (2 bytes each).
  const E_TYPE_AT: nat := 16
  const E_MACHINE_AT: nat := 18
  // sh_type and sh_link are 4 bytes in both classes.
  const SH_TYPE_AT: nat := 4

  datatype Endian = EndianNone | LittleEndian | BigEndian

  /** The host the reader runs on: its byte order and whether plain `char` is signed. */
  datatype Host = Host(bigEndian: bool, charIsSigned: bool)

  /** `elf_minutiae_t`: what the reader reports about a file. */
  datatype Minutiae = Minutiae(
    machine: string,
    osabi: string,
    soname: Bytes,
    rupath: Bytes,
    rpath: Bytes,
    etype: string,
    deps: seq<Bytes>,
    endian: Endian,
    version: int,
    bit64: bool)

  /**
   * How `inquisitive` ends: it returns true (Accepted) or false (Rejected);
   * OutsideMapping marks inputs on which the source would read past the end
   * of the mapped file, where its behaviour is not defined.
   */
  datatype Status = Accepted | Rejected | OutsideMapping

  datatype Inspection = Inspection(status: Status, em: Minutiae)

  /** `Endina`: the EI_DATA byte as a byte order. */
  function Endina(t: Byte): (r: Endian)
    ensures r == LittleEndian <==> t == ELFDATA2LSB
    ensures r == BigEndian <==> t == ELFDATA2MSB
  {
    if t == ELFDATANONE then EndianNone
    else if t == ELFDATA2LSB then LittleEndian
    else if t == ELFDATA2MSB then BigEndian
    else EndianNone
  }

  const OSABI_CODES: set<int> := {0, 1, 2, 3, 4, 6, 7, 8, 9, 10, 11, 12, 13, 14, 15, 16, 17, 97}

  /** `osabi`: the name of the EI_OSABI value. */
  function Osabi(i: Byte): (r: string)
    ensures r == "UNKNOWN" <==> i as int !in OSABI_CODES
  {
    match i as int
    case 0 => "SYSV"
    case 1 => "HP-UX"
    case 2 => "NetBSD"
    case 3 => "Linux"
    case 4 => "GNU Hurd"
    case 6 => "Solaris"
    case 7 => "AIX"
    case 8 => "IRIX"
    case 9 => "FreeBSD"
    case 10 => "Tru64"
    case 11 => "Novell Modesto"
    case 12 => "OpenBSD"
    case 13 => "OpenVMS"
    case 14 => "NonStop Kernel"
    case 15 => "AROS"
    case 16 => "Fenix OS"
    case 17 => "CloudABI"
    case 97 => "ARM"
    case _ => "UNKNOWN"
  }

  const EM_MIPS: nat := 8
  const MACHINE_CODES: set<int> := {2, 3, 8, 20, 22, 40, 42, 50, 62, 183, 243}

  /** `Machine`: the name of the e_machine value. */
  function Machine(i: nat): (r: string)
    ensures r == "UNKNOWN" <==> i !in MACHINE_CODES
    ensures i == EM_MIPS <==> r == "MIPS"
  {
    match i
    case 2 => "SPARC"
    case 3 => "x86"
    case 8 => "MIPS"
    case 20 => "PowerPC"
    case 22 => "S390"
    case 40 => "ARM"
    case 42 => "SuperH"
    case 50 => "IA-64"
    case 62 => "x86-64"
    case 183 => "AArch64"
    case 243 => "RISC-V"
    case _ => "UNKNOWN"
  }

  /** `elf_object_type`: the name of the e_type value (ET_NONE .. ET_CORE). */
  function ObjectType(t: nat): (r: string)
    ensures r == "UNKNOWN" <==> t > 4
  {
    match t
    case 0 => "No file type"
    case 1 => "Relocatable file "
    case 2 => "Executable file"
    case 3 => "Shared object file"
    case 4 => "Core file"
    case _ => "UNKNOWN"
  }

  /** A `char` read as an int: bytes 128..255 are negative where char is signed. */
  function CharValue(b: Byte, charIsSigned: bool): (r: int)
    ensures -128 <= r < 256
    ensures r % 256 == b as int
    ensures charIsSigned ==> r < 128
    ensures !charIsSigned ==> r >= 0
  {
    if charIsSigned && b >= 128 then b as int - 256 else b as int
  }

  /**
   * `elf_memview`: the mapped bytes, the host's byte order and the
   * `resiveable` flag chosen from the identification bytes.
   */
  datatype MemView = MemView(data: Bytes, hostBigEndian: bool, resiveable: bool) {

    /** `cast<T>(off)`: the bytes from off on, or null when off is outside the mapping. */
    function Cast(off: nat): (r: Option<Bytes>)
      ensures r.None? <==> off >= |data|
      ensures r.Some? ==> off + |r.value| == |data| && |r.value| > 0
      ensures r.Some? ==> forall k :: 0 <= k < |r.value| ==> r.value[k] == data[off + k]
    {
      if off >= |data| then None else Some(data[off..])
    }

    /** A width-byte field at off, loaded natively and passed through `resive`. */
    function Field(off: nat, width: nat): (v: nat)
      requires off + width <= |data|
      ensures v < Pow256(width)
    {
      Resive(Load(data[off..off + width], hostBigEndian), width, resiveable)
    }

    /**
     * `stroffset(off, end)`: the bytes from off up to the first NUL, never
     * reading at or beyond end.  None when the scan reaches the end of the
     * mapping before a NUL or end: the source then reads outside the file.
     */
    function Stroffset(off: nat, end: nat): (r: Option<Bytes>)
      ensures r.None? <==> off < end && |data| < end && forall k :: off <= k < |data| ==> data[k] != NUL
      ensures r.Some? ==> |r.value| <= if off < end then end - off else 0
      ensures r.Some? ==> forall k :: 0 <= k < |r.value| ==> r.value[k] != NUL
      ensures r.Some? && off < end ==> off + |r.value| <= |data| && r.value == data[off..off + |r.value|]
      ensures r.Some? && off + |r.value| < end ==> off + |r.value| < |data| && data[off + |r.value|] == NUL
      decreases end - off
    {
      if off >= end then Some([])
      else if off >= |data| then None
      else if data[off] == NUL then Some([])
      else
        match Stroffset(off + 1, end)
        case None => None
        case Some(rest) =>
          assert off + 1 < end ==> data[off..off + 1 + |rest|] == [data[off]] + data[off + 1..off + 1 + |rest|];
          assert off + 1 >= end ==> rest == [];
          Some([data[off]] + rest)
    }
  }

  /**
   * Field offsets of one ELF class: e_shoff and e_shnum in the file header;
   * the size of a section header and its sh_offset, sh_size, sh_link and
   * sh_entsize.  Address-sized fields are `word.WordBytes()` wide.
   */
  datatype Layout = Layout(
    word: WordSize,
    shoffAt: nat,
    shnumAt: nat,
    shdrSize: nat,
    shOffsetAt: nat,
    shSizeAt: nat,
    shLinkAt: nat,
    shEntsizeAt: nat)

  const ELF32: Layout := Layout(Word32, 32, 48, 40, 16, 20, 24, 36)
  const ELF64: Layout := Layout(Word64, 40, 60, 64, 24, 32, 40, 56)

  predicate KnownLayout(L: Layout) {
    L == ELF32 || L == ELF64
  }

  /** The fields the reader keeps of a section header. */
  datatype SectionHeader = SectionHeader(shType: nat, offset: nat, size: nat, link: nat, entsize: nat)

  /** The dynamic section's fields as the scan records them; all zero until one is found. */
  datatype DynamicSection = DynamicSection(offset: nat, size: nat, entsize: nat, link: nat)

  const NO_DYNAMIC_SECTION: DynamicSection := DynamicSection(0, 0, 0, 0)

  /**
   * Corrected section-table bound: all shnum headers of shdrSize bytes from
   * off lie inside a mapping of size bytes.
   */
  function SectionTableFits(shnum: nat, shdrSize: nat, off: nat, size: nat): (fits: bool)
    ensures fits ==> forall i :: 0 <= i < shnum ==> HeaderEnd(off, shdrSize, i) <= size
    ensures !fits && shnum > 0 ==> HeaderEnd(off, shdrSize, shnum - 1) > size
    ensures !fits && shnum == 0 ==> off > size
  {
    var fits := shnum * shdrSize + off <= size;
    if fits then
      assert forall i :: 0 <= i < shnum ==> HeaderEnd(off, shdrSize, i) <= size by {
        forall i | 0 <= i < shnum
          ensures HeaderEnd(off, shdrSize, i) <= size
        {
          MulLe(i + 1, shnum, shdrSize);
        }
      }
      fits
    else
      fits
  }

  const SIZE_T_WRAP: nat := 0x1_0000_0000_0000_0000

  /**
   * The bound check as both paths write it, `shnum * sizeof(Elf_Shdr) + off
   * > size_`, evaluated in 64-bit unsigned size_t arithmetic that wraps:
   * true when the check lets the table through.  Whatever fits passes, and
   * without wrap-around the two agree.
   */
  function SectionTableCheckAsWritten(shnum: nat, shdrSize: nat, off: nat, size: nat): (passes: bool)
    ensures SectionTableFits(shnum, shdrSize, off, size) ==> passes
    ensures shnum * shdrSize + off < SIZE_T_WRAP ==> (passes <==> SectionTableFits(shnum, shdrSize, off, size))
  {
    ModBelow(shnum * shdrSize + off, SIZE_T_WRAP);
    (shnum * shdrSize + off) % SIZE_T_WRAP <= size
  }

  /**
   * The 32-bit check cannot wrap: e_shnum is 16 bits wide, e_shoff 32 bits,
   * and sizeof(Elf32_Shdr) is 40, so the as-written check is exact.
   */
  lemma SectionTableCheck32Exact(shnum: nat, off: nat, size: nat)
    requires shnum < 0x1_0000 && off < 0x1_0000_0000
    ensures SectionTableCheckAsWritten(shnum, ELF32.shdrSize, off, size)
            <==> SectionTableFits(shnum, ELF32.shdrSize, off, size)
  {
    MulLe(shnum, 0x1_0000, 40);
    assert shnum * 40 + off < SIZE_T_WRAP;
  }

  /**
   * A 64-byte file whose e_shoff is 2^64 - 64 and e_shnum is 1 passes the
   * as-written check, although its one section header starts beyond the
   * mapping (the source then reads it through the null `cast` result); the
   * reader reports that read as leaving the mapping.
   */
  lemma SectionTableCheckWrapsAround(em: Minutiae)
    ensures SectionTableCheckAsWritten(1, ELF64.shdrSize, SIZE_T_WRAP - 64, 64)
    ensures !SectionTableFits(1, ELF64.shdrSize, SIZE_T_WRAP - 64, 64)
    ensures MemView(seq(64, _ => 0 as Byte), false, false).Cast(SIZE_T_WRAP - 64).None?
    ensures InquisitiveSections(MemView(seq(64, _ => 0 as Byte), false, false), ELF64,
                                SIZE_T_WRAP - 64, 1, em).status == OutsideMapping
  {
    assert (1 * 64 + (SIZE_T_WRAP - 64)) % SIZE_T_WRAP == 0;
  }

  /** End offset of section header i of a table at off. */
  function HeaderEnd(off: nat, shdrSize: nat, i: nat): nat {
    off + (i + 1) * shdrSize
  }

  /** Section header i of the table at off, whose headers all lie in the mapping. */
  function HeaderAt(view: MemView, L: Layout, off: nat, shnum: nat, i: nat): (h: SectionHeader)
    requires KnownLayout(L)
    requires SectionTableFits(shnum, L.shdrSize, off, |view.data|)
    requires i < shnum
    ensures h.shType < 0x1_0000_0000 && h.link < 0x1_0000_0000
    ensures h.offset < Pow256(L.word.WordBytes()) && h.size < Pow256(L.word.WordBytes())
    ensures h.entsize < Pow256(L.word.WordBytes())
  {
    var base := off + i * L.shdrSize;
    assert HeaderEnd(off, L.shdrSize, i) <= |view.data|;
    var w := L.word.WordBytes();
    SectionHeader(
      view.Field(base + SH_TYPE_AT, 4),
      view.Field(base + L.shOffsetAt, w),
      view.Field(base + L.shSizeAt, w),
      view.Field(base + L.shLinkAt, 4),
      view.Field(base + L.shEntsizeAt, w))
  }

  /** The section headers of the table at off, whose headers all lie in the mapping. */
  function SectionHeaders(view: MemView, L: Layout, off: nat, shnum: nat): (hs: seq<SectionHeader>)
    requires KnownLayout(L)
    requires SectionTableFits(shnum, L.shdrSize, off, |view.data|)
    ensures |hs| == shnum
  {
    seq(shnum, i requires 0 <= i < shnum => HeaderAt(view, L, off, shnum, i))
  }

  predicate IsDynamic(h: SectionHeader) {
    h.shType == SHT_DYNAMIC
  }

  function AsDynamic(h: SectionHeader): DynamicSection {
    DynamicSection(h.offset, h.size, h.entsize, h.link)
  }

  /**
   * The section-header loop from header i on: every SHT_DYNAMIC header
   * overwrites the recorded fields, so the last one wins; when there is
   * none, the fields keep the value they had.
   */
  function ScanDynamic(hs: seq<SectionHeader>, i: nat, found: DynamicSection): (r: DynamicSection)
    requires i <= |hs|
    ensures (forall j :: i <= j < |hs| ==> !IsDynamic(hs[j])) ==> r == found
    decreases |hs| - i
  {
    if i == |hs| then found
    else
      var found' := if IsDynamic(hs[i]) then AsDynamic(hs[i]) else found;
      ScanDynamic(hs, i + 1, found')
  }

  /** Reference: the index of the last SHT_DYNAMIC header from i on, if any. */
  function LastDynamic(hs: seq<SectionHeader>, i: nat): (r: Option<nat>)
    requires i <= |hs|
    ensures r.Some? ==> i <= r.value < |hs|
    decreases |hs| - i
  {
    if i == |hs| then None
    else
      var later := LastDynamic(hs, i + 1);
      if later.Some? then later
      else if IsDynamic(hs[i]) then Some(i)
      else None
  }

  /** The reference finds an SHT_DYNAMIC header with none after it, and finds none exactly when there is none. */
  lemma {:induction false} LastDynamicIsLast(hs: seq<SectionHeader>, i: nat)
    requires i <= |hs|
    ensures var r := LastDynamic(hs, i);
            && (r.None? <==> forall j :: i <= j < |hs| ==> !IsDynamic(hs[j]))
            && (r.Some? ==> IsDynamic(hs[r.value]) && forall k :: r.value < k < |hs| ==> !IsDynamic(hs[k]))
    decreases |hs| - i
  {
    if i < |hs| {
      LastDynamicIsLast(hs, i + 1);
    }
  }

  /** The scan yields the fields of the last SHT_DYNAMIC header, and found when there is none. */
  lemma {:induction false} ScanDynamicLastWins(hs: seq<SectionHeader>, i: nat, found: DynamicSection)
    requires i <= |hs|
    ensures ScanDynamic(hs, i, found)
            == match LastDynamic(hs, i)
               case None => found
               case Some(j) => AsDynamic(hs[j])
    decreases |hs| - i
  {
    if i < |hs| {
      var found' := if IsDynamic(hs[i]) then AsDynamic(hs[i]) else found;
      ScanDynamicLastWins(hs, i + 1, found');
    }
  }

  /** When header j is the last SHT_DYNAMIC one, the scan yields its fields. */
  lemma ScanDynamicFindsLast(hs: seq<SectionHeader>, j: nat, found: DynamicSection)
    requires j < |hs| && IsDynamic(hs[j])
    requires forall k :: j < k < |hs| ==> !IsDynamic(hs[k])
    ensures ScanDynamic(hs, 0, found) == AsDynamic(hs[j])
  {
    LastDynamicIsLast(hs, 0);
    ScanDynamicLastWins(hs, 0, found);
    assert LastDynamic(hs, 0) == Some(j);
  }

  /** The dynamic entries n entries from off, read with stride sizeof(Elf_Dyn). */
  function ReadDynamic(view: MemView, word: WordSize, off: nat, n: nat): (r: seq<DynamicEntry>)
    requires off + n * word.EntryBytes() <= |view.data|
    ensures |r| == n
    ensures forall k :: 0 <= k < n ==>
              r[k].tag < Pow256(word.WordBytes()) && r[k].value < Pow256(word.WordBytes())
    decreases n
  {
    if n == 0 then []
    else
      var w := word.WordBytes();
      assert off + n * word.EntryBytes() == off + word.EntryBytes() + (n - 1) * word.EntryBytes();
      [DynamicEntry(view.Field(off, w), view.Field(off + w, w))]
        + ReadDynamic(view, word, off + word.EntryBytes(), n - 1)
  }

  /**
   * The string table as the walk uses it: d_val offsets are added to its
   * sh_offset with word-width wrap-around, and strings end at its sh_offset
   * plus sh_size (also wrapped).  The end may lie beyond the mapping.
   */
  datatype StringTable = StringTable(offset: nat, end: nat, wrap: nat)

  /** The wrap-around width is positive. */
  predicate ValidTable(st: StringTable) {
    st.wrap > 0
  }

  /** The string a dynamic entry's value refers to; None when reading it runs off the mapping. */
  function EntryString(view: MemView, st: StringTable, e: DynamicEntry): (s: Option<Bytes>)
    requires ValidTable(st)
    ensures s.Some? ==> forall k :: 0 <= k < |s.value| ==> s.value[k] != NUL
    ensures st.end <= |view.data| ==> s.Some?
  {
    view.Stroffset((st.offset + e.value) % st.wrap, st.end)
  }

  /** The tags whose entries the walk resolves to strings. */
  predicate IsStringTag(tag: nat) {
    tag == DT_NEEDED || tag == DT_SONAME || tag == DT_RUNPATH || tag == DT_RPATH
  }

  /** Every string the walk resolves can be read inside the mapping. */
  predicate StringsInMapping(view: MemView, st: StringTable, es: seq<DynamicEntry>)
    requires ValidTable(st)
  {
    forall j :: 0 <= j < |es| && IsStringTag(es[j].tag) ==> EntryString(view, st, es[j]).Some?
  }

  lemma StringsInMappingCons(view: MemView, st: StringTable, es: seq<DynamicEntry>)
    requires ValidTable(st) && |es| > 0
    ensures StringsInMapping(view, st, es)
            <==> (IsStringTag(es[0].tag) ==> EntryString(view, st, es[0]).Some?) && StringsInMapping(view, st, es[1..])
  {
    assert forall j :: 0 < j < |es| ==> es[j] == es[1..][j - 1];
  }

  lemma StringsInMappingPrefix(view: MemView, st: StringTable, es: seq<DynamicEntry>, n: nat)
    requires ValidTable(st) && n <= |es| && StringsInMapping(view, st, es)
    ensures StringsInMapping(view, st, es[..n])
  {
    assert forall j :: 0 <= j < n ==> es[..n][j] == es[j];
  }

  /** Reference: the strings of the DT_NEEDED entries, in table order. */
  function NeededStrings(view: MemView, st: StringTable, es: seq<DynamicEntry>): seq<Bytes>
    requires ValidTable(st) && StringsInMapping(view, st, es)
  {
    if |es| == 0 then []
    else
      StringsInMappingCons(view, st, es);
      (if es[0].tag == DT_NEEDED then [EntryString(view, st, es[0]).value] else [])
        + NeededStrings(view, st, es[1..])
  }

  /** Reference: the string of the last entry carrying tag, or dflt when none does. */
  function LastString(view: MemView, st: StringTable, es: seq<DynamicEntry>, tag: nat, dflt: Bytes): Bytes
    requires ValidTable(st) && StringsInMapping(view, st, es) && IsStringTag(tag)
  {
    if |es| == 0 then dflt
    else if es[|es| - 1].tag == tag then EntryString(view, st, es[|es| - 1]).value
    else
      StringsInMappingPrefix(view, st, es, |es| - 1);
      LastString(view, st, es[..|es| - 1], tag, dflt)
  }

  lemma {:induction false} LastStringCons(view: MemView, st: StringTable, es: seq<DynamicEntry>, tag: nat, dflt: Bytes)
    requires ValidTable(st) && StringsInMapping(view, st, es) && IsStringTag(tag)
    requires |es| > 0
    ensures StringsInMapping(view, st, es[1..])
    ensures LastString(view, st, es[1..], tag,
                       if es[0].tag == tag then EntryString(view, st, es[0]).value else dflt)
            == LastString(view, st, es, tag, dflt)
  {
    StringsInMappingCons(view, st, es);
    if |es| > 1 {
      var n := |es|;
      assert es[1..][..n - 2] == es[..n - 1][1..];
      StringsInMappingPrefix(view, st, es, n - 1);
      LastStringCons(view, st, es[..n - 1], tag, dflt);
      assert es[..n - 1][0] == es[0];
    }
  }

  /** One step of the dynamic walk: the switch on d_tag. */
  function WalkStep(view: MemView, st: StringTable, e: DynamicEntry, em: Minutiae): (r: Minutiae)
    requires ValidTable(st)
    requires IsStringTag(e.tag) ==> EntryString(view, st, e).Some?
    ensures !IsStringTag(e.tag) ==> r == em
    ensures e.tag == DT_NEEDED ==> r == em.(deps := em.deps + [EntryString(view, st, e).value])
    ensures e.tag != DT_NEEDED ==> r.deps == em.deps
    ensures e.tag == DT_SONAME ==> r == em.(soname := EntryString(view, st, e).value)
    ensures e.tag == DT_RUNPATH ==> r == em.(rupath := EntryString(view, st, e).value)
    ensures e.tag == DT_RPATH ==> r == em.(rpath := EntryString(view, st, e).value)
  {
    if e.tag == DT_NEEDED then em.(deps := em.deps + [EntryString(view, st, e).value])
    else if e.tag == DT_SONAME then em.(soname := EntryString(view, st, e).value)
    else if e.tag == DT_RUNPATH then em.(rupath := EntryString(view, st, e).value)
    else if e.tag == DT_RPATH then em.(rpath := EntryString(view, st, e).value)
    else em
  }

  /**
   * The walk over the dynamic entries: DT_NEEDED strings are appended to
   * deps in table order; for DT_SONAME, DT_RUNPATH and DT_RPATH the last
   * entry wins; nothing else changes.  None when one of the strings it
   * resolves runs off the mapping.
   */
  function Walk(view: MemView, st: StringTable, es: seq<DynamicEntry>, em: Minutiae): (r: Option<Minutiae>)
    requires ValidTable(st)
    ensures r.Some? <==> StringsInMapping(view, st, es)
    ensures r.Some? ==> r.value.deps == em.deps + NeededStrings(view, st, es)
    ensures r.Some? ==> r.value.soname == LastString(view, st, es, DT_SONAME, em.soname)
    ensures r.Some? ==> r.value.rupath == LastString(view, st, es, DT_RUNPATH, em.rupath)
    ensures r.Some? ==> r.value.rpath == LastString(view, st, es, DT_RPATH, em.rpath)
    ensures r.Some? ==> r.value.(deps := em.deps, soname := em.soname, rupath := em.rupath, rpath := em.rpath) == em
  {
    if |es| == 0 then Some(em)
    else
      StringsInMappingCons(view, st, es);
      if IsStringTag(es[0].tag) && EntryString(view, st, es[0]).None? then None
      else
        var em' := WalkStep(view, st, es[0], em);
        var r := Walk(view, st, es[1..], em');
        if r.Some? then
          LastStringCons(view, st, es, DT_SONAME, em.soname);
          LastStringCons(view, st, es, DT_RUNPATH, em.rupath);
          LastStringCons(view, st, es, DT_RPATH, em.rpath);
          r
        else r
  }

  /**
   * The class-specific part of `inquisitive` (`inquisitive64`, and the
   * 32-bit code that follows the class test), for the layout of that class:
   * e_machine and e_type are recorded, then e_shoff and e_shnum are read
   * and handed to the section stage.  e_shnum of a 64-bit header lies past
   * the 52 bytes every mapping holds.
   */
  function InquisitiveClass(view: MemView, L: Layout, em: Minutiae): (r: Inspection)
    requires KnownLayout(L)
    requires |view.data| >= ELF32_EHDR_SIZE
    ensures r.em.endian == em.endian && r.em.osabi == em.osabi
    ensures r.em.version == em.version && r.em.bit64 == em.bit64
    ensures var em' := em.(machine := Machine(view.Field(E_MACHINE_AT, 2)),
                           etype := ObjectType(view.Field(E_TYPE_AT, 2)));
            && (L.shnumAt + 2 > |view.data| ==> r == Inspection(OutsideMapping, em'))
            && (L.shnumAt + 2 <= |view.data| ==>
                  r == InquisitiveSections(view, L, view.Field(L.shoffAt, L.word.WordBytes()),
                                           view.Field(L.shnumAt, 2), em'))
  {
    var em := em.(machine := Machine(view.Field(E_MACHINE_AT, 2)),
                  etype := ObjectType(view.Field(E_TYPE_AT, 2)));
    if L.shnumAt + 2 > |view.data| then Inspection(OutsideMapping, em)
    else
      var off := view.Field(L.shoffAt, L.word.WordBytes());
      var shnum := view.Field(L.shnumAt, 2);
      InquisitiveSections(view, L, off, shnum, em)
  }

  /**
   * Given e_shoff and e_shnum: the section-table bound check as written,
   * the scan for the dynamic section, and the walk of its entries.  A table
   * that passes the check only by wrap-around is read beyond the mapping.
   */
  function InquisitiveSections(view: MemView, L: Layout, off: nat, shnum: nat, em: Minutiae): (r: Inspection)
    requires KnownLayout(L)
    ensures !SectionTableCheckAsWritten(shnum, L.shdrSize, off, |view.data|) ==> r == Inspection(Rejected, em)
    ensures SectionTableCheckAsWritten(shnum, L.shdrSize, off, |view.data|)
            && !SectionTableFits(shnum, L.shdrSize, off, |view.data|)
            ==> r == Inspection(OutsideMapping, em)
    ensures SectionTableFits(shnum, L.shdrSize, off, |view.data|)
            && (forall j :: 0 <= j < shnum ==> !IsDynamic(SectionHeaders(view, L, off, shnum)[j]))
            ==> r == Inspection(Accepted, em)
    ensures SectionTableFits(shnum, L.shdrSize, off, |view.data|) ==>
              var hs := SectionHeaders(view, L, off, shnum);
              var d := ScanDynamic(hs, 0, NO_DYNAMIC_SECTION);
              && (d.offset == 0 || d.entsize == 0 || d.offset >= |view.data| ==> r == Inspection(Accepted, em))
              && (d.offset != 0 && d.entsize != 0 && d.offset < |view.data| && d.link >= shnum
                  ==> r == Inspection(Rejected, em))
              && (d.offset != 0 && d.entsize != 0 && d.offset < |view.data| && d.link < shnum
                  ==> r == InquisitiveWalk(view, L.word, hs[d.link], d, em))
    ensures r.em.(deps := em.deps, soname := em.soname, rupath := em.rupath, rpath := em.rpath) == em
  {
    if !SectionTableCheckAsWritten(shnum, L.shdrSize, off, |view.data|) then Inspection(Rejected, em)
    else if !SectionTableFits(shnum, L.shdrSize, off, |view.data|) then Inspection(OutsideMapping, em)
    else
      var hs := SectionHeaders(view, L, off, shnum);
      var d := ScanDynamic(hs, 0, NO_DYNAMIC_SECTION);
      if d.offset == 0 || d.entsize == 0 || d.offset >= |view.data| then Inspection(Accepted, em)
      else if d.link >= shnum then Inspection(Rejected, em)
      else InquisitiveWalk(view, L.word, hs[d.link], d, em)
  }

  /**
   * The section stage walks the last SHT_DYNAMIC header's table, with the
   * string table its sh_link names.
   */
  lemma InquisitiveSectionsWalksLastDynamic(view: MemView, L: Layout, off: nat, shnum: nat, em: Minutiae, j: nat)
    requires KnownLayout(L)
    requires SectionTableFits(shnum, L.shdrSize, off, |view.data|)
    requires j < shnum
    requires IsDynamic(SectionHeaders(view, L, off, shnum)[j])
    requires forall k :: j < k < shnum ==> !IsDynamic(SectionHeaders(view, L, off, shnum)[k])
    ensures var h := SectionHeaders(view, L, off, shnum)[j];
            h.offset != 0 && h.entsize != 0 && h.offset < |view.data| && h.link < shnum
            ==> InquisitiveSections(view, L, off, shnum, em)
                == InquisitiveWalk(view, L.word, SectionHeaders(view, L, off, shnum)[h.link], AsDynamic(h), em)
  {
    ScanDynamicFindsLast(SectionHeaders(view, L, off, shnum), j, NO_DYNAMIC_SECTION);
  }

  /**
   * The walk of the sh_size / sh_entsize dynamic entries, resolving their
   * strings in the linked string table strtab.  It leaves the mapping
   * exactly when an entry or one of the strings it resolves lies beyond it.
   */
  function InquisitiveWalk(view: MemView, word: WordSize, strtab: SectionHeader, d: DynamicSection,
                           em: Minutiae): (r: Inspection)
    requires d.entsize > 0
    ensures r.em.(deps := em.deps, soname := em.soname, rupath := em.rupath, rpath := em.rpath) == em
    ensures r.status != Rejected
    ensures var st := StringTableOf(strtab, word);
            var n := d.size / d.entsize;
            && (r.status == OutsideMapping
                <==> d.offset + n * word.EntryBytes() > |view.data|
                     || !StringsInMapping(view, st, ReadDynamic(view, word, d.offset, n)))
            && (st.end <= |view.data| && d.offset + n * word.EntryBytes() <= |view.data| ==> r.status == Accepted)
    ensures r.status == Accepted ==>
              var st := StringTableOf(strtab, word);
              var n := d.size / d.entsize;
              && d.offset + n * word.EntryBytes() <= |view.data|
              && var es := ReadDynamic(view, word, d.offset, n);
                 && StringsInMapping(view, st, es)
                 && r.em.deps == em.deps + NeededStrings(view, st, es)
                 && r.em.soname == LastString(view, st, es, DT_SONAME, em.soname)
                 && r.em.rupath == LastString(view, st, es, DT_RUNPATH, em.rupath)
                 && r.em.rpath == LastString(view, st, es, DT_RPATH, em.rpath)
  {
    var st := StringTableOf(strtab, word);
    var n := d.size / d.entsize;
    if d.offset + n * word.EntryBytes() > |view.data| then Inspection(OutsideMapping, em)
    else
      match Walk(view, st, ReadDynamic(view, word, d.offset, n), em)
      case None => Inspection(OutsideMapping, em)
      case Some(em') => Inspection(Accepted, em')
  }

  /** soff and send = soff + sh_size of the linked string table, in word-width arithmetic. */
  function StringTableOf(strtab: SectionHeader, word: WordSize): (st: StringTable)
    ensures st.wrap == Pow256(word.WordBytes()) && st.offset == strtab.offset
    ensures st.end < st.wrap
    ensures strtab.offset + strtab.size < st.wrap ==> st.end == strtab.offset + strtab.size
  {
    var wrap := Pow256(word.WordBytes());
    ModBelow(strtab.offset + strtab.size, wrap);
    StringTable(strtab.offset, (strtab.offset + strtab.size) % wrap, wrap)
  }

  /**
   * The view `inquisitive` reads through: `resiveable` is set exactly when
   * the file's big-endian-ness (EI_DATA is ELFDATA2MSB) differs from the
   * host's; every other EI_DATA byte reads as little-endian.
   */
  function ViewOf(data: Bytes, host: Host): (view: MemView)
    requires |data| > EI_DATA
    ensures view.data == data && view.hostBigEndian == host.bigEndian
    ensures view.resiveable <==> ((data[EI_DATA] == ELFDATA2MSB) != host.bigEndian)
  {
    var msb := Endina(data[EI_DATA]) == BigEndian;
    MemView(data, host.bigEndian, msb != host.bigEndian)
  }

  /** The byte order the file's fields are written in, as the reader understands EI_DATA. */
  predicate FileIsBigEndian(data: Bytes)
    requires |data| > EI_DATA
  {
    data[EI_DATA] == ELFDATA2MSB
  }

  /** Through the reader's view every field reads in the file's byte order, on any host. */
  lemma FieldInFileOrder(data: Bytes, host: Host, off: nat, width: nat)
    requires |data| > EI_DATA
    requires off + width <= |data|
    ensures ViewOf(data, host).Field(off, width)
            == Load(data[off..off + width], FileIsBigEndian(data))
  {
    ResiveOfNativeLoad(data[off..off + width], host.bigEndian, FileIsBigEndian(data));
  }

  /** The entry the reader reads at off is the entry decoded from the bytes there. */
  lemma ReadEntryInFileOrder(data: Bytes, host: Host, word: WordSize, off: nat)
    requires |data| > EI_DATA
    requires off + word.EntryBytes() <= |data|
    ensures word.EntryBytes() <= |data[off..]|
    ensures DynamicEntry(ViewOf(data, host).Field(off, word.WordBytes()),
                         ViewOf(data, host).Field(off + word.WordBytes(), word.WordBytes()))
            == DecodeEntry(data[off..][..word.EntryBytes()], word, FileIsBigEndian(data))
  {
    var w := word.WordBytes();
    assert word.EntryBytes() == w + w;
    SplitPair(data, off, w);
    FieldInFileOrder(data, host, off, w);
    FieldInFileOrder(data, host, off + w, w);
  }

  /**
   * The dynamic entries the reader walks are the table decoded in the file's
   * byte order (whatever the host).
   */
  lemma {:induction false} ReadDynamicInFileOrder(data: Bytes, host: Host, word: WordSize, off: nat, n: nat)
    requires |data| > EI_DATA
    requires off + n * word.EntryBytes() <= |data|
    ensures n * word.EntryBytes() <= |data[off..]|
    ensures ReadDynamic(ViewOf(data, host), word, off, n)
            == DecodeEntries(data[off..], n, word, FileIsBigEndian(data))
    decreases n
  {
    if n > 0 {
      var e := word.EntryBytes();
      MulPred(n, e);
      ReadEntryInFileOrder(data, host, word, off);
      DropDrop(data, off, e);
      ReadDynamicInFileOrder(data, host, word, off + e, n - 1);
    }
  }

  /**
   * For either class, e_machine and e_type are recorded as read in the
   * file's byte order, whatever the host.
   */
  lemma InquisitiveHeaderInFileOrder(data: Bytes, host: Host, em: Minutiae)
    requires |data| >= ELF32_EHDR_SIZE
    requires data[EI_CLASS] == ELFCLASS32 || data[EI_CLASS] == ELFCLASS64
    ensures Inquisitive(data, host, em).em.machine
            == Machine(Load(data[E_MACHINE_AT..E_MACHINE_AT + 2], FileIsBigEndian(data)))
    ensures Inquisitive(data, host, em).em.etype
            == ObjectType(Load(data[E_TYPE_AT..E_TYPE_AT + 2], FileIsBigEndian(data)))
  {
    var em' := em.(endian := Endina(data[EI_DATA]),
                   osabi := Osabi(data[EI_OSABI]),
                   version := CharValue(data[EI_VERSION], host.charIsSigned));
    if data[EI_CLASS] == ELFCLASS64 {
      ClassHeaderInFileOrder(data, host, ELF64, em'.(bit64 := true));
    } else {
      ClassHeaderInFileOrder(data, host, ELF32, em');
    }
  }

  /** The class stage records e_machine and e_type as read in the file's byte order. */
  lemma ClassHeaderInFileOrder(data: Bytes, host: Host, L: Layout, em: Minutiae)
    requires KnownLayout(L)
    requires |data| >= ELF32_EHDR_SIZE
    ensures InquisitiveClass(ViewOf(data, host), L, em).em.machine
            == Machine(Load(data[E_MACHINE_AT..E_MACHINE_AT + 2], FileIsBigEndian(data)))
    ensures InquisitiveClass(ViewOf(data, host), L, em).em.etype
            == ObjectType(Load(data[E_TYPE_AT..E_TYPE_AT + 2], FileIsBigEndian(data)))
  {
    FieldInFileOrder(data, host, E_MACHINE_AT, 2);
    FieldInFileOrder(data, host, E_TYPE_AT, 2);
  }

  /**
   * `inquisitive`: decode the identification bytes, choose whether to
   * byte-swap, and dispatch on the class byte.
   */
  function Inquisitive(data: Bytes, host: Host, em: Minutiae): (r: Inspection)
    requires |data| >= ELF32_EHDR_SIZE
    ensures r.em.endian == Endina(data[EI_DATA])
    ensures r.em.osabi == Osabi(data[EI_OSABI])
    ensures r.em.version == CharValue(data[EI_VERSION], host.charIsSigned)
    ensures data[EI_CLASS] != ELFCLASS32 && data[EI_CLASS] != ELFCLASS64 ==> r.status == Rejected
    ensures data[EI_CLASS] == ELFCLASS64 ==> r.em.bit64
    ensures data[EI_CLASS] != ELFCLASS64 ==> r.em.bit64 == em.bit64
    ensures var em' := em.(endian := Endina(data[EI_DATA]),
                           osabi := Osabi(data[EI_OSABI]),
                           version := CharValue(data[EI_VERSION], host.charIsSigned));
            && (data[EI_CLASS] == ELFCLASS64 ==> r == InquisitiveClass(ViewOf(data, host), ELF64, em'.(bit64 := true)))
            && (data[EI_CLASS] == ELFCLASS32 ==> r == InquisitiveClass(ViewOf(data, host), ELF32, em'))
  {
    var endian := Endina(data[EI_DATA]);
    var em := em.(endian := endian,
                  osabi := Osabi(data[EI_OSABI]),
                  version := CharValue(data[EI_VERSION], host.charIsSigned));
    var view := ViewOf(data, host);
    if data[EI_CLASS] == ELFCLASS64 then
      InquisitiveClass(view, ELF64, em.(bit64 := true))
    else if data[EI_CLASS] != ELFCLASS32 then
      Inspection(Rejected, em)
    else
      InquisitiveClass(view, ELF32, em)
  }
}
