# cmchrpath core in Dafny

A model of the core of `cmchrpath`, a tool that inspects and edits the
run-time library search path (RPATH / RUNPATH) of ELF binaries in place, and
of its companion ELF inspector:

- **ByteOrder** (`byteorder.dfy`): bytes, little/big-endian values and their
  encodings, `bswap`, and `resive`, the reader's byte-swap-if-needed step.
  It proves that a native load followed by `resive` always yields the
  field's value in the file's own byte order, on either kind of host.
- **Dynamic** (`dynamic.dfy`): dynamic-table entries, the tags the tools
  use, and the 32/64-bit encoding of the table in either byte order. It
  proves that decoding an encoded table gives it back.
- **ElfReader** (`elf_reader.dfy`): `elf_memview::inquisitive` and
  `inquisitive64`. These cover the identification bytes, the name tables,
  the section-table bound check, the scan for the last SHT_DYNAMIC section,
  and the walk over the dynamic entries that collects DT_NEEDED, DT_SONAME,
  DT_RUNPATH and DT_RPATH strings through `stroffset`. The two class-specific
  code paths are one function, parameterised by the field layout of the
  class.
- **RPathSearch** (`rpath_search.dfy`): `cmSystemToolsFindRPath`. It finds
  a directory as a whole ':'-delimited segment of a run path.
- **ChRPath** (`cmchrpath.dfy`): `RemoveRPath`, `ChangeRPath`, `CheckRPath`,
  `LookupRPath`. The file is a byte sequence and every write is a
  length-preserving splice. The ELF parse the tool obtains from its ELF
  parser is an input (`ElfView`): the RPATH/RUNPATH string entries, the
  dynamic entries, the positions of dynamic entries 0 and 1, and the word
  size and byte order.
- **ReadBack** (`readback.dfy`): connects the patcher to the reader. After
  `RemoveRPath`, the reader sees exactly the kept entries and no
  RPATH/RUNPATH.
- **Attributes** (`attributes.dfy`): the `AttributesTables` container with
  its `mnlen` invariant.
- **Paths** (`paths.dfy`): `PathSplit` and `PathCanonicalize`, each
  related to a reference definition: cut at '/', then fold. The model proves
  ".." semantics, order preservation, the canonical shape and idempotence.

Two behaviours of the code worth knowing, both modelled as written:

- `ChangeRPath` with equal old and new paths rewrites identical bytes and
  still reports a change (`ChRPath.ChangeToSameKeepsBytes`).
- `RemoveRPath` writes the shorter re-encoded table at the table's start and
  leaves the old table's trailing bytes in place (`ChRPath.RemovedFileOutside`).

The reader's status is `Accepted` or `Rejected` where the code returns true
or false, and `OutsideMapping` exactly where the code would read outside the
mapped file: a 64-bit header's e_shnum in a file shorter than that header,
section headers beyond the file (reachable only through the wrapped check
under Findings), dynamic entries beyond the file, and a `stroffset` scan that
reaches the end of the file before a NUL or its end offset.

## Model

| member | source | states |
|---|---|---|
| ByteOrder.Resive | tools/elfinfo/elf.hpp:42-47 | unchanged when no swap is needed; otherwise the value whose bytes are the input's bytes reversed |
| ByteOrder.ResiveTwice | tools/elfinfo/elf.hpp:42-47 | resiving twice with the same flag gives the original value back |
| ByteOrder.ResiveOfNativeLoad | tools/elfinfo/elf.cc:225-226 | with the flag "file big-endian differs from host big-endian", a native load then `resive` equals the field decoded in the file's byte order, on either host |
| Dynamic.EncodeEntries | tools/cmchrpath/cmchrpath.cc:98-100 | the table is one entry size per entry long (its contents are fixed by the round trip below) |
| Dynamic.DecodeEncodeEntries | tools/cmchrpath/cmchrpath.cc:98-100 | decoding the encoded dynamic table (followed by anything) returns every entry, narrowed to the word width |
| ElfReader.Endina | tools/elfinfo/elf.cc:41-53 | LittleEndian exactly for ELFDATA2LSB, BigEndian exactly for ELFDATA2MSB, None for everything else |
| ElfReader.Osabi | tools/elfinfo/elf.cc:55-97 | "UNKNOWN" exactly for the bytes outside the listed OS/ABI codes |
| ElfReader.Machine | tools/elfinfo/elf.cc:98-126 | "UNKNOWN" exactly for the machines outside the list; "MIPS" exactly for EM_MIPS |
| ElfReader.ObjectType | tools/elfinfo/elf.cc:128-142 | "UNKNOWN" exactly for e_type values beyond ET_CORE |
| ElfReader.CharValue | tools/elfinfo/elf.cc:224 | the version byte read as a plain `char`: equal to the byte modulo 256, negative only where char is signed |
| ElfReader.MemView.Cast | tools/elfinfo/elf.hpp:36-41 | null exactly when the offset is at or past the end of the mapping; otherwise the non-empty bytes from that offset to the end, byte for byte |
| ElfReader.MemView.Field | tools/elfinfo/elf.cc:161-165 | a field of the given width, loaded natively and passed through `resive`, is below 256^width |
| ElfReader.MemView.Stroffset | tools/elfinfo/elf.cc:144-153 | fails exactly when the scan reaches the end of the mapping before a NUL and before end; otherwise the bytes from off up to the first NUL, never reaching end, no longer than max(0, end - off), NUL-free, ending only at a NUL or at end |
| ElfReader.SectionTableFits | tools/elfinfo/elf.cc:240-242 | when it passes, every section header lies inside the mapping; when it fails, the last header (or the table start) is outside |
| ElfReader.SectionTableCheckAsWritten | tools/elfinfo/elf.cc:166-168 | the check in wrapping 64-bit `size_t` arithmetic; every table that fits passes, and it agrees with the corrected bound whenever the sum does not wrap |
| ElfReader.SectionTableCheck32Exact | tools/elfinfo/elf.cc:237-242 | with a 16-bit e_shnum and a 32-bit e_shoff the 32-bit check cannot wrap, so it is exactly the corrected bound |
| ElfReader.SectionTableCheckWrapsAround | tools/elfinfo/elf.cc:163-168 | e_shoff = 2^64 - 64, e_shnum = 1, a 64-byte file: the check passes though the table lies outside the mapping, `cast` returns null, and the reader reads outside the mapping |
| ElfReader.HeaderAt | tools/elfinfo/elf.cc:174-179 | section header i's fields, read from a header inside the mapping, fit their widths: sh_type and sh_link 32 bits, sh_offset, sh_size and sh_entsize one word |
| ElfReader.SectionHeaders | tools/elfinfo/elf.cc:173-179 | one header per e_shnum, read in table order |
| ElfReader.ScanDynamic | tools/elfinfo/elf.cc:173-182 | with no SHT_DYNAMIC header the recorded fields stay as they were |
| ElfReader.LastDynamicIsLast | tools/elfinfo/elf.cc:173-182 | reference: `LastDynamic` finds an SHT_DYNAMIC header with none after it, and finds none exactly when no header from the start position is SHT_DYNAMIC |
| ElfReader.ScanDynamicLastWins | tools/elfinfo/elf.cc:173-182 | the loop's recorded fields are those of the last SHT_DYNAMIC header, and the initial ones when there is none |
| ElfReader.ReadDynamic | tools/elfinfo/elf.cc:196-199 | exactly n entries, each d_tag and d_val fitting one word (their contents are the table decoded in the file's byte order, `ReadDynamicInFileOrder`) |
| ElfReader.EntryString | tools/elfinfo/elf.cc:201-211 | the string at soff + d_val (wrapped to the word width) up to send; NUL-free; always readable when send lies in the mapping |
| ElfReader.WalkStep | tools/elfinfo/elf.cc:199-215 | DT_NEEDED appends its string to deps; DT_SONAME, DT_RUNPATH and DT_RPATH overwrite their field; any other tag changes nothing |
| ElfReader.Walk | tools/elfinfo/elf.cc:197-216 | fails exactly when some resolved string runs off the mapping; otherwise deps gains the DT_NEEDED strings in table order, soname, rupath and rpath are the strings of the last entry with their tag (else unchanged), and nothing else changes |
| ElfReader.InquisitiveClass | tools/elfinfo/elf.cc:157-165 | e_machine and e_type are recorded; e_shnum beyond the file reads outside the mapping; otherwise the result is the section stage's for e_shoff and e_shnum; endian, osabi, version and bit64 are kept |
| ElfReader.InquisitiveSections | tools/elfinfo/elf.cc:166-191 | a table the as-written check refuses is rejected; one it lets through only by wrap-around reads outside the mapping; no usable dynamic section is accepted with the lists untouched; sh_link >= shnum is rejected; otherwise the result is the walk of the last dynamic section with header sh_link as string table; only the four list fields can change |
| ElfReader.InquisitiveSectionsWalksLastDynamic | tools/elfinfo/elf.cc:173-191 | when header j is the last SHT_DYNAMIC one and usable, the section stage walks its entries with the string table its sh_link names |
| ElfReader.InquisitiveWalk | tools/elfinfo/elf.cc:193-218 | never rejects; reads outside the mapping exactly when the entries or a resolved string lie beyond the file; always accepts when the entries and the string table lie inside it; when accepted, the lists are those of the walk over the sh_size / sh_entsize entries read at sh_offset |
| ElfReader.StringTableOf | tools/elfinfo/elf.cc:193-194 | the string table ends at sh_offset + sh_size, wrapped to the word width |
| ElfReader.ViewOf | tools/elfinfo/elf.cc:222-226 | the swap flag is set exactly when the file's big-endian-ness differs from the host's |
| ElfReader.FieldInFileOrder | tools/elfinfo/elf.cc:174-179 | every field read through the reader's view has its value in the file's byte order |
| ElfReader.ReadEntryInFileOrder | tools/elfinfo/elf.cc:197-198 | d_val and d_tag of one entry, read through the reader's view, are the entry's two words decoded in the file's byte order |
| ElfReader.ReadDynamicInFileOrder | tools/elfinfo/elf.cc:195-199 | the dynamic entries the reader walks are the table decoded in the file's byte order, whatever the host |
| ElfReader.Inquisitive | tools/elfinfo/elf.cc:221-240 | endian, osabi and version come from the identification bytes; a class byte other than 1 or 2 is rejected; bit64 is set exactly for class 2; class 2 and class 1 continue with the class stage for the Elf64 and Elf32 layouts, through the byte-order view of the file |
| ElfReader.InquisitiveHeaderInFileOrder | tools/elfinfo/elf.cc:161-162 | for either class, machine and type are the names of e_machine and e_type read in the file's byte order, whatever the host |
| RPathSearch.Find | tools/cmchrpath/cmchrpath.cc:157 | the first occurrence at or after the start position, or none |
| RPathSearch.FindRPathFrom | tools/cmchrpath/cmchrpath.cc:154-180 | the loop from pos: a result is a whole segment at or after pos and the first one; no result means there is no segment start in [pos, size) |
| RPathSearch.FindRPath | tools/cmchrpath/cmchrpath.cc:152-181 | the smallest position below the size where want is a whole ':'-delimited segment; npos exactly when there is none, always for an empty value |
| RPathSearch.FindsWholeSegmentOnly | tools/cmchrpath/cmchrpath.cc:162-173 | in "/a:/ab:/abc", "/ab" is found at 3; its occurrence inside "/abc" is not a segment |
| ChRPath.PresentEntries | tools/cmchrpath/cmchrpath.cc:203-215 | RPATH first, then RUNPATH, only those present; none exactly when neither is present |
| ChRPath.Splice | tools/cmchrpath/cmchrpath.cc:112-124 | a write at a seek position: the file length is kept, the bytes are placed there, nothing else changes |
| ChRPath.Padded | tools/cmchrpath/cmchrpath.cc:332-337 | the value followed by NULs up to the slot's size |
| ChRPath.WriteSlots | tools/cmchrpath/cmchrpath.cc:321-348 | successive slot writes keep the file's length |
| ChRPath.WriteSlotsOutside | tools/cmchrpath/cmchrpath.cc:321-348 | bytes in no written slot are unchanged |
| ChRPath.WriteSlotsLastWriteWins | tools/cmchrpath/cmchrpath.cc:321-337 | each byte of a slot no later write overlaps holds that slot's padded value |
| ChRPath.WriteSlotsHold | tools/cmchrpath/cmchrpath.cc:321-337 | each slot no later write overlaps ends up holding exactly its padded value |
| ChRPath.WriteSlotsZeroFill | tools/cmchrpath/cmchrpath.cc:126-143 | writing empty values leaves every byte of every slot NUL, whatever the overlaps |
| ChRPath.WriteSlotsUnchanged | tools/cmchrpath/cmchrpath.cc:332-337 | writes whose slots already hold their padded values leave the file as it was |
| ChRPath.OrderByIndex | tools/cmchrpath/cmchrpath.cc:40-42 | the same entries, ordered by their index in the dynamic section |
| ChRPath.ZeroWrites | tools/cmchrpath/cmchrpath.cc:55-60 | one NUL-fill per entry over its recorded position and size |
| ChRPath.DynamicEntrySize | tools/cmchrpath/cmchrpath.cc:62-64 | the difference of entry positions 1 and 0 in `unsigned long`; the plain difference when it is in range |
| ChRPath.AdjustEntry | tools/cmchrpath/cmchrpath.cc:75-93 | (in a build that defines DT_MIPS_RLD_MAP_REL) a DT_MIPS_RLD_MAP_REL value grows by erased entries times the entry size: exactly, when that does not overflow, and always congruent modulo 2^64 and below 2^64; every other entry is unchanged |
| ChRPath.StripRunPath | tools/cmchrpath/cmchrpath.cc:66-96 | no RPATH or RUNPATH entry remains; the length shrinks by exactly the number erased |
| ChRPath.StripKeepsOthersInOrder | tools/cmchrpath/cmchrpath.cc:66-96 | each other entry keeps its relative order, landing at its index minus the entries erased before it, with the MIPS fix-up for exactly that count |
| ChRPath.KeptEntries | tools/cmchrpath/cmchrpath.cc:66-96 | the entries kept are the original ones less the RPATH and RUNPATH entries, and none of them is RPATH or RUNPATH |
| ChRPath.KeptTable | tools/cmchrpath/cmchrpath.cc:98-100 | the re-encoded table is no longer than the original one |
| ChRPath.RemoveRPath | tools/cmchrpath/cmchrpath.cc:13-150 | no entries: true, not removed, file unchanged; an empty entry list: fails "DT_NULL before the end"; otherwise removed, with the length kept and the file that the table write and the NUL fills produce |
| ChRPath.RemovedFile | tools/cmchrpath/cmchrpath.cc:98-143 | the table write followed by the NUL fills keeps the file's length |
| ChRPath.RemovedFileSlots | tools/cmchrpath/cmchrpath.cc:126-143 | after removal every byte of the RPATH and RUNPATH slots is NUL |
| ChRPath.RemovedFileOutside | tools/cmchrpath/cmchrpath.cc:112-143 | outside the two slots, the re-encoded table sits at the table's offset and every other byte, the old table's tail included, is unchanged |
| ChRPath.NulFills | tools/cmchrpath/cmchrpath.cc:126-143 | one fill per present entry, each writing nothing but NULs over a present entry's whole slot |
| ChRPath.NulFillsCover | tools/cmchrpath/cmchrpath.cc:126-143 | every byte of the RPATH and RUNPATH slots lies in one of the NUL fills |
| ChRPath.NulFillsAvoid | tools/cmchrpath/cmchrpath.cc:126-143 | no NUL fill touches a byte outside the RPATH and RUNPATH slots |
| ChRPath.RemovedTableInPlace | tools/cmchrpath/cmchrpath.cc:112-124 | when no slot overlaps it, the patched file holds exactly the re-encoded table at the table's offset |
| ChRPath.RemovedTableReadsBack | tools/cmchrpath/cmchrpath.cc:98-124 | decoding the patched file at the table offset gives the kept entries, none of them RPATH or RUNPATH |
| ChRPath.ReplaceSegment | tools/cmchrpath/cmchrpath.cc:265-278 | the value's length changes by the new path's length minus the old one's, and one less exactly when an empty new path replaces a last segment after a ':' |
| ChRPath.Replacement | tools/cmchrpath/cmchrpath.cc:250-258 | none exactly when the old path is not a segment of the value |
| ChRPath.ReplacementInPlace | tools/cmchrpath/cmchrpath.cc:250-278 | a non-empty new path replaces the first segment equal to the old path: the length changes by the difference, the bytes before it are kept, and the new path is a segment in its place |
| ChRPath.ReplaceSegmentInPlace | tools/cmchrpath/cmchrpath.cc:274-278 | a non-empty new path takes the old one's place as a whole segment, and replacing it back restores the value |
| ChRPath.ReplaceSegmentWithEmpty | tools/cmchrpath/cmchrpath.cc:265-272 | with an empty new path a last segment also loses its ':'; other segments keep their separators |
| ChRPath.ReplaceSegmentBySelf | tools/cmchrpath/cmchrpath.cc:265-278 | replacing a segment by itself gives back the value |
| ChRPath.PlanEntry | tools/cmchrpath/cmchrpath.cc:229-297 | an entry at the first accepted position is skipped; old absent, new present: skipped, clearing the removal flag; neither: fails naming the entry; old present: fails "too long" exactly when size < length + 1, else one write is planned |
| ChRPath.PlanWrites | tools/cmchrpath/cmchrpath.cc:229-297 | the loop plans at most one write per remaining entry |
| ChRPath.PlanEntryFacts | tools/cmchrpath/cmchrpath.cc:229-297 | one step keeps every planned write sound (a present entry's replacement that fits its slot) and covers the entry |
| ChRPath.PlanWritesSound | tools/cmchrpath/cmchrpath.cc:229-297 | the loop keeps every planned write sound and the writes planned before it in place |
| ChRPath.PlanWritesCovers | tools/cmchrpath/cmchrpath.cc:229-297 | the loop plans a write at the position of every remaining entry holding the old path |
| ChRPath.PlanWritesStop | tools/cmchrpath/cmchrpath.cc:236-293 | when the loop fails, it is for a missing old path or a too-long replacement, naming an entry it looked at |
| ChRPath.PlanChange | tools/cmchrpath/cmchrpath.cc:229-298 | every planned write is a present entry's replacement that fits; every entry holding the old path is covered; the removal flag implies all planned values are empty |
| ChRPath.PlannedWritesFit | tools/cmchrpath/cmchrpath.cc:284-293 | every planned write lies inside the file |
| ChRPath.PlanStopsOnlyWhen | tools/cmchrpath/cmchrpath.cc:236-293 | a failure comes from an entry holding neither path, or one whose replacement does not fit |
| ChRPath.ChangeRPath | tools/cmchrpath/cmchrpath.cc:189-356 | no entries: succeeds unchanged exactly when the new path is empty; a planning failure is reported; nothing to write: unchanged; all values empty: it is RemoveRPath; else changed with the length kept |
| ChRPath.ChangedSlotsHoldNewValues | tools/cmchrpath/cmchrpath.cc:320-348 | each rewritten slot holds the new value and NUL padding; bytes outside the rewritten slots are unchanged |
| ChRPath.AliasedEntryWrittenOnce | tools/cmchrpath/cmchrpath.cc:230-234 | RPATH and RUNPATH at the same position give at most one write |
| ChRPath.FindWholeValue | tools/cmchrpath/cmchrpath.cc:152-181 | a value that is the path alone is found at position 0 |
| ChRPath.ChangeToEmptyRemoves | tools/cmchrpath/cmchrpath.cc:305-308 | changing each value's only segment to the empty path is exactly RemoveRPath |
| ChRPath.ChangeToSameKeepsBytes | tools/cmchrpath/cmchrpath.cc:321-354 | changing a path to itself in canonically padded slots leaves the file's bytes unchanged, yet reports a change |
| ChRPath.CheckRPath | tools/cmchrpath/cmchrpath.cc:359-380 | RPATH is preferred over RUNPATH; an empty path checks true exactly when neither exists; otherwise true exactly when the preferred value has it as a segment |
| ChRPath.LookupRPath | tools/cmchrpath/cmchrpath.cc:381-394 | the RPATH value, else the RUNPATH value, else empty |
| ChRPath.CheckIsSearchOfLookup | tools/cmchrpath/cmchrpath.cc:359-394 | for a non-empty path, checking is searching the looked-up value |
| ReadBack.RemovedRunPathInvisibleToReader | tools/cmchrpath/cmchrpath.cc:66-124 | after removal the reader reads back exactly the kept entries, none of them RPATH or RUNPATH |
| Attributes.AttributesTables.Empty | tools/elfinfo/elf.hpp:71 | holds exactly when both lists are empty, i.e. the tables equal the cleared ones up to mnlen |
| Attributes.AttributesTables.Clear | tools/elfinfo/elf.hpp:72-77 | both lists are empty and mnlen is 0 |
| Attributes.AttributesTables.AppendValue | tools/elfinfo/elf.hpp:78-82 | exactly one single-value row is appended; the multi-value rows are unchanged; mnlen = max(mnlen, name length); the invariant is kept |
| Attributes.AttributesTables.AppendValues | tools/elfinfo/elf.hpp:83-91 | exactly one multi-value row is appended; the single-value rows are unchanged; mnlen = max(mnlen, name length); the invariant is kept |
| Attributes.BuildMatchesRows | tools/elfinfo/elf.hpp:67-91 | tables built by appends hold each kind of row in order; mnlen is the longest name; the invariant holds; Empty exactly when nothing was appended |
| Paths.FindSlash | tools/cmchrpath/path.hpp:92 | the first '/' at or after the position, or npos when there is none |
| Paths.SplitFrom | tools/cmchrpath/path.hpp:90-107 | the loop keeps only segments that are non-empty, not ".", not "..", and free of '/' |
| Paths.PathSplit | tools/cmchrpath/path.hpp:88-109 | every output segment is non-empty, not ".", not "..", and free of '/' |
| Paths.SplitFromIsCollapse | tools/cmchrpath/path.hpp:91-107 | the loop equals the reference: cut at every '/', then apply each piece |
| Paths.PathSplitIsCollapse | tools/cmchrpath/path.hpp:88-109 | PathSplit equals the reference fold over the raw pieces |
| Paths.StepShape | tools/cmchrpath/path.hpp:95-101 | ".." drops the last kept segment (if any), "." keeps the list, any other piece is appended after the kept ones |
| Paths.DotDotPopsLastSegment | tools/cmchrpath/path.hpp:95-98 | a trailing ".." removes the last kept segment, or nothing at the root |
| Paths.SplitOfJoin | tools/cmchrpath/path.hpp:88-109 | splitting a + "/" + b continues from a's segments with b's pieces |
| Paths.SplitKeepsOrder | tools/cmchrpath/path.hpp:93-101 | without "..", the output is the non-empty, non-"." pieces in input order |
| Paths.AppendEach | tools/cmchrpath/path.hpp:113-116 | the loop only appends after the initial string |
| Paths.AppendEachIsJoin | tools/cmchrpath/path.hpp:113-116 | the loop yields the prefix, the segments joined by '/', and a final '/' |
| Paths.CanonicalLoopShape | tools/cmchrpath/path.hpp:113-119 | no segments: "/"; otherwise longer than two characters, and dropping the last '/' gives "/" + the joined segments |
| Paths.PathCanonicalize | tools/cmchrpath/path.hpp:111-121 | starts with '/'; equals "/" + the segments joined by '/'; is "/" exactly when the split is empty; otherwise does not end in '/' |
| Paths.SplitOfCanonical | tools/cmchrpath/path.hpp:111-121 | splitting the canonical form gives back the same segments |
| Paths.CanonicalizeIdempotent | tools/cmchrpath/path.hpp:111-121 | canonicalizing twice equals canonicalizing once |

## Left out

- File I/O: opening, mapping and unmapping files (`mapview`, the destructor,
  `open`/`mmap`/`munmap`) and the `ofstream` open, seek and write error
  paths of `RemoveRPath` and `ChangeRPath`. The file is a byte sequence
  given as input, and a write is a splice that always succeeds.
- The ELF parser the patcher uses (`cmELF.h`) is not part of this model. Its
  result is the `ElfView` input, and `EncodeDynamicEntries` is modelled as
  the entries encoded in the view's byte order and word size.
- `GetExecutableAbsolutePath`, the command line (`main`, usage, `getopt`,
  `ReplaceRupath`), `elfinfo.cc` and `AttributesTables::DumpWrite`: process
  environment and printing.
- The "WARNING NO SECTIONS!" message on stderr: only the returned status is
  modelled.
- ChRPath.AdjustEntry: the model takes the build in which
  `cmELF::TagMipsRldMapRel` is DT_MIPS_RLD_MAP_REL (0x70000035). In a build
  whose `<elf.h>` lacks that tag the constant is 0, the guard at
  tools/cmchrpath/cmchrpath.cc:75 never holds and every entry value stays
  unchanged; that configuration is not modelled.
- Paths and attribute names are Dafny strings (sequences of characters)
  where the source has `std::string` bytes. Every byte is one character
  (code points 0 to 255), and only '/' and '.' are compared, so no behaviour
  is lost.
- The native struct layouts are replaced by field offsets (`ElfReader.ELF32`,
  `ElfReader.ELF64`). `sizeof(Elf32_Shdr)` and `sizeof(Elf64_Shdr)` are 40
  and 64, and both classes' bound checks are evaluated in the 64-bit
  `size_t` of an LP64 host.
- ElfReader.Inquisitive: what the source does after reading outside the
  mapping (a crash, or garbage values) is not modelled; such inputs end
  with status `OutsideMapping`.
- ElfReader.Inquisitive: requires the file to be at least as long as the
  Elf32 header, because `mapview` refuses shorter files before the reader
  runs (tools/elfinfo/elf.cc:29).
- ChRPath.RemoveRPath: requires the parse to be consistent with the file
  (`ValidView`: string slots and the dynamic table inside the file). A write
  past the end would grow the file, which a parse of that file cannot
  produce.
- ChRPath.ChangeRPath: requires `ValidView` for the same reason. Slot
  contents are stated only for slots that no later write overlaps; RPATH
  and RUNPATH slots that partly overlap are not characterised further.
- ChRPath.ChangedSlotsHoldNewValues: states slot contents only for slots no
  later write overlaps, for the same reason.
- Dynamic-entry tags are held as the unsigned bit pattern of `d_tag`. Every
  tag compared against is positive, so signed and unsigned readings agree.

## Findings

| source | as written | input that shows it | evidently intended | confidence | as-written member | corrected member |
|---|---|---|---|---|---|---|
| tools/elfinfo/elf.cc:166-168 | `shnum * sizeof(Elf64_Shdr) + off > size_` is computed in 64-bit unsigned arithmetic and wraps | a 64-byte ELF64 file with e_shoff = 2^64 - 64 and e_shnum = 1: the sum wraps to 0, the check passes, `cast` returns null and `sects[0]` is read | reject any table whose last header ends past the mapping | high (not executed) | ElfReader.SectionTableCheckAsWritten | ElfReader.SectionTableFits |
