# The TinyCC port, verified

A model in Dafny of the parts of the TinyCC port (`tinycc/`) that keep several tables consistent with
each other: the ELF linker's symbol tables and their two hash indexes, section layout, dynamic
relocation, the PLT and GOT, jump lists threaded through code bytes, the stack frame that caller and
callee compute apart, the DWARF line program with its decoder, register allocation for inline
assembly, and operand encoding.

Code that works by changing things is modelled by classes, arrays and loops (`SymTab`, `Code`,
`Writer`, `Linker`, `Dynamic`, `Generator`, in-place sorts and relocation), each method proved against a
function of the old state; what the source promises is then proved about those functions. Words of 32
bits wrap explicitly (`Bytes.Wrap32`); `tcc_error` is a result flag or an error count.

The modules, from the bottom up:

- `Bytes`, `Bits`, `Permutations`, `Symbols`, `Relocations`: words in byte buffers, bitwise operators,
  renumberings, symbol and relocation records, and the rule for merging two symbols.
- `HashChains`, `SymbolTable`, `FileMerge`, `Resolution`: the SysV hash, the symbol table with the
  in-place merge of a compiled file, and the order-independence of symbol resolution.
- `BucketOrder`, `SymbolOrder`, `GnuHash`, `GnuHashFill`: the stable reorderings of a symbol table.
- `SectionOrder`, `Layout`, `LayoutRun`, `OutputOrder`, `SectionRenumber`, `FileWriter`: from sections to
  segments and to the bytes of the file.
- `DynReloc`, `PltGot`: relocation with the dynamic relocations it leaves, PLT stubs and GOT slots.
- `JumpChain`, `CodeBuffer`, `ModRm`, `CallFrame`, `AsmConstraints`, `AsmOrder`: the i386 code generator
  and assembler.
- `Leb128`, `LineProgram`, `LineWriter`: DWARF numbers, the line-number machine, its writer.

Where the code differs from what one would expect, the model follows the code:

- A line program switches the file before it advances the address, so an address range is
  attributed to the line of the report that begins it but to the file of the report that ends it
  (`LineWriter.RunFinds`).
- A section without data keeps none of the dynamic relocations that were reserved for it, and a relocation
  between DWARF sections is counted but never kept (`DynReloc.PrepareThenRelocate` gives the exact
  condition; `DynReloc.ReservedWithoutData` and `DynReloc.ReservedBetweenDwarf` are the counterexamples).
- The symbol that is kept of several can depend on the order of the files: of two common symbols it is the
  first, whatever their sizes (`Resolution.OrderCanMatter`; `Resolution.KeptInAnyOrder` says exactly when
  it does not).
- A section that follows a non-empty bss in its segment is not mapped to its address, so that the order of
  the sections matters (`Layout.SectionMapped`; `OutputOrder.AllMapped` for ordinary programs).
- A relocation entry has 24 bits for its symbol, so that redirecting it keeps the symbol exactly when the
  new index is below 2^24 (`Relocations.MovedKeepsTarget`).
- A call agrees with its callee except when a register convention meets a structure result or a
  register parameter that is not one word, or when the operand of `ret` overflows its 16 bits
  (`CallFrame.FrameAgrees` is an equivalence; `CallFrame.SplitLongLong`, `CallFrame.StructFromFastcall`
  and `CallFrame.LongStdcall` are the counterexamples).
- A matching constraint that refers to another matching constraint gets no register at all
  (`AsmConstraints.RefersTo`; `AsmConstraints.ChainedReference` is an instance).
- An index register of esp is encoded as "no index" (`ModRm.ModrmRoundTrip` is an equivalence).
- The comment in `create_plt_entry` says that the relocation entry is made afterwards; it is made before,
  which is why its offset is the current size less one entry (`PltGot.Linker.CreatePltEntry`).

## Model

| member | source | states |
|---|---|---|
| SymbolTable.SymTab.constructor | tinycc/tccelf.c:257-284 | a new table holds the null symbol, an empty string and a hash index for it |
| SymbolTable.SymTab.PutElfStr | tinycc/tccelf.c:363-373 | the name stands at the returned offset, nothing before it changes, and storage above it survives |
| SymbolTable.ComputeElfHash | tinycc/tccelf.c:376-388 | the loop computes the ELF hash |
| SymbolTable.ElfStepMeans | tinycc/tccelf.c:381-386 | arithmetically, one turn drops the top four bits of 16 * h + c and changes the bits 4 to 7 by them |
| SymbolTable.ElfHashShort | tinycc/tccelf.c:376-388 | the hash of a name whose bytes, as digits to the base 16, are below 2^28 is that number |
| SymbolTable.SymTab.RebuildHash | tinycc/tccelf.c:391-425 | from any state of the hash section, an index of 2 + buckets + symbols words in which every chain lists the hashed symbols of its bucket, highest index first |
| SymbolTable.SymTab.LinkSymbol | tinycc/tccelf.c:413-424 | one turn extends the linked part by one symbol |
| SymbolTable.SymTab.PutElfSym | tinycc/tccelf.c:428-473 | the symbol becomes the next one; the index stays exact through growth and rehashing, and hashed symbols stay at most twice the buckets |
| SymbolTable.ChainSkips | tinycc/tccelf.c:486-494 | a plain scan below k meets the wanted name at the latest symbol of its bucket or below that one: following the chain passes over nothing of that name |
| SymbolTable.SymTab.FindElfSym | tinycc/tccelf.c:475-496 | following a chain ends, and returns what a plain scan from the end of the table returns: the highest non-local symbol of the name, or 0 |
| SymbolTable.MergeRecord | tinycc/tccelf.c:698-765 | the branches for an existing record compute the merging rule and report a double definition exactly when the rule does |
| SymbolTable.SymTab.SetElfSym | tinycc/tccelf.c:684-767 | on the table as a list of symbols it is: find by plain scan, then merge or append |
| SymbolTable.SymTab.BeginFile | tinycc/tccelf.c:155-163 | the start of the file in the symbol and string tables is remembered and hashing is off |
| SymbolTable.SymTab.MergeNext | tinycc/tccelf.c:186-204 | reinserting one symbol over the storage being read leaves every symbol not yet read, and its name, readable |
| SymbolTable.SymTab.ReinsertFile | tinycc/tccelf.c:179-204 | the in-place loop gives the table, the renumbering and the number of clashes of inserting a snapshot symbol by symbol |
| SymbolTable.SymTab.EndFile | tinycc/tccelf.c:174-213 | the same, with every relocation redirected by the renumbering; buffers do not grow |
| SymbolTable.CountMoved | tinycc/tccelf.c:1057-1059 | a reordering leaves the number of hashed symbols, so that the load of the rebuilt index is the one before |
| SymbolTable.SymTab.Reorder | tinycc/tccelf.c:1033-1059 | records that were moved are taken over and the hash is rebuilt with as many buckets: the table is valid again, its index exact |
| FileMerge.FindUnique | tinycc/tccelf.c:475-496 | in a table with one hashed symbol a name, lookup finds each of them |
| FileMerge.InsertContinues | tinycc/tccelf.c:684-767 | set_elf_sym keeps names unique, never moves, renames or undefines a symbol, and leaves locals as they are |
| FileMerge.MergeFileKeeps | tinycc/tccelf.c:174-213 | merging a file: each local definition has a record of its own equal to the old one, each other symbol the one record lookup finds for its name, and no definition is lost |
| FileMerge.ReferenceKept | tinycc/tccelf.c:186-206 | a name that nobody defines keeps the last reference of the file: a local one has become global, weak stays weak, a global one loses its type in an object file; value, size and visibility are those of that reference |
| FileMerge.OthersUntouched | tinycc/tccelf.c:174-213 | the record of a name that the file does not share is not changed |
| Resolution.MergeResolves | tinycc/tccelf.c:174-213 | after the merge the record of a name is what its uses, the old record and the symbols of the file in order, resolve to |
| Resolution.DefinitionKept | tinycc/tccelf.c:684-767 | a name with a definition: the record is a definition of the table or of the file, none has a higher rank, and the old one stays if it has as high a rank |
| FileMerge.RelocationKeepsSymbol | tinycc/tccelf.c:827-846 | after the merge a relocation of the file names the symbol it named, exactly when the new index is below 2^24; one against an older symbol is untouched, types and offsets stay |
| Resolution.MergeByRank | tinycc/tccelf.c:698-765 | on default-visibility inputs the branches of set_elf_sym amount to comparing ranks: strong, common or bss, weak, undefined |
| Resolution.InsertAllResolves | tinycc/tccelf.c:684-767 | any sequence of definitions of one name leaves one record, the resolved one, and as many clashes |
| Resolution.ResolveWinner | tinycc/tccelf.c:684-767 | a strong definition wins, else the first common or bss, else the first weak; an error is reported exactly when two different strong definitions exist |
| Resolution.OrderIndependent | tinycc/tccelf.c:684-767 | for two orders of the same inputs the error is the same, the rank of the winner is the same, and an accepted strong definition is the same |
| Resolution.KeptInAnyOrder | tinycc/tccelf.c:684-767 | every order of the inputs keeps the same record if and only if all inputs of the highest rank are equal |
| Resolution.OrderCanMatter | tinycc/tccelf.c:731-738 | counterexample: two common definitions of different sizes |
| Resolution.CommonsKeepTheFirst | tinycc/tccelf.c:731-738 | two common symbols: the first one is kept, whichever that is |
| Resolution.VisibilityResolves | tinycc/tccelf.c:703-717 | the record has the most constraining visibility (default, protected, hidden, internal) of the first definition and all that follows it, and the flags of that definition |
| Resolution.DllsNeverClash | tinycc/tccelf.c:737-738 | among the symbols of DLLs no double definition is reported |
| Resolution.HiddenIgnored | tinycc/tccelf.c:729-730 | a global definition stays against hidden or internal ones, without an error |
| Resolution.SetRedefined | tinycc/tccelf.c:739-742 | a symbol from .set is redefined: the last strong definition is kept, without an error |
| Resolution.AbsoluteIsNotData | tinycc/tccelf.c:731-746 | a definition in a reserved section does not take over from a common symbol: it is reported, and a common symbol after it is ignored |
| BucketOrder.OrderMoves | tinycc/tccelf.c:852-893 | ordering by class is a permutation and the place function is its renumbering |
| BucketOrder.PlaceMonotone | tinycc/tccelf.c:852-893 | lower classes come first and order within a class is kept |
| SymbolOrder.CopyKind | tinycc/tccelf.c:863-885 | one pass copies one kind in order and records where each symbol went |
| SymbolOrder.SortSyms | tinycc/tccelf.c:852-893 | the two passes in place give the ordered table; sh_info is the number of locals when it is set; relocations follow |
| SymbolOrder.StablePartition | tinycc/tccelf.c:849-893 | the order is a permutation with locals in front, stable within each kind, index 0 fixed |
| Relocations.UpdateRelocs | tinycc/tccelf.c:827-846 | every relocation from the first renumbered symbol on is redirected, in place, the others stay |
| Relocations.MovedKeepsTarget | tinycc/tccelf.c:827-846 | after a renumbering a redirected relocation has its type, and denotes the same record exactly when the new index is below 2^24 |
| GnuHash.ComputeHash | tinycc/tccelf.c:936-944 | the loop computes the hash modulo 2^32 |
| GnuHash.HashMeans | tinycc/tccelf.c:936-944 | in closed form: 5381 * 33^n plus the bytes as digits to the base 33, modulo 2^32 |
| GnuHash.BloomAdds | tinycc/tccelf.c:1022-1024 | adding a hash to the Bloom filter makes its own test succeed and no other test fail |
| GnuHash.Lookup | tinycc/tccelf.c:946-1060 | the loader's lookup (Bloom test, bucket, chain up to a word with bit 0 set) on a section that describes the table finds a defined symbol of the name exactly when there is one |
| GnuHashFill.CreateGnuHash | tinycc/tccelf.c:899-934 | sizes: ndef / 4 + 1 buckets and the least power of two of Bloom words with ndef < 4 times it |
| GnuHashFill.CopyUndefined | tinycc/tccelf.c:967-977 | undefined symbols come first, in order, the others have their hash computed |
| GnuHashFill.BuildBuckets | tinycc/tccelf.c:994-1009 | first, last and next list the members of each bucket in order |
| GnuHashFill.FillBucket | tinycc/tccelf.c:1014-1030 | following one list places one class, its chain words, its head and its Bloom bits |
| GnuHashFill.FillTable | tinycc/tccelf.c:1011-1031 | the loop over the buckets places all classes |
| GnuHashFill.FilledDescribes | tinycc/tccelf.c:967-1033 | the filled section describes the reordered table, which is a permutation of the old one |
| GnuHashFill.Dynamic.UpdateGnuHash | tinycc/tccelf.c:946-1060 | the section describes the new table; undefined symbols lead in their old order; versions and relocations are carried along; the SysV hash is rebuilt, and with unique names both indexes are those of the new table |
| GnuHashFill.MovedUnique | tinycc/tccelf.c:1057-1059 | reordering keeps names unique and defined symbols hashed |
| GnuHashFill.LookupsAgree | tinycc/tccelf.c:475-496 | an answer with the contract of the GNU lookup is what a plain scan of the table finds, when that symbol is defined |
| GnuHashFill.Dynamic.FindBoth | tinycc/tccelf.c:475-496 | on a table with both indexes the loader's lookup and find_elf_sym return the same index, except that an undefined symbol is not found by the loader |
| SectionOrder.Adjusted | tinycc/tccelf.c:2205-2267 | classifying changes nothing of a section but its write flag, and, in a flat binary, the size of a section that has no name or is not allocated |
| SectionOrder.AdjustedWrites | tinycc/tccelf.c:2264-2267 | a section is writable afterwards exactly when it was, or its class is RELRO |
| SectionOrder.SortByClass | tinycc/tccelf.c:2205-2272 | the insertion sort lists every section once, by class, stably, the null section first |
| SectionOrder.InsertAt | tinycc/tccelf.c:2268-2270 | one turn enters one section into the sorted part, after its equals |
| LayoutRun.SortSections | tinycc/tccelf.c:2198-2302 | the sections in output order, stably within a class, with their classes and marks, the number of PT_LOAD headers and of section headers |
| Layout.MarkSegments | tinycc/tccelf.c:2275-2301 | the counting loop computes the marks |
| Layout.MarksMean | tinycc/tccelf.c:2275-2301 | the count is the number of marks, and each loaded section that is not empty belongs to a segment of exactly its flags |
| LayoutRun.LayoutSections | tinycc/tccelf.c:2321-2457 | when the layout ends below 2^32 in memory and 2^31 in the file, and alignments are powers of two, the loop with its running address and offset computes the layout, and writes exactly the counted program headers |
| LayoutRun.LayoutOne | tinycc/tccelf.c:2378-2456 | one turn of that loop |
| LayoutRun.PlaceLoaded | tinycc/tccelf.c:2391-2407 | address and offset of a loaded section: at a new segment the page bump, or page alignment in a flat binary |
| Layout.SectionAligned | tinycc/tccelf.c:2381-2407 | every loaded section has an aligned address, every other an aligned offset and address 0; in a flat binary a section that opens a further segment is page-aligned instead |
| Layout.SectionsApart | tinycc/tccelf.c:2374-2456 | sections never overlap in the file, nor loaded ones in memory, and all come after the headers |
| Layout.HeaderCount | tinycc/tccelf.c:2275-2301 | the layout opens as many headers as were marked |
| Layout.FileSizeFits | tinycc/tccelf.c:2448-2455 | p_filesz <= p_memsz for every segment |
| Layout.SegmentsOnOwnPages | tinycc/tccelf.c:2391-2455 | rounded to pages, the address ranges of two segments never meet |
| Layout.SectionInside | tinycc/tccelf.c:2403-2455 | a loaded section that is not empty lies inside its segment, in memory and in the file |
| Layout.SegmentsMappable | tinycc/tccelf.c:2391-2455 | p_vaddr and p_offset are congruent modulo the page size if the base is page-aligned and no segment starts after a non-empty NOBITS section |
| Layout.SectionMapped | tinycc/tccelf.c:2391-2455 | the segment of a section maps its bytes in the file to its address, unless a non-empty NOBITS section stands before it in the same segment |
| Layout.SegmentAlign | tinycc/tccelf.c:2413-2446 | p_align is the page size, or for a thread-local segment the alignment of its first section |
| LayoutRun.LayoutSound | tinycc/tccelf.c:2198-2457 | for whatever sort_sections hands to layout_sections: sections aligned, apart, after the headers; as many headers as counted; p_filesz <= p_memsz; segments on pages of their own; page congruence under its condition; each loaded section that is not empty inside a segment with its write, execute and thread-local flags |
| OutputOrder.ByProtection | tinycc/tccelf.c:2207-2219 | sections stand by protection: read-only, writable, thread-local, not loaded, without a name |
| OutputOrder.RelroMeans | tinycc/tccelf.c:2239-2267 | RELRO are, of the sections in memory that are neither code nor thread-local, the arrays of functions, .dynamic, the GOT and read-only data that the loader relocates |
| OutputOrder.SegmentUniform | tinycc/tccelf.c:2275-2301 | sections of one segment have the same write, execute and thread-local flags, and RELRO sections have segments of their own |
| OutputOrder.BssLast | tinycc/tccelf.c:2255-2260 | behind zero-filled data there is, in its protection, only such data |
| OutputOrder.ByContents | tinycc/tccelf.c:2194-2262 | within a protection: interpreter, symbol tables, relocations, code, RELRO, data, notes, zero-filled data |
| OutputOrder.InterpFirst | tinycc/tccelf.c:2257-2258 | the interpreter's name is first in its protection |
| OutputOrder.PltRelocsLast | tinycc/tccelf.c:2233-2236 | the relocations of the PLT come after all others of their protection |
| OutputOrder.NamesLast | tinycc/tccelf.c:2223-2226 | .shstrtab, if it is the last section, stays the last that goes to the file |
| OutputOrder.AllMapped | tinycc/tccelf.c:2198-2457 | in a program without thread-local data and with one writable bss at most, every section with contents is mapped to its address by a segment of its protection, and all segments can be mapped |
| SectionRenumber.BuildBackmap | tinycc/tccelf.c:2773-2785 | the new list is the output order without unnamed sections; new list and new numbers are inverse to each other |
| SectionRenumber.ReorderSections | tinycc/tccelf.c:2767-2800 | sh_num is the new number; sh_info of relocation sections and st_shndx of symbols are mapped, in the sections that stay |
| SectionRenumber.ReferenceKept | tinycc/tccelf.c:2786-2797 | a reference to a section that is written names that section under its new number; one to a section that left becomes undefined |
| FileWriter.OutputSections | tinycc/tccelf.c:2694-2706 | the padding loop puts every section with contents at its offset, zeros in between |
| FileWriter.OutputElf | tinycc/tccelf.c:2656-2706 | headers first, each section header at its place, each section with contents at its sh_offset, zeros elsewhere |
| FileWriter.ObjectOffsets | tinycc/tccelf.c:3112-3120 | object files: offsets are multiples of 16, after the header table, and do not overlap |
| FileWriter.LayoutFits | tinycc/tccelf.c:2347-2350 | the header space that the layout reserves is the one the writer fills, so the writer meets the layout's offsets |
| FileWriter.NamedFirst | tinycc/tccelf.c:2281-2282 | the sections with a name are exactly the first shnum - 1 of the order |
| FileWriter.KeptArePrefix | tinycc/tccelf.c:2773-2785 | the new section list is the first part of the output order |
| FileWriter.WriteExecutable | tinycc/tccelf.c:3036-3079 | from the sorted sections: layout, new order and writer together put the bytes of every named section at the offset the layout gave it, all section headers at e_shoff and the program headers of the layout behind the file header |
| FileWriter.WriteObject | tinycc/tccelf.c:3106-3123 | object files: offsets and writer together put every section with contents at its sh_offset, and the section headers at e_shoff |
| DynReloc.PrepareDynamicRel | tinycc/tccelf.c:1210-1285 | the first pass counts, and rewrites the types of unresolved weak and of hidden references |
| DynReloc.Relocate | tinycc/i386-link.c:178-327 | one relocation, not for TLS, patches its field and appends its dynamic relocations at the write position, leaving all entries from there to the end unread and unharmed |
| DynReloc.RelocateField | tinycc/i386-link.c:184-254 | the field is patched by addend + S, addend + S - P or the GOT forms, modulo the width of the field |
| DynReloc.RelocateSection | tinycc/tccelf.c:1124-1175 | the compaction in place keeps, in order, exactly the entries that relocating a snapshot would emit; the data is the fold of all patches, with offsets between DWARF sections; the table gets the new size if it is allocated and the output is relocated when loaded |
| DynReloc.PassesAgree | tinycc/tccelf.c:1207-1285 | for any relocation list the second pass emits as many entries as the first reserved, less those between DWARF sections |
| DynReloc.PrepareThenRelocate | tinycc/tccelf.c:2150-2156 | both passes on a section: kept equals reserved if and only if the section has data and no relocation between DWARF sections, or nothing was reserved |
| DynReloc.ReservedWithoutData | tinycc/tccelf.c:1138-1140 | counterexample: an absolute relocation for which an entry is reserved, which a section without data does not use |
| DynReloc.ReservedBetweenDwarf | tinycc/tccelf.c:1149-1154 | counterexample: a relocation of one DWARF section against another is counted but not kept |
| DynReloc.BytesOutside | tinycc/tccelf.c:1138-1157 | bytes outside all fields keep their value |
| DynReloc.AbsoluteField | tinycc/i386-link.c:184-200 | R_386_32, among fields that do not overlap: S + A; unchanged if it is left to the loader; between DWARF sections relative to the section of the symbol |
| DynReloc.BranchField | tinycc/i386-link.c:201-216 | R_386_PC32 and PLT32: the place of the field plus its value is S + A, so that a call reaches S; unchanged if it is left to the loader |
| DynReloc.GotDistance | tinycc/i386-link.c:221-226 | GOTOFF: the address of the GOT plus the field is S + A; GOTPC: the place of the field plus its value is GOT + A |
| DynReloc.SlotField | tinycc/i386-link.c:217-231 | GOT32: the field is A plus the offset of the symbol's slot; GLOB_DAT and JMP_SLOT: it is S |
| DynReloc.HalfField | tinycc/i386-link.c:232-243 | the 16-bit forms, relative to the place of the field in a flat binary only |
| DynReloc.ErrorsMean | tinycc/i386-link.c:232-242 | an error is reported exactly for 16-bit fields outside a flat binary |
| DynReloc.HiddenResolved | tinycc/tccelf.c:1242-1253 | both passes: a reference to a hidden symbol is resolved in place and leaves no entry, even in a library against a dynamic symbol |
| DynReloc.AbsentUntouched | tinycc/tccelf.c:1221-1227 | both passes: an absolute reference to a symbol that nobody defines is left alone |
| DynReloc.LoadedAbsolute | tinycc/i386-link.c:184-200 | relocation, then the loader on the entries that are left, at any base: an absolute field is the run-time value of its symbol plus A |
| DynReloc.LoadedBranch | tinycc/i386-link.c:201-213 | the same for a field relative to its place: it leads to the run-time value of its symbol plus A |
| PltGot.EntryMeans | tinycc/i386-link.c:131-141 | sixteen emitted bytes jump through the slot, push the relocation's byte offset and branch to the start of the PLT |
| PltGot.Linker.constructor | tinycc/tccelf.c:1289-1298 | the GOT starts with three reserved words, so that offset 0 never names a slot, and the symbol _GLOBAL_OFFSET_TABLE_ is defined in it |
| PltGot.Linker.GetSymAttr | tinycc/tccelf.c:806-822 | the attribute table grows to the least power of two that suffices; old attributes stay, new ones are empty |
| PltGot.Linker.CreatePltEntry | tinycc/i386-link.c:99-143 | the PLT grows by one entry, the first call also making the common head; the result is the place of the entry |
| PltGot.Linker.PutRelocation | tinycc/tccelf.c:1346-1376 | one relocation for the slot, R_386_GLOB_DAT or JMP_SLOT against the dynamic symbol, which is made if need be, or R_386_RELATIVE naming a local symbol |
| PltGot.Linker.AddSlot | tinycc/tccelf.c:1330-1394 | a new slot keeps all tables consistent: no two slots are for the same symbol and kind, no two relocations for the same slot, the relocation of an address slot names its symbol, entry i, PLT relocation i and its slot serve one symbol, and the symbol of an entry is at the entry |
| PltGot.SlotNamesSymbol | tinycc/tccelf.c:1362-1372 | the relocation of an address slot names, below 2^24 dynamic symbols, one of the name of the symbol that the slot was made for |
| PltGot.ExportedNew | tinycc/tccelf.c:1367-1369 | a name that is new in the dynamic symbol table is put there with value, size, type, binding and section of the symbol |
| PltGot.Linker.PutGotEntry | tinycc/tccelf.c:1304-1397 | a symbol gets at most one slot of each kind and one relocation for it; a second request changes nothing; the PLT symbol is appended; other attributes stay |
| PltGot.Linker.RelocatePlt | tinycc/i386-link.c:145-174 | the slot of each entry holds the address of that entry's push, all other bytes of the GOT stay, and every address in a non-PIC PLT is shifted by the GOT's |
| PltGot.SlotsApart | tinycc/tccelf.c:1330-1332 | slots of different PLT entries do not overlap and lie behind the reserved words |
| PltGot.FirstCall | tinycc/i386-link.c:124-174 | a first call through entry j, with ebx at the GOT in an output that is relocated when loaded, jumps through the slot of relocation j, lands on its own push and pushes the byte offset of relocation j |
| PltGot.HeadCall | tinycc/i386-link.c:108-119 | the entry all others branch to pushes the second word of the GOT and jumps through the third |
| CodeBuffer.Code.SectionRealloc | tinycc/tccelf.c:287-300 | the size is doubled until it suffices and no further, old bytes stay, new ones are zero |
| CodeBuffer.Code.G | tinycc/i386-gen.c:117-127 | one byte is appended, and no jump list is disturbed |
| CodeBuffer.Code.O | tinycc/i386-gen.c:129-135 | the bytes of an opcode up to its highest non-zero one |
| CodeBuffer.OpBytesMean | tinycc/i386-gen.c:129-135 | the bytes are the value of the opcode, lowest first, and the last one is not zero |
| CodeBuffer.Code.GenLe32 | tinycc/i386-gen.c:143-149 | four bytes of the value, for negative ones too |
| CodeBuffer.Code.Oad | tinycc/i386-gen.c:163-172 | opcode and operand are appended; the result is the place of the operand |
| CodeBuffer.Code.Gjmp | tinycc/i386-gen.c:767-770 | the new site is put in front of the list, all other lists and resolved jumps stay |
| CodeBuffer.Code.GjmpCond | tinycc/i386-gen.c:811-816 | the same for the two-byte conditional jumps |
| CodeBuffer.Code.GjmpAppend | tinycc/i386-gen.c:797-809 | the chain from the result is the first list followed by the second; every other list stays |
| CodeBuffer.Code.GsymAddr | tinycc/i386-gen.c:152-160 | the walk ends, every site of the list jumps to the address, and no byte outside those sites changes |
| CodeBuffer.AllResolved | tinycc/i386-gen.c:152-160 | when no list is pending, every jump ever emitted goes where it was sent |
| JumpChain.ConsWired | tinycc/i386-gen.c:163-172 | consing keeps all lists disjoint, acyclic and non-overlapping |
| JumpChain.AppendWired | tinycc/i386-gen.c:797-809 | so does appending one list to another |
| JumpChain.ResolveWired | tinycc/i386-gen.c:152-160 | so does resolving one list, and the resolved jumps of all other lists stay |
| CallFrame.SizesAgree | tinycc/i386-gen.c:532-588 | the size that the caller makes room for is the one the callee steps over, type by type |
| CallFrame.WordsMean | tinycc/i386-gen.c:532-588 | words of each kind: one for scalars and float, two for long long and double, three for long double, as many as a structure needs |
| CallFrame.Generator.GfuncCall | tinycc/i386-gen.c:519-625 | the two loops emit: arguments from the last to the first, pops into registers, the call, the adjustment |
| CallFrame.Generator.GfuncProlog | tinycc/i386-gen.c:634-717 | the loop gives each parameter its place, leaves room for the start of the function, saves the register parameters, and computes what the callee pops |
| CallFrame.Generator.GfuncEpilog | tinycc/i386-gen.c:729-743 | leave and ret, whose operand is cut to 16 bits; the start of the function, with room for the locals, is written into the place left for it |
| CallFrame.PushAllStacks | tinycc/i386-gen.c:532-588 | running the pushes leaves the words of all arguments on the stack in order of address |
| CallFrame.FrameAgrees | tinycc/i386-gen.c:519-743 | running caller and callee, for any number of locals: every word of every parameter is where the prolog says and the stack pointer is restored, if and only if no structure result meets a register convention, register parameters are one word, and the popped bytes fit ret |
| CallFrame.OrdinaryCallsAgree | tinycc/i386-gen.c:519-743 | cdecl always agrees; stdcall exactly below 65536 bytes of arguments |
| CallFrame.InRegisters | tinycc/i386-gen.c:489-497 | at the call the first one-word arguments are in eax, edx, ecx, or in ecx, edx for Windows, or in ecx for a method |
| CallFrame.WhoPops | tinycc/i386-gen.c:704-716 | the callee pops nothing, or the address of a structure result, with cdecl and register conventions; everything on the stack with those of Windows |
| CallFrame.SplitLongLong | tinycc/i386-gen.c:607-613 | counterexample: a long long as first fastcall parameter |
| CallFrame.StructFromFastcall | tinycc/i386-gen.c:673-679 | counterexample: a fastcall function that returns a structure |
| CallFrame.LongStdcall | tinycc/i386-gen.c:729-743 | counterexample: a stdcall with 65536 bytes of arguments |
| Leb128.UlebRoundTrip | tinycc/tcc.h:1870-1884 | the reader undoes the writer for every 64-bit value and stops at its last byte |
| Leb128.SlebRoundTrip | tinycc/tcc.h:1885-1902 | the same for signed values |
| Leb128.SlebSize | tinycc/tccdbg.c:742-755 | the size loop computes the number of bytes the writer emits |
| Leb128.ReadUlebLoop | tinycc/tcc.h:1870-1884 | the loop computes the reader, also on truncated input |
| Leb128.ReadSlebLoop | tinycc/tcc.h:1885-1902 | the loop computes the reader, also on truncated input |
| LineProgram.PrintLine | tinycc/tccrun.c:962-1047 | the interpreter loop ends on any bytes and computes the decoder, from the constants the compiler writes into the header |
| LineProgram.StandardOpcode | tinycc/tccrun.c:980-1067 | each standard operation, branch by branch, and the loop that passes over the operands of unknown ones |
| LineProgram.ExtendedOpcode | tinycc/tccrun.c:982-1023 | extended operations: their length and argument, and the loops over a string and numbers |
| LineProgram.TurnDecodes | tinycc/tccrun.c:962-1043 | one turn reads one encoded operation to its last byte and has the effect of DWARF 5 sections 6.2.5.1 and 6.2.5.2 |
| LineProgram.DecodeSearches | tinycc/tccrun.c:962-1043 | decoding the bytes of a list of operations is searching the list |
| LineProgram.ConstAddPc | tinycc/tccrun.c:1045-1055 | DW_LNS_const_add_pc advances the address as special opcode 255 does |
| LineProgram.FixedAdvancePc | tinycc/tccrun.c:1056-1062 | DW_LNS_fixed_advance_pc adds its two bytes |
| LineProgram.OthersSkipped | tinycc/tccrun.c:1063-1066 | operations that change no register are passed over with their operand |
| LineProgram.ExtendedSkipped | tinycc/tccrun.c:982-1023 | an extended operation ends where its length says; only DW_LNE_set_address changes a register |
| LineProgram.DefineFileSkipped | tinycc/tccrun.c:1002-1015 | DW_LNE_define_file: behind its length a string and three numbers are passed over |
| LineWriter.Writer.LineOp | tinycc/tccdbg.c:655-664 | one byte is appended, the buffer growing when full |
| LineWriter.Writer.UlebOp | tinycc/tccdbg.c:782-790 | the do-while loop appends the unsigned encoding |
| LineWriter.Writer.SlebOp | tinycc/tccdbg.c:792-805 | the do-while loop appends the signed encoding |
| LineWriter.Writer.EmitStep | tinycc/tccdbg.c:1488-1523 | the bytes of one report are the encoding of the operations it stands for |
| LineWriter.Writer.DebugLine | tinycc/tccdbg.c:1472-1526 | a report is written exactly when the line differs from the last one, or the file changed; the buffer is the encoding of all reports so far |
| LineWriter.StepReaches | tinycc/tccdbg.c:1488-1525 | the operations of a report bring the machine to its address and line, and end with a row for exactly it when the line changed |
| LineWriter.RunReaches | tinycc/tccdbg.c:1487-1525 | after any run of reports the machine stands at the last address, line and file |
| LineWriter.RunFinds | tinycc/tccrun.c:975-978 | an address between two reports is given the line of the first and the file of the second |
| LineWriter.LookupFinds | tinycc/tccrun.c:962-1047 | the same from the bytes, behind the relocated start address |
| LineWriter.LookupEnds | tinycc/tccrun.c:962-1047 | an address above all reports is not found, and the decoder ends at the last report |
| AsmConstraints.ConstraintPriority | tinycc/i386-asm.c:1179-1227 | the priority of the hardest letter; an unknown letter is an error |
| AsmOrder.LettersMean | tinycc/i386-asm.c:1229-1234 | exactly the leading modifiers = & + % are left out |
| AsmOrder.ReferenceMeans | tinycc/i386-asm.c:1286-1290 | a constraint is a reference if a digit or a bracket follows the modifiers |
| AsmConstraints.Evaluate | tinycc/i386-asm.c:1275-1309 | succeeds exactly when every reference is to an earlier operand, from an input, no operand is referred to twice and all letters are known; references and their targets point at each other |
| AsmConstraints.SortOperands | tinycc/i386-asm.c:1311-1324 | the exchange sort lists every operand once, by priority |
| AsmOrder.DemandingFirst | tinycc/i386-asm.c:1179-1227 | in the order of placing, an operand that can only have the pair, particular registers, one with byte parts, or any register comes before each that is content with more |
| AsmOrder.ReferencesLast | tinycc/i386-asm.c:1292-1296 | references come after all other operands |
| AsmConstraints.ChooseRegister | tinycc/i386-asm.c:1358-1472 | the loop over the letters ends and computes the choice |
| AsmConstraints.ChoiceGood | tinycc/i386-asm.c:1358-1472 | what is chosen is admitted by a letter of the constraint and free for all the uses asked for |
| AsmOrder.ChoiceComplete | tinycc/i386-asm.c:1358-1472 | a constraint fails only if none of its letters allows a place that is free |
| AsmOrder.OwnRegister | tinycc/i386-asm.c:1352-1357 | a register variable is given its own register, unless the pair is asked for |
| AsmConstraints.StepAllocates | tinycc/i386-asm.c:1338-1478 | placing one more operand keeps all earlier ones and meets none of them |
| AsmConstraints.AllocateOperand | tinycc/i386-asm.c:1338-1478 | one turn of that loop is one step |
| AsmConstraints.AllocateAll | tinycc/i386-asm.c:1337-1478 | the loop over the sorted operands gives exactly the run of all steps, and fails exactly when one of them finds no place |
| AsmConstraints.OutRegister | tinycc/i386-asm.c:1480-1497 | given out exactly when an operand reached through a pointer has a register; free for output |
| AsmConstraints.ComputeConstraints | tinycc/i386-asm.c:1264-1497 | succeeds exactly when the operands are acceptable, each finds a place in turn, and a register is free for out_reg if one is needed; the result is that of the run; without register variables: operands whose uses meet share no register (a pair counts twice), no clobbered register, esp or ebp is given out, every constraint is met, references share the register of their operand unless that is a reference itself, out_reg is no output's register |
| AsmOrder.SimpleSucceed | tinycc/i386-asm.c:1264-1497 | inputs for different particular registers that are free, and for any register, not more than there are free ones: all get their places |
| AsmOrder.OnlySatisfiable | tinycc/i386-asm.c:1264-1497 | and no other such inputs succeed |
| AsmOrder.SharersDiffer | tinycc/i386-asm.c:1338-1478 | two operands share a register only if one is an input, the other an output, neither is referred to, and neither begins with & or + |
| AsmConstraints.ChainedReference | tinycc/i386-asm.c:1338-1344 | counterexample: with constraints "=r", "0", "1" the third operand is left without a register |
| ModRm.AsmModrm | tinycc/i386-asm.c:531-586 | the emitted bytes are the encoding, and no jump list is disturbed |
| ModRm.ModrmRoundTrip | tinycc/i386-asm.c:531-586 | decoding the bytes by the processor's rules gives back register field, base, index, scale, displacement and length, if and only if the index is not esp |
| ModRm.SymbolTakesFour | tinycc/i386-asm.c:487-495 | a displacement with a symbol always has the four bytes its relocation patches, at the end |
| ModRm.DisplacementShort | tinycc/i386-asm.c:531-586 | the displacement is as short as its value allows: none for zero, one byte from -128 to 127, else four |
| Bytes.ReadPut | tinycc/tcc.h:1655-1663 | a stored word is read back and words that do not overlap it are unchanged |

## Left out

- Archive and linker-script reading, loading of DLLs and object files, and all file I/O: only the sequence of bytes that is written is modelled.
- `tccgen.c`, `tccpp.c` and `libtcc.h` are not part of this model: the kind of output is a set of booleans, type sizes and symbol attributes are parameters.
- Stabs, coverage, bounds checking, PE and Mach-O, other processors, 64-bit targets.
- Symbol versions except their reordering.
- SymbolTable.SymTab.BeginFile: of the sizes it saves only those of the symbol and string tables, which the merge reads back, are modelled.
- Local modification of symbols while a file is compiled, `set_local_sym`, and names that are null pointers.
- SymbolTable.SymTab: records are values, not bytes; only their names go through the string table.
- GnuHashFill.Dynamic.UpdateGnuHash: the number of defined symbols is the one the section was created for; otherwise the source reports an error and goes on. The section's header, Bloom words, buckets and chain are separate lists.
- LayoutRun.LayoutSections: a layout that overflows 32 bits of address or 31 bits of file offset, and alignments that are not powers of two; a text address is taken as given; interpreter, dynamic, note, RELRO and header segments are not filled in.
- FileWriter.OutputElf: the bytes of the file header and of the section headers are given.
- FileWriter.WriteExecutable: program headers pass through an encoder that is given; relocation between layout and writing changes contents, not sizes; dynamic output, where relocation sections can shrink after the layout, is left out.
- DynReloc.LoadedAbsolute: offsets are those in the section; adding its address to the entries afterwards is left out.
- DynReloc.Relocate: TLS relocations, some of which rewrite the instruction around the field and the entry that follows.
- PltGot.Linker.PutGotEntry: the dynamic symbol table exists (not for `-run`), and a PLT entry is asked for a non-local symbol; build_got_entries rewrites calls to defined local symbols instead.
- CodeBuffer.Code: output positions stay below 2^31.
- CallFrame.Generator.GfuncCall: evaluation of the arguments and of a computed function address, which may use registers, is left out; the stack pointer does not wrap; a variadic tail is part of the argument list.
- LineWriter.Writer.DebugLine: the numbers fit the int arithmetic of the source, where an overflow is undefined; file numbers are given, not their tables.
- LineProgram.PrintLine: the header constants are the ones the compiler writes (first special opcode 13, line base -5, line range 14, one operation to an instruction); the file is the number last set, not its name.
- AsmConstraints.ComputeConstraints: with register variables (of the eight integer registers) the result is stated as the run of the steps, without the absence of conflicts; the result of find_constraint is part of an operand, and asm goto labels are left out.
- ModRm.AsmModrm: displacements relative to the program counter are left out.
- Expression parsing of the assembler, opcode selection and the opcode table: little to prove.
