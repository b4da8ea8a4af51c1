# Verified models of the image builder and its boot firmware

This project models, in Dafny, the parts of the image builder and of its in-guest firmware whose
correctness is a matter of algorithms and byte layouts, and proves what they promise:

- **Kernel modules** (`ModuleClosure`, `ModuleResolve`): the explicit-stack dependency search and its two uses.
- **Guest-physical planner** (`Planner`, `PlannerSafety`): first fit, the order of placement, 2 MiB separation.
- **PE image** (`Pe`, `PeReader`, `Assembly`): the writer, an independent reader, and the composition of
  planner and writer in guest memory.
- **Initramfs** (`Newc`, `InitrdTree`, `InitrdArchive`): the cpio writer, the independently written checker and
  the tree of the generated archive.
- **Kernel lowering and randomization** (`KernelImage`, `Relocations`, `Kaslr`): flattening an ELF, reading the
  appended relocation table, patching in place.
- **Boot page tables** (`BootMemory`) and **kernel arguments** (`CommandLine`).
- **ACPI generator** (`AcpiCore`, `Aml`, `DeviceTree`, `AcpiDevices`, `AcpiEntries`, `AcpiWalks`, `AcpiTables`,
  `Slit`, `AcpiCount`, `AcpiLayout`, `AcpiImage`): the counting pass, the emitters, the orchestration; with
  `AmlGrammar` and `AcpiReader` as independent readers of what is emitted.

`Outcomes`, `Words` and `Buffers` hold the shared vocabulary: results, machine words and their encodings,
writes into byte buffers.

Code that works by changing things step by step is modelled by methods over arrays and loops, each proved
against a function or predicate that says what it computes; the promises are then lemmas about those
functions. Emitters write into a slot of one shared byte array. Machine integers are written out: widths,
checked and saturating operations, wrap-around. Memory and files are byte arrays and sequences, parsed ELF
files are sequences of program headers, and a device tree is a tree of nodes whose properties are decoded or
known to be malformed.

Where the code and its documentation disagree, the models follow the code, and the lemmas say exactly when the
promise holds:

- The comments of the ACPI generator call several emission failures unreachable after a successful count.
  They are reachable: `AcpiImage.EmitsExactly` lists all that remain, as conditions on the device tree, and
  `AcpiWalks.WindowCountedButNotEncodable` is one of them.
- The bus-number descriptor promises the length of the range; the 8-bit count saturates for all 256 buses
  (`Aml.BusCountIsExact`).
- The reader of the appended relocations says that nothing precedes the first terminator; it does not check.
  Everything is read exactly when the table is whole words and its first word is a terminator
  (`Relocations.TableIsReadCompletely`, `Relocations.EveryWordIsReturned`).
- The lowering of an ELF relies on file sizes not above memory sizes without checking them. It succeeds exactly
  when every file range is in the file and every segment without memory still lies in the image
  (`KernelImage.LoadsExactly`); over separate ranges it preserves memory exactly when every excess file byte is
  zero (`KernelImage.PreservesExactly`).

Two properties a reader may expect hold only in part, and the lemmas say when:

- The MCFG puts every bridge into segment group 0 while the device of the n-th bridge states segment n; they
  agree exactly for at most one bridge (`AcpiWalks.SegmentsAgreeExactly`).
- A section name that starts with a slash is written as it stands, though that is the form of a string-table
  reference; `PeReader.NameSurvives` says exactly which names read back.

Two promises of the planner rest on assumptions that the code documents or leaves to its caller:

- Addresses are far below 2^64 (`src/planner.rs:308-310`), so that rounding outward never wraps.
  `PlannerSafety.Roomy` is that assumption as a bound on the inputs, under which `PlannerSafety.PlanIsSeparated`
  proves separation; `PlannerSafety.SeparatedExactly` says when separation holds without it.
- The PCI window, fixed by the address width, lies clear of the reserved ranges. The planner does not compare
  them; `PlannerSafety.WindowIsTheOnlyGap` shows that this is the only pair left to the caller.

## Model

| member | source | states |
|---|---|---|
| ModuleClosure.Closure | src/modules.rs:376-403 | The explicit-stack search terminates; it succeeds exactly when no dependency cycle is reachable from the roots, returns exactly the reachable modules, and a failure names a reachable module that lies on a cycle |
| ModuleClosure.MarkerReachesAbove | src/modules.rs:382-396 | Invariant of the mixed enter/leave stack: a leave marker reaches everything above it |
| ModuleClosure.ActiveAgainIsCycle | src/modules.rs:388-391 | Meeting an active module again proves a dependency cycle through it |
| ModuleClosure.TopologicalHasNoCycle | src/modules.rs:383-397 | The finish order lists dependencies first, so nothing finished lies on a cycle |
| ModuleResolve.Resolve | src/modules.rs:135-231 | Resolution succeeds exactly on an index without repeated definitions, repeated or missing dependencies, ambiguous requested names, unknown requests or cycles anywhere; the files are the requested modules and everything they depend on at any depth, with exactly the requested ones marked as roots, and the built-in requests are listed |
| ModuleResolve.InsertName | src/modules.rs:271-281 | Only a second claim on a requested name is refused; the table then still holds exactly the claims on requested names |
| ModuleResolve.AcyclicSelection | src/modules.rs:195-207 | After the whole-index search succeeds, the search from the selected modules cannot fail |
| ModuleResolve.WholeIndexCycle | src/modules.rs:195-195 | The whole-index search fails exactly when some defined module lies on a cycle |
| Planner.FirstFit | src/planner.rs:276-300 | Terminates with the lowest aligned address at or above the start whose range misses every occupied range; fails exactly when there is none in 64 bits, except for an empty, byte-aligned region that only fits at the last address |
| Planner.HopSkipsNothing | src/planner.rs:288-297 | Moving past a conflicting range skips no candidate address |
| Planner.LowestIsUnique | src/planner.rs:276-300 | The first fit is determined by the occupied ranges, the start, the size and the alignment alone |
| Planner.CarveBand | src/planner.rs:250-271 | The band holds ECAM, serial and the virtio ranges packed in that order |
| Planner.PlaceWindow | src/planner.rs:126-139 | The PCI window sits at the address-space midpoint and is refused exactly when its width needs more than a quarter of the space |
| Planner.PlaceInitrd | src/planner.rs:156-176 | Archive padded to 2 MiB and bootconfig fill are placed as one range, lowest first; failure means that no plan exists |
| Planner.MakePlan | src/planner.rs:119-229 | Success gives a layout with every region in its prescribed place; failure means that no such layout exists; a too-large window is reported exactly when the window is requested and too large |
| PlannerSafety.PlanIsSeparated | src/planner.rs:119-229 | For every plan whose inputs leave room below the top of the address space: kernel, initrd with fill, relocations and device band share no 2 MiB unit with each other, with the window or with any reserved range; leaving reserved ranges among themselves aside, no two regions do exactly when the window is clear of the reserved ranges |
| PlannerSafety.SeparatedExactly | src/planner.rs:119-315 | Whether or not rounding wraps: the regions are apart if and only if each search still had a free place below every range that wraps, and the band lies below them |
| PlannerSafety.FitMisses | src/planner.rs:276-315 | One placement: the lowest place is apart from the regions before it exactly when there is a free place below those whose rounding wraps |
| PlannerSafety.WindowIsTheOnlyGap | src/planner.rs:122-139 | Window against reserved is the only pair the planner never compares: all pairs but two reserved ranges are apart exactly when the searched regions are and the window shares no unit with a reserved range |
| PlannerSafety.KernelEnds | src/planner.rs:141-152 | With room, the kernel ends below a bound computed from the inputs, so its rounding cannot wrap |
| PlannerSafety.DevicesInBand | src/planner.rs:232-271 | Every device range lies in the band, in order and without overlap, exactly one for each requested device |
| PlannerSafety.BootconfigFollowsInitrd | src/planner.rs:156-176 | The bootconfig fill is exactly the 2 MiB after the padded archive |
| PlannerSafety.RoundOutAligns | src/planner.rs:311-315 | Rounding outward gives the tightest enclosing 2 MiB-aligned range unless the addition wraps |
| PlannerSafety.WrappedKernelIsOverlaid | src/planner.rs:308-315 | The documented assumption is needed: a plan at the top of the address space whose kernel wraps when rounded and is overlaid by the initrd |
| Pe.BuildPe | src/pe.rs:254-550 | Succeeds exactly when the names, the section count and every 32-bit quantity are representable, and returns the specified file byte for byte |
| Pe.DecimalRoundTrip | src/pe.rs:272-299 | Long-name offsets survive their decimal form |
| PeReader.PeRoundTrip | src/pe.rs:254-550 | Reading the section table back gives the count, each readable name (also through `/N`), the VirtualSize, the address, and the data followed only by zeros |
| PeReader.PeLayout | src/pe.rs:301-360 | Headers, raw ranges and string table follow one another without overlap inside the file |
| PeReader.OffsetBounds | src/pe.rs:316-341 | Raw data starts after the headers on a page boundary, and large loaded payloads at 2 MiB multiples |
| PeReader.DataRead | src/pe.rs:532-541 | The raw range of a section is its data followed only by zeros, whatever the other sections hold |
| PeReader.SlashNameIsLost | src/pe.rs:275-299 | Every short name that starts with a slash and goes on with anything but digits reads back as no name at all |
| PeReader.NameSurvives | src/pe.rs:272-299 | A written name reads back if and only if it is readable, or it is a slash and digits and its own text stands in the file at that string-table offset |
| PeReader.SlashNameRead | src/pe.rs:272-299 | What any short slash name reads back as: nothing, or the text at the string-table offset it spells |
| PeReader.SlashNameReadByAccident | src/pe.rs:275-299 | A file of one section named `/328` reads it back from its own header field, so surviving is possible |
| Assembly.AssembleSections | src/build.rs:462-608 | The section list of the image in file order, for every delivery mode of the device tree |
| Assembly.RaisedStaysInUnits | src/pe.rs:502-509 | Raising VirtualSize to the page-rounded file size keeps a section inside the 2 MiB units of its planned range |
| Assembly.SectionsStayApart | src/build.rs:529-580 | For every plan with room: after that raise, `.linux`, `.initrd`, `.bconf` and `.linux.relocs` are pairwise disjoint in guest memory and clear of every firmware section |
| Assembly.SeparatedSections | src/build.rs:529-580 | The same for any plan whose regions are apart, with or without room |
| Newc.EightHexDigits | src/initrd.rs:366-420 | Eight hexadecimal digits carry every 32-bit value |
| Newc.CpioEntry | src/initrd.rs:366-420 | One entry appends header, name, padding, data and padding at 4-byte boundaries of the whole archive |
| Newc.EntryRoundTrip | src/initrd.rs:366-420 | An emitted entry reads back with its name, its data and all its header fields |
| Newc.ValidateCpio | src/initrd.rs:319-356 | Terminates and accepts exactly the concatenations of complete archives with NUL padding |
| Newc.ArchiveRoundTrip | src/initrd.rs:319-420 | Reading a generated archive returns exactly the emitted records and the trailer, and leaves what follows |
| Newc.ArchiveIsValid | src/initrd.rs:319-420 | Every generated archive is accepted by the checker |
| Newc.StrictPrefixIsInvalid | src/initrd.rs:319-356 | No strict prefix of a generated archive is accepted |
| Newc.ValidConcat | src/initrd.rs:346-361 | Two accepted inputs with any number of NULs between them are accepted |
| Newc.WrapAsCpio | src/initrd.rs:421-438 | The single-binary archive is `.`, `dev`, `dev/console` and `init`, and is accepted |
| InitrdTree.CollectTree | src/initrd.rs:203-245 | Succeeds exactly when every path is valid UTF-8 without control characters, no path has two contents and none is also a directory; gives the ordered directories and files of the modules |
| InitrdTree.TreeIsUnique | src/initrd.rs:203-245 | The tree depends only on which modules are listed, not on their order or repetition |
| InitrdArchive.MaterializeModules | src/initrd.rs:188-280 | Each outcome of the construction: not a static ELF, size, path and consistency errors, the single-binary case, and success exactly when every entry fits the format |
| InitrdArchive.CheckedEntrySizeIsExact | src/initrd.rs:282-298 | The reserved size of an entry is the size it adds |
| InitrdArchive.MaterializedArchive | src/initrd.rs:188-280 | A built archive is accepted by the checker and reads back as its nodes and the trailer |
| InitrdArchive.NamesAreDistinct | src/initrd.rs:188-280 | No two entries share a name |
| InitrdArchive.ParentComesFirst | src/initrd.rs:188-280 | The directory that holds an entry is an earlier entry |
| InitrdArchive.LinksCountChildren | src/initrd.rs:246-262 | The link count of a directory is 2 plus its immediate subdirectories |
| InitrdArchive.NodeNames | src/initrd.rs:246-280 | Inode numbers count from 1 without repetition, directories first |
| InitrdArchive.OrderDoesNotMatter | src/initrd.rs:188-280 | Permuting or repeating the module list changes neither acceptance nor the tree that is written |
| KernelImage.ElfSpan | src/kernel.rs:231-261 | Succeeds exactly when some loadable segment has memory and no end overflows; the extrema are attained bounds |
| KernelImage.CopySegments | src/kernel.rs:272-287 | The image holds the copies in order; the first failing segment decides between a file-bounds error and a run-time stop, with overflow trapping or wrapping as the build sets it |
| KernelImage.ElfLoadImage | src/kernel.rs:267-301 | The exact outcome of the lowering; the image is the flat copy cut after the page of its last nonzero byte |
| KernelImage.LoweringPreservesMemory | src/kernel.rs:262-301 | For disjoint segments without excess file bytes, the trimmed image extended with zeros is the memory a loader builds, and nothing is loaded outside the span |
| KernelImage.PreservesExactly | src/kernel.rs:262-301 | Over segments with separate ranges: the trimmed image extended with zeros agrees with the memory a loader builds if and only if every file byte beyond the memory of its segment is zero |
| KernelImage.SiteSurvives | src/kernel.rs:288-300 | A relocation site whose last byte is nonzero lies wholly in the trimmed image |
| KernelImage.LoadsExactly | src/kernel.rs:236-287 | The copy succeeds if and only if every file range lies in the file and every segment with file bytes but no memory lies in the image; without excess file bytes the second part always holds |
| KernelImage.OnlyStraySegmentsStop | src/kernel.rs:272-287 | Which segment stops the lowering: exactly one without memory that leaves the image, unless its file range is refused first |
| KernelImage.EmptyMemorySegmentStops | src/kernel.rs:237-275 | A concrete ELF on which the differing skip conditions stop the lowering, in either build |
| KernelImage.ExcessFileBytesAreKept | src/kernel.rs:236-300 | A concrete segment with more file bytes than memory for which the image outgrows the memory span |
| Relocations.TableStart | src/kernel.rs:650-664 | The table starts at the furthest file offset any ELF structure reaches |
| Relocations.ExtractAppendedRelocs | src/kernel.rs:637-716 | Reading backward gives what the table words mean: two or three terminated lists of image addresses, anything else an error |
| Relocations.SplitThenJoin | src/kernel.rs:671-694 | The backward split loses nothing: the words are exactly the unterminated head and the terminated lists |
| Relocations.JoinThenSplit | src/kernel.rs:671-694 | Reading inverts writing for any number of lists of nonzero words |
| Relocations.AppendedTableRoundTrip | src/kernel.rs:610-716 | For any two or three lists of site words after any file content, each list comes back reversed, as image offsets, under its own label |
| Relocations.LeadingWordsAreDropped | src/kernel.rs:671-695 | Words before the first terminator are checked and then ignored, although the source says that there are none |
| Relocations.NothingIsLeftOver | src/kernel.rs:671-695 | The backward reading leaves no unterminated words exactly when the table is empty or starts with a terminator |
| Relocations.TableIsReadCompletely | src/kernel.rs:650-695 | The bytes from the table start are the terminated lists that were read, and nothing more, exactly when they are whole words starting with a terminator |
| Relocations.EveryWordIsReturned | src/kernel.rs:671-716 | On success the three lists hold every nonzero word exactly when the first word is a terminator |
| Relocations.OffsetsAreFaithful | src/kernel.rs:684-692 | An offset determines its table word |
| Relocations.ToSectionBytes | src/kernel.rs:340-352 | The section is the 64-bit, inverse and 32-bit offsets as little-endian words |
| Relocations.SectionRoundTrip | deps/tatu/src/arch_x86_64.rs:501-515 | Slicing the section words by the recorded counts returns the three lists |
| Kaslr.ApplyKaslr | deps/tatu/src/arch_x86_64.rs:501-554 | In place: the specified patches and nothing else, or nothing at all when there are no words, the counts disagree or the shift is zero |
| Kaslr.DeltaIsLegal | deps/tatu/src/arch_x86_64.rs:517-527 | The random draws reach exactly zero and the 2 MiB multiples that keep the image in the mapped window |
| Kaslr.EachSiteShifted | deps/tatu/src/arch_x86_64.rs:529-553 | Over disjoint sites, every site inside the image is shifted exactly once from its original value |
| Kaslr.ShiftedValue | deps/tatu/src/arch_x86_64.rs:529-553 | The stored numbers: addition modulo 2^64, subtraction and addition modulo 2^32 |
| Kaslr.OthersUnchanged | deps/tatu/src/arch_x86_64.rs:529-553 | Every byte that no contained site covers is unchanged; sites past the end are skipped |
| Kaslr.SiteOrderDoesNotMatter | deps/tatu/src/arch_x86_64.rs:529-553 | The order in which disjoint sites are patched does not matter |
| Kaslr.SectionDrivesPatches | deps/tatu/src/arch_x86_64.rs:501-554 | The section written for three lists patches exactly those three lists |
| BootMemory.WriteU64 | deps/tatu/src/bootmem.rs:49-56 | Eight little-endian bytes at the offset and no other change |
| BootMemory.IdentityMap4GiB | deps/tatu/src/bootmem.rs:67-111 | The nested loops build one PML4 entry, four PDPT entries and 2048 directory entries, all else zero |
| BootMemory.WalkIsIdentity | deps/tatu/src/bootmem.rs:58-111 | The 4-level walk maps every address below 4 GiB, writable, to itself, and faults on every other 48-bit address, for any page-aligned table base |
| CommandLine.BootconfigRequested | src/kernel_cmdline.rs:12-54 | Terminates on every byte string and answers whether a parameter named `bootconfig` comes before the first bare `--`, with quotes respected and text after NUL ignored |
| CommandLine.ScanBody | src/kernel_cmdline.rs:26-41 | One parameter ends at the first space outside quotes; its first `=` after the first byte is found |
| CommandLine.PrefixIsNeutral | src/build.rs:412-421 | Prepending `earlycon ` never changes the answer |
| CommandLine.EarlyconKeepsBootconfig | src/build.rs:412-427 | The early-console rewrite leaves the answer unchanged for every command line |
| AcpiCore.BalancedSumsToZero | deps/tatu/deps/dtb2acpi/src/emit/mod.rs:103-121 | Setting the checksum byte makes the whole table sum to zero and changes no other byte |
| AcpiCore.SetSdtChecksum | deps/tatu/deps/dtb2acpi/src/emit/mod.rs:116-121 | Patches byte 9 of the slot and nothing else, unless the slot is too short |
| AcpiCore.WriteBytes | deps/tatu/deps/dtb2acpi/src/emit/mod.rs:144-157 | Writes at the cursor exactly when the slot has room |
| AcpiCore.TableIsTable | deps/tatu/deps/dtb2acpi/src/emit/sdt.rs:55-67 | A finished table carries its signature, its own length and a closing checksum |
| AcpiCore.FinishTable | deps/tatu/deps/dtb2acpi/src/emit/mod.rs:116-121 | Sealing a slot filled by adjacent writes yields the finished table and touches nothing outside the slot |
| Aml.WritePkgLength | deps/tatu/deps/dtb2acpi/src/emit/aml.rs:66-77 | Encodes a package length up to 4095 and refuses larger ones |
| Aml.BusCountIsExact | deps/tatu/deps/dtb2acpi/src/emit/aml.rs:240-240 | The bus count is the span except when all 256 buses are spanned |
| Aml.WriteDwordMemory | deps/tatu/deps/dtb2acpi/src/emit/aml.rs:263-286 | Writes a 32-bit window exactly when its end stays below 4 GiB |
| Aml.DwordWindowFields | deps/tatu/deps/dtb2acpi/src/emit/aml.rs:263-286 | The 32-bit descriptor carries base, last address and length |
| Aml.QwordWindowFields | deps/tatu/deps/dtb2acpi/src/emit/aml.rs:295-318 | The 64-bit descriptor carries base, last address and length |
| Aml.BusNumberFields | deps/tatu/deps/dtb2acpi/src/emit/aml.rs:234-256 | The bus descriptor carries first and last bus and the count |
| Aml.InterruptFields | deps/tatu/deps/dtb2acpi/src/emit/aml.rs:330-350 | The interrupt descriptor carries the interrupt and its trigger and polarity |
| Aml.EisaRoundTrip | deps/tatu/deps/dtb2acpi/src/emit/aml.rs:202-231 | Compressing an identifier of three letters and four hexadecimal digits loses nothing |
| AcpiDevices.CountWindows | deps/tatu/deps/dtb2acpi/src/emit/pci_host.rs:94-108 | The counted windows cost exactly what their descriptors take |
| AcpiDevices.WriteHostBridge | deps/tatu/deps/dtb2acpi/src/emit/pci_host.rs:125-175 | Succeeds exactly when bus range and windows are encodable and the package length fits; then writes the whole device of its counted size |
| AcpiDevices.WriteSerial | deps/tatu/deps/dtb2acpi/src/emit/serial_device.rs:73-171 | The UART device with its nested property packages, 201 bytes |
| AcpiDevices.WriteMotherboard | deps/tatu/deps/dtb2acpi/src/emit/motherboard_resource.rs:57-76 | The resource device of one ECAM window, 84 bytes |
| AcpiDevices.WriteVirtio | deps/tatu/deps/dtb2acpi/src/emit/virtio_mmio.rs:72-104 | The device of one virtio transport, 98 bytes |
| AcpiWalks.EmitWalk | deps/tatu/deps/dtb2acpi/src/emit/pci_host.rs:111-123 | The emission loop of every root walk: succeeds exactly when every chosen node encodes, the 8-bit index suffices and the slot has room |
| AcpiWalks.CountWalk | deps/tatu/deps/dtb2acpi/src/emit/pci_host.rs:79-92 | The counting loop of every root walk |
| AcpiWalks.CountMatchesEmission | deps/tatu/deps/dtb2acpi/src/emit/pci_host.rs:66-123 | Whatever a walk emits has exactly the counted size |
| AcpiWalks.BlocksExist | deps/tatu/deps/dtb2acpi/src/emit/motherboard_resource.rs:42-55 | A walk can be emitted exactly when no `compatible` is malformed, every chosen node encodes and there are at most 255; then there is one block a node, in tree order |
| AcpiWalks.EncodableMeans | deps/tatu/deps/dtb2acpi/src/emit/pci_host.rs:125-175 | What each encoder demands of a node, in terms of its bus range, register, windows and interrupts |
| AcpiWalks.DevicesExist | deps/tatu/deps/dtb2acpi/src/emit/sdt.rs:98-123 | After a successful count, the DSDT devices can be emitted exactly when every host bridge and virtio transport fits, there are at most 255 of each, and the serial device fits |
| AcpiWalks.IoApicsExist | deps/tatu/deps/dtb2acpi/src/emit/madt.rs:362-384 | After a successful count, the IOAPIC entries can be emitted exactly when there are at most 255 |
| AcpiWalks.SegmentsAgreeExactly | deps/tatu/deps/dtb2acpi/src/emit/mcfg.rs:83-116 | MCFG and DSDT state the same segment group for every bridge exactly when there is at most one |
| AcpiWalks.WindowCountedButNotEncodable | deps/tatu/deps/dtb2acpi/src/emit/pci_host.rs:163-164 | A 32-bit window at 4 GiB is counted but cannot be emitted |
| AcpiWalks.DsdtCountIsExact | deps/tatu/deps/dtb2acpi/src/emit/sdt.rs:98-123 | The DSDT body has the counted size |
| AcpiWalks.DsdtIsSmall | deps/tatu/deps/dtb2acpi/src/emit/sdt.rs:98-106 | The DSDT length always fits its 32-bit field |
| AcpiWalks.WriteDsdt | deps/tatu/deps/dtb2acpi/src/emit/sdt.rs:98-123 | Succeeds exactly when every device encodes and together they fill the slot; then stores the finished table |
| AmlGrammar.PackageAtPkgLength | deps/tatu/deps/dtb2acpi/src/emit/aml.rs:66-77 | The general package-length decoder reads the two-byte form back |
| AmlGrammar.DeviceIsTerm | deps/tatu/deps/dtb2acpi/src/emit/aml.rs:98-108 | A device header delimits exactly its objects |
| AmlGrammar.HostBridgeIsTerm | deps/tatu/deps/dtb2acpi/src/emit/pci_host.rs:125-175 | A host bridge is one well-formed device: every nested length and its resource template close |
| AmlGrammar.SerialIsTerm | deps/tatu/deps/dtb2acpi/src/emit/serial_device.rs:73-171 | The nested property packages and the buffer of the UART device read back |
| AmlGrammar.DsdtParses | deps/tatu/deps/dtb2acpi/src/emit/sdt.rs:98-123 | Reading the DSDT body by its package lengths splits it exactly into the soft-off object and one device a node, in tree order |
| AmlGrammar.IndexedNames | deps/tatu/deps/dtb2acpi/src/emit/aml.rs:113-120 | Which indexed device names are valid segments, and up to where they are distinct |
| AmlGrammar.VirtioNames | deps/tatu/deps/dtb2acpi/src/emit/virtio_mmio.rs:107-109 | Which virtio device names are valid segments; all are distinct |
| AcpiEntries.MemoryHalves | deps/tatu/deps/dtb2acpi/src/emit/srat.rs:195-219 | The four 32-bit halves of a memory entry are its base and length |
| AcpiTables.RsdpIsValid | deps/tatu/deps/dtb2acpi/src/emit/rsdp.rs:57-77 | Both nested checksums close and the pointer field holds the XSDT address |
| AcpiTables.EmitRsdp | deps/tatu/deps/dtb2acpi/src/emit/rsdp.rs:57-77 | Stores the RSDP with the short checksum set before the extended one |
| AcpiTables.FadtPointsTo | deps/tatu/deps/dtb2acpi/src/emit/fadt.rs:142-223 | The 64-bit DSDT pointer, and the 32-bit one when it fits |
| AcpiTables.FadtRegisters | deps/tatu/deps/dtb2acpi/src/emit/fadt.rs:142-223 | Sleep and reset registers, reset value and the reset flag stand at their offsets |
| AcpiTables.SpcrRegisters | deps/tatu/deps/dtb2acpi/src/emit/spcr.rs:222-265 | Console base, access size, interrupt and baud code stand at their offsets |
| AcpiTables.ConsoleExists | deps/tatu/deps/dtb2acpi/src/emit/spcr.rs:222-275 | The console table exists exactly when the console is a decodable serial port, its `current-speed` is not malformed even where `stdout-path` carries a rate, and the rate in force has a code |
| AcpiTables.EmitMadt | deps/tatu/deps/dtb2acpi/src/emit/madt.rs:329-384 | Succeeds exactly when every IOAPIC encodes, there are at most 255 and the slot has room; a slot of the counted size then holds the finished table |
| AcpiTables.EmitSrat | deps/tatu/deps/dtb2acpi/src/emit/srat.rs:240-298 | Likewise for the affinity entries, which need every processor and memory node tagged |
| AcpiTables.EmitMcfg | deps/tatu/deps/dtb2acpi/src/emit/mcfg.rs:73-119 | Likewise for the configuration regions |
| AcpiTables.EmitXsdt | deps/tatu/deps/dtb2acpi/src/emit/xsdt.rs:42-62 | Into any slot: fails exactly when the header does not fit or an address leaves 64 bits; a slot of the counted size then holds one pointer a listed table |
| AcpiTables.PointerAt | deps/tatu/deps/dtb2acpi/src/emit/xsdt.rs:42-71 | Entry `i` is the base plus the offset of listed table `i` |
| AcpiReader.MadtParses | deps/tatu/deps/dtb2acpi/src/emit/madt.rs:329-420 | Reading by entry lengths gives a local-APIC and an NMI entry a processor, then one entry an IOAPIC, with nothing left over |
| AcpiReader.IoApicFields | deps/tatu/deps/dtb2acpi/src/emit/madt.rs:362-378 | An IOAPIC entry carries its number, its address and 24 times its number as interrupt base |
| AcpiReader.AffinityFields | deps/tatu/deps/dtb2acpi/src/emit/srat.rs:342-358 | Both processor affinity forms carry domain, APIC ID and flags, the short one with the domain split |
| AcpiReader.EcamFields | deps/tatu/deps/dtb2acpi/src/emit/mcfg.rs:83-116 | A configuration region carries its base and its first and last bus |
| AcpiReader.LapicFields | deps/tatu/deps/dtb2acpi/src/emit/madt.rs:387-410 | Both local-APIC forms carry UID, APIC ID and flags |
| AcpiReader.SratParses | deps/tatu/deps/dtb2acpi/src/emit/srat.rs:240-358 | Reading by entry lengths gives one affinity entry a processor, then one a memory region |
| Slit.EmitSlit | deps/tatu/deps/dtb2acpi/src/emit/slit.rs:58-183 | With room for the matrix, succeeds exactly when the property is a nonempty list of triples that name known domains, are in range, have diagonal 10 and agree under symmetry, and then stores the completed matrix; a smaller slot tolerates disagreement |
| Slit.StoreTriple | deps/tatu/deps/dtb2acpi/src/emit/slit.rs:119-172 | One triple against the cells in memory: accepted exactly when it agrees with what is there, and then stored both ways |
| Slit.DistanceMeaning | deps/tatu/deps/dtb2acpi/src/emit/slit.rs:58-183 | The matrix is symmetric with diagonal 10 and values 10 to 255; each triple holds in both directions and unmentioned pairs are 20 |
| Slit.OrderDoesNotMatter | deps/tatu/deps/dtb2acpi/src/emit/slit.rs:111-172 | The order and repetition of triples change neither acceptance nor the matrix |
| Slit.MatrixCells | deps/tatu/deps/dtb2acpi/src/emit/slit.rs:82-98 | The row-major cell of a pair holds its distance |
| AcpiCount.Domains.Insert | deps/tatu/deps/dtb2acpi/src/count.rs:305-321 | Adds a domain once; the 256th distinct one is refused without change |
| AcpiCount.DomainsAreDistinct | deps/tatu/deps/dtb2acpi/src/count.rs:305-321 | The domain list holds each tag once |
| AcpiCount.CpuCache.Push | deps/tatu/deps/dtb2acpi/src/count.rs:235-252 | The cache gives back exactly the processors pushed, and refuses the 257th |
| AcpiCount.WalkCpus | deps/tatu/deps/dtb2acpi/src/count.rs:761-832 | Succeeds exactly on a nonempty, well-formed list of at most 256 processors with the first enabled and at most 255 domains; totals, cache and domains are those of the list |
| AcpiCount.CountNuma | deps/tatu/deps/dtb2acpi/src/count.rs:985-1071 | NUMA is described when all nodes are tagged, absent when none is, and refused otherwise |
| AcpiCount.FadtMeaning | deps/tatu/deps/dtb2acpi/src/count.rs:897-942 | With the power-off and reset nodes of least index: extraction succeeds exactly when no malformed `compatible` is met before both are found, the power-off node exists, and what was found decodes; the registers and values are those of these nodes |
| AcpiCount.LapicMeaning | deps/tatu/deps/dtb2acpi/src/count.rs:729-744 | The local-APIC address is that of the listed node of least index, refused exactly when a malformed `compatible` comes before it or its register does not fit 32 bits |
| AcpiLayout.LayOut | deps/tatu/deps/dtb2acpi/src/count.rs:409-488 | The slots tile the layout without gap or overlap, one for each table present, each of its counted size |
| AcpiLayout.Run | deps/tatu/deps/dtb2acpi/src/count.rs:517-555 | The counting pass succeeds exactly on a countable tree and returns its layout |
| AcpiImage.SizesAgree | deps/tatu/deps/dtb2acpi/src/count.rs:409-488 | Every table that is emitted has exactly the size of its slot, also where the source discards the cursor |
| AcpiImage.NextTable | deps/tatu/deps/dtb2acpi/src/acpi_buffer.rs:125-154 | Storing a table leaves every earlier table and the rest of the buffer as they were |
| AcpiImage.AcpiBuffer.Populate | deps/tatu/deps/dtb2acpi/src/acpi_buffer.rs:109-155 | Each outcome; success leaves exactly the finished tables in layout order and the tail of the buffer untouched |
| AcpiImage.EmitsExactly | deps/tatu/deps/dtb2acpi/src/acpi_buffer.rs:109-155 | The complete list of what can still fail after a successful count, as conditions on bridges, transports, serial device, console, IOAPIC count, distance matrix, XSDT address and table lengths |
| AcpiImage.ImageIsValid | deps/tatu/deps/dtb2acpi/src/acpi_buffer.rs:109-155 | In the filled buffer each slot holds its table: the RSDP first, then tables with signature, length and closing checksum |
| AcpiImage.PointersLand | deps/tatu/deps/dtb2acpi/src/acpi_buffer.rs:125-154 | RSDP, FADT and XSDT pointers are the base plus the offset of exactly the tables present |
| AcpiImage.DsdtInImageParses | deps/tatu/deps/dtb2acpi/src/acpi_buffer.rs:125-127 | The DSDT in the image parses as stated for its body |
| AcpiImage.ReaderFindsXsdt | deps/tatu/deps/dtb2acpi/src/acpi_buffer.rs:109-155 | A reader of the filled buffer that starts at the RSDP finds both checksums closed and, at its pointer, the bytes of the XSDT |
| AcpiImage.ReaderFindsListed | deps/tatu/deps/dtb2acpi/src/acpi_buffer.rs:125-154 | Following the i-th XSDT pointer in the buffer gives the bytes of the i-th listed table, a valid table of its signature |
| AcpiImage.ReaderFindsDsdt | deps/tatu/deps/dtb2acpi/src/acpi_buffer.rs:125-154 | Following the FADT pointer in the buffer gives a DSDT whose body parses into the soft-off object and one device a node |

## Left out

- PlannerSafety.SeparatedExactly: the condition speaks of the room left before each search, so for initrd and relocations it mentions where the earlier regions went; the condition on the inputs alone, `Roomy`, is sufficient but not necessary.
- KernelImage.LoweringPreservesMemory: for segments that are disjoint in memory and have no more file bytes than memory; `PreservesExactly` extends it to excess bytes when the file and memory ranges of different segments are separate. Overlapping ranges stay open: the result then depends on the order in which a loader fills them.
- Assembly.SectionsStayApart: takes the firmware sections as page-aligned and as large as their data, which the linker script and the build check.
- BootMemory.WalkIsIdentity: the table base is a parameter, page-aligned and below the architectural physical-address limit; its link-time value is not modelled.
- ModuleResolve.Resolve: works on lines already split into a path, its module name and its dependencies; the syntax of paths, names and releases, the search for the tree, file checks, reading and decompression are not modelled.
- InitrdTree.CollectTree: paths are already split into components, and the kinds of special component are not told apart.
- InitrdArchive.MaterializeModules: the verdict of the static-ELF check is a parameter; allocation failure is not modelled.
- Slit.EmitSlit: for a slot of another size than counted, the contract says when emission succeeds but not which bytes it leaves. The same holds for `AcpiTables.EmitXsdt`.
- AcpiImage.AcpiBuffer.Populate: says nothing about the bytes of the layout after a failed emission, which the source leaves unspecified.
- AcpiWalks.EmitWalk: says nothing about the bytes of the slot when emission fails.
- Error identity in the ACPI generator: all tree errors are one value, so which of several malformed properties is reported is not modelled.
- Property decoding in the ACPI generator (cell counts, big-endian cells other than the distance matrix, string lists, the resolution of `stdout-path`): nodes carry decoded values; both passes use the same decoders.
- Byte counters of the ACPI generator are unbounded numbers: a `usize` overflow of a total is not modelled.
- Sorting of occupied ranges and of the ordered sets and maps is specified by its result, not by the library's algorithm.
- Parsing of ELF, PE and device-tree files is not modelled: models start from program headers, sections and nodes.
- Decompression of kernels and modules, the manifest and its CBOR encoding, the command line of the tool, and file and path access are not modelled.
- The classification of `.rela` relocations by type and symbol (`src/kernel.rs`) is not modelled; the lists it produces are inputs of the relocation models.
- Firmware entry code, entropy, CPU feature reads and the jump to the kernel are not modelled: the random draw is a parameter.
- Kernel configuration checks, memory-map translation, release strings and the report rendering are not modelled.
