# BinForge: a verified model of its hard core

BinForge inspects executables and loads them into a simulated address space. This project models, in
Dafny, the parts of it whose correctness does not show from reading one function, and proves what those
parts promise:

- **Section graph** (`Relations`, `Graphs`, `TarjanState`, `SectionGraphs`, `SectionReferences`). Reference
  events are merged into relations; a recursive Tarjan search with a shared stack then finds the strongly
  connected components, the `cyclic` flag, the roots and the orphans. The relations are exactly the references
  that the records of the image make, with their number and their reasons.
- **Simulated memory** (`OrderedMaps`, `Endian`, `Regions`, `AddressSpaces`). A map of owned regions
  refines one flat partial map from addresses to bytes; every state keeps regions nonempty, disjoint,
  non-wrapping and accounted for.
- **Transactions** (`PatchPlans`, `PatchEngine`, `PatchEffects`, `Snapshots`). A patch interpreter with an undo
  log is all-or-nothing and equals a fold over flat memory, in which the last operation that covers a byte
  decides it; `restore` is atomic and inverts `capture`.
- **Checksummed codecs** (`LinearRegister`, `Crc`, `BinaryPolynomials`, `RegisterRemainders`, `CrcRemainder`,
  `Containers`, `Cursors`, `RecordLists`, `PatchCodec`, `SnapshotCodec`, `ContainerLayouts`). Encoder and decoder
  are exact inverses on everything the decoder's limits admit, and no change within four consecutive bytes of a
  container is accepted. The CRC is the one of section 8 of RFC 1952: the remainder of the data by its generator
  polynomial. Its laws are proved for any shift register of that kind and then for the 32-bit one.
- **Readers and the debug tree** (`Leb128`, `Readers`, `DebugInfo`, `DebugForests`, `DebugRejections`). LEB128 as in
  section 7.6 of DWARF 5; the tree parser with its explicit stack equals a recursive grammar on every input, gives
  back every forest from its serialization, and turns away exactly what the grammar cannot read.
- **Placement** (`Placement`, `Builder`, `Translation`, `Sorting`, `Layout`, `LayoutMerging`,
  `LayoutPlans`). Aligned placement in the file and in memory, runs of sections as segments, address
  translation both ways, sorting and the adjacent-pair overlap check, and greedy merging into maximal runs.
- **Loading** (`Relocations`, `RelocationValues`, `Loader`, `LoadedFields`, `LoadedSegments`, `Landings`,
  `LoadBuilt`). The segment loop, relocations and import slots, the values they must leave, what the loop leaves in
  memory, and the path from the builder to loaded memory.
- **Control flow and symbols** (`Disassembly`, `TextOrder`, `SymbolIndexes`). Linear sweep, leaders and
  basic blocks for any decoder; the symbol index against a linear scan.

`Base` holds the shared types and the overflow-aware arithmetic, `Image` the records several components
share and the image validator.

`uint64_t` and the narrower types are subsets of the integers, with wrap-around written out where the code
wraps (`Wrapped`, `SizeLimit`, `AddWrapped`). Objects that update their fields are classes; what a method
does to a field is stated as a function of the old value, and the laws are lemmas about those functions.
Errors are a `Result` or a `Status` with the error code. `Unspecified` stands for a failure that leaves the
caller's error object as it was.

## What turned out not to hold

- Merging regions does not always leave file bytes where they were planned (`src/layout.cc:98-111`): the
  guard does not look at whether the left region is full of file bytes. `LayoutPlans.GuardAllowsGap` gives two
  segments of a whole page each, in a valid image, whose plan moves a file byte;
  `LayoutPlans.PlanKeepsFileIff` says exactly when a plan is faithful: not merged, or of any two segments that
  meet in memory and in the file, with equal permissions, the left one is full or the right one has no file
  bytes.
- `restore` replaces the limits of the address space as well as its regions (`src/snapshot.cc:58`,
  `src/snapshot.cc:95`); the contract of `Snapshots.Restore` says so.
- The size limit of the snapshot decoder is a 64-bit sum that can wrap (`src/snapshot.cc:136`), so a snapshot
  within the two limits need not decode again: `SnapshotCodec.WrappedLimitRejects` has limits that turn away
  the smallest container, and `SnapshotCodec.DecodesAgainIff` says when that happens.
- Basic blocks need not cover all instructions (`src/disassembly_analyzer.cc:89-131`). Code behind a terminal
  instruction belongs to no block unless something leads to it (`Disassembly.NothingBehindTerminal`), nor does
  code behind an instruction that a leader splits (`Disassembly.NothingBehindSplit`).
  `Disassembly.BlocksCoverIff` says that there are no other causes.
- A section need not arrive where the builder placed it. Sections that share a segment can have different
  displacements between file and memory, while the loader copies the segment as a whole
  (`src/builder.cc:166-178`, `src/loader.cc:53-65`): `LoadBuilt.PairMisses` shows it for two sections. A
  section that *lands* arrives, and only such a section does when its data can be told apart
  (`LoadBuilt.SectionArrives`); it lands when file and memory agree on its displacement and no other
  section's data lies in its range of the file.

## Model

| member | source | states |
|---|---|---|
| Base.CheckedAdd | src/base.cc:13-18 | the sum, exactly when it fits 64 bits |
| Base.AlignUpIsLeastMultiple | src/base.cc:27-36 | for powers of two the least multiple not below the value, and failure iff no multiple is representable; always failure otherwise |
| Base.AlignmentGuard | src/base.cc:28-29 | the bit test accepts exactly the powers of two |
| Base.BitwiseMeans | src/base.cc:27-36 | bit by bit, what the masks keep and clear |
| Base.RangeInside | src/base.cc:38-40 | the range lies in the container, without overflow of the sum |
| LinearRegister.FourBytes | src/base.cc:42-50 | over any lawful register, four bytes act as one word added to the state before 32 steps |
| LinearRegister.BurstChangesRun | src/base.cc:42-50 | two inputs that differ only within four consecutive bytes leave different states |
| Crc.Crc32 | src/base.cc:42-50 | the loop computes the checksum defined step by step |
| Crc.CrcIsLawful | src/base.cc:45-47 | the CRC-32 step is injective and linear, and eight steps recover a shifted-in byte |
| Crc.SealedMeansResidue | src/patch_engine.cc:245-252 | a byte string ends in its own checksum iff the register ends in one fixed state |
| Crc.BurstBreaksSeal | src/patch_engine.cc:245-252 | no change within four consecutive bytes, body or trailer, keeps the trailer right |
| Crc.ByteChangeBreaksSeal | src/snapshot.cc:140-147 | in particular no change of one byte does |
| BinaryPolynomials.RemainderIsUnique | src/base.cc:42-50 | polynomials over two elements have one remainder by a modulus |
| RegisterRemainders.RunIsRemainder | src/base.cc:42-50 | over any register that shifts out a bit and adds a polynomial, its content is congruent to what it started with, times x to the number of bits, plus the data times x to its width |
| CrcRemainder.CrcDivides | src/base.cc:45-47 | the CRC-32 step is one of these |
| CrcRemainder.GeneratorIs | src/base.cc:47 | its constant is the generator with the exponents 32, 26, 23, 22, 16, 12, 11, 10, 8, 7, 5, 4, 2, 1 and 0 |
| CrcRemainder.ChecksumDivides | src/base.cc:42-50 | the checksum, with its bits flipped, is congruent to the data times x to the power 32, with the first 32 bits flipped |
| CrcRemainder.SealedMeansDivided | src/patch_engine.cc:245-252 | a container passes the trailer test iff its last four bytes are that remainder of the others |
| CrcRemainder.CheckValue | src/base.cc:42-50 | the checksum of the digits one to nine is 0xcbf43926 |
| CrcRemainder.ResidueIs | src/patch_engine.cc:245-252 | the fixed state behind every container is 0xdebb20e3 |
| Image.SegmentsChecked | src/validator.cc:39-48 | the segment part of validation passes iff every segment by itself does |
| Image.ValidMeans | src/validator.cc:5-58 | an image is valid iff it keeps its bytes, is within the limits, and each section, segment, symbol and relocation meets its conditions, in terms of their fields |
| Image.FaultsReported | src/validator.cc:9-58 | the error is that of the first fault, and each kind of fault in a section or segment has its code, in terms of the fields |
| Relations.RelationTable.AddRelation | src/section_graph.cc:20-36 | the table goes on summarising the accepted calls; calls outside the sections are turned away |
| Relations.AdjacencyMeans | src/section_graph.cc:60-65 | the adjacency lists hold exactly the related pairs |
| TarjanState.PushKeeps | src/section_graph.cc:79-82 | opening a node keeps the invariant of the search |
| TarjanState.ScanTree | src/section_graph.cc:84-86 | following a tree edge keeps the bounds that low_link stands for |
| TarjanState.ScanBack | src/section_graph.cc:87-88 | so does an edge to a node on the stack |
| TarjanState.TopIsComponent | src/section_graph.cc:91-101 | when low_link equals index_of, the top of the stack is exactly one strongly connected component |
| Graphs.CycleMeans | src/section_graph.cc:103-107 | a closed path exists iff two distinct nodes reach each other or a node has an edge to itself |
| Graphs.SourcesReachAll | src/section_graph.cc:66-69 | in an acyclic graph every node is reached from one without incoming edges |
| SectionGraphs.ComponentSearch.StrongConnect | src/section_graph.cc:78-109 | one call explores all that the node reaches, closes whole components only, and terminates |
| SectionGraphs.IndexBound | src/section_graph.cc:77-80 | the counter never exceeds the number of sections |
| SectionGraphs.FindComponents | src/section_graph.cc:73-116 | all components, each sorted, ordered by smallest member; cyclic iff a cycle exists |
| SectionGraphs.RootsAndOrphans | src/section_graph.cc:66-72 | roots have no incoming edge, orphans no edge at all |
| SectionGraphs.CollectRelations | src/section_graph.cc:38-58 | one relation per pair, references that count its events and sum to all accepted ones |
| SectionGraphs.Analyze | src/section_graph.cc:10-118 | all of the above about the reported graph; failure iff there are too many sections |
| SectionGraphs.EdgesAreEvents | src/section_graph.cc:38-65 | an edge is reported iff an accepted reference event names it |
| SectionGraphs.TogetherMeansMutual | src/section_graph.cc:110-117 | two sections share a component iff each reaches the other |
| SectionGraphs.RootsReachAll | src/section_graph.cc:66-69 | without a cycle every section is reached from a listed root |
| SectionReferences.CountReferences | src/section_graph.cc:38-58 | for every pair, the events are as many as the records that make the one refer to the other: links, relocation sections, neighbours in a segment, relocations with a symbol |
| SectionReferences.RelationMeans | src/section_graph.cc:20-58 | a relation's references are those records, and its text lists each reason among them once and nothing else |
| SectionReferences.EdgesAreReferences | src/section_graph.cc:38-65 | x is related to y iff both are sections and some section, segment or relocation makes x refer to y |
| SectionReferences.RootsAreUnreferred | src/section_graph.cc:66-72 | the roots are the sections nothing refers to, the orphans those of them that refer to nothing |
| Regions.RegionAtFinds | src/address_space.cc:82-88 | region_at finds the one region that contains the address, iff there is one |
| Regions.NeighboursSuffice | src/address_space.cc:32-47 | testing the two neighbours finds an overlap iff there is one with any region |
| Regions.MapAddsZeros | src/address_space.cc:48-56 | mapping adds zero bytes on its range to flat memory and nothing else |
| Regions.UnmapDrops | src/address_space.cc:59-68 | unmapping drops exactly its range from flat memory |
| Regions.WriteIsStore | src/address_space.cc:113-129 | a write is a store into flat memory |
| Regions.ReadIsFetch | src/address_space.cc:95-111 | a read is a fetch from flat memory |
| Regions.WriteUndone | src/patch_engine.cc:157-191 | writing back the earlier bytes undoes a write exactly |
| AddressSpaces.AddressSpace.Map | src/address_space.cc:15-57 | the verdict for every request, the whole new state, and the invariant |
| AddressSpaces.AddressSpace.Unmap | src/address_space.cc:59-68 | the same for unmap |
| AddressSpaces.AddressSpace.Protect | src/address_space.cc:70-80 | only a complete mapping changes its permissions; bytes stay |
| AddressSpaces.AddressSpace.Read | src/address_space.cc:95-111 | succeeds iff one readable region covers the range, and returns its bytes |
| AddressSpaces.AddressSpace.Write | src/address_space.cc:113-129 | succeeds iff one writable region covers the range, or any when permissions are ignored |
| AddressSpaces.AddressSpace.ReadInteger | src/address_space.cc:131-151 | the bytes of the range as an integer in the given order |
| AddressSpaces.AddressSpace.WriteInteger | src/address_space.cc:153-167 | stores the low bytes of the value in the given order |
| AddressSpaces.AddressSpace.Clear | src/address_space.cc:169-172 | the empty memory |
| AddressSpaces.IntegerRoundTrip | src/address_space.cc:131-167 | what write_integer stored, read_integer gives back: every value that fits, of any other the low bytes |
| AddressSpaces.MappedMeansFound | src/address_space.cc:82-88 | a byte is mapped iff region_at finds a region |
| AddressSpaces.MapMeans | src/address_space.cc:15-57 | map succeeds iff there are bytes to map, below the end of the address space and within the limit, none of them mapped; it reports an overlap iff only that is wrong |
| AddressSpaces.AccessMeans | src/address_space.cc:95-129 | an access succeeds iff it is empty or one region contains it and has the bit of the permission |
| AddressSpaces.PermitsMeans | src/address_space.cc:95-129 | reading, writing and executing are bits zero, one and two of the permissions |
| Endian.EncodeDecode | src/address_space.cc:142-165 | integers survive being split into bytes and assembled again, in both orders |
| Endian.EncodedByte | src/address_space.cc:153-167 | byte number i of an integer is its quotient by 256 to the power i, or to the power of those behind it, modulo 256 |
| PatchPlans.ValidatedMeansFits | src/patch_engine.cc:51-110 | validate accepts a plan iff every operation has a valid size and is fully mapped, and the totals agree and fit |
| PatchPlans.RunRefines | src/patch_engine.cc:130-198 | running the operations on regions succeeds and ends as the fold over flat memory does, wherever all they read is readable |
| PatchPlans.UntouchedBytes | src/patch_engine.cc:159-185 | bytes outside every written range keep their value |
| PatchEngine.PatchEngine.Validate | src/patch_engine.cc:51-110 | the verdict of validate, error by error |
| PatchEngine.Rollback | src/patch_engine.cc:187-191 | replaying the log backwards succeeds and is the inverse of what was logged |
| PatchEngine.PatchEngine.ApplyOperations | src/patch_engine.cc:130-196 | the loop ends as the pure run does; on failure memory is as before |
| PatchEngine.PatchEngine.Apply | src/patch_engine.cc:112-199 | all or nothing, with the exact outcome of every plan |
| PatchEngine.ApplyIsFlatRun | src/patch_engine.cc:112-199 | success iff the plan fits, the checksum agrees, all is readable and no assertion fails in the fold over flat memory; the result is that fold, and bytes_written the validated total |
| PatchEngine.ApplyLeavesRest | src/patch_engine.cc:159-185 | a successful patch changes nothing outside its write ranges |
| PatchEngine.MixMeans | src/patch_engine.cc:41-42 | what one region's checksum is mixed in with |
| PatchEngine.ChecksumGrows | src/patch_engine.cc:36-45 | a region above all others is mixed in last, so regions count in address order |
| PatchEffects.FitsMeansPlace | src/patch_engine.cc:19-93 | validate accepts an operation iff it has a size that its kind allows and lies, with the source of a copy, inside one region each |
| PatchEffects.VerdictMeansPlace | src/patch_engine.cc:56-88 | which error each other operation gets, from its fields |
| PatchEffects.ApplyByBytes | src/patch_engine.cc:112-199 | success iff the patch is acceptable and every assertion finds its bytes; every byte is then as the last operation that covers it left it |
| PatchEffects.LastWriteStands | src/patch_engine.cc:157-185 | a byte that operation j wrote last is its byte, its fill value, the digit of its integer, or what the operations before it left at its source |
| Containers.WrapMeans | src/patch_engine.cc:245-253 | a byte string is a container iff magic number and trailer are right around its payload |
| RecordLists.NoItemNoList | src/patch_engine.cc:274-301 | once the records found so far cannot be continued, no list of that length stands there |
| PatchCodec.Encode | src/patch_engine.cc:201-235 | when encoding goes through, and that the result is the plan's container |
| PatchCodec.Decode | src/patch_engine.cc:237-308 | accepts exactly the containers of storable plans and returns their plan; any other input is turned away with the error of its first defect |
| PatchCodec.RejectedOnce | src/patch_engine.cc:253-306 | a payload has one such error: its name, its count, the first operation that is not read, or trailing bytes decide it |
| PatchCodec.ContainerInjective | src/patch_engine.cc:201-308 | two storable plans never share a container, so decode inverts encode |
| PatchCodec.StorableIsEncodable | src/patch_engine.cc:204-232 | every decoded plan encodes again, to the same bytes |
| PatchCodec.CorruptionRejected | src/patch_engine.cc:245-252 | a container changed within four consecutive bytes is no container of any plan |
| ContainerLayouts.PatchContainerMeans | src/patch_engine.cc:201-235 | a byte string is the container of a plan iff each field stands at its place, digit by digit, between magic number and remainder |
| Snapshots.Capture | src/snapshot.cc:21-46 | every region is recorded, in address order, with its checksum; fails iff memory exceeds the limits |
| Snapshots.Restore | src/snapshot.cc:48-97 | succeeds iff the snapshot is restorable, and then replaces regions, total and limits; otherwise changes nothing and reports the metadata, the first region that cannot be staged behind those before it, or the total |
| Snapshots.RestoreFailsOnce | src/snapshot.cc:48-97 | so a snapshot that is turned away has one error |
| Snapshots.RegionVerdictMeans | src/snapshot.cc:60-92 | which defect of a region stops restore with which code, in the order in which it looks |
| Snapshots.CollisionsFound | src/snapshot.cc:78-80 | mapping fails on an overlap iff two snapshot regions collide |
| Snapshots.RestoreInvertsCapture | src/snapshot.cc:21-97 | a capture with bytes restores the identical region map and total, one without restores it zero-filled |
| SnapshotCodec.Encode | src/snapshot.cc:99-129 | when encoding goes through, and that the result is the snapshot's container |
| SnapshotCodec.Decode | src/snapshot.cc:131-191 | accepts exactly the containers of storable snapshots and returns their snapshot; behind a right frame the error is `Truncated` iff the header is acceptable and the regions it announces do not all stand |
| SnapshotCodec.DecodesAgainIff | src/snapshot.cc:131-137 | an encoded snapshot within the sum of the two limits decodes again iff the sum fits 64 bits, or the snapshot is within what is left of it |
| SnapshotCodec.WrappedLimitRejects | src/snapshot.cc:136 | limits whose sum wraps to zero turn away the snapshot of empty memory, which they let encode |
| SnapshotCodec.ContainerInjective | src/snapshot.cc:99-191 | two storable snapshots never share a container |
| SnapshotCodec.StorableIsEncodable | src/snapshot.cc:102-116 | every decoded snapshot encodes again, to the same bytes |
| SnapshotCodec.CorruptionRejected | src/snapshot.cc:140-147 | a container changed within four consecutive bytes is no container of any snapshot |
| ContainerLayouts.SnapshotContainerMeans | src/snapshot.cc:99-129 | the same for snapshots |
| SnapshotCodec.CaptureSurvivesTransport | src/snapshot.cc:21-191 | memory captured with bytes, encoded, decoded and restored is the same memory, within the size limits |
| Readers.ByteReader.Seek | src/reader.cc:13-18 | moves iff the target is inside the data |
| Readers.ByteReader.Skip | src/reader.cc:20-23 | moves iff the sum fits and is inside the data |
| Readers.ByteReader.ReadU8 | src/reader.cc:25-30 | the next byte, iff there is one |
| Readers.ByteReader.ReadFixed | src/reader.cc:32-74 | the next two, four or eight bytes as an integer, iff they are there |
| Readers.ByteReader.ReadBytes | src/reader.cc:124-131 | the next bytes, iff they are there |
| Readers.ByteReader.ReadUleb128 | src/reader.cc:92-106 | accepts exactly the encodings of at most ten bytes whose weighted sum fits 64 bits, and returns the sum |
| Readers.ByteReader.ReadSleb128 | src/reader.cc:108-122 | accepts exactly the encodings of at most ten bytes, and returns the sign-extended sum |
| Readers.ReadsUleb | src/reader.cc:92-106 | every 64-bit value is recovered from its shortest encoding, up to its last byte |
| Readers.ReadsSleb | src/reader.cc:108-122 | the same for every signed 64-bit value |
| Leb128.UlebIsShortest | src/reader.cc:92-106 | no encoding of a value is shorter than the one used there |
| Leb128.SlebIsShortest | src/reader.cc:108-122 | no signed encoding that the reader accepts is shorter than that of its value |
| Leb128.UnsignedExamples | src/reader.cc:92-106 | the unsigned examples of section 7.6 of DWARF 5 |
| Leb128.SignedExamples | src/reader.cc:108-122 | the signed ones |
| DebugInfo.ParseEntries | src/debug_info.cc:165-242 | on every input the explicit-stack parser adds exactly what the recursive grammar reads, complete or cut short, and fails with the grammar's error |
| DebugInfo.NodeStep | src/debug_info.cc:237-239 | pushing an entry and opening its children leaves the outcome of the whole parse as it was |
| DebugInfo.PopStep | src/debug_info.cc:180-185 | so does popping a level |
| DebugInfo.NestingBounded | src/debug_info.cc:186-189 | whatever is read is nested no deeper than the limit |
| DebugInfo.ReadAttributes | src/debug_info.cc:200-236 | the attribute loop reads what the grammar says, up to its first error |
| DebugForests.ForestParses | src/debug_info.cc:173-241 | where a forest's serialization stands, the grammar reads the forest and goes on behind it, however the numbers were written |
| DebugForests.SerializationParses | src/debug_info.cc:173-241 | parsing a serialization gives the forest, to the end of the input or up to a zero tag |
| DebugForests.ForestRoundTrip | src/debug_info.cc:165-242 | with shortest numbers, every forest within the limits is parsed back exactly |
| DebugRejections.AttributeFails | src/debug_info.cc:200-235 | an attribute is truncated iff its name or form is, of an unknown form iff it is none of 1 to 3, and fails without an error iff its number cannot be read or its text is longer than what is left or than the limit |
| DebugRejections.AddedIsKnown | src/debug_info.cc:165-242 | on every input, each attribute of each entry that is read, at any depth, has one of the three forms and a value that fits it |
| DebugRejections.UnknownFormEnds | src/debug_info.cc:230-234 | wherever it stands, an attribute of another form ends the whole parse with invalid_debug_info, and its entry is not added |
| DebugRejections.BadValueEnds | src/debug_info.cc:211-229 | so does a value that cannot be read, with the error as it was |
| DebugRejections.ItemFails | src/debug_info.cc:173-235 | the conditions for each error of an item |
| Layout.LowestAddress | src/layout.cc:28-30 | the least segment address |
| Layout.PlaceSegments | src/layout.cc:33-68 | the region of every nonempty segment, or the first error |
| Layout.DisplacementKept | src/layout.cc:36-60 | every nonempty segment keeps its displacement from the lowest one |
| Layout.AlignmentMeans | src/layout.cc:44-45 | a region's alignment is the larger of the page size and its segment's |
| Layout.RebaseMeans | src/layout.cc:36-67 | a segment is placed iff its range fits and its alignment is a power of two; its region's fields, and its error |
| Layout.SortingFindsOverlaps | src/layout.cc:70-92 | after sorting, neighbours are apart iff no two regions share an address |
| Layout.AdjacentOverlap | src/layout.cc:77-92 | the loop over neighbours decides whether all regions are apart |
| LayoutMerging.MergeRegions | src/layout.cc:94-131 | the result is the maximal runs of mergeable neighbours |
| LayoutMerging.MergedLaid | src/layout.cc:94-131 | merged regions are again sorted, nonempty and disjoint |
| LayoutMerging.NothingLeftToMerge | src/layout.cc:98-111 | of any two neighbours that are left, the right one begins later in memory or elsewhere in the file, or has other permissions |
| LayoutMerging.MergingKeepsPermissions | src/layout.cc:94-131 | the map from addresses to permissions is unchanged |
| LayoutMerging.MergingKeepsTotals | src/layout.cc:112-127 | mapped and file bytes are unchanged, run by run |
| LayoutMerging.MergingKeepsFileIff | src/layout.cc:102-127 | every file byte keeps its address iff wherever neighbours merge the left is full or the right has no file bytes |
| LayoutMerging.GapMisplaces | src/layout.cc:102-127 | behind a gap that is merged over, the first file byte ends up at a lower address |
| LayoutPlans.Totals | src/layout.cc:143-156 | the totals, without overflow |
| LayoutPlans.Plan | src/layout.cc:10-168 | the outcome for every image: validator error, placement error, overlap iff two regions share an address, limit, or the plan with its extent and totals |
| LayoutPlans.PlanMapsSegments | src/layout.cc:33-141 | merged or not, the plan maps an address with some permissions iff some segment at its displacement does |
| LayoutPlans.PlanKeepsFileIff | src/layout.cc:33-141 | for every set of segments: unmerged, a plan puts each file byte where its segment does; merged, it does so iff of two segments that meet in memory and in the file, with equal permissions, the left one is full or the right one has no file bytes |
| LayoutPlans.GuardAllowsGap | src/layout.cc:102-127 | two whole pages of 4096 bytes, with one file byte each, are merged, and the second file byte moves down |
| Placement.AlignUpExact | src/base.cc:27-36 | checked_align_up gives the least multiple whenever it fits |
| Placement.Increasing | src/builder.cc:112-185 | sections lie one behind the other, in the file and in memory |
| Placement.DataInStorage | src/builder.cc:130-132 | the file holds each section's data at its offset |
| Builder.BinaryImageBuilder.AddSection | src/builder.cc:9-29 | when a section is accepted, and that names stay distinct |
| Builder.SectionMeans | src/builder.cc:11-18 | the conditions for a section by itself |
| Builder.OptionsMean | src/builder.cc:86-95 | the conditions for the options |
| Builder.EntryPointMeans | src/builder.cc:188-193 | the entry point is the address of the first section with permission bit two, or zero |
| Builder.PlaceAll | src/builder.cc:112-185 | every section at its least aligned position, zeros between them, segments as maximal runs; or the first section that does not fit |
| Builder.BinaryImageBuilder.Build | src/builder.cc:83-203 | rejected options, the error of the first section that cannot be placed, or the built image with the symbols, relocations and imports of the builder if the validator accepts it, and else its error |
| Builder.BuiltOnce | src/builder.cc:112-195 | sections, symbols, relocations and imports make one image: bytes, sections and segments are determined |
| Builder.BuildDetermined | src/builder.cc:83-203 | so the contract of build leaves one outcome, success iff all sections can be placed and the image they make is valid |
| Builder.SectionsLaidOut | src/builder.cc:112-150 | increasing disjoint ranges, aligned to the larger alignment, with exact data |
| Builder.SectionPlaced | src/builder.cc:112-150 | every section stands at the least multiple of the larger of its two alignments behind the section before it, in the file and in memory |
| Builder.SegmentSpans | src/builder.cc:152-178 | a segment reaches from its first section to the end of its last, in the file and in memory, with the larger alignment |
| Builder.SegmentEncloses | src/builder.cc:155-178 | every section lies inside the segment that lists it |
| Builder.SegmentOf | src/builder.cc:152-178 | every section belongs to exactly one segment |
| Translation.VirtualToFile | src/symbol_index.cc:10-38 | the first section whose memory holds the range decides, else the first segment |
| Translation.FileToVirtual | src/symbol_index.cc:40-65 | the same for file offsets |
| Translation.SectionAnswers | src/symbol_index.cc:10-24 | the answer of the first section that holds an address keeps its distance from the section's start, and counts the bytes to its end |
| Translation.SegmentAnswers | src/symbol_index.cc:26-37 | the same for the first segment, when no section holds it |
| Translation.NothingAnswers | src/symbol_index.cc:10-38 | without either there is no answer |
| Translation.OffsetAnswers | src/symbol_index.cc:40-65 | all this for file offsets |
| Translation.TranslationsInverse | src/symbol_index.cc:10-65 | on the file-backed bytes of built sections each translation undoes the other |
| Relocations.ApplyOne | src/loader.cc:126-198 | the value of every kind, its errors, and the bytes it writes |
| Relocations.PatchReadsBack | src/loader.cc:191-198 | a patch that was applied reads back, cut to its width, and changes its own bytes alone |
| Relocations.RelocationReadsBack | src/loader.cc:191-198 | the value of a relocation fits its width, so all of it reads back |
| Relocations.Apply | src/loader.cc:111-125 | all relocations in order up to the first that does not apply to the memory at the start, with the error of that one, or the count limit |
| Relocations.UntouchedByte | src/loader.cc:119-123 | a byte no relocation touches keeps its value through the run |
| Relocations.PatchSurvives | src/loader.cc:119-123 | a patch that nothing later in the run overlaps still reads back at the end |
| RelocationValues.DueMeans | src/loader.cc:126-198 | a relocation comes to a patch iff its target, its width, the value of its symbol and the law of its kind say so, and the value fits |
| RelocationValues.HalvesMakeSum | src/loader.cc:177-184 | high and low half of one symbol and addend make up their sum |
| RelocationValues.OutcomeMeans | src/loader.cc:126-190 | the conditions for each error of a relocation |
| RelocationValues.AppliesMeans | src/loader.cc:126-198 | when a relocation applies to memory |
| Loader.MapSegment | src/loader.cc:29-66 | one segment: the verdict, and its region with file bytes in place and zeros around them |
| Loader.MapSegments | src/loader.cc:29-66 | the segment loop, up to the first segment that cannot be mapped |
| Loader.Finish | src/loader.cc:67-99 | relocations and then imports, as far as asked for, written in order up to the first that does not apply, whose error is returned; success means all of them applied; every region stays in place |
| Loader.FillSlots | src/loader.cc:73-99 | import slots are filled in order up to the first import that fails, with its error; unresolved weak imports are skipped |
| Loader.LoadedRelocationReadsBack | src/loader.cc:67-99 | after a successful load every relocation that no later one and no import touches reads back as its value |
| Loader.FilledSlotReadsBack | src/loader.cc:73-99 | after a successful load every import slot that no later import touches holds the resolved address |
| RelocationValues.LoadedRelocationMeans | src/loader.cc:67-72 | after a successful load, where no later relocation and no import writes, memory holds the value that the law of the kind asks for |
| RelocationValues.ImportApplies | src/loader.cc:73-98 | when an import applies to memory, and when it is unresolved |
| RelocationValues.LoadedImportMeans | src/loader.cc:73-98 | after a successful load, unresolved imports are weak, and every other slot that no later import touches holds the address, cut to the word size |
| LoadedFields.BiasMeans | src/loader.cc:15-28 | the displacement leads from the image's base to the one asked for, modulo 2^64 |
| LoadedFields.WindowMeans | src/loader.cc:32-45 | a segment's pages begin at the multiple of the page size below its address and are the fewest that hold it |
| LoadedFields.OddPagesFail | src/loader.cc:38-45 | with a page size that is no power of two no segment is mapped |
| LoadedFields.InitialPermissionsMean | src/loader.cc:46-49 | writing is added, executing removed when enforced, all other bits kept |
| LoadedFields.RegionMeans | src/loader.cc:46-65 | a segment's region: pages, permissions, name with its number, its bytes and zeros around them |
| LoadedFields.EntryPointMoves | src/loader.cc:100-109 | the entry point moves with the image if it lies at or above its base |
| Loader.Load | src/loader.cc:6-109 | the outcome of every load: validator error, the first segment that cannot be mapped, the first relocation or import that does not apply, an entry point that overflows, and otherwise success with base, entry point and totals; and the memory it leaves |
| LoadedSegments.StopsAtOverlapIff | src/loader.cc:29-52 | for every image, base and start memory: the segment loop stops at an overlap iff the pages it has room for meet the start memory or the pages of an earlier segment |
| LoadedSegments.SegmentArrives | src/loader.cc:29-66 | from the turn that maps it on, every segment stands at its displaced address: its file bytes, then zeros |
| LoadBuilt.NeverOverlapsItself | src/loader.cc:29-52 | a built image with sections on whole pages, moved by whole pages, stops at an overlap only with what memory held before |
| LoadBuilt.LoadNeverOverlaps | src/loader.cc:6-109 | so the load of such an image into empty memory never reports an overlap |
| Landings.HomeHolds | src/builder.cc:166-178 | the file bytes of a segment hold a section where memory needs it if file and memory agree on its displacement and no other data lies in its range |
| Landings.MarkedHoldsIff | src/builder.cc:166-178 | and only then, when the data of the sections can be told apart |
| LoadBuilt.SectionArrives | src/loader.cc:29-66 | for every built image, base and start memory: a section stands at its displaced address if it lands in its segment, and, when its data can be told apart, only if it does |
| LoadBuilt.AllLand | src/builder.cc:152-165 | with one section per segment every section lands |
| LoadBuilt.PackedSectionMisses | src/builder.cc:166-178 | two sections of one byte, packed in the file and on pages of 4096 bytes in memory: as the first two of a segment, the second never arrives |
| LoadBuilt.PairMisses | src/builder.cc:152-178 | in particular of two such sections with equal permissions, however their image is loaded |
| LoadBuilt.BuiltImageLoads | src/loader.cc:15-66 | once all segments are mapped, all sections that land are in place, and no others whose data can be told apart |
| LoadBuilt.LoadSucceedsIff | src/loader.cc:67-109 | a load of a valid image succeeds iff all segments are mapped, all that is asked for applies and the entry point fits, as it does at the image's own base |
| LoadBuilt.BuiltImageStands | src/loader.cc:6-109 | end to end: a successful load of a built image without relocations and imports leaves memory in which all sections that land are in place, and no others whose data can be told apart |
| Disassembly.Sweep | src/disassembly_analyzer.cc:26-53 | the instructions tile the decoded bytes, each as the decoder reads it, at most the limit of them; why the sweep ended, or where short of the limit and why it failed |
| Disassembly.SweepDetermined | src/disassembly_analyzer.cc:26-53 | bytes and decoder decide where the sweep stops and with which instructions, so it does not both fail and complete |
| Disassembly.CollectLeaders | src/disassembly_analyzer.cc:67-86 | the leaders are the start, the targets in range and what follows a branch that can fall through |
| Disassembly.BuildBlock | src/disassembly_analyzer.cc:95-138 | a block runs to its first stop or up to the next leader |
| Disassembly.OutgoingMeans | src/disassembly_analyzer.cc:114-138 | the edges out of a block are those to the targets of its instructions, and the one by which it goes on if it does |
| Disassembly.Analyze | src/disassembly_analyzer.cc:12-143 | the whole report |
| Disassembly.BlocksDisjoint | src/disassembly_analyzer.cc:88-140 | blocks are ordered and disjoint |
| Disassembly.InsideIsNoLeader | src/disassembly_analyzer.cc:103-106 | no instruction inside a block stands at a leader |
| Disassembly.OnlyLastStops | src/disassembly_analyzer.cc:121-131 | only the last instruction of a block may be a branch or terminal, and complete says whether it is |
| Disassembly.TargetBeginsBlock | src/disassembly_analyzer.cc:76-98 | every target in range that is an instruction boundary begins a block, and so does every such fall-through |
| Disassembly.BlocksBegin | src/disassembly_analyzer.cc:67-98 | an instruction begins a block iff it is the first, the target of some instruction, or behind a branch that is not terminal |
| Disassembly.CoveredStep | src/disassembly_analyzer.cc:95-138 | an instruction is in a block iff it stands at a leader, or the one before it is in a block, is not terminal and is not split by a leader |
| Disassembly.BlocksCoverIff | src/disassembly_analyzer.cc:88-140 | the blocks cover all instructions iff none stands at no leader behind a terminal or split instruction |
| Disassembly.NothingBehindTerminal | src/disassembly_analyzer.cc:121-131 | the instruction behind a terminal one, if nothing targets it, is in no block |
| Disassembly.NothingBehindSplit | src/disassembly_analyzer.cc:89-105 | a branch into an instruction leaves the one behind that out of every block |
| SymbolIndexes.SymbolIndex.Build | src/symbol_index.cc:93-120 | afterwards every table agrees with a linear scan |
| SymbolIndexes.EnterKeeps | src/symbol_index.cc:102-118 | one insertion keeps a table in agreement with the scan |
| SymbolIndexes.BestIsUnique | src/symbol_index.cc:102-118 | the scan has one answer: the first preferred symbol, else the first |
| SymbolIndexes.BestByName | src/symbol_index.cc:102-110 | what that means for names: the first symbol that is not local, else the first |
| SymbolIndexes.BestByQualifiedName | src/symbol_index.cc:111 | for libraries and names: the first |
| SymbolIndexes.BestByAddress | src/symbol_index.cc:113-118 | for addresses: the first with a size, else the first, without file and section symbols |
| SymbolIndexes.SymbolIndex.ByName | src/symbol_index.cc:122-125 | the first non-local symbol of that name, else the first |
| SymbolIndexes.SymbolIndex.ByQualifiedName | src/symbol_index.cc:127-131 | the first symbol of that library and name |
| SymbolIndexes.SymbolIndex.Nearest | src/symbol_index.cc:133-145 | the best symbol at the greatest eligible address not above the query, cleared iff its size does not reach |
| SymbolIndexes.SymbolIndex.Prefix | src/symbol_index.cc:147-160 | the lexicographically first names with the prefix, at most maximum |
| TextOrder.PrefixesTogether | src/symbol_index.cc:153-158 | names with a prefix stand together, so the walk may stop at the first other one |
| TextOrder.LessMeans | src/symbol_index.cc:147-160 | names are ordered by the first byte in which they differ, prefixes first |

## Left out

- Null data pointers, error message texts and error offsets: only error codes are modelled.
- Allocation failure, and the limits on the size of a vector or string below 2^64 bytes.
- The mutable `region_at` handed to callers (`src/address_space.cc:90-93`): a caller that edits a region's
  base, size or bytes through it is outside the model.
- The pointer stack of `parse_entries`: it always points down the last entries of the tree, so it is modelled
  as the number of open levels; nothing else points into the tree while it grows.
- `std::sort` is modelled by insertion sort. In the planner, regions that the comparison cannot tell apart
  overlap each other, so the choice between orders does not show in a plan.
- Region names in a plan are kept as the list of segment indices they are joined from; the planner's warnings
  and the warnings of the disassembly report are not modelled.
- `SymbolResolver` is any function from library, name and ordinal to an address.
- Mnemonics, operands and instruction bytes; decoders are any function that keeps the address it is given.
- `add_symbol`, `add_import`, `add_export` and `add_relocation` of the builder, export records, and header
  fields that no modelled code reads.
- The container parsers, manifests, line programs, resources, unwind tables, notes, hardening, queries, reports,
  diffs, scanners and opcode tables: long field-by-field code with few deep properties, or heuristics.
