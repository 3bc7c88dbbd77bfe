# BSA ACS in Dafny

A model of the algorithms inside the Arm Base System Architecture compliance suite: building and reading translation
tables, numbering PCIe buses, flattening the IORT, feeding an ITS with commands, and running a test on several processing
elements.  `dafny verify dfyconfig.toml` checks everything.

- **Translation tables** (`Bits`, `Descriptors`, `TableTree`, `FillTranslates`, `RegionOutputs`, `RegionTheorem`, `TableLaws`,
  `PageMemory`, `PageTables`, `PageTableTheorems`, `PageTableRegions`).  Class `PageTables.PageTables` has physical memory as
  a map from page addresses to words, an allocator that can run out, and the static variables of `acs_pgt.c`; its methods
  follow the C functions.  `TableTree.FillTable` says what filling does to a tree of entries, `TableTree.Walk` is the walk of
  section D5.3 of the Arm Architecture Reference Manual (DDI 0487 F), and `PageMemory.MemWalk` is that walk on memory words.
- **PCIe numbering** (`PcieFabric`, `PcieEnumeration`, `PcieNumbers`).  The topology is a tree of buses with 256 slots.
  Every configuration access of the enumeration is routed by the bridge registers as they are at that moment, following
  section 3.2 of the PCI-to-PCI Bridge Architecture Specification 1.2, so the proof has to show that the registers lead
  where the code believes.
- **PCIe functions and registers** (`PcieBdf`, `PcieBitField`).  The two ways through all functions of all ECAM windows, and
  the check of a register field against its attribute.
- **IORT and ID mapping** (`IovirtLayout`, `IovirtNodes`, `IovirtOnce`, `IovirtKnown`, `IovirtBuild`, `IovirtOverlap`,
  `IovirtLookup`, `IovirtTable`, `IovirtSmmu`).  One array of 32-bit words holds the table with its variable-length blocks.
  The builder recurses through a graph of nodes, the overlap check sets flags in place, and the lookup follows byte offsets.
  `IovirtOnce.Listed` says which blocks the builder makes as a list of the nodes they are made for, `IovirtOverlap.Checked`
  which flags the check sets, comparison by comparison.
- **ITS and LPIs** (`ItsCommands`, `ItsHistory`, `ItsDriver`, `LpiTables`).  The driver writes command words into queues;
  a decoder and an interpreter of the commands (section 5.3 of Arm IHI 0069) give a history of operations its meaning.
- **Tests on several elements** (`StatusWords`, `PeProtocol`, `PeStale`, `PeProgress`).  A state machine of a primary and any
  number of secondaries, interleaved step by step over shared memory, with PSCI CPU_ON and CPU_OFF (section 5 of Arm DEN0022).

Loop bodies that would make a method too large are methods of their own: `FillOneEntry`, `FillNextLevel`, `CheckRegion`,
`FillRegion` and `FillRegions` of the page tables, `EnumerateFunction` of the enumeration, `WriteMapping` and `WriteConfig`
of the ITS driver, `AddMap`, `StartMap`, `FinishMap` and `FillBlock` of the IORT builder.

## What the code does not do

These are consequences of the code as it is, each with the condition under which the code is right.

- `val_pgt_create` passes an inclusive top, and the fill loop stops at an address equal to it: the last byte is not mapped
  when it is alone on its page (`RegionTheorem.LengthOk`).  The loop steps by whole blocks from a base that need not be
  aligned to them (`FillTranslates.Placed`).  The masks are 32 bits wide because `page_size` is `uint32_t`, so a page
  descriptor holds only the low 32 bits of its output address, and blocks are taken at levels where the architecture has none
  (`RegionOutputs.OutputsOk`).  A region is translated correctly if and only if none of these matters
  (`RegionTheorem.RegionCorrectIff`).
- For the same reason a table page must lie below 4GB (`Descriptors.TableDescriptorExactIff`).
- `val_pgt_create` fills every region from its first descriptor.  Several regions are all translated correctly if and only if
  the first one is and every later one lies in the pages that the first covers, with the same attributes and the same distance
  between input and output addresses (`PageTableRegions.AllRegionsCorrectIff`); of two adjacent pages the second is lost
  (`PageTableRegions.SecondRegionLost`).  It also keeps the root page when it refuses a descriptor
  (`PageTables.PageTables.Create`).
- The walker subtracts the index width of the level above, not of the level it goes to.  It reads the right attributes for
  all regions if and only if the root table uses all its index bits or is the only table
  (`PageTableTheorems.AttributesFaithfulIff`).  It also ignores the valid bit: an address without a translation has
  attributes 0 above the last level and an error at the last (`PageTableTheorems.AttributesOfLastEntry`).
- MAPC ORs the redistributor base and the collection ID, takes the base as 32 bits, and with GITS_TYPER.PTA clear the
  processor number stands at bit 8 while the field starts at bit 16.  A live event reaches the driver's redistributor if and
  only if PTA is set and the base is below 4GB with a low half of 0 or 1, or PTA is clear and the processor number is 0
  (`ItsHistory.ReachesRedistributorIff`; `ItsHistory.MissedRedistributors` has a failing input of each kind).  MAPD carries
  bits 51 to 8 of the table's address (`ItsHistory.MappedTableIff`).
- A clear for a device that was never mapped has no effect on the ITS: an event stays live until it is cleared for a device
  that was (`ItsHistory.LiveIff`, `ItsHistory.ClearWithoutEffect`).  The write pointer never wraps, so every operation needs
  room in the queue.
- The overlap check takes `id_count` as a number of IDs and the lookup as the last offset.  The check misses exactly the
  collisions of ranges that touch when both counts are positive; a mapping of one ID has count 0, and then the outcome depends
  on which of the two comes first in the table (`IovirtLookup.MissedCollisionIff`, `IovirtLookup.MissedByOrder`).
- The overlap check also compares entries past the end of a block, as many as the mapping has in front of it, and sets flags
  for them too.  Flags are set for exactly the mappings that overlap if and only if such a comparison finds an overlap only
  in a block that carried the flag before or has overlapping mappings of that kind (`IovirtOverlap.FlagsExactIff`; in terms
  of the table before the check when no entry past the end of a block holds a flags word,
  `IovirtOverlap.FlagsExactSteadyIff`).  With an SMMU at 0x18_0000_0000, a root complex with three disjoint mappings to it
  and another one behind it, the first root complex is flagged (`IovirtSmmu.StrayFlagSet`).
- `data.rc.smmu_base` is written for every node with mappings.  The block of a named component holds its whole name if and
  only if it has no mappings or bytes 16 to 23 of the name are 0 (`IovirtNodes.NameKeptIff`).  A root complex is recognised as
  already stored if and only if one with the same segment, attributes and number of mappings is, whose last mapping is not to
  an SMMU with a base other than 0 (`IovirtOnce.AlikeRootIff`): behind such an SMMU it gets a new block every time
  (`IovirtOnce.RootAgain`).
- `find_block` sees the counted blocks only.  A node is counted after all it refers to but lies in front of them, so while its
  mappings are resolved the blocks added last cannot be found.  ITS groups and SMMUs are stored once if and only if no call
  misses one (`IovirtTable.CreatedOnceIff`), which is so when all references go backwards (`IovirtTable.EarlierStoredOnce`).
  When SMMUs may come after the nodes that refer to them and only their own references go backwards, they are stored once, and
  mappings to one SMMU have one reference, if and only if no new node has a mapping that comes back to the target it brought
  last (`IovirtTable.CreatedReadyIff`, `IovirtTable.OneReferenceIff`).  A root complex with two mappings to an SMMU that comes
  after it gets two blocks for it, and the overlap check misses that its stream IDs collide (`IovirtSmmu.SmmuStoredTwice`).
- `val_pcie_increment_bdf` looks up the last window of a segment and returns 0 for failure: it visits all functions in order
  if and only if windows of one segment follow and continue each other and 0:0:0.0 is not behind the first window
  (`PcieBdf.InLoopOrderIff`).
- ORing the ID bits of several ITSs is not taking their maximum: 15 and 16 make 31, for which the 32-bit shift that sizes the
  LPI tables does not fit (`LpiTables.OrIsNotMaximum`, `LpiTables.ShiftFitsIff`).
- A test that timed out can leave secondaries at work.  What such a secondary reports is taken for the next test: that test
  passing means that every secondary ran it if and only if all had come to rest before it (`PeStale.PassMeansRunIff`).  The
  timeout marks only the last pending element, so even then, with two secondaries or more, a report between the timeout and
  the reading of the statuses lets a test pass that another one never ran (`PeStale.PassAlwaysMeansRunIff`,
  `PeStale.LatePass`).
- The enumeration leaves bus numbers from before in place until it comes to them.  It is right when no bridge still to come
  claims a number given out before it (`PcieEnumeration.Apart`), as after reset and after an earlier enumeration; a bus whose
  number a sibling of one of its bridges claims is not seen, with all below it (`PcieEnumeration.BusLost`,
  `PcieEnumeration.PresetLost`).
- `ArmGicItsGetMaxLpiID` shifts an `int`: its result is the largest LPI on every machine if and only if there are fewer than
  30 ID bits (`LpiTables.MaxIdIff`).
- The register check leaves a field that should have been read-only changed when it turns out to be writable
  (`PcieBitField.Register.Check`).

## Model

| member | source | states |
|---|---|---|
| Descriptors.PageDescriptorFields | val/src/acs_pgt.c:65-73 | a page descriptor is read back as a valid page with exactly the attributes given and the output address modulo 2^32 |
| Descriptors.BlockDescriptorFields | val/src/acs_pgt.c:76-85 | a block descriptor is read back as a valid block with exactly the attributes and the whole output address |
| Descriptors.TableDescriptorFields | val/src/acs_pgt.c:118-119 | a table descriptor is nonzero, valid, no block, and gives back the table page under any address mask that covers it |
| Descriptors.TableDescriptorExactIff | val/src/acs_pgt.c:118-119 | a table page survives the 32-bit mask if and only if its address is below 2^32 |
| FillTranslates.FillEntryWalk | val/src/acs_pgt.c:60-120 | the walk of every address served by one entry after one turn of the fill loop, in terms of the walk before |
| FillTranslates.FillTableWalk | val/src/acs_pgt.c:43-123 | the walk of every address after filling any table with a well placed region: covered addresses get the largest aligned block or their page, those of a block that was split are lost, all others keep their translation |
| RegionTheorem.FreshFillTranslates | val/src/acs_pgt.c:43-123 | from an empty table exactly the covered addresses are translated, and nothing else |
| RegionTheorem.RegionCorrectIff | val/src/acs_pgt.c:43-123 | every address of any region below 2^48 reaches its output address with its attributes if and only if the region is well placed, its length is not one more than whole pages, every piece mapped by pages outputs below 4GB and no block is taken at a level without blocks |
| RegionTheorem.BadlyPlaced | val/src/acs_pgt.c:56-60 | any badly placed region, wherever its outputs are, has an address inside it that is translated wrongly or not at all |
| RegionTheorem.ExactBelow4G | val/src/acs_pgt.c:69 | a translation is exact if and only if it goes through a block or its output address is below 2^32 |
| RegionTheorem.LeafExactIff | val/src/acs_pgt.c:65-85 | the leaf an address gets is the right one if and only if no block too large surrounds it and, outside all blocks, its output is below 4GB |
| RegionTheorem.OutputsOkIff | val/src/acs_pgt.c:65-85 | the two conditions on base, output and end alignment hold if and only if every address of the region gets a right leaf |
| RegionOutputs.PagesLowIff | val/src/acs_pgt.c:65-73 | three comparisons of the region's ends with the first and last aligned block decide whether every page-mapped output is below 4GB |
| RegionOutputs.HasBlockIff | val/src/acs_pgt.c:76-85 | one comparison decides whether some address of the region is mapped by a block of a size or a larger one |
| RegionTheorem.LastPage | val/src/acs_pgt.c:57 | the inclusive top leaves out an address of the region if and only if the length is one more than whole pages |
| RegionTheorem.SmallRegionLeaf | val/src/acs_pgt.c:76-85 | a region under 4GB never takes a block at a level where the architecture has none |
| TableLaws.RefillTable | val/src/acs_pgt.c:91-120 | filling the same region again changes no entry and takes no page, whatever the allocator holds |
| TableLaws.FillTableKeeps | val/src/acs_pgt.c:56-121 | entries the region does not visit keep their value |
| TableLaws.FillTablePages | val/src/acs_pgt.c:91-119 | table pages and free pages together never gain a page: no page is used twice |
| TableLaws.FreshFillPages | val/src/acs_pgt.c:91-119 | when the visited entries held no tables, the pages of the table and the free pages are together exactly what they were |
| TableLaws.FillTableProper | val/src/acs_pgt.c:43-123 | filled tables keep the shape the walker relies on: tables only above level 3, words there are blocks or invalid |
| PageMemory.MemWalkIsWalk | val/src/acs_pgt.c:60-61 | the architectural walk on memory words equals the walk of the tree stored there |
| TableTree.IndexIs | val/src/acs_pgt.c:60-61 | the index of an entry is the bits of the address above those of the lower tables and the page |
| PageTables.Log2PageSize | val/src/acs_pgt.c:125-136 | the result is the number of the lowest set bit, 0 for 0 |
| PageTables.PageTables.FillTranslationTable | val/src/acs_pgt.c:43-123 | in memory, the table becomes what the tree fill says or the call fails when the pages run out; no page outside the table's and the allocator's changes |
| PageTables.PageTables.FillOneEntry | val/src/acs_pgt.c:60-120 | one turn of the loop: the entry, the free pages and everything the next turn relies on |
| PageTables.PageTables.FillNextLevel | val/src/acs_pgt.c:91-119 | an entry without a table gets a zeroed page, one with a table is extended in place |
| PageTables.PageTables.GetAttributes | val/src/acs_pgt.c:224-272 | the attributes found are those that the code's own index arithmetic reaches in the stored tree; none for a null base or an invalid last entry |
| PageTables.PageTables.FreeTranslationTable | val/src/acs_pgt.c:274-295 | exactly the pages below the table go back to the allocator, children first, each once |
| PageTables.PageTables.Destroy | val/src/acs_pgt.c:302-321 | every page of the tree and the root go back to the allocator; nothing for a null base |
| PageTables.PageTables.CheckRegion | val/src/acs_pgt.c:173-196 | success if and only if the region is aligned, within the output size and of the right granule; then the input address is truncated in place to the input size |
| PageTables.PageTables.FillRegions | val/src/acs_pgt.c:168-210 | any number of descriptors leaves the table that filling the first one once gives |
| PageTables.PageTables.Create | val/src/acs_pgt.c:144-215 | success if and only if the first descriptor is accepted and the pages suffice; refused for another granule, an output address beyond the output size and addresses off a page; then the root holds the fill of that descriptor and pages are conserved |
| PageTables.RootGeometry | val/src/acs_pgt.c:154-203 | the root table spans exactly the input address space and its index fits a page |
| PageTables.RootRefill | val/src/acs_pgt.c:168-205 | filling the root a second time changes nothing and takes no page |
| PageTableTheorems.CreatedTableTranslates | val/src/acs_pgt.c:144-215 | the hardware walk of every input address in the memory a successful create leaves |
| PageTableTheorems.CreatedTableCorrectIff | val/src/acs_pgt.c:198-205 | that memory translates the whole region if and only if it is well placed, of a good length and its outputs fit the descriptors |
| PageTableTheorems.DestroyAfterCreate | val/src/acs_pgt.c:302-321 | what create leaves meets what destroy needs, and afterwards the allocator has exactly the pages it had |
| PageTableTheorems.AttributesAgree | val/src/acs_pgt.c:246-271 | with a full root index, or one level, the walker finds the attributes of the architectural walk |
| PageTableTheorems.MisreadAttributes | val/src/acs_pgt.c:267-270 | with a narrower root index a one-page region and distinct usable table pages exist for which the walker does not find the attributes |
| PageTableTheorems.AttributesFaithfulIff | val/src/acs_pgt.c:239-271 | for distinct usable table pages the walker finds the attributes of every covered address of every region with right outputs if and only if the root index is full or there is one level |
| PageTableTheorems.AttributesOfLastEntry | val/src/acs_pgt.c:246-271 | the walker returns the attribute bits of the last entry it reads, valid or not, unless it has the block bit at the last level: 0 for an address without translation above the last level, an error at the last |
| PageTableRegions.LaterRegionIff | val/src/acs_pgt.c:168-210 | when the first region works, a later one is translated correctly if and only if it lies in the first one's pages with the same attributes and offset |
| PageTableRegions.AllRegionsCorrectIff | val/src/acs_pgt.c:144-215 | all regions of a successful create are translated correctly if and only if the first works and carries every other |
| PageTableRegions.SecondRegionLost | val/src/acs_pgt.c:168-210 | of two adjacent identity-mapped pages given as two descriptors the first is translated and the second is not |
| PcieFabric.BusNumberFields | val/sys_arch_src/pcie/pcie.h:30 | the three bus numbers packed into the register are read back |
| PcieFabric.NumbersOfWord | val/sys_arch_src/pcie/pcie.h:30 | the three numbers are the low three bytes of any register value |
| PcieFabric.IsBridgeIff | val/sys_arch_src/pcie/pcie.h:29 | what counts as a bridge: an identifier other than 0 and all ones and 1 in bits 17 and 16 of the header word, whatever the multi-function bit |
| PcieEnumeration.OpenRoutesIff | val/sys_arch_src/pcie/pcie.c:45-57 | an access for a bus behind open bridges reaches exactly that bus if no sibling of these bridges claims its number, and nothing otherwise |
| PcieEnumeration.WordsRead | val/sys_arch_src/pcie/pcie.c:45-51 | a read at offset 0 gives the identifier, at offset 0xC the header of the function on the bus that answers, all ones without one |
| PcieEnumeration.LaneRoutes | val/sys_arch_src/pcie/pcie.c:45-57 | with ancestors open to 0xFF and their siblings clear of the numbers in use, accesses for the current bus number reach exactly that bus |
| PcieEnumeration.BusLost | val/sys_arch_src/pcie/pcie.c:45-49 | when a sibling claims the number of a bus, every read there returns all ones |
| PcieEnumeration.PresetLost | val/sys_arch_src/pcie/pcie.c:45-57 | three bridges in a row beside one that already has number 2: the third is not seen |
| PcieEnumeration.BridgeOpened | val/sys_arch_src/pcie/pcie.c:54-55 | writing the register of a bridge makes its secondary bus the one reached under the new number, and all below it is as it was before the enumeration |
| PcieEnumeration.BridgeClosed | val/sys_arch_src/pcie/pcie.c:56-57 | closing the bridge behind its subtree restores the way to its bus and completes its slot |
| PcieEnumeration.Enumerator.EnumerateDevice | val/sys_arch_src/pcie/pcie.c:27-69 | all bridges below the bus are numbered, the result is the last number given out, and no register elsewhere changes |
| PcieEnumeration.Enumerator.EnumerateFunction | val/sys_arch_src/pcie/pcie.c:45-64 | one function: the numbers given out so far and the registers written grow by its subtree, `sub_bus` staying `sec_bus - 1` |
| PcieEnumeration.Enumerator.Enumerate | val/sys_arch_src/pcie/pcie.c:78-82 | with at most 255 bridges, whatever registers that are apart from the numbers given out, the enumeration ends, programs all visible bridges, touches no other and returns their number |
| PcieNumbers.ProgrammedNumbers | val/sys_arch_src/pcie/pcie.c:54-56 | every bridge holds its parent's number as primary, its own as secondary and the last of its subtree as subordinate bus |
| PcieNumbers.NumberRange | val/sys_arch_src/pcie/pcie.c:28-69 | the numbers below a bus lie between its own and its own plus the bridges below it |
| PcieNumbers.Preorder | val/sys_arch_src/pcie/pcie.c:41-57 | numbers are the depth-first preorder, and ranges are nested for descendants and disjoint otherwise |
| PcieNumbers.NumberTaken | val/sys_arch_src/pcie/pcie.c:28-69 | no number is skipped |
| PcieNumbers.NumberRouted | val/sys_arch_src/pcie/pcie.c:56 | afterwards accesses for a number reach the secondary bus of its bridge |
| PcieNumbers.NumberNotRouted | val/sys_arch_src/pcie/pcie.c:56 | afterwards accesses for a number beyond the last reach nothing, unless an unseen function of the root bus claimed it before |
| PcieNumbers.EnumeratedRouting | val/sys_arch_src/pcie/pcie.c:78-82 | every number given out belongs to one bridge and is routed to it, and no other number is answered unless by what the enumeration does not see |
| PcieNumbers.ZeroApart | val/sys_arch_src/pcie/pcie.c:78-82 | registers that are zero are in nobody's way |
| PcieNumbers.ProgrammedApart | val/sys_arch_src/pcie/pcie.c:78-82 | nor are those an enumeration leaves |
| PcieNumbers.ProgrammedAgain | val/sys_arch_src/pcie/pcie.c:78-82 | so a second enumeration changes no bridge |
| PcieNumbers.TooManyBridges | val/sys_arch_src/pcie/pcie.c:31-32 | with more than 255 bridges no register values at all give each of them a number that is routed to it |
| PcieBdf.BdfFields | val/include/bsa_acs_pcie.h:23-32 | segment, bus, device and function are read back from the packed number |
| PcieBdf.IncrementBdf | val/src/acs_pcie.c:997-1050 | the successor by the last window of the segment, found by the downward search |
| PcieBdf.IncrementAt | val/src/acs_pcie.c:1027-1047 | one call from any position of any window |
| PcieBdf.InLoopOrderIff | val/src/acs_pcie.c:997-1050 | repeated calls visit every function of all disjoint windows in the order of the nested loops, and only then return 0, if and only if windows of a segment continue each other and 0:0:0.0 comes first if at all |
| PcieBdf.VisitedOnce | val/src/acs_pcie.c:997-1050 | no function is visited twice |
| PcieBdf.ScanDevice | val/src/acs_pcie.c:569-605 | one device: its functions that belong in the table, none if function 0 is absent |
| PcieBdf.ScanWindow | val/src/acs_pcie.c:565-607 | one window: what its buses and devices add to the table |
| PcieBdf.CreateBdfTable | val/src/acs_pcie.c:518-608 | the table is the sequence of all functions in loop order that are seen, are no host bridges and have the capability; it fails if and only if a function that is looked at has no mapping |
| PcieBdf.TableCompleteIff | val/src/acs_pcie.c:569-604 | nothing that belongs in the table is left out if and only if no device of any window has function 0 absent and another function that belongs there |
| PcieBitField.Register.Check | val/src/acs_pcie.c:1556-1633 | wrong value if and only if the field differs from its configured value; otherwise a read-only field passes if and only if no bit of it is writable, a writable one if and only if all are; what is left in the register |
| PcieBitField.FieldBits | val/include/bsa_acs_pcie.h:56-59 | the field is bits 8 * alignment + start to 8 * alignment + last of the word |
| IovirtBuild.CompareMem | platform/pal_uefi/src/pal_iovirt.c:194 | true if and only if all words are equal, reading nothing behind the first difference |
| IovirtBuild.FindBlock | platform/pal_uefi/src/pal_iovirt.c:182-199 | the offset of the first counted block with the same type, map count, data and, for ITS groups, identifiers; 0 if and only if there is none |
| IovirtBuild.CtxIntDistinct | platform/pal_uefi/src/pal_iovirt.c:86-96 | true if and only if all context interrupts differ in their low 32 bits |
| IovirtBuild.WriteKey | platform/pal_uefi/src/pal_iovirt.c:231-284 | the new block has type, count and data of its node, zero elsewhere, and nothing in front of it changes |
| IovirtBuild.FinishMap | platform/pal_uefi/src/pal_iovirt.c:314-333 | the mapping refers to the given block of its target and the SMMU base is that of the SMMU behind the last mapping, else 0; other blocks and earlier mappings stay |
| IovirtBuild.AddMap | platform/pal_uefi/src/pal_iovirt.c:305-335 | one more mapping with its target added, the blocks before unchanged; among ITS groups and SMMUs the new blocks and the block referred to are exactly those of `Added` and `Target` |
| IovirtBuild.FillBlock | platform/pal_uefi/src/pal_iovirt.c:291-344 | a new block with all mappings resolved and all counters right; the blocks added and the block each mapping refers to are exactly those of `Filled` and `TargetOf` |
| IovirtBuild.AddBlock | platform/pal_uefi/src/pal_iovirt.c:218-345 | the chain of blocks ends at the new end, everything before the old end is unchanged, new blocks are complete and counted, the result refers to a block of the node; no block is added if and only if one of the counted blocks matches |
| IovirtTable.BuildTable | platform/pal_uefi/src/pal_iovirt.c:361-395 | for any acyclic IORT the counted blocks end exactly at the end, every block is that of a node with every reference resolved, every node is there, every counter counts its type; the blocks are those of `Listed`, each mapping referring to that of `TargetOf` |
| IovirtTable.TableInWords | platform/pal_uefi/src/pal_iovirt.c:218-345 | every block word by word: where it begins, type, count, data, flags, maps and where they lead, identifiers, and the SMMU base of a root complex |
| IovirtTable.Counters | platform/pal_uefi/src/pal_iovirt.c:339-343 | header words 1 to 5 are the numbers of blocks of types 3 and 4, 2, 1, 0 and none, word 0 is their sum |
| IovirtBuild.KnownIff | platform/pal_uefi/src/pal_iovirt.c:182-199 | find_block finds an ITS group or SMMU if and only if a counted block was made for a node like it |
| IovirtOnce.ListedKnows | platform/pal_uefi/src/pal_iovirt.c:388-395 | every ITS group and SMMU of the nodes done has a block |
| IovirtOnce.EarlierOnce | platform/pal_uefi/src/pal_iovirt.c:285-344 | with references to earlier ITS groups and SMMUs only, no such node is listed behind one like it |
| IovirtOnce.FilledOnce | platform/pal_uefi/src/pal_iovirt.c:285-344 | filling in a node whose targets are ready keeps ITS groups and SMMUs listed once if and only if no mapping refers to the target stored last for it |
| IovirtOnce.ListedOnceIff | platform/pal_uefi/src/pal_iovirt.c:285-344 | the same for the whole IORT |
| IovirtOnce.HiddenTargets | platform/pal_uefi/src/pal_iovirt.c:285-344 | such a mapping leads to a later block than an earlier mapping of its node to a node like its target |
| IovirtKnown.NoneMissedIff | platform/pal_uefi/src/pal_iovirt.c:285-344 | filling in any node keeps ITS groups and SMMUs listed once if and only if no call of find_block, at any depth, misses one that is there |
| IovirtKnown.ListedFoundIff | platform/pal_uefi/src/pal_iovirt.c:388-395 | the same for the whole IORT |
| IovirtKnown.NewIff | platform/pal_uefi/src/pal_iovirt.c:285-289 | a node gets a block if and only if no earlier node, and for ITS groups and SMMUs no target of an earlier new node, is like it |
| IovirtKnown.HasBlockIff | platform/pal_uefi/src/pal_iovirt.c:305-314 | a target has a block before its node comes if and only if an earlier node, or a target of an earlier new node, is like it |
| IovirtKnown.ListedComesBackIff | platform/pal_uefi/src/pal_iovirt.c:388-395 | ITS groups and SMMUs are listed once if and only if no new node has a mapping that comes back to the target it brought last |
| IovirtOnce.AlikeRootIff | platform/pal_uefi/src/pal_iovirt.c:182-199 | find_block takes one root complex for another if and only if they have the same data and number of mappings and the stored one is not behind an SMMU with a base |
| IovirtOnce.AlikeSelfIff | platform/pal_uefi/src/pal_iovirt.c:182-199 | which nodes are recognised when they come again |
| IovirtOnce.RootAgain | platform/pal_uefi/src/pal_iovirt.c:321-333 | root complexes behind an SMMU with a base get a block each, however alike |
| IovirtNodes.NameKeptIff | platform/pal_uefi/src/pal_iovirt.c:321-333 | the block of a named component holds its whole name if and only if it has no mappings or bytes 16 to 23 are 0 |
| IovirtTable.StoredOnceIff | platform/pal_uefi/src/pal_iovirt.c:285-289 | no block of an ITS group or SMMU matches an earlier one if and only if no such node is listed behind one like it |
| IovirtTable.CreatedOnceIff | platform/pal_uefi/src/pal_iovirt.c:350-398 | in the table as built, ITS groups and SMMUs are stored once if and only if no call of find_block misses one that is there |
| IovirtTable.CreatedReadyIff | platform/pal_uefi/src/pal_iovirt.c:350-398 | when references of references go backwards, if and only if no new node has a mapping that comes back to the target it brought last |
| IovirtTable.EarlierStoredOnce | platform/pal_uefi/src/pal_iovirt.c:350-398 | they are when all references go backwards |
| IovirtTable.EqualNodesOneBlock | platform/pal_uefi/src/pal_iovirt.c:285-289 | then equal such nodes have one block |
| IovirtTable.OnceOneReference | platform/pal_uefi/src/pal_iovirt.c:314 | and all mappings to one of them have one output reference |
| IovirtTable.OneReferenceIff | platform/pal_uefi/src/pal_iovirt.c:305-335 | under the same condition, and only then, all mappings to one ITS group or SMMU have one output reference |
| IovirtTable.TableIsOk | platform/pal_uefi/src/pal_iovirt.c:388-397 | the table as built meets what the overlap check relies on |
| IovirtTable.CreateInfoTable | platform/pal_uefi/src/pal_iovirt.c:350-398 | the table is built, then exactly the flags of the overlap check are set, and the result is ready for the lookup |
| IovirtSmmu.SmmuStreamIds | val/src/acs_iovirt.c:158-217 | in the finished table, when ITS groups and SMMUs are stored once, an unflagged root complex gives distinct stream IDs to requester IDs strictly inside its mappings to one SMMU of the IORT |
| IovirtSmmu.SmmuStoredTwice | platform/pal_uefi/src/pal_iovirt.c:285-344 | a root complex with two mappings to a later SMMU: two blocks for it, two references, one stream ID for requesters 5 and 105, and no flag |
| IovirtSmmu.StrayFlagSet | platform/pal_uefi/src/pal_iovirt.c:139-169 | three disjoint mappings to an SMMU at 0x18_0000_0000 and another root complex behind it: the flag is set although nothing overlaps |
| IovirtOverlap.OverlapIff | platform/pal_uefi/src/pal_iovirt.c:149-153 | for positive counts the test holds if and only if two mappings output a common ID, counts taken as counts |
| IovirtOverlap.OverlapCases | platform/pal_uefi/src/pal_iovirt.c:131-153 | when the test holds for any two mappings, those with count 0 and those that reach 2^32 included |
| IovirtOverlap.CompareBlock | platform/pal_uefi/src/pal_iovirt.c:139-169 | one mapping against the entries compared with it in one block, those past its end included: the table is that of these comparisons in their order |
| IovirtOverlap.CheckMappingOverlap | platform/pal_uefi/src/pal_iovirt.c:112-173 | the table is that of all comparisons in their order, each flagging both blocks for the kind of its target; only flags are added |
| IovirtOverlap.InPairs | platform/pal_uefi/src/pal_iovirt.c:122-148 | which comparisons are made: all pairs of mappings and, in the block of the key, as many entries past its end as the key has mappings in front of it |
| IovirtOverlap.MarkAllFlags | platform/pal_uefi/src/pal_iovirt.c:149-165 | a flag is set afterwards if and only if it was before or a comparison found an overlap of its kind when it was made |
| IovirtOverlap.SteadyFlagged | platform/pal_uefi/src/pal_iovirt.c:139-169 | every comparison whose entry is a mapping or holds no flags word sets the flag if the two overlap in the table before the check |
| IovirtOverlap.FlagBitsIff | platform/pal_uefi/src/pal_iovirt.c:154-165 | bit 0 of the flags word of a block is set if and only if it was before or an overlap found there has an ITS group as target, bit 1 the same with any other target; no other bit changes |
| IovirtOverlap.OverlapBits | platform/pal_uefi/src/pal_iovirt.c:154-165 | two overlapping mappings with one target leave bit 0 of both blocks set for an ITS group, bit 1 otherwise |
| IovirtOverlap.OtherKindStays | platform/pal_uefi/src/pal_iovirt.c:426-433 | overlaps of device IDs alone leave the verdict on stream IDs as it was, and the other way round |
| IovirtOverlap.FlagsExactIff | platform/pal_uefi/src/pal_iovirt.c:112-173 | after the check the flags are those from before and those of overlapping mappings if and only if every overlap found past the end of a block falls on a flag that is due anyway |
| IovirtOverlap.FlagsExactSteadyIff | platform/pal_uefi/src/pal_iovirt.c:112-173 | the same in terms of the table before the check, when no entry past the end of a block holds a flags word |
| IovirtOverlap.UnflaggedIsInjective | platform/pal_uefi/src/pal_iovirt.c:426-433 | a root complex without the flag gives distinct stream IDs to distinct requester IDs strictly inside mappings of one SMMU |
| IovirtOverlap.UnflaggedDevices | platform/pal_uefi/src/pal_iovirt.c:154-158 | a block with bit 0 clear gives distinct device IDs to distinct requester IDs strictly inside mappings of one ITS group |
| IovirtLookup.FindLast | val/src/acs_iovirt.c:187-196 | the last matching mapping of the root complex |
| IovirtLookup.FindFirst | val/src/acs_iovirt.c:220-230 | the first matching mapping of the SMMU |
| IovirtLookup.GetDeviceInfo | val/src/acs_iovirt.c:158-253 | device, stream and ITS identifier in the words of the table: the last map of the first root complex of the segment that takes the requester, and behind an SMMU its first map that takes the stream ID; none if and only if a stage has no map or leads elsewhere |
| IovirtLookup.DeviceIff | val/src/acs_iovirt.c:178-252 | the same of the function that the method computes |
| IovirtLookup.DeviceSame | val/src/acs_iovirt.c:158-253 | the flags have no influence on the lookup |
| IovirtLookup.StreamIdsDistinct | val/src/acs_iovirt.c:178-217 | the lookup in the table as the check leaves it gives distinct stream IDs to requester IDs strictly inside mappings with one reference of an unflagged root complex |
| IovirtLookup.MissedCollisionIff | val/src/acs_iovirt.c:189-190 | when two mappings can give one ID to two requesters, and when the check misses that, for all counts including 0 |
| IovirtLookup.MissedByOrder | platform/pal_uefi/src/pal_iovirt.c:149-153 | two mappings that collide and are found in one order only |
| ItsCommands.WrittenWords | platform/pal_uefi/src_gic_its/bsa_gic_its.c:221-314 | the four words of each command as numbers: opcode, device, event, size, table and redistributor |
| ItsCommands.DecodedWords | platform/pal_uefi/src_gic_its/bsa_gic_its.h:126-136 | what an ITS reads in four words, by the low byte of the first |
| ItsCommands.MapdRead | platform/pal_uefi/src_gic_its/bsa_gic_its.c:221-236 | the ITS reads back device, size, the table's bits 51 to 8 and validity |
| ItsCommands.MapcRead | platform/pal_uefi/src_gic_its/bsa_gic_its.c:238-253 | the ITS reads the collection ORed with the low half of the redistributor base |
| ItsCommands.MapcCollectionIff | platform/pal_uefi/src_gic_its/bsa_gic_its.c:250 | collection 1 is read back if and only if the low half of the redistributor base is 0 or 1 |
| ItsCommands.EventCommandsRead | platform/pal_uefi/src_gic_its/bsa_gic_its.c:255-299 | MAPI, INV and DISCARD are read back with their operands |
| ItsHistory.WordCount | platform/pal_uefi/src_gic_its/bsa_gic_its.c:379-468 | a creates and b clears put 5a + 2b commands in the queue |
| ItsHistory.HistoryRead | platform/pal_uefi/src_gic_its/bsa_gic_its.c:379-468 | the queue decodes to exactly the commands issued, in order |
| ItsHistory.HistoryState | platform/pal_uefi/src_gic_its/bsa_gic_its.c:448-459 | the tables of the ITS after any history, with one translation table shared by all devices |
| ItsHistory.MappedTableIff | platform/pal_uefi/src_gic_its/bsa_gic_its.c:233 | every mapped device has the table of its ITS if and only if the base of that has no bits outside 51 to 8 |
| ItsHistory.HistoryDelivers | platform/pal_uefi/src_gic_its/bsa_gic_its.c:379-468 | an event is delivered if and only if the last effective operation on it was a create and the collection is read back as 1; then to the redistributor that MAPC names |
| ItsHistory.CollectionIff | platform/pal_uefi/src_gic_its/bsa_gic_its.c:238-253 | the collection is read back as 1 if and only if the low half of the formatted base is 0 or 1 |
| ItsHistory.ReachesRedistributorIff | platform/pal_uefi/src_gic_its/bsa_gic_its.c:355-375 | a live event reaches the driver's redistributor if and only if PTA is set and the base is below 4GB with a low half of 0 or 1, or PTA is clear and the processor number is 0 |
| ItsHistory.MissedRedistributors | platform/pal_uefi/src_gic_its/bsa_gic_its.c:355-375 | a redistributor above 4GB is taken for another, and for processor 1 without PTA nothing is delivered |
| ItsHistory.LiveIff | platform/pal_uefi/src_gic_its/bsa_gic_its.c:403 | an event is live if and only if some create of it is followed by no effective clear |
| ItsHistory.ClearWithoutEffect | platform/pal_uefi/src_gic_its/bsa_gic_its.c:403 | after a create and a clear for another device the event is still live |
| ItsHistory.EnabledByteFields | platform/pal_uefi/src_gic_its/bsa_gic_redistributor.c:135 | the byte of an enabled LPI has its enable bit and the priority's upper six bits |
| ItsHistory.ConfigByteIs | platform/pal_uefi/src_gic_its/bsa_gic_redistributor.c:117-137 | the byte of an LPI is what the last operation that names it made it |
| ItsDriver.Driver.constructor | platform/pal_uefi/src_gic_its/bsa_gic_its.c:536-548 | empty queues, write pointers zero |
| ItsDriver.Driver.WriteCmdQ | platform/pal_uefi/src_gic_its/bsa_gic_its.c:221-314 | one command behind those of its queue, all other queues as they were |
| ItsDriver.Driver.CreateLpiMap | platform/pal_uefi/src_gic_its/bsa_gic_its.c:416-468 | the five commands word by word at the write pointer, which moves on by 20 words, CWRITER in bytes, the byte of the LPI; queue, pointers and table are again those of the history, longer by one create; nothing without setup |
| ItsDriver.Driver.ClearLpiMappings | platform/pal_uefi/src_gic_its/bsa_gic_its.c:377-414 | the same for one clear and its two commands |
| ItsDriver.Driver.QueueDelivers | platform/pal_uefi/src_gic_its/bsa_gic_its.c:379-468 | in every state of the driver the write pointer is 4(5a + 2b), inside the queue, and the ITS that runs the queue delivers exactly the live events if the collection is read back as 1 |
| LpiTables.Setup.SetInitialConfiguration | platform/pal_uefi/src_gic_its/bsa_gic_its.c:503-532 | refuses fewer than 14 ID bits, else records and ORs in the smaller number |
| LpiTables.Setup.Configure | platform/pal_uefi/src_gic_its/bsa_gic_its.c:550-557 | success if and only if every ITS has at least 14 ID bits; then all are recorded and ORed together |
| LpiTables.Setup.MaxLpiId | platform/pal_uefi/src_gic_its/bsa_gic_its.c:470-492 | the 32-bit value of the shift by the least ID bits; 0 without ITS or setup |
| LpiTables.MaxIdIff | platform/pal_uefi/src_gic_its/bsa_gic_its.c:492 | it is the largest ID on every machine if and only if there are fewer than 30 ID bits |
| LpiTables.TablesFitIff | platform/pal_uefi/src_gic_its/bsa_gic_redistributor.c:52-56 | the configuration table has a byte for exactly the LPIs of the field's ID bits, the pending table a bit for exactly the interrupts |
| LpiTables.PagesFit | platform/pal_uefi/src_gic_its/bsa_gic_redistributor.c:55 | a table gets the pages of 4096 bytes it needs and one more |
| LpiTables.FieldDominates | platform/pal_uefi/src_gic_its/bsa_gic_its.c:524-529 | the ORed field is no less than the ID bits of any ITS |
| LpiTables.ValidLpiInTables | val/src/acs_gic_support.c:89-102 | every LPI that is accepted has its byte in the configuration table and its bit in the pending table |
| LpiTables.ShiftFitsIff | platform/pal_uefi/src_gic_its/bsa_gic_redistributor.c:52-56 | the size of the tables fits a signed 32-bit value if and only if the field is below 30 |
| LpiTables.OrIsNotMaximum | platform/pal_uefi/src_gic_its/bsa_gic_redistributor.c:96-97 | two ITSs with 15 and 16 ID bits make a field of 31 |
| StatusWords.StateOfWord | val/include/bsa_acs_common.h:77-92 | the state of a status word is read back whatever test number and code it carries |
| StatusWords.StatusWordIs | val/include/bsa_acs_common.h:77-92 | state, test number and code stand at bits 28, 12 and 0 |
| StatusWords.JudgeAllPass | val/src/acs_test_infra.c:451-472 | among reports only, the verdict is PASS if and only if all are PASS |
| StatusWords.JudgeAllFirst | val/src/acs_test_infra.c:451-459 | the first FAIL or SKIP decides, a FAIL for FAIL and a SKIP for SKIP |
| StatusWords.JudgeAllIs | val/src/acs_test_infra.c:451-472 | the verdict of several words in their bits 31 to 28: that of the first 8 or 9; without one PASS if the last is 4, else FAIL |
| StatusWords.TestCounters.CheckForError | val/src/acs_test_infra.c:427-473 | for one element PASS for 4 in bits 31 to 28, SKIP for 9, else FAIL; for several the verdict of all; and the counters |
| PeProtocol.NextInv | val/src/acs_test_infra.c:358-415 | every step of the primary or of a secondary keeps the invariant, the start of a test included if a timeout before it has been settled |
| PeProtocol.BeginInvIff | val/src/acs_test_infra.c:218-260 | beginning a test keeps the invariant if and only if every secondary has come to rest |
| PeStale.PassMeansRunIff | val/src/acs_test_infra.c:218-473 | from the end of any test: the next test passing, without a late report, means that every secondary ran it if and only if all have come to rest |
| PeStale.StalePass | val/src/acs_test_infra.c:427-473 | whenever one has not, a run of the next test on any number of elements passes although that one did not run it |
| PeStale.PassAlwaysMeansRunIff | val/src/acs_test_infra.c:358-473 | late reports included, passing means so if and only if all have come to rest and there is at most one secondary |
| PeStale.LatePass | val/src/acs_test_infra.c:381-382 | two elements hang, one is marked and reports before the statuses are read: the test passes and the other never ran it |
| PeProtocol.RunInv | val/src/acs_test_infra.c:218-473 | the invariant holds in every state of every run in which tests begin only when the timeouts before them are settled |
| PeProtocol.VerdictCorrect | val/src/acs_test_infra.c:427-473 | for every test of such a run, in every interleaving, the verdict is PASS if and only if the wait did not time out and every element reported PASS; otherwise the first slot with FAIL or SKIP makes it FAIL or SKIP; and after a PASS every secondary has consumed this test |
| PeProtocol.SingleVerdict | val/src/acs_test_infra.c:437-449 | a test on the primary alone is judged by its own status |
| PeProtocol.ConsumedOnce | val/src/acs_pe_infra.c:172-220 | a secondary consumes the payload and argument of the current test at most once and nothing else, whatever the retries |
| PeProtocol.LaunchOrFail | val/src/acs_pe_infra.c:199-234 | after a test no secondary is left pending without having been started |
| PeProtocol.CountersAddUp | val/src/acs_test_infra.c:230-472 | in every run, timeouts or not, the total between tests is the sum of passed, failed and skipped tests |
| PeProgress.NeverStuck | val/src/acs_test_infra.c:358-473 | between the begin and the end of a test the primary always has a step |
| PeProgress.TestEnds | val/src/acs_test_infra.c:358-473 | however the secondaries interleave, the primary ends a test within the bound on its steps |
| PeProgress.StepsOfTest | val/src/acs_pe_infra.c:199-220 | that bound for a whole test on n elements, from the retries of CPU_ON and the rounds of polling |

## Left out

- PMCG and invalid nodes of the IORT: a PMCG sets the position of the next block a second time, so its layout differs from
  that of every other node; invalid types return an error offset.
- The override table for SMMUs, null tables and the end-of-table test of `pal_iovirt_create_info_table`: the nodes are a list.
- PageTables.PageTables.FillTranslationTable: what a table holds after a fill that ran out of pages is not described, only
  which pages can have changed; the code does not reclaim subtables that were completed before the failure.
- PageTables.PageTables.FillOneEntry: the same for one turn of the loop.
- PageTables.PageTables.FillNextLevel: the same for the level below; which free pages are left is not described either.
- PageTables.PageTables.Create: regions that pass the end of the input or 48-bit output space are excluded by precondition,
  as are attributes outside the attribute bits; 64-bit overflow of addresses is not modelled for them.  The pages of the
  allocator must lie below 4GB, as table descriptors cannot name others.
- PageTables.PageTables.Destroy: the pages of the table must also lie below the end of the input space, as must those the
  attribute walker goes through: their address mask is that of the input size.
- PageTableTheorems.AttributesFaithfulIff: speaks of input sizes of at most 48 bits, the most that the descriptors hold.
- IovirtTable.BuildTable: IORTs without PMCG and invalid nodes only; which blocks are made is stated for references to ITS
  groups and SMMUs only.
- IovirtTable.OneReferenceIff: not for SMMUs whose own references go to later nodes; for these
  `IovirtTable.OnceOneReference` has one direction and `IovirtTable.CreatedOnceIff` the condition call by call.
- IovirtTable.CreatedReadyIff: the same; `IovirtTable.CreatedOnceIff` is the statement for any depth of references.
- IovirtOnce.FilledOnce: `IovirtKnown.NoneMissedIff` is the statement for any depth of references.
- IovirtOnce.ListedOnceIff: `IovirtKnown.ListedFoundIff` is the statement for any depth of references.
- IovirtOverlap.OverlapIff: for counts of 0 the test has no such meaning; `IovirtOverlap.OverlapCases` says what it does
  there.
- ItsDriver.Driver.CreateLpiMap: needs room for five commands in the queue and a byte in the configuration table; the code
  checks neither.
- ItsDriver.Driver.ClearLpiMappings: needs room for two commands in the queue.
- PcieEnumeration.Enumerator.Enumerate: at most 255 bridges, as no numbering could serve more; what the code writes for
  those beyond is not modelled.  What it makes of registers that are not apart is stated for single accesses, not for the
  whole run.
- PcieBdf.CreateBdfTable: without the pairing of functions with root ports, and for any number of functions, whereas the code
  allocates 8192 bytes for entries of 8 bytes and does not check.
- PcieBitField.Register.Check: a field that ends at bit 31 is taken as it is meant, although C leaves the shift of its mask
  undefined; without warnings, which depend on the wording of the entry, and with the capability already
  found.
- The polling of GITS_CREADR, stalled queues, allocation of the LPI tables and the enable bits of ITS and redistributor: the
  ITS is taken to run the queue.
- PeProtocol.VerdictCorrect: a report after the timeout of its own test is excluded, and a test that begins while a
  secondary of an earlier one still runs; `PeStale` shows what these do.
- The functions of `acs_test_infra.c` and `acs_pe_infra.c` other than `val_check_for_error` are steps of a state machine, not
  methods, because secondaries run between any two of their accesses to shared memory.
- The PSCI calls beyond on, off, already on and failure, cache maintenance, the index checks on the mailbox, and memory
  ordering: shared memory is sequentially consistent.
- ECAM address arithmetic: a configuration access names bus, device and function.
- Capability walks, write-one-to-clear bits and misplaced register entries of the register check.
- Segment numbers of more than 8 bits and overlapping ECAM windows.
- Device-tree copies of the IORT and ITS code, ACPI parsing, information tables, printing and command lines: the same
  algorithms again, or getters.
