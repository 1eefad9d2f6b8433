# Verified models of phrust

phrust is a PHP engine in Rust with tooling in Python around it. This project models its most involved
algorithms in Dafny and proves what they promise, for all inputs.

* **SSA construction of the region compiler** (`ControlFlow`, `BlockOrder`, `DominatorTree`, `Dominators`,
  `DominanceFrontier`, `PhiPlacement`, `SsaBuilder`, `SsaRenaming`). Reverse postorder by an explicit stack, immediate dominators
  by the iteration of Cooper, Harvey and Kennedy, dominance frontiers, phi placement, the consistency check and
  natural loops. Everything is proved against paths through the control-flow graph, up to the theorem that renaming
  along the dominator tree keeps the meaning of every region, exactly for the graphs whose entry is a join or is never
  returned to.
* **The native artifact container** (`ArtifactBytes`, `ArtifactWriter`, `ArtifactDecoder`, `ArtifactRoundTrip`,
  `ArtifactCanonical`, `ArtifactFormat`, `ArtifactRecords`, `ArtifactImages`, `ArtifactContents`, `ArtifactRelocation`, `ArtifactReport`,
  `ArtifactOrder`). The in-place writer and the checking reader, from the records of an image to the bytes of a file and
  back, with validation, an exact round trip and the exact set of files the writer makes. Then loading, where
  relocations lead to their targets, and the footprint report, which loses no byte.
* **The failure minimizer** (`Minimizer`), **the build fingerprint** (`BuildFingerprint`), **exclusive CPU accounting**
  (`StackTaxonomy`, `BasisPoints`, `CpuAccounting`, `Bootstrap`), **benchmark statistics and process forests**
  (`NearestRank`, `CompileDistribution`, `ProcessForest`), **compile causes** (`CompileCauses`) and **the surface
  inventory** (`BraceMatching`, `SurfaceSupport`, `SurfaceInventory`).
* `Options`, `ByteStrings`, `Lists`, `RealArithmetic`, `Sorting` and `Sums` are shared.

`dafny verify dfyconfig.toml` checks the whole project.

## Reading the model

Code that loops is a method, proved against a function or a predicate; the lemmas are about those. What such a function
computes is stated once more without it, in fields, frames, signatures, counts or bytes. Dictionaries that are
listed in insertion order are sequences with distinct keys, and iteration over a set takes its elements in any order.
Words of the hash are natural numbers below 2^64. Percentages and shares are exact reals. The oracle of the minimizer,
regular expressions, SHA-256, lower-casing, the helper registry, mapped addresses and the rendering of JSON are parameters, so the theorems hold for all of them.
Random choices are arbitrary sequences of places.

Some promises turned out to hold only in part. Each has an input where it fails and the exact condition:

* Dominance frontiers leave out an entry block with a single, reachable predecessor
  (`DominanceFrontier.MarksAreFrontier`), so such an entry gets no phi. Read in the usual way, where a block takes its phi or
  else what leaves its immediate dominator, the plan then gives the entry the value at the start after a turn around the
  loop, and the blocks below it too (`SsaRenaming.MisreadBeyondEntry`). That reading is right for all regions over a graph
  if and only if the graph has no such entry (`SsaRenaming.RenamesIff`). It is a statement about the plan: the source has
  no renaming of its own, and Cranelift makes the block parameters when its variables are sealed.
* The consistency check of the SSA plan asks whether the entry of the dominator table is found by climbing that same
  table. It always is, so a wrong dominator passes (`SsaBuilder.WrongDominatorPasses`); what the check does accept is
  exact in `SsaBuilder.Verify`.
* Exclusive CPU samples sum to the active samples for all stacks only when idle stacks and the idle category coincide,
  which loading a taxonomy does not enforce (`CpuAccounting.AlwaysExclusiveIff`, `CpuAccounting.MisnamedIdleBreaksTheSum`).
* The build fingerprint does not separate a path from the contents after it (`BuildFingerprint.BoundaryNotHashed`).
  One-file trees are hashed alike exactly when name and contents join to the same bytes, and trees of the same shape
  exactly when they are the same (`BuildFingerprint.OneFileAlikeIff`, `BuildFingerprint.SameShapeSeparated`).
* The footprint report rejects artifacts that the native cache accepts, exactly when sections are not listed in file
  order (`ArtifactReport.ReportableIffListedInOrder`). Every image has such a file (`ArtifactOrder.IdentityAfterCode`).
* What the native cache writes it may not read: the reader limits texts to a mebibyte and root maps to 4096 slots, and
  lengths are stored in 32 bits, but the writer checks none of it (`ArtifactContents.CrowdedIsLost`). The round trip holds
  exactly within these limits (`ArtifactContents.ArtifactRoundTripIff`).
* Validation lets relocations overlap, and then the earlier one is lost (`ArtifactRelocation.LaterWins`). A relocation
  that no later one overlaps leads to its target (`ArtifactRelocation.RelocationsReach`), and of several at one place
  exactly those do that refer to the same value as the last (`ArtifactRelocation.LastAtPlaceWins`).
* Rounding by 0.999999 is not rounding up for every quantile (`CompileDistribution.NearestRankIff`).

Where code and description disagree the model follows the code:

* `native_compile_causes.py` describes external-signature compiles as having the same key and duplicates as already
  compiled. The code compares no key and also remembers unpublished products. `CompileCauses.ExternalSignatureIff` and
  `CompileCauses.DuplicatesCounted` say exactly where that shows.
* `native_surface_inventory.py` says that PHPT evidence may make an entry supported. The code derives support from
  probes only.

## Model

| member | source | states |
|---|---|---|
| `BlockOrder.ReversePostorder` | crates/php_jit/src/region_ir/ssa/executable.rs:247-273 | the explicit-stack walk returns the reachable blocks, each once, entry first, and every other block after one of its predecessors |
| `DominatorTree.IntersectDominators` | crates/php_jit/src/region_ir/ssa/executable.rs:228-245 | the two-finger walk ends at a block whose chain of candidates is exactly the intersection of the two chains |
| `Dominators.MeetPredecessors` | crates/php_jit/src/region_ir/ssa/executable.rs:148-157 | folding the known predecessors gives the meet of all their chains |
| `Dominators.Pass` | crates/php_jit/src/region_ir/ssa/executable.rs:146-165 | a pass keeps the table an over-approximation, covers one more retreating edge of every path, reports no change only when the table is exact, and changes nothing when it is |
| `Dominators.ChainHasDominators` | crates/php_jit/src/region_ir/ssa/executable.rs:145-166 | at every moment of the iteration the chain of a block contains all its dominators, defined over paths |
| `Dominators.ManyPassesExact` | crates/php_jit/src/region_ir/ssa/executable.rs:145-166 | as many passes as there are blocks make the table exact, because a path without repetition has fewer retreating edges than blocks |
| `Dominators.SettledExact` | crates/php_jit/src/region_ir/ssa/executable.rs:163-165 | a table that a pass leaves alone is exact |
| `Dominators.ImmediateDominators` | crates/php_jit/src/region_ir/ssa/executable.rs:143-168 | for every control-flow graph, reducible or not, the loop ends with the immediate dominators and takes at most one pass more than there are blocks |
| `ControlFlow.ImmediateDominatorUnique` | crates/php_jit/src/region_ir/ssa/executable.rs:143-168 | the immediate dominator that the table holds is the only one |
| `DominanceFrontier.QueryDominates` | crates/php_jit/src/region_ir/ssa/executable.rs:31-43 | the climb, on any table on which it ends, true or corrupt, answers whether the other block is met |
| `DominanceFrontier.QueryIsDominance` | crates/php_jit/src/region_ir/ssa/executable.rs:31-43 | on the finished table the climb ends and its answer is dominance over all paths, in both directions, for unreachable blocks too |
| `DominanceFrontier.OwnEntryIsFound` | crates/php_jit/src/region_ir/ssa/executable.rs:74-84 | on every table the query about the entry of a block itself ends at once with yes |
| `DominanceFrontier.ComputeFrontiers` | crates/php_jit/src/region_ir/ssa/executable.rs:170-184 | for a reachable block with several predecessors the runner marks exactly the blocks on the way from a predecessor up to, and without, its immediate dominator |
| `DominanceFrontier.MarksAreFrontier` | crates/php_jit/src/region_ir/ssa/executable.rs:170-184 | for reachable blocks the marks are the dominance frontier if and only if the block is not an entry with a single, reachable predecessor |
| `DominanceFrontier.EntryLoopIsMissed` | crates/php_jit/src/region_ir/ssa/executable.rs:172 | the exception is real: a single block that jumps to itself |
| `PhiPlacement.PlacePhis` | crates/php_jit/src/region_ir/ssa/executable.rs:205-217 | the work list computes the least set closed under the frontiers of definitions and phis |
| `PhiPlacement.IteratedFrontierUnique` | crates/php_jit/src/region_ir/ssa/executable.rs:204-217 | the phi set does not depend on the order of the work list |
| `PhiPlacement.NoDefinitionOnApproach` | crates/php_jit/src/region_ir/ssa/executable.rs:204-217 | where a block has no phi for a local, no definition and no phi of it lies between the last visit of its immediate dominator and the block |
| `PhiPlacement.DefinitionReachesThroughDominator` | crates/php_jit/src/region_ir/ssa/executable.rs:106-226 | along every execution path to a block other than the entry and without a phi, the definition that reaches it is the one that reached its immediate dominator: one step up the dominator tree |
| `SsaRenaming.ReachingIsRenamed` | crates/php_jit/src/region_ir/ssa/executable.rs:108-226 | where the entry is a join or is never returned to, the last definition or phi on every path to a block is the name found by climbing the dominator tree to the nearest one |
| `SsaRenaming.RenamingKeepsMeaning` | crates/php_jit/src/region_ir/ssa/executable.rs:108-226 | under the same condition, on every execution path the renamed operand holds the value last stored: the transformation keeps the meaning of the program |
| `SsaRenaming.RenamesIff` | crates/php_jit/src/region_ir/ssa/executable.rs:108-226 | the condition is exact: a graph has it if and only if renaming is right for all regions over it, all locals and all paths; a method reads it off predecessors and block order |
| `SsaRenaming.LoopedEntryMisread` | crates/php_jit/src/region_ir/ssa/executable.rs:172 | over every graph whose entry has a single, reachable predecessor there is a region that is misread at the entry |
| `SsaRenaming.MisreadBeyondEntry` | crates/php_jit/src/region_ir/ssa/executable.rs:172 | a graph of three blocks where the misread value reaches a block other than the entry |
| `SsaBuilder.PredecessorLists` | crates/php_jit/src/region_ir/ssa/executable.rs:116-127 | sorted, deduplicated predecessor lists of every block |
| `SsaBuilder.NumberBlocks` | crates/php_jit/src/region_ir/ssa/executable.rs:132-135 | places in the order, a sentinel for unreachable blocks |
| `SsaBuilder.DefinitionBlocks` | crates/php_jit/src/region_ir/ssa/executable.rs:186-203 | the blocks that define each eligible local, parameters at the entry |
| `SsaBuilder.PlaceAll` | crates/php_jit/src/region_ir/ssa/executable.rs:204-217 | phis of all locals together, each local independent of the others |
| `SsaBuilder.BuildExecutableSsa` | crates/php_jit/src/region_ir/ssa/executable.rs:108-226 | the finished plan holds true predecessors, reachability, immediate dominators, frontiers and phis; a region without blocks gets the empty plan |
| `SsaBuilder.PhiNeedsPredecessors` | crates/php_jit/src/region_ir/ssa/executable.rs:84-90 | a block with a phi is reachable and has several predecessors |
| `SsaBuilder.Verify` | crates/php_jit/src/region_ir/ssa/executable.rs:69-103 | for any plan with a row for each block, the check accepts exactly when every reachable block but the entry has a table entry and every phi lies at a join and is of a known local |
| `SsaBuilder.BuiltPlanFits` | crates/php_jit/src/region_ir/ssa/executable.rs:69-103 | every plan that is built passes the consistency check |
| `SsaBuilder.WrongDominatorPasses` | crates/php_jit/src/region_ir/ssa/executable.rs:74-84 | the dominance test of the check never fails: any block may replace an immediate dominator in an accepted plan |
| `SsaBuilder.NaturalLoop` | crates/php_jit/src/region_ir/opt/executable.rs:330-349 | the loop of a back edge is the header and the blocks that reach the source without passing it |
| `SsaBuilder.HeaderDominatesLoop` | crates/php_jit/src/region_ir/opt/executable.rs:212-223 | the header dominates every reachable block of its natural loop, so the loop has one entry |
| `ArtifactWriter.LayOut` | crates/php_jit/src/native_cache.rs:1438-1453 | the planned records, with offsets at the next aligned positions, and the length of the file; failure exactly when an offset leaves the 64-bit range |
| `ArtifactWriter.WriteRecord` | crates/php_jit/src/native_cache.rs:1468-1475 | the fields written one by one over zeros are the record |
| `ArtifactWriter.WriteTable` | crates/php_jit/src/native_cache.rs:1468-1475 | the table, record after record, leaving the header alone |
| `ArtifactWriter.WriteBody` | crates/php_jit/src/native_cache.rs:1476-1479 | every section at its offset, zeros between them |
| `ArtifactWriter.WriteHeader` | crates/php_jit/src/native_cache.rs:1462-1467 | the fixed fields of the header |
| `ArtifactWriter.Encode` | crates/php_jit/src/native_cache.rs:1438-1483 | the written bytes, to the last padding byte, or the error of the first limit that is passed |
| `ArtifactRoundTrip.ChecksumIgnoresItself` | crates/php_jit/src/native_cache.rs:2212-2220 | filling in the checksum does not change the checksum |
| `ArtifactRoundTrip.ChecksumCoversTheRest` | crates/php_jit/src/native_cache.rs:2212-2220 | outside the checksum field no byte can change without changing what is digested |
| `ArtifactDecoder.ReadTable` | crates/php_jit/src/native_cache.rs:1544-1581 | the records, exactly when all kinds are known and distinct and all ranges are aligned and inside the file |
| `ArtifactDecoder.ChainedIffApart` | crates/php_jit/src/native_cache.rs:1582-1593 | comparing neighbours after sorting by offset is the same as comparing all pairs |
| `ArtifactDecoder.CheckOverlaps` | crates/php_jit/src/native_cache.rs:1582-1593 | accepts exactly the tables whose nonempty sections are pairwise disjoint |
| `ArtifactDecoder.Decode` | crates/php_jit/src/native_cache.rs:1490-1593 | the sections of the table exactly when every check of the container passes, otherwise the error of the first that fails |
| `ArtifactRoundTrip.RoundTrip` | crates/php_jit/src/native_cache.rs:1438-1593 | every artifact written within the limit is read back section for section, in both formats and for every digest |
| `ArtifactRoundTrip.AcceptedIsEncodable` | crates/php_jit/src/native_cache.rs:1490-1593 | accepted sections are ones the writer takes: known kinds, each once, valid alignments, counts and lengths within their fields |
| `ArtifactCanonical.WrittenIffCanonical` | crates/php_jit/src/native_cache.rs:1438-1593 | an accepted file is byte for byte what the writer makes of its sections if and only if offsets and length are those of the layout and reserved and padding bytes are zero |
| `ArtifactFormat.HeaderLayout` | crates/php_jit/src/native_cache.rs:1462-1467 | the header byte by byte: magic, version, lengths and counts at their places, low byte first, reserved bytes zero |
| `ArtifactFormat.RecordLayout` | crates/php_jit/src/native_cache.rs:1468-1479 | each table record field by field, its offset the first multiple of the alignment after what comes before, and the section at that offset |
| `ArtifactFormat.ChecksumIs` | crates/php_jit/src/native_cache.rs:2212-2220 | the checksum is the digest of the whole file with its own 32 bytes read as zeros |
| `ArtifactFormat.HeaderIff` | crates/php_jit/src/native_cache.rs:1490-1543 | a header is accepted if and only if its bytes name a known format, agree with the file and the limit, and the checksum is right; which error a too large file and a wrong checksum give |
| `ArtifactFormat.AlignmentIff` | crates/php_jit/src/native_cache.rs:1558-1562 | an alignment is valid exactly when it is a power of two from 1 to 4096 |
| `ArtifactFormat.SectionTable` | crates/php_jit/src/native_cache.rs:1362-1433 | what each of the thirteen kinds of section holds, with alignment and count |
| `ArtifactRecords.ManyBack` | crates/php_jit/src/native_cache.rs:2254-2575 | a list of records that can each be read back is read back, whatever follows it |
| `ArtifactRecords.WriteRecords` | crates/php_jit/src/native_cache.rs:2254-2565 | the loops over records append their bytes |
| `ArtifactRecords.DecodeRecords` | crates/php_jit/src/native_cache.rs:2287-2575 | the loops over records read as many as counted, end at the first that cannot be read, and refuse bytes left over |
| `ArtifactRecords.TextBack` | crates/php_jit/src/native_cache.rs:2616-2625 | a text of at most a mebibyte is read back |
| `ArtifactRecords.FunctionBack` | crates/php_jit/src/native_cache.rs:2254-2309 | a function entry of the first format is read back |
| `ArtifactRecords.CompactBack` | crates/php_jit/src/native_cache.rs:2267-2328 | a function entry of the second format is read back with the calling convention of its bundle |
| `ArtifactRecords.RelocationBack` | crates/php_jit/src/native_cache.rs:2356-2408 | a relocation is read back, with its kind, target and signed addend |
| `ArtifactRecords.RootMapBack` | crates/php_jit/src/native_cache.rs:2511-2542 | a root map of at most 4096 slots is read back |
| `ArtifactRecords.ResumeBack` | crates/php_jit/src/native_cache.rs:2544-2575 | a resume entry is read back, with its signed number |
| `ArtifactFormat.TextLayout` | crates/php_jit/src/native_cache.rs:2249-2252 | a text follows its 32-bit length |
| `ArtifactFormat.FunctionLayout` | crates/php_jit/src/native_cache.rs:2254-2265 | the 24 bytes of a function entry of the first format |
| `ArtifactFormat.CompactLayout` | crates/php_jit/src/native_cache.rs:2267-2285 | the 21 bytes of a function entry of the second format |
| `ArtifactFormat.ContinuationLayout` | crates/php_jit/src/native_cache.rs:2330-2338 | the 16 bytes of a continuation |
| `ArtifactFormat.RelocationLayout` | crates/php_jit/src/native_cache.rs:2356-2376 | the 24 bytes of a relocation, with the numbers of kinds and targets |
| `ArtifactFormat.HelperLayout` | crates/php_jit/src/native_cache.rs:2410-2417 | the bytes of a helper import |
| `ArtifactFormat.SymbolLayout` | crates/php_jit/src/native_cache.rs:2434-2442 | the 16 bytes of a symbol |
| `ArtifactFormat.TrapLayout` | crates/php_jit/src/native_cache.rs:2459-2467 | the 16 bytes of a trap |
| `ArtifactFormat.ExceptionLayout` | crates/php_jit/src/native_cache.rs:2485-2493 | the 24 bytes of an exception range |
| `ArtifactFormat.RootMapLayout` | crates/php_jit/src/native_cache.rs:2511-2521 | a root map: offset, number of slots and the slots in order |
| `ArtifactFormat.ResumeLayout` | crates/php_jit/src/native_cache.rs:2544-2554 | the 24 bytes of a resume entry |
| `ArtifactFormat.IdentityLayout` | crates/php_jit/src/native_cache.rs:128-150 | the seven texts of an identity in order, and its numbers |
| `ArtifactFormat.NumbersLayout` | crates/php_jit/src/native_cache.rs:141-149 | the 53 bytes of the numbers of an identity |
| `ArtifactFormat.Utf8Iff` | crates/php_jit/src/native_cache.rs:2623-2625 | exactly the encodings of sequences of Unicode scalar values are accepted as text |
| `ArtifactImages.IdentityBack` | crates/php_jit/src/native_cache.rs:128-188 | an identity is read back field by field |
| `ArtifactImages.ValidateImage` | crates/php_jit/src/native_cache.rs:1643-1837 | the checks of an image in their order, and the error of the first that fails |
| `ArtifactImages.ValidIff` | crates/php_jit/src/native_cache.rs:1643-1854 | they pass if and only if numbers are unique, everything lies in the code, places lie in their functions, machines match and every reference has its target |
| `ArtifactImages.EachError` | crates/php_jit/src/native_cache.rs:1679-1835 | the error of a list of records is that of the first that fails |
| `ArtifactImages.ErrorsAre` | crates/php_jit/src/native_cache.rs:1679-1777 | which error helpers, functions, relocations and continuations give |
| `ArtifactContents.EncodeArtifact` | crates/php_jit/src/native_cache.rs:1343-1483 | the bytes of a validated image in either format, or the error of the first check or limit |
| `ArtifactContents.DecodeArtifact` | crates/php_jit/src/native_cache.rs:1485-1641 | the image in a file under an expected identity, or the first error: container, missing section, record, identity or validation |
| `ArtifactContents.ArtifactRoundTripIff` | crates/php_jit/src/native_cache.rs:1343-1641 | an image that was written is read back equal if and only if its texts, root maps and numbers of records are within the limits of the reader |
| `ArtifactContents.OtherIdentityMismatches` | crates/php_jit/src/native_cache.rs:1604-1607 | the artifact of a readable image is refused under every other identity |
| `ArtifactContents.DecodedIsSound` | crates/php_jit/src/native_cache.rs:1485-1641 | whatever bytes are read, the image is valid, readable and carries the expected identity |
| `ArtifactContents.RereadUnchanged` | crates/php_jit/src/native_cache.rs:1343-1641 | an image that was read survives writing and reading again, in both formats |
| `ArtifactContents.CrowdedIsLost` | crates/php_jit/src/native_cache.rs:2511-2536 | a valid image with a root map of 4097 slots is written and not read back |
| `ArtifactRelocation.ApplyRelocations` | crates/php_jit/src/native_cache.rs:1856-1923 | the loop patches the mapped code in place, inside its bounds, as the specification says; the first relocation that cannot be made ends it |
| `ArtifactRelocation.PatchReaches` | crates/php_jit/src/native_cache.rs:1886-1920 | a patched place leads to target and addend for all four kinds, and an Arm64 call keeps its opcode |
| `ArtifactRelocation.RelocatedOkIff` | crates/php_jit/src/native_cache.rs:1856-1923 | loading succeeds if and only if every target is known and every value fits its field |
| `ArtifactRelocation.OutsideUntouched` | crates/php_jit/src/native_cache.rs:1856-1923 | bytes that no relocation patches are unchanged |
| `ArtifactRelocation.RelocationsReach` | crates/php_jit/src/native_cache.rs:1856-1923 | after loading, every relocation that no later one overlaps leads to its target |
| `ArtifactRelocation.LoadedLeadsTo` | crates/php_jit/src/native_cache.rs:1856-1923 | such a place leads to the mapped base, the code offset of the symbol and the addend, or to the address of the helper and the addend, measured from its own address |
| `ArtifactRelocation.AppliesIff` | crates/php_jit/src/native_cache.rs:1861-1910 | a relocation with a known target can be made if and only if addresses stay below 2^64 and the value fits its field |
| `ArtifactRelocation.FailureIs` | crates/php_jit/src/native_cache.rs:1861-1910 | the error of one that cannot be made: the unknown helper or symbol, or an invalid relocation |
| `ArtifactRelocation.ReachedIff` | crates/php_jit/src/native_cache.rs:1886-1920 | where a place leads, as congruences on its bytes: modulo 2^32 for x86 and, in units of four, modulo 2^28 for an Arm64 call |
| `ArtifactRelocation.LastAtPlaceWins` | crates/php_jit/src/native_cache.rs:1856-1923 | of several relocations at one place exactly those that refer to the same value as the last lead to their targets |
| `ArtifactRelocation.LaterWins` | crates/php_jit/src/native_cache.rs:1715-1748 | the proviso is needed: a second relocation at the same place keeps the image valid and the first is lost |
| `ArtifactReport.ParseArtifact` | scripts/performance/native_footprint_report.py:40-75 | accepts exactly the reportable files and then header and table, padding and payload add up to the file, bytes by kind are the lengths of that kind, and a short read can only concern the first record |
| `ArtifactFormat.LengthsIff` | scripts/performance/native_footprint_report.py:42-49 | the report accepts a header if and only if its bytes name a known format and its lengths agree with the file |
| `ArtifactReport.OrderedApart` | scripts/performance/native_footprint_report.py:50-60 | accepted sections lie after the table, inside the file, in order and without overlap |
| `ArtifactReport.TableFits` | scripts/performance/native_footprint_report.py:54-59 | once a section is accepted all later reads of the table are in bounds |
| `ArtifactReport.ReportableIffListedInOrder` | scripts/performance/native_footprint_report.py:57-58 | of the artifacts the native cache accepts the report accepts exactly those that list their sections in file order |
| `ArtifactOrder.FileOrderIrrelevant` | crates/php_jit/src/native_cache.rs:1490-1593 | the cache reads the sections in the order of the table, in whatever order they stand in the file |
| `ArtifactOrder.ReportNeedsOrder` | scripts/performance/native_footprint_report.py:57-58 | two nonempty sections that stand against the table make a file the report refuses, sections that all stand in its order one that it takes |
| `ArtifactOrder.OutOfOrderDiffers` | scripts/performance/native_footprint_report.py:57-58 | for every valid and readable image and every exchange of two nonempty sections in the file: the cache reads the image and the report refuses the file |
| `ArtifactOrder.IdentityAfterCode` | scripts/performance/native_footprint_report.py:57-58 | such a file exists for every image, with identity and code exchanged |
| `ArtifactReport.WrittenIsReported` | scripts/performance/native_footprint_report.py:40-75 | everything the writer writes is reportable, and the payload is the data given to the writer |
| `ArtifactReport.AddSections` | scripts/performance/native_footprint_report.py:149-150 | section bytes of one artifact are added kind by kind, in any order |
| `ArtifactReport.Aggregate` | scripts/performance/native_footprint_report.py:147-152 | totals by kind over all artifacts; with headers and padding they add up to all artifact bytes |
| `ArtifactReport.ParseAll` | scripts/performance/native_footprint_report.py:142-145 | all files are parsed exactly when all are reportable, and each is accounted for to the byte |
| `ArtifactReport.ReportCache` | scripts/performance/native_footprint_report.py:138-157 | the report of a directory is made exactly when every file is reportable, and its totals add up to the sizes of all files |
| `Minimizer.JoinSplit` | scripts/minimize_runtime_failure.py:61 | splitting at line ends loses nothing |
| `Minimizer.IsLineIff` | scripts/minimize_runtime_failure.py:61 | a line ends at its first line break, carriage return and line feed together being one |
| `Minimizer.BreakIff` | scripts/minimize_runtime_failure.py:61 | the ten characters that end a line |
| `Minimizer.LinesUnique` | scripts/minimize_runtime_failure.py:61 | a text has one division into lines |
| `Minimizer.BlankIff` | scripts/minimize_runtime_failure.py:75 | blank texts consist of the white space that strip removes |
| `Minimizer.ReadTextIs` | scripts/minimize_runtime_failure.py:25 | reading drops carriage returns before line feeds and turns the others into line feeds |
| `Minimizer.MinimizePass` | scripts/minimize_runtime_failure.py:70-80 | one pass of one chunk size |
| `Minimizer.MinimizeRound` | scripts/minimize_runtime_failure.py:67-84 | one round of halving chunk sizes |
| `Minimizer.MinimizeLines` | scripts/minimize_runtime_failure.py:60-85 | the three loops end for every oracle and compute the recursive definition, with the same number of oracle calls |
| `Minimizer.RoundsKeep` | scripts/minimize_runtime_failure.py:65-85 | the result is the input, or a selection of its lines in order that is not blank and that the oracle accepted |
| `Minimizer.UnchangedIffMinimal` | scripts/minimize_runtime_failure.py:65-85 | a run changes nothing exactly when no aligned chunk of any size in the halving chain can be removed |
| `Minimizer.RoundsMinimal` | scripts/minimize_runtime_failure.py:65-85 | every run ends with lines from which no aligned chunk can be removed |
| `Minimizer.NoLineRemovable` | scripts/minimize_runtime_failure.py:65-85 | in particular no single line can be removed |
| `Minimizer.FailureKept` | scripts/minimize_runtime_failure.py:88-98 | the result is the input, or is not blank and still makes the engines differ, in the same way when that is asked for; a failing input never becomes a passing one |
| `Minimizer.NoLineDroppable` | scripts/minimize_runtime_failure.py:65-98 | dropping any line of the result leaves a text that is blank, on which the engines agree, or on which they differ otherwise than asked |
| `Minimizer.SplitJoin` | scripts/minimize_runtime_failure.py:61 | splitting the joined lines gives them back exactly when no carriage return meets a line feed at a seam |
| `Minimizer.SecondRunSeesSameLines` | scripts/minimize_runtime_failure.py:61 | a second run on the written text starts from the lines kept exactly when no such seam arose |
| `Minimizer.MinimizedTwice` | scripts/minimize_runtime_failure.py:60-85 | minimizing is idempotent on texts without carriage returns |
| `Minimizer.SecondRunUnchanged` | scripts/minimize_runtime_failure.py:25-34 | running the script on the file it wrote changes nothing, for every first file and all differences of the engines, each run comparing against the difference of its own input |
| `Minimizer.QuadraticRuns` | scripts/minimize_runtime_failure.py:65-84 | at most 4 n^2 oracle calls for n lines, whatever the oracle answers |
| `BuildFingerprint.HashBytes` | crates/php_vm/build.rs:49-55 | the byte loop computes the fold |
| `BuildFingerprint.StepBijective` | crates/php_vm/build.rs:50-53 | one step of FNV-1a permutes the 64-bit states and separates different bytes |
| `BuildFingerprint.StepIsFnv1a` | crates/php_vm/build.rs:50-53 | a step multiplies by the prime, modulo 2^64, the one word whose bits differ where state and byte differ |
| `BuildFingerprint.StepAdds` | crates/php_vm/build.rs:50-53 | where the low byte of the state is zero it adds the byte and multiplies |
| `BuildFingerprint.HashOfA` | crates/php_vm/build.rs:19-55 | the published FNV-1a value of the letter a |
| `BuildFingerprint.HashedConcat` | crates/php_vm/build.rs:19-29 | hashing piece by piece is hashing the concatenation |
| `BuildFingerprint.HashedBijective` | crates/php_vm/build.rs:49-55 | hashing a fixed string is a bijection on the states, with an explicit inverse |
| `BuildFingerprint.OneByteMatters` | crates/php_vm/build.rs:49-55 | replacing one byte anywhere changes the hash |
| `BuildFingerprint.CollectRustFiles` | crates/php_vm/build.rs:33-47 | the recursive walk appends the files of the sorted tree walk |
| `BuildFingerprint.WalkFindsLeaves` | crates/php_vm/build.rs:33-47 | the walk finds the Rust leaves at every depth and nothing else |
| `BuildFingerprint.WalkNoRepeats` | crates/php_vm/build.rs:33-47 | no leaf is collected twice |
| `BuildFingerprint.RustExtensionIff` | crates/php_vm/build.rs:43 | a Rust file has a nonempty stem before its .rs |
| `BuildFingerprint.ContentsIff` | crates/php_vm/build.rs:33-47 | a tree holds a file at a path exactly when the names of the path lead to it and it is a Rust file |
| `BuildFingerprint.RenderedRoots` | crates/php_vm/build.rs:7-12 | the four directories as they are hashed |
| `BuildFingerprint.RenderFile` | crates/php_vm/build.rs:22-25 | a file is hashed under the path of its directory, a slash and its name |
| `BuildFingerprint.FilesInOrder` | crates/php_vm/build.rs:18 | files are hashed in path order: by the first component that differs, parents before names, and names by the first byte that differs |
| `BuildFingerprint.HashFiles` | crates/php_vm/build.rs:19-29 | the loop over files hashes one stream of paths and contents |
| `BuildFingerprint.AutoBuildId` | crates/php_vm/build.rs:4-31 | the identity printed by the build script |
| `BuildFingerprint.PrintedBack` | crates/php_vm/build.rs:30 | the printed identity is the prefix and sixteen digits from which the hash can be read |
| `BuildFingerprint.IdentityOfContents` | crates/php_vm/build.rs:4-31 | the identity depends only on the relative paths and contents of the Rust files, not on directory order or other entries |
| `BuildFingerprint.OneSourceByteMatters` | crates/php_vm/build.rs:4-31 | replacing one byte of one Rust file always changes the identity |
| `BuildFingerprint.BoundaryNotHashed` | crates/php_vm/build.rs:23-28 | two different trees with the same identity: path and contents are hashed without a boundary |
| `BuildFingerprint.OneFileAlikeIff` | crates/php_vm/build.rs:19-29 | two trees of one file are hashed alike if and only if name and contents together are the same bytes |
| `BuildFingerprint.SameShapeSeparated` | crates/php_vm/build.rs:19-29 | trees with the same paths and lengths are hashed from the same bytes if and only if all contents are the same |
| `BuildFingerprint.BoundaryMoves` | crates/php_vm/build.rs:19-29 | the same paths do not suffice: in every tree, text around a path can move into the file sorted before it without changing the identity |
| `StackTaxonomy.ClassifiesIff` | scripts/performance/arm64_stack_classifier.py:228-260 | a stack is classified exactly when it has frames and a rule for its state, or is caught by a frame rule while neither idle nor unresolved |
| `StackTaxonomy.AlwaysClassifies` | scripts/performance/arm64_stack_classifier.py:159-178 | with a rule for each state every nonempty stack is classified |
| `StackTaxonomy.TakesIff` | scripts/performance/arm64_stack_classifier.py:228-260 | which rule matches which stack, in terms of frames and patterns: state rules by state, leaf rules by the last frame, owner rules by the closest owning frame with a generic last frame passed over, stack rules by some frame |
| `StackTaxonomy.ClassifiedByFirst` | scripts/performance/arm64_stack_classifier.py:228-260 | category, rule, leaf, owner and state come from the first rule that takes the stack |
| `StackTaxonomy.UnclassifiedIff` | scripts/performance/arm64_stack_classifier.py:228-260 | a stack is an error exactly when it has no frames or no rule takes it |
| `StackTaxonomy.OnlyStateRulesMatter` | scripts/performance/arm64_stack_classifier.py:228-260 | leaf, owner and stack rules have no influence on idle and unresolved stacks |
| `StackTaxonomy.InsertedRule` | scripts/performance/arm64_stack_classifier.py:881-906 | a rule inserted before the last changes exactly the stacks that it matches and that came as far as the last rule |
| `StackTaxonomy.OnlyFallbackStacksChange` | scripts/performance/arm64_stack_classifier.py:881-906 | before a trailing fallback, only stacks the fallback used to take |
| `BasisPoints.AllocateBasisPoints` | scripts/performance/arm64_stack_classifier.py:263-277 | the loops give every category its floor, and one unit more to the first missing ones by remainder and name |
| `BasisPoints.MissingIsSmall` | scripts/performance/arm64_stack_classifier.py:270-273 | the missing units are fewer than the nonzero remainders, unless both are none |
| `BasisPoints.ChosenHaveRemainders` | scripts/performance/arm64_stack_classifier.py:270-276 | every unit goes to a category with a nonzero remainder, so zero counts get nothing |
| `BasisPoints.UnitOrder` | scripts/performance/arm64_stack_classifier.py:273-276 | no category with a smaller remainder, or an equal one and a later name, gets a unit before another |
| `BasisPoints.TakeIs` | scripts/performance/arm64_stack_classifier.py:273-276 | how many of the sorted remainders a slice with a positive or negative end takes |
| `BasisPoints.AllocationWithinQuota` | scripts/performance/arm64_stack_classifier.py:263-277 | each category gets the floor or the ceiling of its exact quota |
| `BasisPoints.PointsMonotone` | scripts/performance/arm64_stack_classifier.py:263-277 | a larger count never gets fewer basis points |
| `BasisPoints.SumIsWhole` | scripts/performance/arm64_stack_classifier.py:263-277 | the basis points sum to exactly 10,000 |
| `CpuAccounting.ReadStacks` | scripts/performance/arm64_stack_classifier.py:303-359 | counters, ledger and evidence of one window agree with the classified stacks; the first unclassifiable stack ends it |
| `CpuAccounting.LedgerOkIff` | scripts/performance/arm64_stack_classifier.py:303-359 | a window is read exactly when every worker stack can be classified |
| `CpuAccounting.LedgerMeans` | scripts/performance/arm64_stack_classifier.py:303-359 | its ledger books every worker stack and no other, once and in order, as classified and with its weight |
| `CpuAccounting.ClassifyWindow` | scripts/performance/arm64_stack_classifier.py:303-393 | the reported books of a window in terms of its ledger |
| `CpuAccounting.ExclusiveSumIff` | scripts/performance/arm64_stack_classifier.py:560-562 | the exclusive samples sum to the active samples exactly when idle weight under other names equals active weight under the idle name |
| `CpuAccounting.WindowExclusiveSum` | scripts/performance/arm64_stack_classifier.py:303-393 | the exclusive sum of a reported window is the sum over its ledger |
| `CpuAccounting.AlwaysExclusiveIff` | scripts/performance/arm64_stack_classifier.py:159-178 | a loaded taxonomy keeps the exclusive sum for all stacks if and only if it books exactly the idle stacks under the idle category |
| `CpuAccounting.IdleBookedIff` | scripts/performance/arm64_stack_classifier.py:159-178 | all idle stacks are booked as idle if and only if the first idle rule, if there is one, books them so or no symbol is idle |
| `CpuAccounting.WindowConserved` | scripts/performance/arm64_stack_classifier.py:303-393 | with an idle category for idle stacks only, category samples sum to active samples and the ledger to active and idle |
| `CpuAccounting.MisnamedIdleBreaksTheSum` | scripts/performance/arm64_stack_classifier.py:159-178 | a taxonomy that loads but books idle stacks under another name breaks the sum |
| `CpuAccounting.MergeWindows` | scripts/performance/arm64_stack_classifier.py:431-499 | pooled counts, shares and evidence; they balance against the joined ledgers |
| `CpuAccounting.PooledBalanced` | scripts/performance/arm64_stack_classifier.py:431-499 | pooling gives the books of one window over the joined ledgers |
| `CpuAccounting.GateHolds` | scripts/performance/arm64_stack_classifier.py:557-637 | the exclusive-sum and evidence gates hold by construction, the ledger gate exactly when every rule that booked a stack has a name, the share-sum gate exactly when something was active |
| `CpuAccounting.CoverageIff` | scripts/performance/arm64_stack_classifier.py:506-512 | coverage passes exactly when something was active and at most a tenth of it is unclassified or unresolved |
| `CpuAccounting.GatesDifferByRounding` | scripts/performance/arm64_stack_classifier.py:506-512 | the exact coverage gate and the rounded limit on unknown shares disagree only within rounding: 1,001 basis points one way, 10.02 percent the other |
| `Bootstrap.BootstrapInterval` | scripts/performance/arm64_stack_classifier.py:408-428 | the two percentiles of the pooled shares of the choices |
| `Bootstrap.AtInterpolates` | scripts/performance/arm64_stack_classifier.py:396-405 | between neighbouring values the percentile runs straight from one to the other |
| `Bootstrap.PercentileOfProgression` | scripts/performance/arm64_stack_classifier.py:396-405 | on an arithmetic progression it is the progression at the quantile |
| `Bootstrap.PooledShareIs` | scripts/performance/arm64_stack_classifier.py:413-420 | the pooled share times the active samples is a hundred times the samples of the selected windows |
| `Bootstrap.PercentileMonotone` | scripts/performance/arm64_stack_classifier.py:396-405 | the interpolated percentile is monotone in the quantile |
| `Bootstrap.PercentileWithin` | scripts/performance/arm64_stack_classifier.py:396-405 | and stays within any bounds of the values |
| `Bootstrap.Mediant` | scripts/performance/arm64_stack_classifier.py:413-420 | a pooled share lies between the shares that are pooled, over arbitrary multisets of windows |
| `Bootstrap.IntervalWithinShares` | scripts/performance/arm64_stack_classifier.py:408-428 | for every choice the interval is ordered and lies between the smallest and the largest share of a window |
| `NearestRank.PercentileCounts` | scripts/performance/http_engine_benchmark.py:153-158 | at least p percent of the values are at most the percentile and fewer than p percent are below it |
| `NearestRank.PercentileUnique` | scripts/performance/http_engine_benchmark.py:153-158 | that specification has one solution |
| `NearestRank.PercentileMonotone` | scripts/performance/http_engine_benchmark.py:153-158 | percentiles are monotone in the request |
| `NearestRank.PlaceClamped` | scripts/performance/http_engine_benchmark.py:153-158 | requests out of range give the first and the last value |
| `NearestRank.SampleCounts` | scripts/performance/http_engine_benchmark.py:174-176 | the estimate of a choice is the percentile, by count, of the values chosen |
| `NearestRank.IntervalCounts` | scripts/performance/http_engine_benchmark.py:178-182 | the ends of the interval are the 2.5 and the 97.5 percentile, by count, of the estimates |
| `NearestRank.BootstrapPercentileCi` | scripts/performance/http_engine_benchmark.py:161-182 | for every resampling the ends are ordered values of the list, and the interval of the estimates; none only for an empty list |
| `NearestRank.BootstrapPercentileRatioCi` | scripts/performance/http_engine_benchmark.py:185-211 | the interval of the ratios of the resampled percentiles, whose ends are ordered ratios of a value and a nonzero value; none exactly when a list is empty or every denominator sample is zero |
| `NearestRank.RatioWithin` | scripts/performance/http_engine_benchmark.py:185-211 | over positive data every ratio lies between the extreme ratios of the lists |
| `ProcessForest.Pass` | scripts/performance/http_engine_benchmark.py:282-285 | one pass adds children only, and reports no change only when the selection is closed |
| `ProcessForest.Select` | scripts/performance/http_engine_benchmark.py:279-285 | the loop ends with exactly the roots and all their descendants, in any order of the table and with cyclic parent links |
| `ProcessForest.SumOver` | scripts/performance/http_engine_benchmark.py:289-290 | summing over a set in any order counts each listed process once |
| `ProcessForest.Sample` | scripts/performance/http_engine_benchmark.py:279-291 | CPU seconds and resident bytes of the forest, each present process once |
| `ProcessForest.OrderIrrelevant` | scripts/performance/http_engine_benchmark.py:289-290 | the totals do not depend on the order of the table |
| `ProcessForest.UnionForest` | scripts/performance/http_engine_benchmark.py:279-285 | the forest of two groups of roots is the union of their forests |
| `ProcessForest.OverlapCountedOnce` | scripts/performance/http_engine_benchmark.py:279-291 | overlapping roots are not counted twice: inclusion and exclusion of the totals |
| `ProcessForest.NestedRootAddsNothing` | scripts/performance/http_engine_benchmark.py:279-285 | a root below another root changes nothing |
| `CompileDistribution.RoundsUpIff` | scripts/performance/native_compile_distribution.py:20 | adding 0.999999 and truncating rounds up exactly where the fraction is zero or at least a millionth |
| `CompileDistribution.NearestRankIff` | scripts/performance/native_compile_distribution.py:18-21 | the place taken is the nearest-rank place exactly then, or when the rank leaves the list |
| `CompileDistribution.NinetyFifthAgrees` | scripts/performance/native_compile_distribution.py:18-21 | at 0.95 the report takes the benchmark's 95th percentile, for every nonempty list |
| `CompileDistribution.SmallFractionsRoundDown` | scripts/performance/native_compile_distribution.py:20 | an input where the two forms differ |
| `CompileCauses.Classify` | scripts/diagnostics/native_compile_causes.py:64-108 | the single pass with its two memories gives every descriptor the cause defined over the descriptors before it |
| `CompileCauses.PrefixStable` | scripts/diagnostics/native_compile_causes.py:75-106 | a cause never depends on later descriptors |
| `CompileCauses.CauseMeans` | scripts/diagnostics/native_compile_causes.py:75-102 | every cause, if and only if, by the recorded fields: publication, attempt, the six fields of a product, the three of a function and tier, signatures, layout and source |
| `CompileCauses.VariantIff` | scripts/diagnostics/native_compile_causes.py:82-102 | the remaining causes, each if and only if: publication, replan, an earlier identical product, and signatures and layout against the first descriptor of the function and tier |
| `CompileCauses.FirstCompileIff` | scripts/diagnostics/native_compile_causes.py:96-99 | unique-function or dynamic-source exactly for a published first attempt whose function and tier were not recorded before, the former exactly in the entry source |
| `CompileCauses.OneFirstCompile` | scripts/diagnostics/native_compile_causes.py:96-99 | at most one for each source, function and tier |
| `CompileCauses.HasFirstCompileIff` | scripts/diagnostics/native_compile_causes.py:96-105 | one exactly when the first descriptor of the key is published and not a replan |
| `CompileCauses.RemainderDiffers` | scripts/diagnostics/native_compile_causes.py:100-101 | a remainder differs from the first compile only by key, specialization or fingerprint |
| `CompileCauses.CausesSum` | scripts/diagnostics/native_compile_causes.py:9-20 | the causes are disjoint and cover every attempt |
| `CompileCauses.Attribution` | scripts/diagnostics/native_compile_causes.py:82-106 | duplicates and first compiles counted by distinct products and distinct functions and tiers |
| `CompileCauses.CleanRun` | scripts/diagnostics/native_compile_causes.py:82-106 | when all are published first attempts the duplicates are n less the distinct products |
| `CompileCauses.DuplicatesCounted` | scripts/diagnostics/native_compile_causes.py:86-87 | over a run the duplicates are those of products published before and one more for each product first published after an unpublished record; none are too many if and only if there is no such product |
| `CompileCauses.RetryIsDuplicate` | scripts/diagnostics/native_compile_causes.py:14 | an input for that: an unpublished attempt makes the successful one a duplicate |
| `CompileCauses.ExternalSignatureIff` | scripts/diagnostics/native_compile_causes.py:88-91 | every new product with the key of the first compile and other signatures is external-signature, and the cause goes beyond that exactly for new products whose key differs from the first as well |
| `CompileCauses.SameKeyDiffers` | scripts/diagnostics/native_compile_causes.py:88-91 | with the same key such a compile differs from the first in specialization or fingerprint |
| `CompileCauses.KeyIsNotCompared` | scripts/diagnostics/native_compile_causes.py:15 | an input where external-signature is given to compiles with different generic keys |
| `BraceMatching.BalancedBody` | scripts/oracle/native_surface_inventory.py:584-594 | the body up to the first closing brace at depth zero, or failure exactly when there is none |
| `BraceMatching.DepthCounts` | scripts/oracle/native_surface_inventory.py:584-594 | the depth is the number of opening less the number of closing braces |
| `BraceMatching.FailsIff` | scripts/oracle/native_surface_inventory.py:584-594 | from an opening brace it fails exactly when the depth never returns to zero |
| `BraceMatching.BodyIsBalanced` | scripts/oracle/native_surface_inventory.py:584-594 | the body taken from an opening brace is balanced |
| `BraceMatching.UnwrapsBalanced` | scripts/oracle/native_surface_inventory.py:584-594 | extraction undoes wrapping for every balanced text, prefix and suffix |
| `SurfaceSupport.PassIff` | scripts/oracle/native_surface_inventory.py:468-488 | the summary is a pass exactly when a supporting probe was executed and all executed ones passed |
| `SurfaceSupport.NativeIff` | scripts/oracle/native_surface_inventory.py:491-525 | a native class is given exactly on that evidence, whatever is registered |
| `SurfaceSupport.SupportedElse` | scripts/oracle/native_surface_inventory.py:513-522 | the only other supported class needs a failed probe that reference and target both skipped |
| `SurfaceSupport.UnprobedClass` | scripts/oracle/native_surface_inventory.py:491-525 | where nothing was run or all was skipped, the class follows registration, unless the rendering names a crash or a gap |
| `SurfaceSupport.FailedClass` | scripts/oracle/native_surface_inventory.py:491-525 | otherwise the first failure decides the class: crash, compile gap, skipped by both, or mismatch |
| `SurfaceSupport.LegalIs` | scripts/oracle/native_surface_inventory.py:29-45 | the nine classes and the four that count as supported |
| `SurfaceSupport.AlwaysLegal` | scripts/oracle/native_surface_inventory.py:491-525 | only legal classes are given |
| `SurfaceInventory.LoadFunctions` | scripts/oracle/native_surface_inventory.py:362-368 | two registered functions with one lower-case name are an error, and only they |
| `SurfaceInventory.RowNativeIff` | scripts/oracle/native_surface_inventory.py:187-281 | the support class of a row follows its evidence, and which native class follows its route; native_direct is never given because no function is direct |
| `SurfaceInventory.RowMeans` | scripts/oracle/native_surface_inventory.py:187-281 | a row repeats its entry, and a function is registered when the registry has its lower-case name |
| `SurfaceInventory.BuiltinMeans` | scripts/oracle/native_surface_inventory.py:203-206 | a registered function is builtin when its registry row says so |
| `SurfaceInventory.EvidenceMeans` | scripts/oracle/native_surface_inventory.py:233-237 | evidence is found by kind, class and name, and for a method without any by class::method |
| `SurfaceInventory.SameKeyIff` | scripts/oracle/native_surface_inventory.py:699-704 | two entries have one key exactly when kind and lower-case class and name agree |
| `SurfaceInventory.LastRowWins` | scripts/oracle/native_surface_inventory.py:135 | of several rows with one key the last is kept |
| `SurfaceInventory.BuildInventory` | scripts/oracle/native_surface_inventory.py:126-184 | merging, sorting and grouping |
| `SurfaceInventory.GroupHolds` | scripts/oracle/native_surface_inventory.py:155-184 | each group holds the rows of exactly the entries of its kinds |
| `SurfaceInventory.RowsInOrder` | scripts/oracle/native_surface_inventory.py:156 | rows are listed by kind, class and name in code point order |
| `SurfaceInventory.OrderIrrelevant` | scripts/oracle/native_surface_inventory.py:156 | rows with distinct keys give the same inventory in any order |
| `SurfaceInventory.ValidateGroup` | scripts/oracle/native_surface_inventory.py:655-663 | accepts exactly the groups with legal classes and distinct keys |
| `SurfaceInventory.ValidateInventory` | scripts/oracle/native_surface_inventory.py:652-671 | accepts exactly the valid inventories |
| `SurfaceInventory.BuiltIsValid` | scripts/oracle/native_surface_inventory.py:652-671 | for all rows and registries the validator accepts what the builder makes, exactly when the language operations are valid |

## Left out

- The lexer, parser, IR, runtime, virtual machine, optimizer passes and machine-code generation: only the SSA plan, natural loops and the artifact container are modelled.
- Region metadata in the signature section, executable mappings, locks and eviction of the native cache: signature metadata is a byte string.
- The cursor of the reader: a reader is a function from the bytes left to a value and the bytes left after it.
- Rounding up to an alignment is arithmetic on powers of two instead of a bit mask.
- The names of section kinds in the footprint report: bytes are kept by kind number, and each kind has one name; the totals of an empty cache are zeros instead of an empty dictionary.
- Memory maps of the footprint report, and the mapping categories.
- Subprocesses, HTTP, `/proc` and file reads, JSON and TOML decoding, git lookups and argument parsing: their results are inputs.
- Floating-point rounding, the random generators and their seeds.
- Negative sample weights, process times and process numbers: they are natural numbers or plain integers.
- Regular-expression extraction of enum variants and language operations: the language-operation group is an input of the inventory.
- Caller origins, leaf rankings, window statistics, Markdown rendering and the identity checks of the accounting gate.
- Symbolic links and file names that are not UTF-8 in the walk of the build script: the source directories are finite trees.
- The threads and timed joins of the process monitor.
- Threshold gates and comparison scripts, each of which compares two reported numbers.
- CpuAccounting.ClassifyWindow: leaves out the leaf and origin rankings and the signatures of unexplained stacks.
- CpuAccounting.MergeWindows: leaves out window statistics, the bootstrap intervals (stated by themselves in `Bootstrap`) and the top lists.
- CpuAccounting.GateHolds: leaves out file hashes, identities and the count of records.
- BuildFingerprint.SameShapeSeparated: speaks of the bytes that are hashed; distinct bytes of equal hash exist for any 64-bit hash.
- ArtifactWriter.Encode: is stated for sections of known kinds with valid alignments and at most 32 of them, which is what the thirteen sections of the writer are.
