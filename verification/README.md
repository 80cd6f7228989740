# Verified models of SOFT5

SOFT5 is a framework for scientific data. This project models eight of its algorithms in Dafny and
proves what they promise, or the exact condition under which they keep the promise.

* **Translators** (`TranslationPlanner.dfy`, `TranslationExecutor.dfy`): the backward-chaining search
  for a plan that turns entities at hand into an entity of another type, and the run of the plan.
  The interpreter's recursion limit is a parameter, and exhausting it is an outcome.
* **Triple store and collection** (`Text.dfy`, `TripletStore.dfy`, `TripletLaws.dfy`,
  `Collection.dfy`, `CollectionLaws.dfy`): a multi-hash of triples and their mirrors, its CSV text,
  and the collection of labelled entities that is saved and loaded with it. The order in which the
  hash enumerates its keys is a parameter.
* **Blocks and allocatables** (`SoftcIndexing.dfy`, `SoftcHeap.dfy`, `SoftcTables.dfy`,
  `SoftcOwnership.dfy`, `SoftcRuns.dfy`, `SoftcMemory.dfy`): reference-counted blocks and nested
  pointer tables on a heap that malloc, realloc and free change. `SoftcDatamodel.dfy` adds the copiers
  between pointer tables and nested vectors. Where malloc puts a cell, and whether realloc moves one,
  is left open.
* **Nested lists** (`Qh5Lists.dfy`): flattening and reshaping lists of any depth with a cursor, with the
  32-bit arithmetic of the source.
* **CHEMKIN reactions** (`Numerals.dfy`, `ReactionSpecies.dfy`, `Reaction.dfy`, `ReactionParser.dfy`,
  `ReactionParserLaws.dfy`): the reaction block parser as a state machine over lines. The large regular
  expressions are functions that classify lines and give their captures; the two that take a list of
  species apart are spelt out.
* **Dimension sizes** (`ArithmeticEval.dfy`, `DimSizes.dfy`, `DimSizeLaws.dfy`, `DimSizeMeaning.dfy`,
  `DimSizeClashes.dfy`, `ArithmeticTexts.dfy`): sizes written into the text of an expression, label by
  label, and the text then parsed and evaluated.
* **Surface sites** (`SiteRegistry.dfy`, `SiteRegistryLaws.dfy`): the parallel lists of sites, species and
  rate parameters that a rate calculation fills and prints.
* **Compositions** (`Composition.dfy`): the chemical formula of a calculation, with its two parallel lists
  sorted and rearranged.

Methods follow the source statement by statement and are proved against specification functions; the
laws are lemmas about those functions. Files named `...Laws`, `...Runs`, `...Meaning`, `...Clashes` and
`...Texts` hold the laws. `Wrappers.dfy`, `Sequences.dfy` and `Dimensions.dfy` are shared by several of them.

Where the code falls short of what it is for, the model keeps the code as it is, and the exact condition
is proved:

* a plan with the same intermediate type in two branches fails on an assertion
  (`TranslationExecutor.PlanRunsIffDistinct`; input: `DiamondStopsOnTheAssertion`), and a cyclic registry
  exhausts the recursion limit (`TranslationPlanner.SearchComesBackIffRanked`; `CyclicRegistryNeverComesBack`);
* CSV loses triples with a reverse predicate, an empty field or a separator in a field
  (`TripletLaws.RoundTripIffClean`; `ReversePredicateIsLost`), and turns the order of lookups around
  (`RoundTripReversesLookups`; `LookupTurnsAround`);
* `softc_block_reshape` makes room for dims it never copies (`SoftcRuns.ReshapeGivesDimsIff`;
  `ReshapeKeepsOldDims`), and an area sized by pointers overflows for larger elements
  (`SoftcIndexing.ElementsFitIff`; `DoubleOverflows`);
* ragged arrays do not survive `arrayToPtr` and `ptrToArray` (`SoftcDatamodel.ThereAndBack2Iff`,
  `ThereAndBack3Iff`; `RaggedIsNotReadBack`) or a write to HDF5 (`Qh5Lists.WriteThenReadIff`;
  `RaggedIsNotReadBack`), and a buffer of 2^31 elements or more gets a wrong size (`Qh5Lists.TotalSize`;
  `SquareGetsNoBuffer`);
* a reaction line that the regular expression takes only without its `(+X)` is lost to the reaction before it
  (`ReactionParserLaws.LineIsLostIff`; `LineIsLost`);
* a label inside another word is replaced too (`DimSizeClashes.FaithfulIffNoClash`;
  `DimSizeMeaning.ClashCounterexample`), and a negative size leaves no value (`DimSizeMeaning.ReplacedValue`;
  `NegativeSizeHasNoValue`);
* the empty site of a surface is listed once per adsorbed species
  (`SiteRegistryLaws.EmptySiteIsListedTwiceIff`; `EmptySiteIsListedTwice`);
* the ordered composition of an adsorbate cannot be read once surface atoms are left out
  (`Composition.ReadComposition`; `AdsorbateIsNotReadInOrder`).

To verify everything: `dafny verify dfyconfig.toml`.

## Model

| member | source | states |
|---|---|---|
| TranslationPlanner.SearchDecidesDerivability | foreign/python/src/softpy/translators.py:157-183 | On any registry, a search that comes back returns a plan exactly when the wanted type is in the least set that contains the types at hand and is closed under the translators, and raises SoftMissingTranslatorError exactly when it is not |
| TranslationPlanner.SearchIsSound | foreign/python/src/softpy/translators.py:157-183 | Every leaf of a returned plan is at hand; every inner node is not at hand and uses the first registered translator whose inputs are all derivable, with one child per input in the order of its `ins` |
| TranslationPlanner.SearchComesBackIffRanked | foreign/python/src/softpy/translators.py:157-183 | The search has no visited set: it comes back for every type if and only if some rank decreases from every type to the types it is made to look for |
| TranslationPlanner.AcyclicSearchComesBack | foreign/python/src/softpy/translators.py:157-183 | With a rank that decreases from every output that is not at hand to the inputs that are not, the search terminates, with a plan if and only if the type is derivable |
| TranslationPlanner.CyclicRegistryNeverComesBack | foreign/python/src/softpy/translators.py:175-182 | One translator that needs its own output exhausts every recursion limit |
| TranslationPlanner.DeeperAgrees | foreign/python/src/softpy/translators.py:157-183 | The answer does not depend on the recursion limit once the search comes back within it |
| TranslationPlanner.RefutedIsUnderivable | foreign/python/src/softpy/translators.py:179-183 | What the search reports missing at any depth lies outside some closed set of types |
| TranslationExecutor.InstanceDict | foreign/python/src/softpy/translators.py:229-235 | The dictionary has exactly the types of the instances as keys, each value has the type of its key, and it has as many entries as there are instances exactly when their types differ |
| TranslationExecutor.LaterInstanceWins | foreign/python/src/softpy/translators.py:229-235 | Of several instances of one type the dictionary has the last |
| TranslationExecutor.Session.Translate | foreign/python/src/softpy/translators.py:214-223 | The recursive walk that updates `inputdict` leaves the dictionary, the result or error, and the translator calls of the specification `Execute`, also when it stops midway |
| TranslationExecutor.TranslateTo | foreign/python/src/softpy/translators.py:206-226 | The entry point: ambiguous inputs, missing translators, exhausted recursion and failed assertions are raised in the order of the source |
| TranslationExecutor.PlanRunsIffDistinct | foreign/python/src/softpy/translators.py:214-223 | A plan as the search makes them, with translators that return what they declare, runs without a failed assertion or lookup if and only if no inner type occurs twice or is in the dictionary; it then adds exactly the inner types, keeps every earlier entry, returns the wanted type, and calls each translator on exactly the types of its inputs, in order; otherwise it stops on the assertion |
| TranslationExecutor.RunSolvesPlan | foreign/python/src/softpy/translators.py:214-223 | After any run of a plan of the search that succeeds, whatever the translators do, the dictionary has, for each inner node, what its translator makes of the dictionary entries of its inputs, still has every earlier entry, and the result is its entry for the wanted type |
| TranslationExecutor.TranslatedIsDenoted | foreign/python/src/softpy/translators.py:206-226 | Whatever the translators do, the instance returned is the one that the plan stands for as a tree: instances at hand at the leaves, and at each node what its translator makes of the instances of its children; the dictionary that grows on the way does not show |
| TranslationExecutor.SearchNeverNests | foreign/python/src/softpy/translators.py:157-183 | A plan found by the search never has a type below a node that makes that type |
| TranslationExecutor.TranslateOutcome | foreign/python/src/softpy/translators.py:206-226 | For honest translators, whatever the registry and the recursion limit: an instance of the wanted type is returned if and only if the input types differ, the search finds a plan, which it does only for a derivable type, and no inner type of the plan repeats; each error means that one of these fails, in this order; no lookup ever fails |
| TranslationExecutor.DiamondStopsOnTheAssertion | foreign/python/src/softpy/translators.py:217 | Two branches that need the same intermediate type make `translate` fail on its assertion although the type is derivable |
| Triplets.TripletStore.AddTriplet | core/src/kernel/tripletstore.cpp:48-62 | Adds the triple and its mirror, and nothing for `predicateMap`, which is never filled |
| Triplets.TripletStore.Clear | core/src/kernel/tripletstore.cpp:40-43 | Forgets the whole history of adds |
| Triplets.TripletStore.ToCSV | core/src/kernel/tripletstore.cpp:67-81 | For any enumeration of the keys, the text is the lines of the entries without a `^` predicate, bucket by bucket, newest first |
| Triplets.TripletStore.FromCSV | core/src/kernel/tripletstore.cpp:88-103 | Adds the triples of the lines up to the first one without three fields, and throws exactly if there is such a line |
| Triplets.TripletStore.FindTriplets | core/src/kernel/tripletstore.cpp:108-122 | The objects of the entries under a subject that have the given predicate, in bucket order; all of them for an empty predicate that converts to a null string |
| Triplets.TripletStore.AllTriplets | core/src/kernel/tripletstore.cpp:127-140 | All entries of all buckets |
| Triplets.TripletStore.Size | core/src/kernel/tripletstore.cpp:182-185 | Twice the number of adds since the last clear |
| TripletLaws.FindCountsAdds | core/src/kernel/tripletstore.cpp:48-62 | After any history of adds, an object is found for (s, p) as often as (s, p, o) was added plus, when p is `^q`, as often as (o, q, s) was |
| TripletLaws.FindIsNewestFirst | core/src/kernel/tripletstore.cpp:108-122 | A lookup of a predicate without `^` lists the added objects newest first |
| TripletLaws.EveryFindIsNewestFirst | core/src/kernel/tripletstore.cpp:108-122 | Any lookup, reverse ones included, lists what was added for it, newest first |
| TripletLaws.StoreHoldsTriplesAndMirrors | core/src/kernel/tripletstore.cpp:127-140 | For every enumeration of the keys, the entries are the added triples and their mirrors as a multiset, two per add |
| TripletLaws.RoundTripIffClean | core/src/kernel/tripletstore.cpp:67-103 | Printing a store and reading the text into an empty one succeeds and restores every bucket as a multiset, mirrors included, if and only if all fields are non-empty and free of comma, newline and NUL and no predicate starts with `^`; for any key order |
| TripletLaws.ReversePredicateIsLost | core/src/kernel/tripletstore.cpp:74 | The store of one triple with predicate `^b` is not restored |
| TripletLaws.LookupTurnsAround | core/src/kernel/tripletstore.cpp:71-79 | Of two objects of one lookup the newer comes first, and last after a round trip |
| TripletLaws.CleanTriplesAreReadBack | core/src/kernel/tripletstore.cpp:67-103 | What is read back from clean triples is the same multiset of triples |
| TripletLaws.ParseReadsLines | core/src/kernel/tripletstore.cpp:88-103 | Parsing printed lines of plain fields gives the printed triples in the printed order |
| TripletLaws.ParsedIsPlain | core/src/kernel/tripletstore.cpp:88-103 | Whatever text is read, no field that comes out of it is empty or holds a comma, a newline or a NUL |
| TripletLaws.ReadUntilMalformed | core/src/kernel/tripletstore.cpp:88-103 | A text is refused if and only if some line that is not empty has not exactly three fields that are not; the triples read are those of the lines before the first such line, field by field |
| TripletLaws.PrintoutOfOne | core/src/kernel/tripletstore.cpp:67-81 | The text of a store of one triple is subject, predicate and object with commas between them and a newline |
| TripletLaws.ShownCount | core/src/kernel/tripletstore.cpp:67-81 | A triple is printed as often as it was added, unless its predicate starts with `^`, for then it is never printed |
| TripletLaws.RoundTripReversesLookups | core/src/kernel/tripletstore.cpp:71-79 | One round trip reverses the order of the objects that every forward lookup lists |
| TripletLaws.TwoRoundTripsRestoreLookups | core/src/kernel/tripletstore.cpp:71-97 | A second round trip restores it, whatever the two key orders |
| Collections.Collection.AddEntity | core/src/kernel/collection.cpp:162-173 | Adds five triples, after which lookups of the label find the name, version, namespace and id passed in, lookups of other labels what they found before, and there is one entity more |
| Collections.Collection.AttachEntity | core/src/kernel/collection.cpp:216-219 | Registers the entity, with the same effect on lookups, and attaches it unless the label is taken; whatever is attached stays registered |
| Collections.RegistrationIsFound | core/src/kernel/collection.cpp:162-210 | After a registration on any history, the first objects for `is-a`, `name`, `version`, `namespace` and `id` under the label are those registered; no other lookup without `^` changes |
| Collections.RegistrationIsCounted | core/src/kernel/collection.cpp:162-227 | A registration adds one entity, and lists its label before all earlier ones |
| Collections.Collection.FindEntity | core/src/kernel/collection.cpp:194-210 | Each of the four fields is the first object listed for the label, or empty |
| Collections.Collection.CountEntities | core/src/kernel/collection.cpp:224-227 | The number of objects under `Entity` and `^is-a` |
| Collections.Collection.Save | core/src/kernel/collection.cpp:306-333 | The data model gets id, name, version, the CSV text, and one sub-model with the contents and id of each attached entity, whatever the order of the loop |
| Collections.Collection.LoadHead | core/src/kernel/collection.cpp:271-279 | Id, `__name__` and `__version__` are taken over where present, the triples are appended, and nothing else changes |
| Collections.Collection.LoadEntities | core/src/kernel/collection.cpp:281-298 | Exactly the attached entities of which a label is listed and has a sub-model take contents and id, of several such labels from the one listed last |
| Collections.Collection.LoadEntity | core/src/kernel/collection.cpp:287-295 | All labels that share the entity see it changed, and no others |
| Collections.Collection.Load | core/src/kernel/collection.cpp:271-300 | The whole new state of collection and attached entities, also when the triples are malformed or an entity is attached under several labels |
| CollectionLaws.LoadRestoresCollection | core/src/kernel/collection.cpp:271-333 | Loading what was saved of clean triples restores id, name and version, keeps the namespace and the old triples of the target, adds the saved ones, and the numbers of entities add up |
| CollectionLaws.LoadRestoresEntities | core/src/kernel/collection.cpp:281-298 | Every entity attached on both sides gets its saved contents and id back, also under several labels if they were saved alike; entities the save does not know are left alone |
| CollectionLaws.LastLabelWins | core/src/kernel/collection.cpp:281-298 | An entity attached under several labels takes what was saved for the one that the lookup lists last |
| CollectionLaws.NumEntitiesAdds | core/src/kernel/collection.cpp:224-227 | The number of entities of joined triples is the sum |
| CollectionLaws.FindEntityPicksNewest | core/src/kernel/collection.cpp:200-209 | For a label registered several times the newest value is found |
| CollectionLaws.FindEntityPicksOldestAfterLoad | core/src/kernel/collection.cpp:200-209 | After a save and a load it is the oldest saved value, even if the target had values of its own |
| SoftcIndexing.IndicesOfOffset | foreign/c/src/softc/softc-allocatable.c:54-76 | Offsets of in-range indices are below the product of the dims and determine the indices, for any rank |
| SoftcIndexing.OffsetOfIndices | foreign/c/src/softc/softc-allocatable.c:54-76 | Every offset below the product is the offset of in-range indices |
| SoftcIndexing.OffsetRank4 | foreign/c/src/softc/softc-allocatable.c:76 | At rank 4 the offset is the expression of the source |
| SoftcIndexing.ElementsFitIff | foreign/c/src/softc/softc-allocatable.c:148 | An area sized with one pointer per element holds every element if and only if there are none or an element is no larger than a pointer |
| SoftcIndexing.DoubleOverflows | foreign/c/src/softc/softc-allocatable.c:148 | One double does not fit where pointers have four bytes |
| SoftcHeap.FreeKeepsBlockInv | foreign/c/src/softc/softc-block.c:59-68 | Freeing a block keeps every counter right and gives up the data area exactly when no other block uses it |
| SoftcHeap.CreateKeepsBlockInv | foreign/c/src/softc/softc-block.c:82-96 | A new block keeps every counter at the number of live blocks on its area minus one |
| SoftcHeap.CopyKeepsBlockInv | foreign/c/src/softc/softc-block.c:70-80 | So does a shallow copy, which shares the area and owns its dims |
| SoftcHeap.ResizeKeepsBlockInv | foreign/c/src/softc/softc-block.c:144-158 | So does an unshared resize, whether or not realloc moves anything |
| SoftcTables.WalkReachesOffset | foreign/c/src/softc/softc-allocatable.c:28-82 | Following a pointer table with in-range indices leads to the element at their row-major offset |
| SoftcTables.TableFrame | foreign/c/src/softc/softc-allocatable.c:28-122 | A pointer table is unchanged by anything outside its own memory |
| SoftcOwnership.RemoveAllocKeepsInv | foreign/c/src/softc/softc-allocatable.c:84-122 | Taking an allocatable and its tables away leaves no table without an owner and the others whole |
| SoftcOwnership.AddAllocKeepsInv | foreign/c/src/softc/softc-allocatable.c:144-150 | Adding one with tables of its own keeps blocks, tables and allocatables apart and whole |
| SoftcRuns.RunsKeepInv | foreign/c/src/softc/softc-allocatable.c:144-235 | At every point of every run of create, shallow copy, resize and free of blocks and of allocatables of rank 1 to 4: counters are right, no block points to freed data, each table fits the dims of its block, and tables have exactly one owner |
| SoftcRuns.RunsLeakNothing | foreign/c/src/softc/softc-allocatable.c:167-173 | Once a run has freed its blocks and allocatables, everything it allocated has been freed |
| SoftcRuns.RunsCountReferences | foreign/c/src/softc/softc-block.c:37-68 | In every run the counter of an area is the number of live blocks on it minus one, and freeing a block frees the area exactly when it is the last |
| SoftcRuns.RunsAddressElements | foreign/c/src/softc/softc-allocatable.c:21-82 | At every point of every run, every allocatable is whole, and all in-range indices through its table reach the element at their offset, inside its data area |
| SoftcRuns.RunsMakeWhatIsAsked | foreign/c/src/softc/softc-block.c:70-105 | In every run, a new block or allocatable has the dims asked for, a shallow copy shares the data of the original and has its dims, and what is freed is gone |
| SoftcRuns.RunsKeepData | foreign/c/src/softc/softc-block.c:70-158 | In every run, a step that resizes a block gives it the dims asked for and keeps each element that has a place in both data areas; any other step leaves dims and data of the block as they are, whatever happens to blocks that share the data |
| SoftcRuns.RunsKeepDataThroughout | foreign/c/src/softc/softc-block.c:59-158 | A block that is there all along, and never resized, has at the end the dims and data it had at the start |
| SoftcRuns.ReshapeGivesDimsIff | foreign/c/src/softc/softc-block.c:125-142 | `softc_block_reshape` never copies the new dims: it leaves those asked for, whatever realloc leaves in new space, if and only if they are a prefix of the old ones |
| SoftcRuns.ReshapeKeepsOldDims | foreign/c/src/softc/softc-block.c:125-142 | Reshaping 2 by 3 to 3 by 2 passes the assertion and leaves 2 by 3 |
| SoftcMemory.Memory.RefMalloc | foreign/c/src/softc/softc-block.c:13-20 | A fresh area with counter 0 |
| SoftcMemory.Memory.Inc | foreign/c/src/softc/softc-block.c:49-53 | One reference more |
| SoftcMemory.Memory.Dec | foreign/c/src/softc/softc-block.c:59-68 | One reference less, or the area is freed |
| SoftcMemory.Memory.BlockCreate | foreign/c/src/softc/softc-block.c:82-96 | A fresh block with its own dims and an unshared area of their product |
| SoftcMemory.Memory.BlockShallowCopy | foreign/c/src/softc/softc-block.c:70-80 | A fresh block with copied dims on the same area, one reference more |
| SoftcMemory.Memory.BlockFree | foreign/c/src/softc/softc-block.c:98-105 | Exactly the block, its dims and, without references left, its area are freed; nothing for NULL |
| SoftcMemory.Memory.BlockResize | foreign/c/src/softc/softc-block.c:144-158 | The block has the new dims and an unshared area of their product, in which every element that has a place in both the old and the new area is the old one |
| SoftcMemory.Memory.BlockReshape | foreign/c/src/softc/softc-block.c:125-142 | As written: rank and room are new, and the dims are the old ones as far as they go, then what realloc leaves |
| SoftcMemory.Memory.BuildTable | foreign/c/src/softc/softc-allocatable.c:21-82 | The tables built are fresh, share no memory and lead to the elements of the area; nothing else changes |
| SoftcMemory.Memory.FreeTable | foreign/c/src/softc/softc-allocatable.c:84-122 | Exactly the tables that were built for these dims are freed, each once |
| SoftcMemory.Memory.FreeTables | foreign/c/src/softc/softc-allocatable.c:170 | The call through `free_fptrs` frees exactly the tables of the allocatable and leaves its block alone |
| SoftcMemory.Memory.AllocatableCreate | foreign/c/src/softc/softc-allocatable.c:144-150 | A fresh allocatable with fresh tables on a fresh block |
| SoftcMemory.Memory.FinishAlloc | foreign/c/src/softc/softc-allocatable.c:149 | The call through `alloc_fptrs` gives the allocatable tables that fit its block |
| SoftcMemory.Memory.AllocatableShallowCopy | foreign/c/src/softc/softc-allocatable.c:228-235 | A fresh allocatable with tables of its own over the same data |
| SoftcMemory.Memory.AllocatableFree | foreign/c/src/softc/softc-allocatable.c:167-173 | Exactly the allocatable, its tables and its block are freed |
| SoftcMemory.Memory.AllocatableResize | foreign/c/src/softc/softc-allocatable.c:202-209 | The tables are torn down with the dims they were built with before the block changes, and built anew for the new dims; every element that has a place in both data areas is kept |
| SoftcMemory.TotalOf | foreign/c/src/softc/softc-block.c:86-90 | The loop multiplies the dims up |
| SoftcDatamodel.PtrToArray1 | foreign/c/src/softc/softc-datamodel.cpp:40-45 | The vector has the given length and holds, position by position, the elements from the pointer on |
| SoftcDatamodel.PtrToArray2 | foreign/c/src/softc/softc-datamodel.cpp:47-54 | Copies the rows that the table points to |
| SoftcDatamodel.PtrToArray3 | foreign/c/src/softc/softc-datamodel.cpp:56-63 | Copies the planes that the table points to |
| SoftcDatamodel.ArrayToPtr1 | foreign/c/src/softc/softc-datamodel.cpp:12-18 | A fresh row, and no other new memory, holds the vector; nothing else changes |
| SoftcDatamodel.ArrayToPtr2 | foreign/c/src/softc/softc-datamodel.cpp:20-28 | A fresh table of fresh rows, all apart, holds the nested vector; nothing else changes |
| SoftcDatamodel.ArrayToPtr3 | foreign/c/src/softc/softc-datamodel.cpp:30-38 | A fresh table of fresh tables of rows that share no memory holds it; nothing else changes |
| SoftcDatamodel.CopyOfRank2 | foreign/c/src/softc/softc-datamodel.cpp:224-232 | Copying a pointer table of two dims is within bounds and gives rows whose concatenation is the stretch of data it leads to |
| SoftcDatamodel.CopyOfRank3 | foreign/c/src/softc/softc-datamodel.cpp:234-242 | For three dims the row-major flattening of the planes is the data |
| SoftcDatamodel.RunsCopyRank2 | foreign/c/src/softc/softc-datamodel.cpp:224-232 | At every point of every run, copying an allocatable of rank 2 is within bounds and gives rows whose concatenation is its raw data |
| SoftcDatamodel.RunsCopyRank3 | foreign/c/src/softc/softc-datamodel.cpp:234-242 | For an allocatable of rank 3 it is the row-major flattening of the planes |
| SoftcDatamodel.ThereAndBack2Iff | foreign/c/src/softc/softc-datamodel.cpp:256-269 | A non-empty matrix handed out with the reported sizes is read back unchanged, within bounds, if and only if all rows are as long as the first |
| SoftcDatamodel.ThereAndBack3Iff | foreign/c/src/softc/softc-datamodel.cpp:271-285 | For three dimensions, if and only if the array is rectangular |
| SoftcDatamodel.RaggedIsNotReadBack | foreign/c/src/softc/softc-datamodel.cpp:256-285 | A matrix with rows of one and two elements is not read back, nor is such an array of three dimensions |
| Qh5Lists.TotalSize | storage/src/hdf5/qh5.cpp:502-513 | The int that sizes the buffer is congruent to the product of the dims modulo 2^32, and equals it if and only if the product is below 2^31 |
| Qh5Lists.SquareGetsNoBuffer | storage/src/hdf5/qh5.cpp:502-513 | 65536 rows of 65536 elements get a buffer of none |
| Qh5Lists.StdFlat | storage/src/hdf5/qh5.cpp:193-205 | The leaves of a nested list of any depth, in order; `variantListToStringList` (lines 207-218) is the same recursion |
| Qh5Lists.GetListDims | storage/src/hdf5/qh5.cpp:172-179 | The dims are positive, for lists with first elements all the way down |
| Qh5Lists.Reshape | storage/src/hdf5/qh5.cpp:515-535 | The cursor moves by exactly the product of the dims, without reading past it, and the result is the list that the specification shapes from the data read |
| Qh5Lists.RepeatRead | storage/src/hdf5/qh5.cpp:523-528 | The innermost repeat reads one element per count, its 32-bit count included |
| Qh5Lists.RepeatReshape | storage/src/hdf5/qh5.cpp:530-532 | The outer repeat reads one sub-list per count |
| Qh5Lists.ReadBack | storage/src/hdf5/qh5.cpp:502-542 | For any dims, zeros included, with a product below 2^31, reading uses up exactly the buffer allocated, and flattening the list gives the buffer back; the list has the dims unless the buffer is empty |
| Qh5Lists.FlatOfShape | storage/src/hdf5/qh5.cpp:515-535 | Flattening a reshaped stretch gives the stretch back |
| Qh5Lists.DimsOfReshaped | storage/src/hdf5/qh5.cpp:172-179 | With all dims positive, `getListDims` of a reshaped buffer is the dims |
| Qh5Lists.WriteThenReadIff | storage/src/hdf5/qh5.cpp:172-205 | A nested list with first elements at each level is given back by reshaping its flattening to its own dims if and only if it is rectangular |
| Qh5Lists.RaggedIsNotReadBack | storage/src/hdf5/qh5.cpp:172-205 | A list of a one-element and a two-element list is not read back |
| Reactions.Reaction.constructor | porto/src/thirdParty/chemkinReader/reaction.cpp:17-32 | Reversible, with nothing else set |
| Reactions.Reaction.SetReversible | porto/src/thirdParty/chemkinReader/reaction.cpp:34-37 | Only this flag changes |
| Reactions.Reaction.SetArrhenius | porto/src/thirdParty/chemkinReader/reaction.cpp:48-69 | Only the forward, or only the reverse parameters and their flag change |
| Reactions.Reaction.CheckForThirdBody | porto/src/thirdParty/chemkinReader/reaction.cpp:101-113 | Erases the first `M`, and no other, and records that there was one |
| Reactions.Reaction.SetReactants | porto/src/thirdParty/chemkinReader/reaction.cpp:79-83 | The species without their first `M`; a third body once noted stays noted |
| Reactions.Reaction.SetProducts | porto/src/thirdParty/chemkinReader/reaction.cpp:90-94 | The same for products |
| Reactions.Reaction.SetThirdBodies | porto/src/thirdParty/chemkinReader/reaction.cpp:115-118 | Only the efficiencies change |
| Reactions.Reaction.SetLOW | porto/src/thirdParty/chemkinReader/reaction.cpp:135-139 | Only LOW and its flag change |
| Reactions.Reaction.SetTROE | porto/src/thirdParty/chemkinReader/reaction.cpp:146-156 | Refuses all but 3 or 4 values without a change; otherwise TROE has length 4 |
| Reactions.Reaction.SetSRI | porto/src/thirdParty/chemkinReader/reaction.cpp:163-178 | Refuses all but 3 or 5 values without a change; otherwise SRI has length 5 |
| Reactions.Reaction.SetPressureDependent | porto/src/thirdParty/chemkinReader/reaction.cpp:200-203 | Only this flag changes |
| Reactions.Reaction.SetDuplicate | porto/src/thirdParty/chemkinReader/reaction.cpp:210-213 | Only this flag changes |
| ReactionParsers.ReactionParser.constructor | porto/src/thirdParty/chemkinReader/reactionParser.cpp:65-83 | Splits the text at every newline, carriage return and bar and keeps exactly the non-blank lines in order |
| ReactionParsers.ReactionParser.EraseBlankLines | porto/src/thirdParty/chemkinReader/reactionParser.cpp:75-82 | The erase-in-place loop terminates and leaves exactly the non-blank lines, although its index wraps below zero |
| ReactionParsers.ReactionParser.Parse | porto/src/thirdParty/chemkinReader/reactionParser.cpp:85-185 | The parser returns, or throws after, exactly the reactions that grouping the lines and reading each group gives, where a line starts a group by its form without `(+X)` and ends one by its form as it stands |
| ReactionParsers.ReactionParser.ReadAll | porto/src/thirdParty/chemkinReader/reactionParser.cpp:88-183 | The outer loop is a fold over groups, whatever a group means |
| ReactionParsers.ReactionParser.ReadOne | porto/src/thirdParty/chemkinReader/reactionParser.cpp:88-181 | One turn changes one line only, and moves the index over exactly the maximal run of following non-reaction lines |
| ReactionParsers.ReactionParser.ReadHead | porto/src/thirdParty/chemkinReader/reactionParser.cpp:93-119 | The reaction that a line describes after its `(+X)` is gone |
| ReactionParsers.ReactionParser.ReadMatch | porto/src/thirdParty/chemkinReader/reactionParser.cpp:108-119 | Reactants, products, direction and parameters from the captures |
| ReactionParsers.ReactionParser.ReadRest | porto/src/thirdParty/chemkinReader/reactionParser.cpp:121-177 | The inner loop adds the lines of the run one by one, or stops at the first that is refused |
| ReactionParsers.ReactionParser.ReadAuxiliary | porto/src/thirdParty/chemkinReader/reactionParser.cpp:146-170 | One auxiliary line, by the first of the expressions for LOW, TROE and SRI that finds something |
| ReactionParsers.TurnTaken | porto/src/thirdParty/chemkinReader/reactionParser.cpp:88-183 | Each turn of the outer loop leaves the groups of the remaining lines to be read |
| ReactionParsers.RunIsMaximal | porto/src/thirdParty/chemkinReader/reactionParser.cpp:121-133 | The run of lines of a reaction ends at the next reaction line and not before |
| ReactionParserLaws.LinesCutAtEnds | porto/src/thirdParty/chemkinReader/reactionParser.cpp:72 | The lines are the text cut at every newline, carriage return and bar, empty lines included |
| ReactionParserLaws.NonBlankKeeps | porto/src/thirdParty/chemkinReader/reactionParser.cpp:75-82 | A line is kept as often as it occurs, unless it is blank, for then it is never kept |
| ReactionParserLaws.NonBlankAt | porto/src/thirdParty/chemkinReader/reactionParser.cpp:75-82 | The lines kept are in order |
| ReactionParserLaws.SectionsPartition | porto/src/thirdParty/chemkinReader/reactionParser.cpp:85-185 | The lines are, in order, skipped lines that start no reaction and groups of a line that does and the maximal run of lines after it that are no reaction as they stand; the groups are those the parser reads |
| ReactionParserLaws.SectionsAreUnique | porto/src/thirdParty/chemkinReader/reactionParser.cpp:85-185 | There is no other way to divide the lines so |
| ReactionParserLaws.RolesAreThoseOfSections | porto/src/thirdParty/chemkinReader/reactionParser.cpp:88-183 | The two loops that move one index do what an automaton does that reads one line at a time |
| ReactionParserLaws.LineIsLostIff | porto/src/thirdParty/chemkinReader/reactionParser.cpp:96-129 | A line that is a reaction without its `(+X)` starts one, unless it is no reaction as it stands and lies in the run of a reaction before it; it is then lost to that reaction |
| ReactionParserLaws.LineIsLost | porto/src/thirdParty/chemkinReader/reactionParser.cpp:96-129 | Of two reaction lines of which the second is one only without its `(+X)`, one reaction is read |
| ReactionParserLaws.StableGroupsPartition | porto/src/thirdParty/chemkinReader/reactionParser.cpp:85-185 | If stripping `(+X)` does not change whether a line is a reaction, each line after the first reaction line is in exactly one group, in order: a reaction line and all lines up to the next |
| ReactionParserLaws.StableGroupsAreUnique | porto/src/thirdParty/chemkinReader/reactionParser.cpp:85-185 | There is no other such grouping of the lines |
| ReactionParserLaws.LinesExtend | porto/src/thirdParty/chemkinReader/reactionParser.cpp:121-177 | Lines that follow a reaction change nothing its own line set, and keep TROE at length 4 and SRI at length 5 |
| ReactionParserLaws.LinesFlag | porto/src/thirdParty/chemkinReader/reactionParser.cpp:134-170 | The flags for duplicate, reverse, LOW, TROE and SRI are set exactly if such a line belongs to the reaction, where DUP goes before REV, REV before LOW, LOW before TROE, and TROE before SRI |
| ReactionParserLaws.LinesSet | porto/src/thirdParty/chemkinReader/reactionParser.cpp:134-170 | Reverse parameters, LOW, TROE, SRI and efficiencies are what the last line of each kind says, with missing TROE and SRI values filled up, and as before where there is no such line |
| ReactionParserLaws.PrintedReactionIsRead | porto/src/thirdParty/chemkinReader/reactionParser.cpp:93-119 | A reaction line whose sides are printed as the generator does is read with the species of the left as reactants and of the right as products, without the first `M` of each; `=>` alone makes it irreversible, and `M` on either side a third-body reaction |
| ReactionParserLaws.LinesRefusedIff | porto/src/thirdParty/chemkinReader/reactionParser.cpp:134-175 | Lines are refused as unsupported if and only if the reaction has neither third body nor pressure dependence and one of them is neither DUP nor REV; a reaction that has one is refused if and only if a TROE or SRI line has a wrong number of values |
| ReactionParserLaws.ParsedReactions | porto/src/thirdParty/chemkinReader/reactionParser.cpp:85-185 | One reaction per group up to the first refused one, read from its own line and from the last line of each kind in its group; an error if and only if some group is refused, and which |
| ReactionParserLaws.BlockRefusedIff | porto/src/thirdParty/chemkinReader/reactionParser.cpp:171-175 | With well-formed TROE and SRI lines, parsing throws if and only if some reaction without third body or pressure dependence is followed by a line that is neither DUP nor REV |
| ReactionSpecies.ParseReactionSpecies | porto/src/thirdParty/chemkinReader/reactionParser.cpp:187-239 | The loop over tokens collects the entry of each token in order |
| ReactionSpecies.SearchCutsAtCapital | porto/src/thirdParty/chemkinReader/reactionParser.cpp:193-212 | The name found in a token starts at its first capital, and the coefficient is all digits right before it; without a capital nothing is found |
| ReactionSpecies.TrimStrips | porto/src/thirdParty/chemkinReader/reactionParser.cpp:219-235 | Trimming takes away all white space around a name and nothing else |
| ReactionSpecies.TrailingPlusAddsNothing | porto/src/thirdParty/chemkinReader/reactionParser.cpp:195-198 | A last `+` adds no token |
| ReactionSpecies.EntryOfPrinted | porto/src/thirdParty/chemkinReader/reactionParser.cpp:204-235 | A printed species, with blanks around it, is read as coefficient and name |
| ReactionSpecies.ParsePrinted | porto/examples/chemkin_generator/chemkinReactionEntity-to-chemkinFile.js:62 | Species joined with ` + ` as the generator does are read back as exactly those species, with coefficient 1 where none was written |
| Numerals.ValueOfDecimal | porto/src/thirdParty/chemkinReader/reactionParser.cpp:232 | Reading the decimal numeral of a number gives the number |
| DimSizes.SoftGetPropertyDimSizes | foreign/python/src/softpy/entity.py:474-484 | Every size is the value of its expression after all replacements, and there is a result exactly if every expression has a value; what the value is, `ArithmeticTexts` says |
| ArithmeticTexts.WrittenSizeIsValue | foreign/python/src/softpy/entity.py:480-483 | The text of any expression with labels, after the replacements, evaluates to its value by ordinary arithmetic with the labels bound to the sizes, unless a label clashes or has a negative size |
| DimSizeMeaning.ReplacedValue | foreign/python/src/softpy/entity.py:480-483 | If no label clashes, the value after the textual replacements is that of the original expression with its labels bound to their sizes; of an expression that has a value, if and only if no label of negative size occurs in it |
| DimSizeClashes.FaithfulIffNoClash | foreign/python/src/softpy/entity.py:481-482 | The replacements change the tokens of an expression into those with numbers for labels, for all sizes, if and only if no label is part of a word of the expression, other than the word itself or a word replaced before |
| DimSizeClashes.UnnestedLabelsDoNotClash | foreign/python/src/softpy/entity.py:481-482 | In particular when the words are numerals and labels and no label is part of another |
| DimSizeMeaning.ClashCounterexample | foreign/python/src/softpy/entity.py:481-482 | With labels `N` and `NX`, the expression `NX` has a value but its replacement has none |
| DimSizeMeaning.NegativeSizeHasNoValue | foreign/python/src/softpy/entity.py:480-483 | An expression that is a label of negative size has a value, but its replacement has none |
| DimSizeLaws.TokensAreSubstituted | foreign/python/src/softpy/entity.py:481-482 | Without a clash only labels change, each into the tokens of its size |
| DimSizeLaws.ReplacedTokens | foreign/python/src/softpy/entity.py:481-482 | Replacing in a text is replacing in each of its words |
| DimSizeLaws.ReplaceAtFirst | foreign/python/src/softpy/entity.py:481-482 | The first occurrence of a label is replaced, then those in the rest |
| DimSizeMeaning.SumFollows | foreign/python/src/softpy/arithmetic_eval.py:36-85 | Parsing substituted tokens gives the substituted tree; a negative number makes any expression around it fail |
| DimSizeMeaning.EvalSubstituted | foreign/python/src/softpy/arithmetic_eval.py:38-60 | Evaluating the substituted tree without constants is evaluating the tree with the sizes as constants |
| ArithmeticEval.ParseWritten | foreign/python/src/softpy/arithmetic_eval.py:36 | Reading back the minimally parenthesised text of a tree gives the tree: `*` binds tighter, and operators group to the left |
| ArithmeticTexts.WrittenIsEvaluated | foreign/python/src/softpy/arithmetic_eval.py:28-85 | The text of any expression, written with no more parentheses than needed, evaluates to its value by ordinary arithmetic, and to nothing if it has none |
| ArithmeticTexts.NumeralsAreCalculated | foreign/python/src/softpy/arithmetic_eval.py:28-48 | The texts of two numerals with `+`, `-` or `*` between them evaluate to their sum, difference and product |
| ArithmeticTexts.NamesAreLookedUp | foreign/python/src/softpy/arithmetic_eval.py:57-61 | A name of letters, digits and underscores evaluates to its constant |
| ArithmeticTexts.ParsedInOrder | foreign/python/src/softpy/arithmetic_eval.py:36 | A text that is parsed has balanced parentheses, and all its other tokens are in the tree, in order |
| ArithmeticTexts.MalformedHasNoValue | foreign/python/src/softpy/arithmetic_eval.py:81-83 | A character or word that is not modelled leaves no value |
| ArithmeticTexts.SpaceSeparates | foreign/python/src/softpy/arithmetic_eval.py:36 | A space does nothing but end a word |
| SiteRegistries.SiteRegistry.AddSpecies | porto/src/remarc-wrapper/resource/RMC_rate.py:1405-1425 | The lists afterwards are those of the specification `Enter`, and they stay coherent |
| SiteRegistries.SiteRegistry.PutOnSite | porto/src/remarc-wrapper/resource/RMC_rate.py:1480-1504 | A new species goes to the list of its site, which is opened at position `ispec` if it is new |
| SiteRegistries.SiteRegistry.AddToList | porto/src/remarc-wrapper/resource/RMC_rate.py:1414-1425 | The species, and for an adsorbed one the empty site, are added to one list only |
| SiteRegistries.SiteRegistry.AddDesorption | porto/src/remarc-wrapper/resource/RMC_rate.py:1305-1319 | Desorption, from the adsorbed species to the gas, and adsorption, the other way round, get their texts and parameters at the same two positions |
| SiteRegistries.SiteRegistry.AddFixedDesorption | porto/src/remarc-wrapper/resource/RMC_rate.py:1381-1385 | The same for desorption alone |
| SiteRegistries.SiteRegistry.AddSurfaceReaction | porto/src/remarc-wrapper/resource/RMC_rate.py:1725-1743 | The same for a surface reaction from reactant to product, and its reverse |
| SiteRegistries.SiteRegistry.AddPair | porto/src/remarc-wrapper/resource/RMC_rate.py:1725-1743 | Parameters appended before names still match them position by position |
| SiteRegistries.SiteRegistry.PrintSites | porto/src/remarc-wrapper/resource/RMC_rate.py:1882-1896 | The printing loop is in range, and looking a site up by name prints its own density and species |
| SiteRegistries.SiteRegistry.PrintReactions | porto/src/remarc-wrapper/resource/RMC_rate.py:1930-1932 | Each reaction is printed with its own parameters |
| SiteRegistryLaws.EachSpeciesAtOneSite | porto/src/remarc-wrapper/resource/RMC_rate.py:1405-1681 | After any series of entries, each species is in the list of exactly one site, once; sites are distinct, and `sites.index` gives their own position |
| SiteRegistryLaws.ListsHoldWhatWasEntered | porto/src/remarc-wrapper/resource/RMC_rate.py:1405-1681 | Each site list is exactly what was entered for that site, in order, and its density is that of the first entry |
| SiteRegistryLaws.EnteredInOrder | porto/src/remarc-wrapper/resource/RMC_rate.py:1405-1681 | Species and sites are those entered, each once, in order of first entry |
| SiteRegistryLaws.UpperAt | porto/src/remarc-wrapper/resource/RMC_rate.py:1405-1425 | In upper-case names small letters become their capitals, and nothing else changes |
| SiteRegistryLaws.EmptySiteIsListedTwiceIff | porto/src/remarc-wrapper/resource/RMC_rate.py:1416-1425 | The empty site is listed more than once at a site if and only if two adsorbed species bring a new name to it while its short name is no site |
| SiteRegistryLaws.EmptySiteIsListedTwice | porto/src/remarc-wrapper/resource/RMC_rate.py:1416-1425 | The list of `TOP` for `a` and `b` adsorbed at `top` is `A(TP)`, `TP`, `B(TP)`, `TP` |
| Composition.ReadComposition | porto/src/remarc-wrapper/resource/vasp_outcar.py:187-238 | Fails if and only if an ordered composition is asked for and some atom belongs to the surface, since the sort then indexes a list that is too short; otherwise the formula of the kept atoms, ordered if asked for |
| Composition.WithoutSurface | porto/src/remarc-wrapper/resource/vasp_outcar.py:194-209 | Exactly the atoms that are not of the surface, in order, with their numbers |
| Composition.Order | porto/src/remarc-wrapper/resource/vasp_outcar.py:211-227 | Sorting the index and reordering both lists by it, then moving H and C, keeps the lists parallel |
| Composition.MoveToFront | porto/src/remarc-wrapper/resource/vasp_outcar.py:217-227 | Pops the first of a kind in both lists and inserts it at the front |
| Composition.Write | porto/src/remarc-wrapper/resource/vasp_outcar.py:229-238 | Kinds and numbers in list order, leaving out numbers below 2 if names are asked for |
| Composition.OrderedIsHillOrder | porto/src/remarc-wrapper/resource/vasp_outcar.py:211-227 | Ordering only permutes the pairs of kind and number, and if C and H occur at most once gives C, then H, then the others alphabetically: a prefix first, and otherwise by the character where two kinds first differ |
| Composition.OrderedIsStable | porto/src/remarc-wrapper/resource/vasp_outcar.py:211-227 | Parts of one kind, C and H included, stay in the order they had |
| Composition.LeIffAlphabetical | porto/src/remarc-wrapper/resource/vasp_outcar.py:213 | The order that sorting uses is the alphabetical one |
| Composition.FormulaSnoc | porto/src/remarc-wrapper/resource/vasp_outcar.py:229-238 | A kind is followed by its number, unless names are asked for and the number is below 2 |
| Composition.AdsorbateIsNotReadInOrder | porto/src/remarc-wrapper/resource/vasp_outcar.py:194-215 | Of one surface atom and one other, the composition is read as it stands but not in order |

## Left out

- TranslationExecutor.InstanceDict: models instances as values with a type; what a translator does to an instance it was given is not modelled, nor `Metadata` lookup of an output that is not a triple.
- TranslationExecutor.TranslateTo: models a sequence of instances; a single instance is first put in a list by the source.
- Triplets.TripletStore.FindTriplets: whether an empty string converts to a null one depends on Qt and is a parameter.
- Triplets.TripletStore.ToCSV: characters pass unchanged; the conversion between UTF-8 and UTF-16 is not modelled.
- Collections.Collection.Load: takes data models as values without aliasing, and identifiers as strings that `setId` takes as they are; the meta data it writes into the sub-models before it reads them are not modelled, nor are labels that hold a NUL.
- Collections.Collection.Save: `createModel` gives an empty sub-model; who owns it is not modelled.
- SoftcMemory.Memory.Malloc: never fails, and sizes do not overflow; the size in bytes of an element occurs in `SoftcIndexing.ElementsFitIff` only.
- SoftcMemory.Memory.BuildTable: one recursion on the rank stands for the four macros; it fills a table slot by slot like the loops of the macros.
- SoftcRuns.RunsKeepInv: runs do not contain reshapes, whose dims are undefined, nor a resize or free of a block that belongs to a live allocatable.
- SoftcDatamodel.PtrToArray1: a row made by `new` is modelled as a data area whose counter is never used.
- Qh5Lists.GetListDims: takes lists with a first element at every level, since the source reads the first element of an empty list, which is undefined.
- ReactionParsers.ReactionParser.Parse: takes REV lines that give three numbers, since the source reads them unchecked; the large regular expressions and `parseThirdBodySpecies` are parameters.
- ReactionSpecies.ParseReactionSpecies: keeps species in order of insertion, whereas a multimap sorts them by name; coefficients are exact instead of double.
- DimSizes.SoftGetPropertyDimSizes: models expressions of ASCII identifiers, plain decimal numerals, `+`, `-`, `*`, parentheses and spaces; anything else counts as an error, although the evaluator also knows division, powers, functions and containers.
- SiteRegistries.SiteRegistry.AddSpecies: the scan of the input rows that leads to an entry, the densities and the rate parameters are parameters; line breaks after every ten names are not printed.
- `toRdf`, `addDim` and the other parts of the store and the collection that only format or are not implemented.
- The fixed-size integer arrays and strings of `softc-datamodel.cpp`, which add no new control flow.
- Composition.ReadComposition: strings are ordered by character, and sorting is the stable sort of a specification function; the rest of `vasp_outcar.py` reads files.
- Mongo, HDF5 and JSON storage, the tools, plugin loading and all numerics of the rate calculation.
