# LHR, modelled and proved

LHR is an exact inverted-index database. Its rule is that performance structures may change the work a
query does and never its answer. This project models the engine as a stack of refinements over one simple
specification, and proves each layer against the one below it:

- A **logical dataset** is a finite map from row IDs to rows of optional texts. A query is: filter the
  map, sort by ID, drop IDs up to the cursor, take `limit`. `RowSets` has the vocabulary: a list is
  described by the set it enumerates (`Lists`), a page by the smallest members past a cursor
  (`Top(After(S, cursor), limit)`).
- **Index codecs** (`BitPacking`, `DeltaPostings`, `DeltaReaders`, `Words`, `BitSlices`, `SortedIndexes`,
  `Postings`, `PageIndexes`, `MixedRadix`) each answer "the rows whose key is k". `RunMerges`,
  `ExternalSort` and `Texts` are the bounded-memory sorts behind them, `ExactIndexes` and `PageBuilds` build them.
- The **engine** (`Tables`, `Planner`, `EnginePlans`, `PageRouting`, `EngineQueries`) plans with them: greedy
  cover, intersection, page routing and the chunked driver stream equal a plain scan.
- The **dataset** (`Dictionaries`, `RowIdMaps`, `Schemas`, `LogicalDatasets`, `StreamBuilders`,
  `DatasetBuilds`) holds values as tokens and is built from rows in two streaming passes.
- The **overlay** (`VisibilityMaps`, `Overlays`, `SchemaUnions`, `VersionedDatasets`, `VersionedQueries`) puts
  delta layers and row overrides on an immutable base. `Mutations`, `DeltaWrites`, `Appends`, `Rebuilds`,
  `Compactions` and `Histories` change it, and every change is proved to mean what it should on the map.
- The **request layer** (`Decimals`, `QueryFilters`, `QueryRoutes`, `CandidateRoute`, `RangeRoute`,
  `StreamMerges`, `RangeTroubles`, `QueryApi`, `Exports`) runs filters by five routes and pages through results.
- The **catalog** (`CatalogProtocol`, `CatalogRuns`, `Catalogs`) is a protocol of generations, a writer lock and
  reader leases, as interleaved steps with crashes, what whole runs of it lose, and the methods that take
  those steps.
- **Cold storage** (`ColdSegments`, `HybridSegments`) keeps some columns in row groups behind a cache.

Code that changes state is a class or a loop with invariants; code made of expressions is functions and
lemmas. A method is proved against a specification function, and the lemmas are about that function.
Where a result lists rows, the specification determines the list (`RowSets.ListsUnique`,
`Compactions.PageDetermined`), so a body that swaps, repeats or loses a row breaks the proof. Where a
specification and the code share a definition (what a null literal is, which rows a filter passes, which
mutations are valid, which schemas are compatible, which indexes are rebuilt), a law says what the definition
means without naming it.

## Findings

Five properties one might expect are false of the code. The code is modelled as it is, and each is stated
with the exact condition under which the property holds.

1. **Browsing past the last ID repeats it.** A request without filters starts at the cursor plus one,
   saturating (`rust/src/query_api.rs:280-283`). With the cursor at 2^64 - 1 and a visible row of that ID,
   the answer is that row again (`QueryApi.BrowseRepeats`). `QueryApi.BrowseExact` and `QueryApi.ExecuteQuery` state that this is the only such
   request; `Exports.StreamExport` carries the condition through the paging loop.
2. **A short integer range misreads rows.** The range route generates the decimal text of every integer in
   the range and runs an equality query for each (`rust/src/query_api.rs:224-265, 491-576`). A text that is a
   null literal of the column asks for NULL instead. So the NULL rows come out, once for each such text
   (`RangeTroubles.ZeroCountsNull`), and rows that store the literal do not (`RangeTroubles.ZeroLosesRow`): an
   import turns literals into NULL, but a mutation stores them (`rust/src/delta_mutation.rs:98-114`).
   `QueryApi.ExecuteQuery` decides every request: the hits are wrong exactly when the NULL rows, counted once a
   literal in range, are not as many as the rows that store one; the page is wrong exactly when a NULL row or
   such a row lies on the page of the rows in range and these together. Every page is right exactly when there
   is no such row (`RangeTroubles.EveryPage`). `Exports.StreamExport` has the same condition for whole exports,
   and `Exports.NullExported` an export that fails.
3. **Layer 2^32 - 1 reads as a tombstone.** The raw number of a deletion is the greatest layer number
   (`rust/src/overlay.rs:17, 128-147`), and the layer counter may reach it. `DeltaWrites.ApplyMutationsDelta` leaves the
   intended map if and only if its layer has a smaller number or it updates no row that survives it;
   otherwise exactly the updated rows are lost. `VisibilityMaps.RawRoundTrip` is the codec's share of it,
   `Overlays.TombstoneLayer` a stack that loses its row.
4. **A rebuild needs a spare ID even when it inserts nothing.** The rebuild computes the ID after the
   greatest before it looks at the mutations (`rust/src/mutation.rs:256-262`), a delta only when it inserts. A
   dataset with row 2^64 - 1 cannot be rebuilt (`Compactions.NoSpareId`); a delta deletes any row of it but the
   last (`Compactions.DeletionFits`), and `Compactions.LastIdGap` is a dataset where the two differ. Where both
   succeed they leave the same rows (`Compactions.DeltaIsRebuild`). What fails is exact for each
   (`Compactions.RebuildMutations`, `DeltaWrites.ObstructedMeans`).
5. **A lease can protect a generation that is already gone.** A reader resolves CURRENT before it locks
   (`rust/src/snapshot.rs:42-53`), and a vacuum scans the locks before it takes the writer lock
   (`rust/src/snapshot.rs:119-123`). `CatalogProtocol.LeaseRace` is a run in which the lease is taken too late.
   Over every run, a scan finds a generation exactly when someone held its lock at the moment the scan tested
   it (`CatalogRuns.ScanFinds`), and a finished vacuum has removed exactly the generations that were neither
   CURRENT nor protected nor so found and had enough newer ones published (`CatalogRuns.LostExactly`). A lease
   held when the vacuum takes the lock is thus lost if and only if its generation is one of these
   (`CatalogRuns.Doomed`).

## Model

| member | source | states |
|---|---|---|
| BitPacking.Pack | rust/src/delta_postings.rs:7 | the bytes are the gaps: read as numbers, with digits of 8 and of `width` bits, they are equal, and there are exactly as many bytes as the width needs, for widths 0 to 32 |
| BitPacking.Unpack | rust/src/delta_postings.rs:8-9 | reads n values exactly when their bytes are there, and consumes exactly those; the values are the byte number's digits of `width` bits |
| BitPacking.UnpackInvertsPack | rust/src/delta_postings.rs:7-9 | what Unpack reads of packed gaps is the gaps, for every gap list and width |
| BitPacking.LeRoundTrip | rust/src/delta_postings.rs:10 | a little-endian header field of n bytes reads back as the number written, if it fits |
| DeltaPostings.WriteBlock | rust/src/delta_postings.rs:10 | writes a block that decodes to its rows: first row, count, width of the widest gap, packed gaps |
| DeltaPostings.WriteChain | rust/src/delta_postings.rs:13 | the rows of a key as consecutive blocks of 128, which walk back to exactly those rows |
| DeltaPostings.BuildDelta | rust/src/delta_postings.rs:13 | fails exactly when rows step down within a run of one key; for strictly sorted records the result indexes them |
| DeltaReaders.Find | rust/src/delta_postings.rs:15-16 | binary search of the key directory: the group of the key, or none when no record has the key |
| DeltaReaders.RowCount | rust/src/delta_postings.rs:17 | the number of rows with the key |
| DeltaReaders.Rows | rust/src/delta_postings.rs:18 | walks the chain back: the rows with the key, ascending |
| DeltaReaders.RowsFrom | rust/src/delta_postings.rs:19-31 | skipping whole blocks by the next block's first row gives the same page as decoding everything: the first `limit` rows at or above a row |
| DeltaReaders.IntersectRows | rust/src/delta_postings.rs:32-44 | skipping blocks against an ascending seed gives exactly the common rows |
| Words.Peel | rust/src/bitslice_postings.rs:160-172 | `m & (m - 1)` clears the lowest set bit and no other, which is what drains a mask in ascending order |
| BitSlices.LastMask | rust/src/bitslice_postings.rs:138-144 | the mask of a word keeps the bits of rows in the table and no others |
| BitSlices.EqualityWord | rust/src/bitslice_postings.rs:146-154 | bit r of word w is set exactly when row 64w + r has the key |
| BitSlices.RowCount | rust/src/bitslice_postings.rs:128-131 | the stored count is the number of rows with the key |
| BitSlices.Rows | rust/src/bitslice_postings.rs:160-172 | the rows with the key, ascending |
| BitSlices.RowsFrom | rust/src/bitslice_postings.rs:174-196 | the first `limit` rows with the key at or above a row |
| BitSlices.IntersectRows | rust/src/bitslice_postings.rs:198-215 | the seed rows with the key, whatever word is cached |
| BitSlices.IntersectHierarchy | rust/src/bitslice_postings.rs:217-232 | anding two indexes word by word gives the rows with both keys |
| BitSlices.BuildBitSlice | rust/src/bitslice_postings.rs:48-99 | fails exactly on bad dimensions, a record outside them, or a wrong number of records; for sorted records of every row the planes and counts are those of the key column |
| SortedIndexes.BuildFlat | rust/src/flat_postings.rs:44-86 | succeeds exactly when the count fits 32 bits, the records strictly ascend and number `rows`, and stores them in order |
| SortedIndexes.BuildDense | rust/src/dense_postings.rs:45-85 | succeeds exactly when the count fits 32 bits, every key is in the keyspace and the records number `rows`; for strictly sorted records each offset is the number of records with a smaller key |
| SortedIndexes.BuildSparse | rust/src/postings.rs:22-42 | succeeds exactly when the records number `rows`; for strictly sorted records the directory has one entry a key, back to back |
| SortedIndexes.Flat.Bounds | rust/src/flat_postings.rs:125-159 | two binary searches bound exactly the records with the key |
| SortedIndexes.Dense.Bounds | rust/src/dense_postings.rs:109-113 | two neighbouring offsets bound exactly the records with the key; none for a key outside the keyspace |
| SortedIndexes.Sparse.Bounds | rust/src/postings.rs:52 | the directory entry bounds exactly the records with the key; none when no record has it |
| Postings.TakeFrom | rust/src/flat_postings.rs:161-186 | seeking by binary search and taking `limit` gives the first rows of the slice at or above a row |
| Postings.Probe | rust/src/postings.rs:62-65 | probing each seed row by binary search gives the common rows of the slice and the seed |
| Postings.IntersectSlice | rust/src/postings.rs:59-70 | merging, or probing when the slice is over 16 times longer, gives exactly the common rows of slice and seed |
| RowIndexes.RowIndex.RowCount | rust/src/engine.rs:85-93 | in all five representations, the number of rows whose key is the key |
| RowIndexes.RowIndex.Rows | rust/src/engine.rs:94-102 | in all five representations, the rows whose key is the key, ascending |
| RowIndexes.RowIndex.RowsFrom | rust/src/engine.rs:110-118 | in all five representations, the first `limit` such rows at or above a row |
| RowIndexes.RowIndex.IntersectRows | rust/src/engine.rs:119-127 | in all five representations, the seed rows whose key is the key |
| MixedRadix.Pack | rust/src/key.rs:1-9 | a key exactly when every token is in range and the mixed-radix number fits 64 bits, and then that number |
| MixedRadix.Injective | rust/src/key.rs:1-9 | different in-range tuples of the same columns never share a key |
| MixedRadix.EveryKey | rust/src/key.rs:1-9 | every number below the keyspace is the key of a tuple, so the keyspace is the number of tuples |
| RunMerges.MergeStep | rust/src/external.rs:56-70 | reading the least head keeps the output strictly sorted, free of repetitions and complete |
| RunMerges.MergeRuns | rust/src/external.rs:48-72 | merging strictly sorted runs through a heap of heads, under any strict total order, gives the strictly sorted list of all their records, each once |
| ExternalSort.Sort | rust/src/external.rs:25-72 | fails exactly for a chunk size of 0; otherwise the strictly increasing list of the input's distinct records, and its length, whatever the chunk size |
| Texts.SortTexts | rust/src/dictionary_build.rs:84-152 | the same for dictionary texts in runs bounded by bytes |
| Texts.BeforeMeans | rust/src/dictionary_build.rs:84-152 | a text comes before another exactly when it is smaller at the first difference or a proper beginning |
| ExactIndexes.BuildExact | rust/src/exact.rs:80-262 | succeeds exactly when columns and keyspace are in bounds, every indexed token is below its cardinality and the table has at most 2^32 - 1 rows; whichever of the five representations the sizes pick, it indexes the key of every row |
| PageIndexes.BuildBitmap | rust/src/bitmap.rs:20-53 | fails exactly when the size overflows or a record is out of bounds; otherwise bit p of key k is set exactly when (k, p) is recorded |
| PageIndexes.BitmapHolds | rust/src/bitmap.rs:20-53 | a bitmap of the records of a table's pages answers for those pages |
| PageIndexes.PageIndex.PageCount | rust/src/engine.rs:57-62 | the number of pages with a row of the key, sparse or bitmap |
| PageIndexes.PageIndex.Pages | rust/src/engine.rs:63-68 | the pages with a row of the key, ascending, sparse or bitmap |
| PageIndexes.PageIndex.IntersectPages | rust/src/engine.rs:69-74 | the seed pages with a row of the key, sparse or bitmap |
| PageBuilds.PageKeys | rust/src/builder.rs:53-86 | the distinct keys of a page in order; fails exactly when an indexed token is out of range or a key leaves 64 bits |
| PageBuilds.BuildPageIndex | rust/src/builder.rs:338-368 | one record a key and page, sorted, kept sparse or turned into a bitmap when smaller: either way it answers which pages have which keys |
| PageBuilds.BuildEngine | rust/src/builder.rs:153-395 | succeeds exactly for a valid configuration, indexable rows and page numbers that fit; however the rows were batched the segments are the rows, and the engine meets what every query theorem requires, whatever the tokens of the columns no index has |
| Planner.Engine.QueryMap | rust/src/engine.rs:283-301 | none exactly when a predicate names no token or two want different tokens of a column, and then no row matches; otherwise a token a column with the same matches |
| Planner.Engine.ScanMatches | rust/src/engine.rs:736-752 | when all tokens are below their cardinalities, refusing undeclared tokens loses no match: the scan selects exactly the rows that match |
| Planner.Engine.HierarchyKey | rust/src/engine.rs:303-309 | a key exactly when all columns of the index are queried; the rows under it are the rows that agree with the query there |
| Planner.Best | rust/src/engine.rs:377-401 | the unused candidate with the fewest rows per newly covered column; none exactly when no unused candidate covers anything new |
| EnginePlans.Cover | rust/src/engine.rs:370-411 | the greedy cover is complete: what it leaves uncovered is what no candidate has, and it chooses something whenever there is a candidate |
| EnginePlans.RowSelectionPlan | rust/src/engine.rs:335-417 | a plan exactly when an index applies or the predicates contradict; fully covered exactly when the predicates contradict, an applicable index is empty or the applicable indexes have every column; never loses a match, and then invents none |
| EnginePlans.CandidateRows | rust/src/engine.rs:419-462 | candidates exactly when there is a plan; they contain every match, and are the matches when the indexes decide the query |
| PageRouting.CandidatePages | rust/src/engine.rs:532-564 | exactly the pages that no applicable page index rules out |
| PageRouting.RoutedSound | rust/src/engine.rs:532-564 | routing leaves out no page with a match |
| EngineQueries.ScanCount | rust/src/engine.rs:736-752 | the scan counts the matching rows, and none when a predicate names a column or token that is not declared |
| EngineQueries.Query | rust/src/engine.rs:702-734 | by whatever indexes apply, for duplicate, conflicting, out-of-range or empty predicates alike, the same count as the scan |
| EngineQueries.SingleIndex | rust/src/engine.rs:311-333 | answers exactly for a single satisfiable predicate on a column with a dense or bit-sliced index of its own; the count and page read off the index are those of the scan |
| EngineQueries.QueryRowIdsFrom | rust/src/engine.rs:783-864 | the number of matches, and the first `limit` at or above a row, in order |
| EngineQueries.CandidateRowPageFrom | rust/src/engine.rs:464-530 | answers exactly when the indexes decide the query, terminates, and returns the same page as QueryRowIdsFrom, reading the smallest index in chunks |
| EngineQueries.QueryRowIdsPageFrom | rust/src/engine.rs:771-781 | the same page by the stream or by the full route |
| Dictionaries.BuildFromSortedRecords | rust/src/dictionary.rs:62-150 | fails exactly on disorder or too many texts for 32-bit tokens; otherwise a dictionary of the distinct texts |
| Dictionaries.Dictionary.Token | rust/src/dictionary.rs:278-296 | a token exactly for the texts of the dictionary, the one that means the text |
| Dictionaries.Dictionary.DecodeDefined | rust/src/dictionary.rs:225-276 | a token decodes exactly when it is below the cardinality, to what it means |
| Dictionaries.Dictionary.MeaningInjective | rust/src/dictionary.rs:267-296 | different tokens mean different values, so encoding a value and decoding its token are inverse |
| Dictionaries.BuildColumn | rust/src/dictionary_build.rs:197-236 | every value of a column, in any order and however often, gets a dictionary of exactly those values and NULL |
| RowIdMaps.RowIdWriter.Push | rust/src/rowids.rs:32-49 | accepts exactly the next greater ID while the declared number is not reached, and appends it |
| RowIdMaps.RowIdMap.Physical | rust/src/rowids.rs:142-159 | binary search finds the position of an ID, or none when it is absent |
| RowIdMaps.RowIdMap.FirstAfter | rust/src/logical.rs:253-268 | the first position whose ID is past the cursor |
| Tables.PagesHold | rust/src/stream_builder.rs:133 | rows take as few pages as hold them |
| StreamBuilders.StreamBuilder.PushBatch | rust/src/stream_builder.rs:211-231 | fails exactly when page numbers leave 32 bits; the rows written so far grow by the batch, whole pages leave the carry |
| StreamBuilders.StreamBuilder.Finish | rust/src/stream_builder.rs:233-269 | refuses exactly an empty dataset or too many pages; the segments laid end to end are the rows pushed, every segment but the last page-aligned, row and page numbers contiguous |
| StreamBuilders.VerifySegments | rust/src/operations.rs:382-423 | counts no error exactly when row and page numbers run on without a gap and add up |
| Schemas.LiteralAsksNull | rust/src/schema.rs:57-59 | on a nullable column a predicate for any text of its null literals, first or last, matches exactly the rows that are NULL there, as a predicate for NULL does |
| Schemas.TextAsksItself | rust/src/schema.rs:57-59 | a predicate for any other text, or for any text on a column that is not nullable, matches exactly the rows that hold it |
| Schemas.MatchingEach | rust/src/logical.rs:196-234 | a list of predicates matches the rows that each of them matches, no predicate all rows, and one on an unknown column none |
| Schemas.WellFormedMeans | rust/src/logical.rs:196-234 | predicates are well formed exactly when each names a column of the schema and asks for NULL only of a nullable one |
| LogicalDatasets.SelectsMeans | rust/src/logical.rs:172-194 | a row shows the columns asked for in the order asked, all of them when none is asked for, each with its own value |
| LogicalDatasets.LogicalDataset.EncodedPredicates | rust/src/logical.rs:196-234 | token predicates that the same rows satisfy; none when a wanted text is in no dictionary, and then no row matches |
| LogicalDatasets.LogicalDataset.DecodeProjection | rust/src/logical.rs:172-194 | the values of a row in the asked columns; fails exactly past the last row |
| LogicalDatasets.LogicalDataset.QueryValuesAfter | rust/src/logical.rs:295-339 | the number of matching rows, and the first `limit` past the cursor in ID order with their projected values |
| LogicalDatasets.LogicalDataset.QueryValuesPageAfter | rust/src/logical.rs:344-389 | the same page off the streaming route |
| VisibilityMaps.Visibility.TargetOf | rust/src/overlay.rs:225-238 | binary search gives the override of a row, or none |
| VisibilityMaps.Visibility.ToMap | rust/src/overlay.rs:240-247 | all overrides as a map |
| VisibilityMaps.Write | rust/src/overlay.rs:250-283 | what is written reads back as the map, the layer number 2^32 - 1 as deleted |
| VisibilityMaps.RawRoundTrip | rust/src/overlay.rs:128-147 | a target reads back exactly when it is a deletion or a layer other than 0 and 2^32 - 1 |
| SchemaUnions.MergeLayerSchemas | rust/src/versioned.rs:16-59 | succeeds exactly when columns of one name agree in meaning across layers; the result is the union: base columns first, new ones in order and nullable, nullable where any layer is |
| SchemaUnions.UnionUnique | rust/src/versioned.rs:16-59 | the layers determine their union schema |
| SchemaUnions.UnionExists | rust/src/versioned.rs:16-59 | schemas that agree pairwise have a union |
| SchemaUnions.AgreesMeans | rust/src/versioned.rs:16-59 | schemas agree exactly when no two columns of one name differ in type, normalization or null literals |
| SchemaUnions.UnionNulls | rust/src/versioned.rs:16-59 | a column of the union is nullable exactly when it is in some layer that has it, or some layer lacks it |
| SchemaUnions.PredicatesForLayer | rust/src/versioned.rs:251-292 | translation keeps the meaning: a layer row satisfies the translated predicates exactly when its aligned row satisfies the originals, and "no plan" means no row of the layer can match |
| SchemaUnions.UnionGrows | rust/src/versioned.rs:16-59 | a layer with new columns extends the union at its end and changes no name before |
| Overlays.MatchesByLayer | rust/src/versioned.rs:465-524 | the layers' visible matches are together the matches of the map |
| Overlays.OverFetch | rust/src/versioned.rs:486-502 | a page enlarged by the number of hidden rows, less the hidden ones, contains the page |
| Overlays.GatherMore | rust/src/versioned.rs:465-524 | rows gathered from two disjoint parts contain the page of both |
| Overlays.ExtendedVisible | rust/src/delta_mutation.rs:285-373 | a new layer with overrides keeps the overlay invariant and denotes the changed map, except that a layer numbered like a tombstone hides the rows it updates |
| Overlays.TombstoneLayer | rust/src/overlay.rs:128-147 | one row updated in the layer numbered 2^32 - 1 is gone, although the intended map has it |
| Overlays.WidenedVisible | rust/src/delta_mutation.rs:511-551 | widening every layer's rows with NULLs widens the map and keeps the invariant |
| VersionedDatasets.Open | rust/src/versioned.rs:89-147 | opens exactly when schemas agree and every override names a layer that holds the row; the schema is the union |
| VersionedDatasets.Versioned.RowValues | rust/src/versioned.rs:319-349 | the visible row of an ID, or none |
| VersionedDatasets.Versioned.ForEachVisibleRow | rust/src/versioned.rs:598-641 | the k-way walk over layers emits exactly the visible rows, once each, in ID order |
| VersionedQueries.ValuesMatch | rust/src/versioned.rs:351-382 | decides whether a row of the union schema satisfies the predicates |
| VersionedQueries.HiddenMatchCount | rust/src/versioned.rs:384-407 | the number of hidden rows of a layer, and of those that match |
| VersionedQueries.HiddenRowCount | rust/src/versioned.rs:409-425 | the number of hidden rows of a layer |
| VersionedQueries.RunLayer | rust/src/versioned.rs:465-524 | one layer's part of a query: its hits less the hidden ones, and its rows, which contain its share of the page |
| VersionedQueries.QueryValuesAfter | rust/src/versioned.rs:465-524 | for every well-formed overlay, predicates, cursor and limit: the number of visible matches whatever the cursor, and exactly the first `limit` past the cursor in ID order, projected |
| VersionedQueries.QueryValuesPageAfter | rust/src/versioned.rs:529-595 | the page route returns the same page |
| DatasetBuilds.BuildDataset | rust/src/compaction.rs:181-282 | two streaming passes build a valid dataset that holds exactly the given rows and has an index on each column, each accelerator and nothing else; fails exactly when a row does not fit the schema, IDs do not ascend, an accelerator's keyspace leaves 64 bits, or there are no or too many rows |
| DatasetBuilds.BuildDictionaries | rust/src/dictionary_build.rs:197-236 | a dictionary a column of exactly its texts; fails exactly when a column has no token or too many |
| Mutations.Prepare | rust/src/delta_mutation.rs:126-198 | folding the mutations into patches, deletions and insertions succeeds exactly when applying them one at a time does, and means the same |
| Mutations.InsertWhen | rust/src/delta_mutation.rs:170-193 | an insertion succeeds exactly when every name is a column and its row, NULL where no value is given, has NULL only in nullable columns; then that row is added under the next ID |
| Mutations.UpdateWhen | rust/src/delta_mutation.rs:145-169 | an update succeeds exactly for a row of the snapshot not deleted yet, with a value, every name a column, and NULL only for nullable ones; then those columns of that row change |
| Mutations.DeleteWhen | rust/src/delta_mutation.rs:138-144 | a deletion succeeds exactly for a row of the snapshot, deleted already or not |
| Mutations.StepsValid | rust/src/delta_mutation.rs:126-198 | whatever mutations succeed, every row stays one of the schema |
| Mutations.FoldUpdate | rust/src/delta_mutation.rs:145-169 | patching a patched row means updating it twice; updating a deleted row fails |
| Mutations.FoldDelete | rust/src/delta_mutation.rs:138-144 | deleting drops an earlier update of the row, and deleting again changes nothing |
| DeltaWrites.ApplyMutationsDelta | rust/src/delta_mutation.rs:247-405 | fails exactly when something stops it (ObstructedMeans); otherwise the new dataset denotes the mutations applied one at a time, with a true count, a bounding greatest ID and fresh IDs, if and only if the layer number does not read as a tombstone over an updated row |
| DeltaWrites.ObstructedMeans | rust/src/delta_mutation.rs:247-405 | what stops a delta, from the rows alone: a zero in the configuration, no mutation or a failing one, no row left, IDs or layer numbers used up, too many new rows, or a base index whose columns have more combinations of the new rows' tokens than 64 bits |
| Appends.AppendDelta | rust/src/delta_mutation.rs:452-579 | fails exactly when something stops it (AppendObstructedMeans); otherwise the schema is the union with the incoming one, earlier rows keep their values and gain NULLs for new columns, the new rows follow under fresh consecutive IDs, and the invariant holds |
| Appends.CompatibleMeans | rust/src/delta_mutation.rs:417-445 | a schema is compatible exactly when no column of a shared name clashes, which is exactly when it and the layers have a union; columns of new names are never in the way |
| Appends.AppendObstructedMeans | rust/src/delta_mutation.rs:452-579 | what stops an append, from the rows and schemas alone: a zero in the configuration, an invalid or clashing schema, no row, too many, one that does not fit, an index found by name that is too wide, or numbers used up |
| Rebuilds.AcceleratorsAre | rust/src/delta_mutation.rs:20-34 | a delta and a rebuild keep exactly the indexes of two or more columns, as they are |
| Rebuilds.MappedAre | rust/src/delta_mutation.rs:36-75 | an append and a compaction keep exactly the indexes of two or more different columns whose names are all there, on the ascending columns of the same names |
| Rebuilds.UnbuildableWhen | rust/src/compaction.rs:181-282 | rows of the schema cannot be built exactly for a zero in the configuration, no row, too many rows, or an index whose keyspace leaves 64 bits |
| Compactions.OpenBase | rust/src/versioned.rs:89-147 | a dataset without an overlay is a valid versioned dataset of its own rows |
| Compactions.CompactDataset | rust/src/compaction.rs:150-304 | fails exactly when the visible rows cannot be built (CompactionMeans); otherwise one clean base with the same rows and, by name, the same indexes under the same schema, no deltas, no overrides, and the greatest ID in use |
| Compactions.CompactionMeans | rust/src/compaction.rs:150-304 | what stops a compaction, from the rows alone: a zero in the configuration, no row, too many, or a base index whose columns, found by name, span a keyspace past 64 bits |
| Compactions.IndexKept | rust/src/compaction.rs:59-99 | no base index of two or more different columns is lost in a compaction for want of a name |
| Compactions.PageDetermined | rust/src/compaction.rs:181-282 | the map, the page's IDs and the projection determine a result page, so equal maps answer every query alike |
| Compactions.RebuildMutations | rust/src/mutation.rs:318-405 | fails exactly when something stops it (RebuildMeans); otherwise the rebuilt dataset holds the mutations applied one at a time and has the same multi-column indexes |
| Compactions.RebuildMeans | rust/src/mutation.rs:318-405 | what stops a rebuild, from the rows alone |
| Compactions.AddInserts | rust/src/mutation.rs:256-291 | inserted rows follow under fresh IDs; fails exactly when the ID after the last one leaves 64 bits, even when nothing is inserted |
| Compactions.NoSpareId | rust/src/mutation.rs:256-291 | a dataset with row 2^64 - 1 cannot be rebuilt by any transaction |
| Compactions.DeletionFits | rust/src/delta_mutation.rs:247-405 | the delta of a single deletion fails exactly for a bad configuration, an unknown row, or the only row; no spare ID is needed |
| Compactions.LastIdBuilds | rust/src/compaction.rs:181-282 | two rows, the second under ID 2^64 - 1, can be built into a dataset |
| Compactions.LastIdGap | rust/src/mutation.rs:256-262 | on that dataset the deletion of row 0 fails as a rebuild and succeeds as a delta |
| Compactions.DeltaIsRebuild | rust/src/mutation.rs:209-291 | on a base without overlay, a delta and a rebuild of the same mutations leave the same rows |
| Histories.OperationMeans | rust/src/delta_mutation.rs:285-373 | each operation keeps the invariant and means on the map what it should |
| Histories.RunMeans | rust/src/delta_mutation.rs:247-579 | along every run of transactions, appends and compactions of any length whose layer numbers stay below the tombstone's, every generation is well formed and every step means its operation on the table |
| Decimals.TextReads | rust/src/query_api.rs:246-262 | the decimal text of an integer parses back to it, or to nothing when the integer is out of the column's bounds |
| Decimals.DigitsAre | rust/src/schema.rs:63-81 | the digits of a text are the decimal ones, most significant first, after a minus sign |
| Decimals.SignsRead | rust/src/schema.rs:63-81 | leading zeros and a plus sign change nothing, a minus sign negates and is for signed columns, and there must be a digit |
| Decimals.BoundsAre | rust/src/schema.rs:63-81 | numbers are the 64-bit ones: from 0 in unsigned columns, from -2^63 in signed ones |
| Decimals.TextInjective | rust/src/query_api.rs:246-262 | different integers have different texts |
| QueryFilters.PrepareFilters | rust/src/query_api.rs:133-168 | succeeds exactly for valid filters, with tests that decide them |
| QueryFilters.MatchesFilters | rust/src/query_api.rs:170-193 | decides whether a row passes all filters |
| QueryFilters.RangeReads | rust/src/query_api.rs:180-190 | a row that holds the integer n passes a range exactly when n is at least the lower bound, if there is one, and at most the upper bound, if there is one; a NULL passes none |
| QueryFilters.LiteralSelectsNull | rust/src/query_api.rs:92-109 | an equality with any null literal of a nullable column selects exactly the NULL rows |
| QueryFilters.TextSelectsItself | rust/src/query_api.rs:92-109 | an equality with any other text selects exactly the rows that hold it |
| QueryFilters.InSelects | rust/src/query_api.rs:170-193 | a membership selects a row exactly when the equality with one of its values does |
| QueryFilters.SelectedEach | rust/src/query_api.rs:170-193 | filters select the rows that each of them selects, and no filter all rows |
| QueryFilters.CanonicalMeans | rust/src/schema.rs:63-81 | canonical rows hold in numeric columns NULL or the text of a 64-bit integer, and anything elsewhere |
| QueryFilters.ValidRange | rust/src/query_api.rs:152-164 | a range is valid exactly on a numeric column with a bound, its bounds in the column's range and not crossed |
| QueryFilters.ValidElse | rust/src/query_api.rs:137-151 | an equality is valid where its predicate is well formed, a membership when it has a value and each equality is valid, and nothing on an unknown column |
| QueryFilters.ContainsValue | rust/src/query_api.rs:170-193 | binary search among the sorted values of an `in` filter decides membership |
| QueryRoutes.FullScan | rust/src/query_api.rs:578-605 | the scan route: the number of selected rows, and the page past the cursor |
| CandidateRoute.EqualitySubset | rust/src/query_api.rs:200-222 | the equality filters as predicates that every passing row satisfies; all of the filters exactly when each is an equality |
| CandidateRoute.CandidateFirst | rust/src/query_api.rs:362-485 | fetching candidates batch by batch and testing the other filters gives the same rows and hits as the scan |
| RangeRoute.BoundedIntegerRangeValues | rust/src/query_api.rs:224-265 | the texts of a single closed integer range of at most 256 values, one an integer, in order |
| RangeRoute.MergeHeads | rust/src/query_api.rs:528-566 | merging one head a stream by a heap gives, for any streams, a page of their merge: rows of theirs in ID order, repeated only if in several streams, none left out but past the end of a full page |
| RangeRoute.RangeMerge | rust/src/query_api.rs:491-576 | the range route: the summed hits of the equality streams and a page of their merge |
| StreamMerges.ReadNext | rust/src/query_api.rs:528-566 | reading the least unread head keeps what has been read complete below every unread row, and repeats a row only from another stream |
| StreamMerges.MergedPage | rust/src/query_api.rs:528-566 | where the page of the union has no shared row, the merge is that page |
| StreamMerges.CleanPage | rust/src/query_api.rs:528-566 | with no misread row among the first rows of wanted and misread together, the merged page is the wanted one |
| StreamMerges.TroubledPage | rust/src/query_api.rs:528-566 | with one there, the merged page shows an unwanted row or has passed over a wanted one, so it is not the wanted page |
| RangeTroubles.RowTrouble | rust/src/query_api.rs:491-576 | a row that is neither NULL nor stores a literal in range is in exactly one stream if in range and in none otherwise; a misread one is in a stream exactly when it is not in range |
| RangeTroubles.PageExact | rust/src/query_api.rs:491-576 | a page of the range route is right exactly when no misread row lies on the page of the rows in range and the misread ones together |
| RangeTroubles.HitsBalance | rust/src/query_api.rs:505-526 | the summed hits and the rows that store a literal in range are together the rows in range and the NULL rows once a literal |
| RangeTroubles.HitsExact | rust/src/query_api.rs:505-526 | the summed hits are right exactly when the NULL rows, once a literal in range, are as many as the rows that store one |
| RangeTroubles.EveryPage | rust/src/query_api.rs:491-576 | all pages, for every cursor and limit, are right exactly when no row is misread |
| RangeTroubles.ZeroCountsNull | rust/src/query_api.rs:491-576 | one NULL row and the range from 0 to 0, where 0 is a null literal: one hit, and no row in range |
| RangeTroubles.ZeroLosesRow | rust/src/delta_mutation.rs:98-114 | one row inserted as 0, and the same range: no hit, and the row is in range |
| QueryApi.Browse | rust/src/query_api.rs:277-324 | the visible rows from the start on, in ID order, `limit` of them |
| QueryApi.BrowseExact | rust/src/query_api.rs:280-283 | the start is past the cursor for every row set, except exactly when the cursor is 2^64 - 1 and that row exists |
| QueryApi.BrowseRepeats | rust/src/query_api.rs:280-283 | with a row 2^64 - 1, browsing past it shows it, although nothing is past it |
| QueryApi.WhenRange | rust/src/query_api.rs:224-265 | the prepared tests take the range route exactly when the request is a single closed range of at most 256 integers on a column with an index of its own in every layer that has it |
| QueryApi.RangeTaken | rust/src/query_api.rs:224-265 | the closed range from a to b takes the range route exactly when the column is numeric, a and b are in its bounds, a <= b < a + 256 and the column has its own indexes; it then asks for the texts of a to b |
| QueryApi.ExactSingletonMeans | rust/src/versioned.rs:184-204 | the column has its own indexes exactly when some layer has a column of its name and every such layer has an index on that column alone |
| QueryApi.ValidRequestIs | rust/src/query_api.rs:267-272 | a request is valid exactly with a positive limit, valid filters, and a column for every selected name |
| QueryApi.RequestShows | rust/src/query_api.rs:195-198 | a returned row shows the selected columns in the order selected, or all when none is named, each with its value |
| QueryApi.HasExactSingleton | rust/src/versioned.rs:184-204 | true exactly when some layer has the column and every layer that has it has an index of its own for it |
| QueryApi.ExecuteQuery | rust/src/query_api.rs:267-605 | every valid request on canonical rows is answered, by whichever route: the hits are those of filtering the visible rows if and only if the range route does not miscount, the page if and only if the request is not the repeating browse and no misread row lies on it, and a wrong page of the range route is wrong at a misread row; other routes need no condition on the rows; every returned row is visible, and past the cursor except in that browse |
| Exports.NextPage | rust/src/query_api.rs:308-310 | following the cursor: none means nothing is left, and otherwise the rest is what lies past it, disjoint from the page |
| Exports.StreamExport | rust/src/bin/lhr_appliance/export.rs:428-473 | the paging loop terminates on every input; it emits exactly the first `max_rows` selected rows past its cursor, or all of them, if and only if it does not begin with the repeating browse and no misread row lies among the first `max_rows` of the selected and the misread rows together |
| Exports.OnePage | rust/src/bin/lhr_appliance/export.rs:428-473 | one more page keeps the loop on track: everything up to the cursor emitted and no row misread, or an export that no later page mends |
| Exports.NullExported | rust/src/query_api.rs:491-576 | one NULL row and the range from 0 to 0, where 0 is a null literal: nothing is selected, the export is not readable, and every page the route merges shows the NULL row |
| CatalogProtocol.InvStep | rust/src/catalog.rs:173-401 | every step of every process, a crash between publish's two renames included, keeps the catalog's invariant |
| CatalogProtocol.RunInv | rust/src/catalog.rs:173-401 | the invariant holds along every interleaving |
| CatalogProtocol.Safe | rust/src/catalog.rs:185-243 | CURRENT names a generation that exists and verifies unless damaged; at most one stage is live, and its number is no published generation's |
| CatalogProtocol.LetsGo | rust/src/catalog.rs:173-401 | a failed publication, an abandoned stage, a finished vacuum, a released lease and a crash leave the process idle, the generations as they are and every stage but the abandoned one; a crash can come at any time |
| CatalogProtocol.VacuumSpares | rust/src/catalog.rs:318-401 | only a vacuum removes a generation, and never CURRENT, a protected or retained one, one under a lease held without a break since its scan began or tested its lock, or a live stage |
| CatalogProtocol.VacuumKeeps | rust/src/catalog.rs:318-401 | on taking the lock a vacuum dooms exactly the generations that are neither CURRENT nor protected nor found leased and have at least `retain` newer ones |
| CatalogProtocol.NewestMeans | rust/src/catalog.rs:318-401 | the newest n generations are n of them, or all, and newer than the others |
| CatalogProtocol.RecoveryKeepsAll | rust/src/recovery.rs:32-71 | recovery's vacuum dooms no published generation |
| CatalogProtocol.LeaseRace | rust/src/snapshot.rs:41-63 | a run at whose end a reader holds a lease on a deleted generation |
| CatalogRuns.ScanFinds | rust/src/snapshot.rs:73-105 | however other steps interleave, a scan has found a generation exactly when someone held its reader lock at the moment the scan tested it |
| CatalogRuns.Doomed | rust/src/snapshot.rs:113-128 | a vacuum that has taken the lock dooms exactly what is neither CURRENT nor protected nor so found and has enough newer generations, leased or not |
| CatalogRuns.LostExactly | rust/src/catalog.rs:318-401 | when the vacuum ends, however other steps interleaved, exactly those generations are gone and no generation has been added |
| Catalogs.Catalog.NextGenerationId | rust/src/catalog.rs:173-183 | one above the greatest number on disk or in CURRENT; fails exactly when there is no such 64-bit number |
| Catalogs.Catalog.BeginGeneration | rust/src/catalog.rs:185-207 | is the protocol's begin step; fails, changing nothing, exactly when the lock is held, no number is left or the staging directory exists |
| Catalogs.Catalog.PublishGeneration | rust/src/catalog.rs:209-243 | publishes a verified stage under a number not published before and names it CURRENT; a stage that fails verification stays and changes nothing |
| Catalogs.Catalog.AbandonGeneration | rust/src/catalog.rs:285-290 | removes its staging directory and no other, lets go of the lock, and changes no generation |
| Catalogs.Catalog.RollbackGeneration | rust/src/catalog.rs:292-316 | names an existing, verified generation CURRENT, exactly when the lock is free |
| Catalogs.Catalog.AcquireLease | rust/src/snapshot.rs:41-63 | leases the generation CURRENT named; fails exactly without one |
| Catalogs.Catalog.ScanLeases | rust/src/snapshot.rs:73-105 | finds exactly the generations leased when it runs undisturbed |
| Catalogs.Catalog.VacuumGenerations | rust/src/catalog.rs:318-401 | succeeds exactly with the lock free, a verified CURRENT and all to be kept present; then exactly what is to be kept remains and no stage |
| Catalogs.Catalog.VacuumWithReaderLeases | rust/src/snapshot.rs:113-128 | the same, with the leased generations kept |
| Catalogs.Catalog.RecoverCatalog | rust/src/recovery.rs:32-71 | succeeds exactly when the lock is free and a generation verifies; names the newest verified generation CURRENT, sweeps stages and deletes no generation |
| Catalogs.NewestVerified | rust/src/recovery.rs:32-71 | the newest verified generation, if one verifies |
| ColdSegments.StoredLoads | rust/src/parquet_payload.rs:165-199 | a 32-bit token survives storage as a signed integer |
| ColdSegments.TokenWriter.WriteColumns | rust/src/parquet_payload.rs:165-199 | accepts exactly batches of the right number of equally long columns, and appends them, whatever row groups they fill |
| ColdSegments.TokenWriter.Finish | rust/src/parquet_payload.rs:201-210 | the groups of the finished file hold the columns written, in order |
| ColdSegments.ReadTokenProjection | rust/src/parquet_payload.rs:215-302 | succeeds exactly when columns and rows are in range; the values asked for, in the order asked, whatever groups hold them |
| HybridSegments.Partition | rust/src/stream_builder.rs:30-49 | succeeds exactly for sorted, distinct cold columns in range that leave a hot one; the hot columns are the others |
| HybridSegments.WriteSidecar | rust/src/stream_builder.rs:144-199 | the sidecar's columns are the cold columns of the rows, for every row-group size |
| HybridSegments.HybridSegment.ValueChecked | rust/src/segment.rs:327-381 | after every history of reads, the token a native segment would return; none exactly outside the segment |
| HybridSegments.HybridSegment.CountPage | rust/src/segment.rs:395-404 | the number of matching rows of a page |
| HybridSegments.FlattenAt | rust/src/segment.rs:327-381 | the token of row r and hot column k lies at r * columns + k |
| RowSets.ListsUnique | rust/src/engine.rs:783-864 | a set has one ascending list, so the lists above are determined |
| RowSets.TopLeast | rust/src/engine.rs:783-864 | no member left off a page is smaller than one on it |

## Left out

- File bytes: headers, magic numbers, memory maps, fsync and directory layout are not modelled, except for the delta-posting bytes; files are sequences of tokens, records or row groups, directories are maps.
- Checksums and seals: whether a generation verifies is a flag the `Damage` step may clear; what a seal contains is not modelled.
- Timeouts, row-examination ceilings, page and lookup counters, telemetry: error exits and statistics only, with no effect on an answer that is returned.
- Parsing and canonicalisation of CSV, JSON and cell text, null sentinels: values are canonical when the model sees them; `CanonicalRows` says of stored numeric texts that they parse.
- Texts are sequences of characters compared by code; the byte length of a text, used only to cut sort runs, is its number of characters.
- Library sorts and heaps: `sort_unstable`, `sort_by_key`, `BTreeMap` and `BinaryHeap` are stood for by an insertion sort, `Enumerate` and the choice of a least element.
- Token batches are sequences of whole rows, so the error for a batch that is not whole rows cannot occur.
- Bitwise or of disjoint bits in packing is modelled as addition, justified by the bound on the accumulator.
- The base is layer 0 of one sequence of layers, where the program keeps it beside the deltas.
- Hybrid storage is modelled for a segment and its sidecar; the dataset and compaction models use native segments.
- Segmented and resumable import, buckets, administration, maintenance, the HTTP and tool services and the user interface orchestrate the modelled operations.
- Publishing a presealed generation (`rust/src/catalog.rs:249-283`) differs from publishing in how the stage is verified only.
- Catalogs.Catalog.ScanLeases: its contract is for a scan without a step of another process in between; interleaved scans are the protocol's `ScanOne` steps.
- QueryApi.ExecuteQuery: a stored numeric text that does not parse may make a range filter fail or fall outside its texts, so success, and the answer of the range route, are promised on rows whose numeric texts are canonical.
- Exports.StreamExport: the same; other exports need no condition on the rows.
- Mutations.Prepare: texts are canonical when the model sees them, so the refusal of a text that does not canonicalise is not modelled.
- QueryFilters.PrepareFilters: the same for the texts of equality and `in` filters; range bounds that do not parse are refused as in the program.
- CatalogRuns.ScanFinds: a scan's test of a reader lock is one step; two scans that try the same lock at the same moment could each find a generation that no reader leases, and then keep it, which the model's exact `found` does not have.
- VersionedQueries.QueryValuesAfter: a predicate that is not well formed makes the query fail unless an earlier layer or predicate already decides it, so failure is not promised.
- DeltaPostings.BuildDelta: a record count past 2^32 - 1 under one key, which the program truncates, is excluded as its caller excludes it (`rust/src/exact.rs:95`).
