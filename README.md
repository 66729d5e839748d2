# sparql-update-data-generator, modelled in Dafny

This project models the core of `sparql-update-data-generator`, a tool that
turns RDF datasets into SPARQL 1.1 Update workloads, and proves properties of
that model. The modelled parts are:

- **The term dictionary** (`RdfTripleCompressor`). It interns each term's
  bytes under the term's hash, and the first writer wins. It can deduplicate
  triples by their hash. It splits raw N-Triples lines and filters parsed
  triples by term kind. It writes compressed datasets as three machine words
  per triple, and it saves its state as a header-size word, a sorted header of
  `(hash, start, end)` records and a data segment.
- **The decompressor.** `load_state` reads that state file layout.
  `search_header` is a binary search over the header, and
  `decompress_rdf_triple` slices the term texts out of the data segment.
  `decompress_rdf_triple_file` renders a compressed dataset as N-Triples lines.
- **The sorted triple store** (`CompressedRdfTriples`). It holds the
  compressed triples, answers `contains` by binary search, and names its
  files with the `nt` and `compressed_nt` extensions.
- **The four triple generators.** These are: distinct sampling from a pool,
  fresh sampling per query, fixed-size batches from changesets, and whole
  changesets picked by closest size.
- **Query planning and rendering** (`generate_queries`,
  `generate_linear_no_size_hint`, `write_update_data_queries`,
  `write_ntriples_file`):
  - each query spec is expanded into planned queries, which are put in the
    requested output order;
  - each query is written as an `INSERT DATA` / `DELETE DATA` block
    (sections 3.1.1 and 3.1.2 of SPARQL 1.1 Update), or as N-Triples lines,
    together with the optional prepare file;
  - a warning is printed when a query's size differs from the size asked for.
- **The command-line pieces that shape a run** (from `main.rs`): the query spec
  syntax `<i|d><count>x<size>`, the absolute query size, the sum of
  requested triples that sizes the distinct generator's pool, and the query
  type of a replicated file by its name suffix.

How the model represents the program:

- **Bytes and words.** Bytes are `seq<byte>`. Machine words are 8
  little-endian bytes; a value past 2^64 is cut to its low bytes, as a `usize`
  wrap-around would do.
- **The dictionary.** The `BTreeMap` is a strictly key-sorted sequence of
  entries, which is its iteration order.
- **Output files.** Each output file is the byte sequence it ends up holding,
  starting from its old contents when appending.
- **Panics.** Panics (`unwrap`, `expect`, `assert!`, a bad slice) become error
  results.
- **Outside inputs.** Hashing, random choices and the N-Triples parser are
  parameters.

Modules, one per file:

| module | file |
|---|---|
| `Common`, `Words` | `common.dfy` |
| `OrderedMap` | `ordered_map.dfy` |
| `Sorting` | `sorting.dfy` |
| `TripleStore` | `triple_store.dfy` |
| `Decompressor` | `decompressor.dfy` |
| `CompressorState` | `compressor_state.dfy` |
| `Compressor` | `compressor.dfy` |
| `TripleGenerator` | `triple_generator.dfy` |
| `Sparql` | `sparql.dfy` |
| `Cli` | `cli.dfy` |

## Model

| member | source | states |
|---|---|---|
| Words.WordRoundTrip | src/rdf/triple_compressor/decompressor.rs:28 | a word written with `to_ne_bytes` reads back with `from_ne_bytes` as the same value |
| OrderedMap.Get | src/rdf/triple_compressor/compressor.rs:23 | a lookup finds a value exactly when the key is one of the map's keys |
| OrderedMap.OrInsert | src/rdf/triple_compressor/compressor.rs:84-92 | `entry(k).or_insert(v)`: the map stays key-sorted and gains `k`; an existing value for `k` is kept, otherwise `v` is stored; no other key changes |
| OrderedMap.Insert | src/rdf/triple_compressor/compressor.rs:69 | `insert(k, v)`: the map stays key-sorted and gains `k`; `k` maps to `v` (the last writer wins); no other key changes |
| OrderedMap.InsertNext | src/rdf/triple_compressor/compressor.rs:66-70 | inserting the next entry of a key-sorted sequence after its prefix gives the longer prefix |
| OrderedMap.Extensionality | src/rdf/triple_compressor/compressor.rs:23 | two key-sorted maps with the same lookups are the same map |
| Sorting.StableSortSorted | src/sparql.rs:68 | the reference sort orders by key |
| Sorting.StableSortPermutation | src/sparql.rs:68 | the reference sort is a permutation of its input |
| Sorting.StableSortStable | src/sparql.rs:68 | the reference sort keeps elements of equal key in their input order |
| Sorting.InsertAt | src/sparql.rs:68 | one in-place insertion step: element `i` moves left past the elements of greater key, and the array after `i` is untouched |
| Sorting.SortByKey | src/sparql.rs:68-69 | the in-place `sort_by_key` leaves the array as the stable reference sort of its old contents |
| Sorting.StableSortDistinct | src/rdf/triple_generator.rs:13 | sorting a duplicate-free sequence keeps it duplicate-free |
| Sorting.SortedSampleSpec | src/rdf/triple_generator.rs:12-13 | a sorted sample of distinct indices is strictly ascending and holds the same indices |
| Sorting.SortedSample | src/rdf/triple_generator.rs:13 | `sort_unstable` of the sampled indices, done in place on a copy, is the reference sort of the sample |
| TripleStore.TriplesBytes | src/rdf/triple_compressor/compressor.rs:200-205 | a compressed file holds 24 bytes per triple |
| TripleStore.LoadTriples | src/rdf/triple_compressor/mod.rs:21-23 | a file maps as triples exactly when its length is a whole number of triples |
| TripleStore.LoadTriplesBytes | src/rdf/triple_compressor/mod.rs:54-60 | a file written triple by triple loads back, and iterates, as the same triples in the same order |
| TripleStore.SearchRange | src/rdf/triple_compressor/mod.rs:36 | on a sorted store, the binary search between `lo` and `hi` succeeds exactly when the triple occurs there |
| TripleStore.Contains | src/rdf/triple_compressor/mod.rs:35-37 | on a lexicographically sorted store, `contains(t)` holds exactly when `t` is in the store (so never on an empty store); the store is a value and is not changed |
| TripleStore.LastDot | src/rdf/triple_compressor/compressor.rs:192 | the position found is the last `.` of the name, and none is found only when the name has no `.` |
| TripleStore.CompressedFileName | src/rdf/triple_compressor/compressor.rs:192 | the compressor writes `stem.nt` to `stem.compressed_nt` beside it (a name that is just `.nt` gains the extension instead) |
| Decompressor.SearchRange | src/rdf/triple_compressor/decompressor.rs:17 | a position the search returns lies in the range and holds the id sought |
| Decompressor.SearchRangeMisses | src/rdf/triple_compressor/decompressor.rs:17 | on a sorted header, the search misses only when no record in the range has the id |
| Decompressor.SearchHeader | src/rdf/triple_compressor/decompressor.rs:16-19 | a record that `search_header` returns has the id sought |
| Decompressor.SearchHeaderSpec | src/rdf/triple_compressor/decompressor.rs:16-19 | on a sorted header, `search_header` returns `None` exactly when no record has the id |
| Decompressor.DecompressTriple | src/rdf/triple_compressor/decompressor.rs:47-57 | `decompress_rdf_triple`; specified by Decompressor.DecompressTripleSpec |
| Decompressor.DecompressTripleSpec | src/rdf/triple_compressor/decompressor.rs:47-57 | on a sorted header, a triple decompresses exactly when all three ids have records; with one record per id, each component is the data-segment slice of its id's record |
| Decompressor.RecordBytes | src/rdf/triple_compressor/decompressor.rs:11 | one header record takes 24 bytes |
| Decompressor.HeaderBytes | src/rdf/triple_compressor/decompressor.rs:31-36 | a header of `n` records takes `24 n` bytes |
| Decompressor.ParseRecords | src/rdf/triple_compressor/decompressor.rs:31-36 | the header region is read as exactly one record per 24 bytes |
| Decompressor.ParseHeaderBytes | src/rdf/triple_compressor/decompressor.rs:31-36 | records written as bytes read back as the same records |
| Decompressor.RecordsReencode | src/rdf/triple_compressor/decompressor.rs:31-36 | a header region read as records and written back gives the same bytes |
| Decompressor.LoadState | src/rdf/triple_compressor/decompressor.rs:21-45 | loading succeeds exactly when the file holds the size word and the whole announced header, and that header is a whole number of records; the header is bytes `[8, 8 + header_size)` and the data segment is the rest of the file |
| Decompressor.DecompressAll | src/rdf/triple_compressor/decompressor.rs:62-66 | the decompression of every stored triple, in order; specified by Decompressor.DecompressAllFails and Decompressor.DecompressAllSpec |
| Decompressor.DecompressAllFails | src/rdf/triple_compressor/decompressor.rs:62-65 | one triple that cannot be resolved makes the whole file fail |
| Decompressor.DecompressAllSpec | src/rdf/triple_compressor/decompressor.rs:62-65 | a file resolves exactly when each of its triples does, and then triple `i` resolves to the `i`-th result |
| Decompressor.TriplesTextAppend | src/rdf/triple_compressor/decompressor.rs:67-72 | the text of two runs of triples is the two texts one after the other |
| Decompressor.DecompressTripleFile | src/rdf/triple_compressor/decompressor.rs:59-76 | the output fails exactly when some triple cannot be resolved; otherwise it gains one `s p o .\n` line per stored triple, in stored order |
| CompressorState.Records | src/rdf/triple_compressor/compressor.rs:47-54 | a saved header has one record per dictionary entry |
| CompressorState.HeaderTextIsRecords | src/rdf/triple_compressor/compressor.rs:47-54 | when no offset wraps, the header written is exactly the records' bytes |
| CompressorState.RecordAt | src/rdf/triple_compressor/compressor.rs:47-54 | record `i` holds entry `i`'s id and the running offsets before and after entry `i`'s text |
| CompressorState.DataSegmentPrefix | src/rdf/triple_compressor/compressor.rs:56-58 | the texts of the first `j` entries are a prefix of the data segment |
| CompressorState.SliceAt | src/rdf/triple_compressor/compressor.rs:47-58 | record `i` slices exactly entry `i`'s text out of the data segment |
| CompressorState.SavedRecords | src/rdf/triple_compressor/compressor.rs:39-60 | every saved record lies inside the data segment, has its entry's id and slices its entry's text |
| CompressorState.SavedOffsets | src/rdf/triple_compressor/compressor.rs:47-54 | the first record starts at 0; each record ends its text's length after its start; each starts where the previous one ended; the last ends at the end of the data segment |
| CompressorState.SavedSorted | src/rdf/triple_compressor/compressor.rs:48 | a dictionary with ascending ids saves a header with strictly ascending ids, as the binary search needs |
| CompressorState.StateFile | src/rdf/triple_compressor/compressor.rs:39-60 | the bytes `save_state` writes; specified by CompressorState.StateFileParts, CompressorState.SavedOffsets and CompressorState.SaveLoad |
| CompressorState.Saved | src/rdf/triple_compressor/compressor.rs:39-60 | the header and data segment a saved dictionary loads as; specified by CompressorState.SavedRecords and CompressorState.SaveReload |
| CompressorState.StateFileParts | src/rdf/triple_compressor/compressor.rs:39-60 | a state file is the header-size word (24 per entry), then the header, then the data segment |
| CompressorState.HeaderTextLength | src/rdf/triple_compressor/compressor.rs:40 | the header is 24 bytes per entry, which is the header size written first |
| CompressorState.SaveLoad | src/rdf/triple_compressor/decompressor.rs:21-45 | loading a saved state maps the saved header and data segment, when neither the header size nor an offset wraps |
| CompressorState.Rebuild | src/rdf/triple_compressor/compressor.rs:63-73 | the dictionary rebuilt from header records is key-sorted |
| CompressorState.RebuildSaved | src/rdf/triple_compressor/compressor.rs:63-73 | rebuilding from the first `n` records of a saved header gives the first `n` entries of the saved dictionary |
| CompressorState.SaveReload | src/rdf/triple_compressor/compressor.rs:63-73 | saving, loading and `from_decompressor` give back the dictionary that was saved |
| CompressorState.SavedLookup | src/rdf/triple_compressor/decompressor.rs:47-57 | after saving and loading, a triple of known ids decompresses to the texts the dictionary holds under those ids |
| Compressor.Intern | src/rdf/triple_compressor/compressor.rs:102-110 | interning a triple's terms keeps the dictionary key-sorted |
| Compressor.InternKeys | src/rdf/triple_compressor/compressor.rs:102-110 | interning adds exactly the triple's three ids to the keys |
| Compressor.InternSpec | src/rdf/triple_compressor/compressor.rs:102-110 | interning never overwrites; an absent subject id gets the subject's bytes; ids other than the triple's three keep their values |
| Compressor.InternFaithful | src/rdf/triple_compressor/compressor.rs:97-112 | if every stored text is stored under its own hash, that stays true after interning |
| Compressor.InternRecall | src/rdf/triple_compressor/compressor.rs:97-112 | without a hash collision, after interning each of the triple's ids maps to its term |
| Compressor.InternAll | src/rdf/triple_compressor/compressor.rs:176 | interning a run of triples keeps the dictionary key-sorted |
| Compressor.InternAllKeeps | src/rdf/triple_compressor/compressor.rs:102-110 | an id that is already a key keeps its bytes through any later interning |
| Compressor.InternAllHas | src/rdf/triple_compressor/compressor.rs:176 | after interning a run of triples, the ids of each of them are keys |
| Compressor.IdsOf | src/rdf/triple_compressor/compressor.rs:176 | one id triple per input triple |
| Compressor.KeepFirst | src/rdf/triple_compressor/compressor.rs:135-137 | deduplication by triple hash; specified by Compressor.KeepFirstSpec |
| Compressor.KeepFirstSpec | src/rdf/triple_compressor/compressor.rs:178-180 | deduplication loses only repeats: each kept triple is an input triple; kept triples have distinct hashes, none seen before; every input hash was seen before or belongs to a kept triple |
| Compressor.IndexOf | src/rdf/triple_compressor/compressor.rs:163 | the first position of a byte, or none when it does not occur |
| Compressor.LinesNoNewline | src/rdf/triple_compressor/compressor.rs:156 | the pieces of `split(b'\n')` hold no newline |
| Compressor.LinesTerminated | src/rdf/triple_compressor/compressor.rs:156 | each piece put back with its newline gives the input, plus one newline when the input did not end with one |
| Compressor.SplitLine | src/rdf/triple_compressor/compressor.rs:159-174 | one raw line: skipped, accepted as a triple, or faulting; specified by Compressor.SplitLineSound, Compressor.SplitLineComplete and Compressor.SplitLineAccept |
| Compressor.StripTerminatorAccept | src/rdf/triple_compressor/compressor.rs:169-174 | the object stage accepts exactly an object text ending in ` .`, which is stripped, when neither subject nor object starts with `_` |
| Compressor.SplitPredicateAccept | src/rdf/triple_compressor/compressor.rs:163-174 | after the subject, the rest is split at its first space into a space-free predicate and the object text |
| Compressor.SplitLineSound | src/rdf/triple_compressor/compressor.rs:159-174 | an accepted line is its triple written out, with space-free subject and predicate, not a comment, not a blank-node triple |
| Compressor.SplitLineComplete | src/rdf/triple_compressor/compressor.rs:159-174 | every such written-out triple is accepted as itself |
| Compressor.SplitLineAccept | src/rdf/triple_compressor/compressor.rs:159-174 | a line is accepted as `t` exactly when it is `t` written out as an acceptable line |
| Compressor.AcceptRaw | src/rdf/triple_compressor/compressor.rs:156-175 | the raw reader over all lines; specified by Compressor.AcceptRawFault and Compressor.AcceptedBeforeOk |
| Compressor.AcceptRawFault | src/rdf/triple_compressor/compressor.rs:165-169 | a line with a missing space or ` .` makes the whole reader fail with that fault |
| Compressor.AcceptedBefore | src/rdf/triple_compressor/compressor.rs:154-182 | the triples the raw reader sends before it stops; specified by the lemmas below |
| Compressor.AcceptedBeforeOk | src/rdf/triple_compressor/compressor.rs:154-182 | without a faulting line, the reader sends exactly the accepted triples |
| Compressor.AcceptedBeforeStop | src/rdf/triple_compressor/compressor.rs:165-169 | lines after a faulting line send nothing |
| Compressor.AcceptedBeforeFault | src/rdf/triple_compressor/compressor.rs:163-170 | when line `i` is the first to fault, the reader fails with its fault after sending the triples of the lines before it |
| Compressor.AcceptParsed | src/rdf/triple_compressor/compressor.rs:121-131 | the parsed reader's filter; specified by Compressor.AcceptParsedSpec |
| Compressor.AcceptParsedSpec | src/rdf/triple_compressor/compressor.rs:123-131 | a triple is kept exactly when it was parsed with a named-node subject and a named-node or literal object |
| Compressor.WriteTriples | src/rdf/triple_compressor/compressor.rs:200-208 | the writer's file loads back as the triples received, in order |
| Compressor.InsertRecord | src/rdf/triple_compressor/compressor.rs:66-70 | one pass of the `from_decompressor` loop inserts record `i`'s slice under its id |
| Compressor.CompressRoundTrip | src/rdf/triple_compressor/decompressor.rs:47-57 | compress a triple, save, load and decompress its ids: without a hash collision this gives the triple back |
| Compressor.RdfTripleCompressor.constructor | src/rdf/triple_compressor/compressor.rs:35-37 | `new`: an empty dictionary and an empty deduplicator |
| Compressor.RdfTripleCompressor.FromDecompressor | src/rdf/triple_compressor/compressor.rs:63-73 | the dictionary holds every header record's slice under its id, and the deduplicator is empty |
| Compressor.RdfTripleCompressor.FoundNewTriple | src/rdf/triple_compressor/compressor.rs:28-31 | true exactly when the triple's hash was not recorded before; the hash is recorded, so a second call gives false |
| Compressor.RdfTripleCompressor.CompressRawTriple | src/rdf/triple_compressor/compressor.rs:97-113 | returns the three terms' hashes and interns the three terms |
| Compressor.RdfTripleCompressor.CompressParsedTriple | src/rdf/triple_compressor/compressor.rs:75-95 | the same, on the parsed terms' N-Triples texts |
| Compressor.RdfTripleCompressor.Emit | src/rdf/triple_compressor/compressor.rs:178-180 | a triple is sent when deduplication is off, or when its hash is new |
| Compressor.RdfTripleCompressor.CompressRawStep | src/rdf/triple_compressor/compressor.rs:176-180 | an accepted line extends the interned triples, the sent triples and the recorded hashes |
| Compressor.RdfTripleCompressor.CompressKept | src/rdf/triple_compressor/compressor.rs:133-137 | a kept parsed triple extends the interned triples, the sent triples and the recorded hashes |
| Compressor.RdfTripleCompressor.CompressParsedStep | src/rdf/triple_compressor/compressor.rs:122-140 | one parser step: a kept triple is compressed and sent; anything else is passed over |
| Compressor.RdfTripleCompressor.CompressRawTripleFile | src/rdf/triple_compressor/compressor.rs:150-184 | reports a fault exactly when some line faults, and then the first one; in every case it interns and sends, deduplicated when asked, the triples of the lines before the first fault (all of them when none faults) |
| Compressor.RdfTripleCompressor.CompressParsedTripleFile | src/rdf/triple_compressor/compressor.rs:115-148 | interns the kept triples, skips syntax errors, and sends their ids, deduplicated when asked |
| Compressor.RdfTripleCompressor.CompressRdfTripleFile | src/rdf/triple_compressor/compressor.rs:186-225 | output name; an existing output refuses without change; otherwise the output file loads back as exactly the triples sent by the chosen reader; a raw reader fault fails the run with that fault, and the output file is left holding the triples sent before the bad line |
| Compressor.RdfTripleCompressor.SaveState | src/rdf/triple_compressor/compressor.rs:39-61 | the file written is the state file of the dictionary: header size, header records, data segment |
| TripleGenerator.Pick | src/rdf/triple_generator.rs:23 | one triple per index |
| TripleGenerator.PickAt | src/rdf/triple_generator.rs:23 | the `i`-th triple picked is the triple at the `i`-th index |
| TripleGenerator.SortedSampleInRange | src/rdf/triple_generator.rs:12-13 | the sorted sample still indexes the dataset, is strictly ascending, and keeps its size |
| TripleGenerator.Drawn | src/rdf/triple_generator.rs:16-26 | the distinct generator never hands out more indices than its pool holds |
| TripleGenerator.DrawnIsCappedSum | src/rdf/triple_generator.rs:16-26 | over any calls, the distinct generator hands out the total requested, capped by the pool size |
| TripleGenerator.NewDistinctTripleGenerator | src/rdf/triple_generator.rs:7-14 | making the generator fails exactly when the pool would be larger than the dataset; otherwise a fresh generator whose pool is the sorted sample, with nothing handed out yet |
| TripleGenerator.DistinctTripleGenerator.constructor | src/rdf/triple_generator.rs:7-14 | the pool is the sample, sorted, of size `n_total`, with nothing handed out yet |
| TripleGenerator.DistinctTripleGenerator.Next | src/rdf/triple_generator.rs:16-27 | a call returns the triples at the next pool indices: as many as asked, or what is left; every index handed out is above every index handed out before |
| TripleGenerator.RandomTriples | src/rdf/triple_generator.rs:33-40 | a call fails exactly when it asks for more triples than the dataset holds; otherwise it returns the triples at its own fresh sample of indices, in ascending index order |
| TripleGenerator.FixedSizeStart | src/rdf/triple_generator.rs:51 | the starting changeset is one of the changesets, and there is none exactly when there are no changesets |
| TripleGenerator.VisitOrder | src/rdf/triple_generator.rs:54-56 | the changesets from `start_off` on, then those before it in reverse; specified by TripleGenerator.VisitOrderPermutation |
| TripleGenerator.VisitOrderPermutation | src/rdf/triple_generator.rs:54-56 | visiting from `start_off` to the end and then back down to the first visits every changeset exactly once |
| TripleGenerator.KeepContained | src/rdf/triple_generator.rs:58 | the `contains` filter; specified by TripleGenerator.KeepContainedSpec |
| TripleGenerator.KeepContainedSpec | src/rdf/triple_generator.rs:58 | on a sorted dataset, the filter keeps exactly the triples the dataset holds |
| TripleGenerator.VisitedTriples | src/rdf/triple_generator.rs:54-57 | the visited changesets together hold exactly the triples of all changesets |
| TripleGenerator.FixedSizeBatch | src/rdf/triple_generator.rs:53-62 | one call of the fixed-size generator; specified by TripleGenerator.FixedSizeBatchSpec |
| TripleGenerator.FixedSizeBatchSpec | src/rdf/triple_generator.rs:53-62 | a batch has at most `size_hint` triples, each in the dataset and in some changeset; a short batch holds every changeset triple the dataset holds |
| TripleGenerator.Closest | src/rdf/triple_generator.rs:71-75 | the index chosen is one of the changesets searched |
| TripleGenerator.ClosestSpec | src/rdf/triple_generator.rs:71-76 | nothing is chosen exactly when every changeset is used; otherwise the choice is unused and closest in size to the hint, and it is the first such one |
| TripleGenerator.AsIsChangesetGenerator.constructor | src/rdf/triple_generator.rs:68 | no changeset is used yet |
| TripleGenerator.AsIsChangesetGenerator.Next | src/rdf/triple_generator.rs:70-83 | a call hands out the closest unused changeset and marks it used; no changeset is handed out twice; with all used it fails |
| Sparql.Repeat | src/sparql.rs:61 | `n` copies of the value |
| Sparql.Expand | src/sparql.rs:57-63 | the plan of the specs; specified by Sparql.ExpandLength and Sparql.ExpandBlock |
| Sparql.ExpandLength | src/sparql.rs:57-63 | the plan has one entry per query asked for |
| Sparql.ExpandBlock | src/sparql.rs:57-63 | spec `k` contributes `n_queries` copies of its size and type, right after the queries of the specs before it |
| Sparql.OfType | src/sparql.rs:81-83 | a side of the partition is no longer than the plan |
| Sparql.Reordered | src/sparql.rs:65-87 | ordering fails exactly for the alternating order on an odd number of queries |
| Sparql.ReorderedFromPlan | src/sparql.rs:65-87 | every order but the alternating one is a permutation of the plan; the alternating one keeps a part of it |
| Sparql.Reorder | src/sparql.rs:57-90 | the in-place reordering of the plan buffer gives the ordering that `Reordered` specifies |
| Sparql.SortedAscSpec | src/sparql.rs:68 | `SortedSizeAsc` is a permutation, ascending in size, with equal sizes in planned order |
| Sparql.SortedDescSpec | src/sparql.rs:69 | `SortedSizeDesc` is a permutation, descending in size, with equal sizes in planned order |
| Sparql.OfTypeFrom | src/sparql.rs:81-83 | a side of the partition holds only queries of its type, each taken from the plan |
| Sparql.PartitionSplits | src/sparql.rs:81-83 | the two sides of the partition together are the whole plan |
| Sparql.PartitionLength | src/sparql.rs:81-83 | every planned query lands on one side or the other |
| Sparql.SortedOfTypeLength | src/sparql.rs:79-83 | sorting keeps the number of queries of each type |
| Sparql.OfTypeSorted | src/sparql.rs:79-83 | a side of a sorted plan is sorted |
| Sparql.Interleave | src/sparql.rs:81-85 | the `zip` of the two sides; specified by Sparql.InterleaveSpec and Sparql.InterleaveMultiset |
| Sparql.InterleaveSpec | src/sparql.rs:85 | the zip is twice as long as the shorter side, with even places from the inserts and odd places from the deletes |
| Sparql.InterleaveMultiset | src/sparql.rs:85 | the zip keeps nothing that is on neither side |
| Sparql.AlternateShape | src/sparql.rs:79-85 | the alternating order is insert, delete, insert, ...; each side is ascending in size; its length is twice the smaller side |
| Sparql.AlternateFromPlan | src/sparql.rs:79-85 | the alternating order holds only planned queries, none more often than planned |
| Sparql.AlternateComplete | src/sparql.rs:79-85 | the alternating order keeps every planned query exactly when there are as many inserts as deletes |
| Sparql.SizeCheck | src/sparql.rs:233-237 | a warning is given exactly when a size was asked for and the count differs, and it reports the count |
| Sparql.WriteBoth | src/sparql.rs:188-209 | each triple goes to the query as `s p o . ` and to the prepare file with its format's terminator; the count is the number of triples |
| Sparql.WriteOne | src/sparql.rs:219-228 | each triple is written with the terminator; the count is the number of triples |
| Sparql.WriteQuery | src/sparql.rs:174-240 | with a prepare writer: an `INSERT DATA` block, plus a `DELETE DATA` block or lines in the prepare file; without one: a `DELETE DATA` block; the size warning |
| Sparql.WriteItem | src/sparql.rs:242-251 | a delete query is written without the prepare writer, an insert query with it |
| Sparql.WriteNextQuery | src/sparql.rs:242-251 | one pass of the query loop extends both streams and the warnings by query `i` |
| Sparql.WriteUpdateDataQueries | src/sparql.rs:141-254 | the query file is its opening contents then one block per query; the prepare file mirrors the insert queries; one warning per short query |
| Sparql.WriteNTriples | src/sparql.rs:274-295 | one `s p o .\n` line per triple, and the size warning |
| Sparql.WriteNextLines | src/sparql.rs:297-299 | one pass of the N-Triples loop extends the lines and the warnings by query `i` |
| Sparql.WriteNTriplesFile | src/sparql.rs:256-302 | the file is its opening contents then every query's lines, whatever its type; one warning per short query |
| Sparql.NoPrepareIgnoresType | src/sparql.rs:216-231 | without a prepare writer the query type plays no part: the same triples give the same `DELETE DATA` and N-Triples output |
| Sparql.NTriplesStreamLines | src/sparql.rs:277-298 | the N-Triples output is one line per triple, in query order |
| Sparql.PrepareMirrorsInserts | src/sparql.rs:181-215 | the prepare file holds each insert query's triples, in order, as a `DELETE DATA` block (Query format) or as lines (NTriples format); delete queries leave nothing there |
| Sparql.WarningsSpec | src/sparql.rs:233-237 | there is no warning exactly when every query with a requested size got that many triples |
| Sparql.Resolved | src/sparql.rs:92-99 | the queries with their triples' texts looked up; specified by Sparql.ResolvedSome, Sparql.ResolvedItems and Sparql.ResolvedSpec |
| Sparql.ResolvedSome | src/sparql.rs:92-97 | the queries resolve exactly when each of their triples has known ids |
| Sparql.ResolvedItems | src/sparql.rs:92-99 | resolved query `i` keeps its type and requested size and holds its triples' texts |
| Sparql.ResolvedSpec | src/sparql.rs:92-99 | both of the above together |
| Sparql.ExcludeFilter | src/sparql.rs:124 | the filter never adds triples |
| Sparql.ExcludeFilterSpec | src/sparql.rs:124 | with no exclude dataset every triple is kept; with a sorted one, exactly the triples it does not contain |
| Sparql.LinearBatches | src/sparql.rs:119-133 | one query per dataset, keeping its type, with no requested size |
| Sparql.GenerateLinear | src/sparql.rs:105-139 | an unknown id fails; otherwise every dataset is one `DELETE DATA` block (Query) or its lines (NTriples) |
| Sparql.PlannedBatches | src/sparql.rs:92-99 | query `i` of the ordered plan asks the generator for its size and keeps its type and size |
| Sparql.GenerateQueries | src/sparql.rs:39-103 | a rejected order fails and writes nothing; an unknown id fails; otherwise the query file, the prepare file and the warnings are those of the ordered, resolved queries |
| Sparql.FullBatchesSpec | src/sparql.rs:92-99 | there is no size warning exactly when the generator handed every query as many triples as its size |
| Sparql.LinearLines | src/sparql.rs:135-138 | replicated as N-Triples, the output is one line per kept triple of each dataset, in order |
| Cli.ParseUsize | src/main.rs:49-51 | a parsed count fits a 64-bit `usize` |
| Cli.ParseDecimal | src/main.rs:49-51 | the decimal text of `n` parses back to `n` exactly when `n` fits a `usize`, with or without a leading `+` |
| Cli.FindFirst | src/main.rs:45-47 | the split point is the first `x`, and there is none only when no `x` occurs |
| Cli.TrimEnd | src/main.rs:56 | `trim_end_matches` removes exactly the trailing run of the character |
| Cli.FromStr | src/main.rs:33-71 | `QuerySpecOpt::from_str`; specified by Cli.FromStrErrors, Cli.FromStrCount, Cli.FromStrAbsolute and Cli.FromStrSpecText |
| Cli.FromStrErrors | src/main.rs:36-51 | the rejections for an empty or multi-byte first character, a type other than `i`/`d`, and a missing `x`; `i` gives an insert, `d` a delete |
| Cli.FromStrCount | src/main.rs:49-51 | given a type letter and an `x`, the spec is rejected as `QueryCountNotInteger` exactly when the count before the `x` is not a `usize` |
| Cli.FromStrAbsolute | src/main.rs:61-66 | a size without a trailing `%` is `Absolute`, or an error when it is not a `usize` |
| Cli.FromStrSpecText | src/main.rs:33-70 | an absolute spec written as text parses back to itself |
| Cli.GetAbsolute | src/main.rs:76 | an absolute size is taken as it is, whatever the dataset size |
| Cli.AbsoluteSpecs | src/main.rs:320-329 | each spec keeps its count and type; an absolute size is kept |
| Cli.TotalQueryTriples | src/main.rs:388-393 | the sum over the specs of queries times triples per query; specified by Cli.TotalIsPlanSizes |
| Cli.TotalIsPlanSizes | src/main.rs:388-393 | `total_query_triples` is the sum of the sizes of the planned queries |
| Cli.SizesOfPart | src/main.rs:388-393 | part of a plan asks for no more triples than the whole plan |
| Cli.PlanWithinTotal | src/main.rs:388-401 | whatever the output order, the plan asks for at most `total_query_triples` triples |
| Cli.FullCalls | src/main.rs:401 | calls whose sizes add up to at most the pool size each get what they ask for |
| Cli.DistinctPoolSuffices | src/main.rs:385-404 | with the pool sized by `total_query_triples`, every query of the ordered plan gets all the triples it asks for |
| Cli.SuffixesExclusive | src/main.rs:443-446 | no file name ends in both `added.compressed_nt` and `removed.compressed_nt` |
| Cli.ReplicaQueryType | src/main.rs:439-453 | the query type of a replicated file; specified by Cli.ReplicaQueryTypeSpec |
| Cli.ReplicaQueryTypeSpec | src/main.rs:442-453 | in Query output, a name ending `added.compressed_nt` gives an insert, one ending `removed.compressed_nt` a delete, and any other name is skipped; in NTriples output the type is always delete |

## Left out

- The hash function (`ahash`, `hash_single`) is a parameter of the compressor. Round trips assume no collision, because the program neither detects nor handles one.
- Random choices are parameters that satisfy what the random functions promise. This covers `shuffle`, `index::sample`, `gen_range` and `from_entropy`.
- TripleGenerator.DistinctTripleGenerator.constructor: requires a pool no larger than the dataset. The larger request, where `index::sample` panics, is the failure of `TripleGenerator.NewDistinctTripleGenerator`.
- TripleGenerator.FixedSizeBatch: requires a start inside the changesets. Having no changesets, where `gen_range` panics, is the failure of `TripleGenerator.FixedSizeStart`.
- TripleGenerator.RandomTriples: an oversized request fails here. `Sparql.GenerateQueries` takes the generator as a total function, so the program's panic part-way through the output, after the output files were truncated and partly written, is not modelled there.
- Sparql.Reordered: for `Randomized` the order is whatever `shuffle` produced (`shuffled`); the permutation lemma assumes it is one.
- Floating point is not modelled. For a percentage size, `Cli.FromStr` keeps the text before the `%`, and `Cli.GetAbsolute` takes the scaled value as a parameter.
- Cli.FromStr: a percentage that is not a valid `f64` is accepted, whereas the program rejects it.
- Cli.TotalQueryTriples: the sum is unbounded, whereas the program's `usize` sum would overflow.
- The N-Triples parser (`rio_turtle`) is not modelled. Its output is the input sequence of parse steps: a triple with term kinds and texts, or a syntax error.
- Printed syntax errors are not modelled. The size warnings are modelled as a list of `Warning` values.
- Decompressor.DecompressTripleFile: when a triple cannot be resolved the program panics after writing the lines before it; the model gives `None` with nothing written.
- Sparql.GenerateQueries and Sparql.GenerateLinear: an unknown id gives `UnknownTriple` with nothing written, whereas the program panics part-way through the output.
- Decompressor.DecompressTriple: it requires every header record to slice inside the data segment. On a corrupt state file the program would panic instead; `CompressorState.SavedRecords` proves saved files meet this.
- CompressorState.SaveLoad: it holds only while the header size and the offsets stay below 2^64. Beyond that the written words wrap, which the model writes out (`Word` keeps the low bytes).
- Memory-mapped loading is not modelled. This covers `MemoryMapped`, `load_shared` and the `unsafe` loads.
- File open flags, `BufWriter` and I/O errors are not modelled. An output file is its resulting bytes. `Opened` gives those bytes at opening: the old contents when appending, empty otherwise.
- `create_new` on an existing output is the `outputExists` parameter.
- The reader and writer threads and the channel of `compress_rdf_triple_file` are not modelled; the reader's output is the sequence it sends.
- A panic of the writer thread is not modelled.
- Native-endian words are little-endian, as on x86-64.
- The `Stats` counts, the `Contained` percentage, `println!` progress messages, `clap` option parsing and the `main` dispatch are not modelled.
- `src/util.rs` (directory walking) is not part of this model.
- The `println!` of the chosen changeset in `as_is_changeset_triple_generator` is not modelled.
