# Chunked CSV upload and word bank, modelled in Dafny

This project models the two back-end components of a vocabulary-learning
desktop application (a Tauri app with a Rust back end):

- **The chunked-upload registry** (`src-tauri/src/file_upload.rs`). The
  front end uploads a CSV file in fixed-size chunks. An upload session
  records the file size, the chunk size, the agreed chunk count, the chunk
  indices received so far with their hashes, and whether the upload is
  finished. Each upload writes into a preallocated file `{id}.csv` in the
  upload directory. Finished uploads are imported into a word list and
  then removed.
- **The word bank** (`src-tauri/src/word_bank.rs`). SQLite tables hold
  words, word lists, the word-to-list map, the active list, per-word
  learning progress and a study log. On top of them sit:
  - the CSV header check and the all-or-nothing import, which upserts
    words by their trimmed spelling;
  - the word-list commands;
  - the clamped proficiency updates;
  - the bucketed learning-session allocator;
  - the study-calendar cache.

Files:

- `wrappers.dfy`: `Option`, `Result` and `Outcome` (success or an error).
- `text.dfy`: Rust's `trim` (Unicode White_Space), the removal of leading
  byte-order marks, and the case-insensitive ".csv" test.
- `chunking.dfy`: the chunk arithmetic (count, offsets, lengths), chunk
  writes as splices into the file's bytes, and the reassembly theorem. The
  theorem says that once every chunk is written, in any order, the file is
  the concatenation of the chunks in index order.
- `csv_import.dfy`: header validation, the per-row skip rule, the import
  summary, and the merge of rows into the `word` and `word_list_map`
  tables, as functions with their properties.
- `learning.dfy`: the proficiency updates and the session buckets.
- `word_bank.dfy`: the database as class `WordBank.Store`, with
  `modifies`/`old` contracts and an invariant `Valid()` that states the
  schema's keys and references. Also the study-calendar cache and the
  import loop.
- `file_upload.dfy`: the registry as class `FileUpload.UploadState`, with
  the upload directory as a map from upload id to file bytes. A ghost log
  of written chunks lets the invariant say that each file holds every
  recorded chunk at its place.

## Model

Some functions that carry source behaviour have no row of their own; their meaning is stated by the lemma rows that use them: `Chunking.ExpectedChunks` by `ExpectedChunksIsCeiling` and `ExpectedChunksUnique`; `Chunking.ChunkOffset` and `Chunking.ChunkLen` by `ChunkWithinFile` and `ChunksDisjoint`; `Chunking.ExpectedChunksU64` by `ExpectedChunksU64AgreesBelowLimit` and `ExpectedChunksU64Wraps`; `Chunking.Zeros` by `WriteAllHolds` and `StartUpload`; `CsvImport.RowEntry` and `CsvImport.Entries` by `RowEntryMeaning`; `CsvImport.MergeRow` and `CsvImport.MergeRows` by `MergeKeys`, `MergeLastWriteWins`, `MergeIds` and `MergeListMap`; `Learning.Incremented` and `Learning.Decremented` by `UpdatesStayInRange`, `UpdatesSaturate`, `UpdatesUndo` and `IncrementTimesScore`; `Learning.InBucket` by `BucketsCover`; `Text.LowerAscii` by `CsvExtensionCases`.

| member | source | states |
|---|---|---|
| Text.TrimStartShape | src-tauri/src/word_bank.rs:527 | leading trim keeps a suffix, drops only whitespace, and leaves a non-whitespace first character |
| Text.TrimEndShape | src-tauri/src/word_bank.rs:527 | trailing trim keeps a prefix, drops only whitespace, and leaves a non-whitespace last character |
| Text.TrimIsCore | src-tauri/src/word_bank.rs:527 | `trim()` returns a contiguous slice of its input, with whitespace only outside it and none at its ends |
| Text.TrimEmptyIffBlank | src-tauri/src/file_upload.rs:68-70 | `trim().is_empty()` holds exactly for all-whitespace strings |
| Text.TrimLeadingBoms | src-tauri/src/word_bank.rs:103 | `trim_start_matches('\u{feff}')` drops exactly the leading run of U+FEFF |
| Text.CsvExtensionCases | src-tauri/src/file_upload.rs:50-52 | a name passes the extension test iff its last four characters spell ".csv" in any case |
| Chunking.ExpectedChunksIsCeiling | src-tauri/src/file_upload.rs:74-77 | the expected count is the ceiling of size / chunk size, and 0 exactly for an empty file |
| Chunking.ExpectedChunksUnique | src-tauri/src/file_upload.rs:74-77 | a caller's `total_chunks` is accepted only if it equals that ceiling |
| Chunking.ChunkWithinFile | src-tauri/src/file_upload.rs:169-176 | every chunk length lies in [1, chunk size]; each chunk lies inside the file; the last one ends at `size` |
| Chunking.ChunksDisjoint | src-tauri/src/file_upload.rs:178-185 | distinct chunks occupy disjoint byte ranges |
| Chunking.Splice | src-tauri/src/file_upload.rs:178-185 | a chunk write puts the payload at the offset and changes no other byte |
| Chunking.SpliceCommutes | src-tauri/src/file_upload.rs:178-185 | writes to disjoint ranges commute |
| Chunking.ConcatSlices | src-tauri/src/file_upload.rs:181-185 | chunks that are consecutive slices of the file, concatenated in order, give the file's prefix up to the last bound |
| Chunking.ChunksAreSlices | src-tauri/src/file_upload.rs:166-185 | a file holding every chunk below the count is cut by the chunk offsets (`index * chunk_size`, then `size`) into exactly those chunks |
| Chunking.Reassembled | src-tauri/src/file_upload.rs:200-213 | a file holding every chunk index below the count is the concatenation of the chunks |
| Chunking.SpliceKeepsHolds | src-tauri/src/file_upload.rs:178-196 | writing a new, correctly sized chunk keeps every recorded chunk and adds this one |
| Chunking.SpliceElsewhere | src-tauri/src/file_upload.rs:178-185 | a chunk write leaves another chunk's bytes unchanged |
| Chunking.WriteAllHolds | src-tauri/src/file_upload.rs:123-196 | any sequence of valid writes, one per distinct index, into a zeroed file leaves the file holding each of them |
| Chunking.AnyOrderReassembles | src-tauri/src/file_upload.rs:123-213 | writing every chunk once, in any order, yields the concatenation of the chunks in index order |
| Chunking.ExpectedChunksU64AgreesBelowLimit | src-tauri/src/file_upload.rs:74 | the u64 computation equals the ceiling whenever size + chunk size fits in 64 bits |
| Chunking.ExpectedChunksU64Wraps | src-tauri/src/file_upload.rs:74 | for some accepted inputs the u64 computation wraps and yields a wrong count (see Findings) |
| CsvImport.HasHeaderIffNormalized | src-tauri/src/word_bank.rs:101-108 | a column is present iff it is among the normalised headers |
| CsvImport.FirstMissingFrom | src-tauri/src/word_bank.rs:106-110 | passes iff every remaining required column is present; otherwise names the first missing one |
| CsvImport.ValidateHeaders | src-tauri/src/word_bank.rs:100-113 | passes iff all 7 required columns are present after normalising; otherwise names the first missing column in list order |
| CsvImport.NormalizeStripsBomAndBlanks | src-tauri/src/word_bank.rs:103 | example beside HasHeaderIffNormalized: a column name behind a BOM and blanks normalises to the bare name |
| CsvImport.RowEntryMeaning | src-tauri/src/word_bank.rs:513-531 | a row is kept iff it deserialised and its word is not blank; it is keyed by the trimmed word |
| CsvImport.Summarize | src-tauri/src/word_bank.rs:513-564 | `total` counts every row and equals `upserted + skipped` |
| CsvImport.SummaryExtremes | src-tauri/src/word_bank.rs:513-564 | all rows kept means all upserted; all rows skipped means all skipped |
| CsvImport.OneBlankOfTen | src-tauri/src/word_bank.rs:513-564 | example of Summarize: ten rows with one skipped give total 10, upserted 9, skipped 1 |
| CsvImport.SkippedCount | src-tauri/src/word_bank.rs:513-531 | example of Summarize: exactly one skipped row gives `skipped == 1` |
| CsvImport.KeysHaveLast | src-tauri/src/word_bank.rs:533-563 | a key occurs in the file iff some last row carries it |
| CsvImport.KeysMembers | src-tauri/src/word_bank.rs:533-563 | the set of keys is exactly the keys of the kept rows |
| CsvImport.MergeKeys | src-tauri/src/word_bank.rs:533-563 | after the upsert, the word table's keys are the old keys plus the file's keys |
| CsvImport.MergeLastWriteWins | src-tauri/src/word_bank.rs:533-563 | each key in the file holds the fields of its last row; other words are untouched |
| CsvImport.MergeIds | src-tauri/src/word_bank.rs:533-563 | existing words keep their ids; new keys get ids at or above the old next id; no id is allocated when every key already exists |
| CsvImport.MergeListMap | src-tauri/src/word_bank.rs:566-580 | the list map gains exactly one (list, id) pair per key in the file, and nothing without a list |
| CsvImport.MergeIdempotent | src-tauri/src/word_bank.rs:533-580 | importing the same rows again leaves the tables unchanged |
| CsvImport.MergeKeepsIds | src-tauri/src/word_bank.rs:533-563 | the upsert keeps ids positive, unique and below the next id |
| CsvImport.MergeKeepsReferences | src-tauri/src/word_bank.rs:533-580 | the upsert keeps the id invariant and keeps every old id; each new pair names the list and an existing word |
| CsvImport.MergeFilesIsMergeRows | src-tauri/src/file_upload.rs:239-274 | importing several files one after another equals importing their rows in file order |
| CsvImport.MergeRowsAppend | src-tauri/src/word_bank.rs:513-580 | merging a + b equals merging a, then b |
| Learning.UpdatesStayInRange | src-tauri/src/word_bank.rs:838-879 | both updates keep the score in [0, 10] |
| Learning.UpdatesSaturate | src-tauri/src/word_bank.rs:1001-1035 | the increment leaves the score unchanged iff it is 10; the decrement iff it is 0 |
| Learning.UpdatesUndo | src-tauri/src/word_bank.rs:838-879 | away from the bounds, a decrement undoes an increment and vice versa |
| Learning.IncrementTimesScore | src-tauri/src/word_bank.rs:838-858 | n increments add n to the learn count and min(n, 10 - score) to the score |
| Learning.BucketLimit | src-tauri/src/word_bank.rs:704-750 | each bucket asks for at most 20 words |
| Learning.BucketsCover | src-tauri/src/word_bank.rs:704-750 | every in-range word is in some bucket; Unlearned and Low are disjoint from the others; only score 8 is in both Mid and High |
| WordBank.DistinctCard | src-tauri/src/word_bank.rs:697-772 | a selection without repeats has as many distinct words as entries |
| WordBank.DistinctAppend | src-tauri/src/word_bank.rs:712-768 | appending words that are not yet selected keeps the selection repeat-free |
| WordBank.LeftOver | src-tauri/src/word_bank.rs:756-768 | after a repeat-free selection, the list has exactly `|list| - |selection|` words left |
| WordBank.StudyCalendarCache.constructor | src-tauri/src/word_bank.rs:78-80 | a new cache is empty |
| WordBank.StudyCalendarCache.Get | src-tauri/src/word_bank.rs:83-86 | `get` returns the cached calendar |
| WordBank.StudyCalendarCache.Set | src-tauri/src/word_bank.rs:87-92 | after `set(c)` the cache holds `c` |
| WordBank.StudyCalendarCache.Invalidate | src-tauri/src/word_bank.rs:93-97 | after `invalidate` the cache is empty |
| WordBank.ListDailyStudyCounts | src-tauri/src/word_bank.rs:935-946 | returns the cached calendar if there is one; otherwise the database's, which is then cached unless the read failed |
| WordBank.ApplyRows | src-tauri/src/word_bank.rs:509-581 | the loop fails iff a row write fails on a kept row; otherwise it yields the merge of all rows and their summary |
| WordBank.ImportKeepsReferences | src-tauri/src/word_bank.rs:533-580 | an import into an existing list keeps word ids, list pairs and learning rows referring to existing rows |
| WordBank.Store.constructor | src-tauri/src/word_bank.rs:144-258 | the freshly created schema is empty and satisfies the invariant |
| WordBank.Store.CreateWordList | src-tauri/src/word_bank.rs:376-400 | fails iff the trimmed name is blank or already in use; otherwise stores the trimmed name under the next id and returns that id |
| WordBank.Store.SetActiveWordList | src-tauri/src/word_bank.rs:402-427 | succeeds iff the id is positive and names a list; only then does that list become active |
| WordBank.Store.ClearActiveWordList | src-tauri/src/word_bank.rs:429-440 | no list is active afterwards; nothing else changes |
| WordBank.Store.DeleteWordList | src-tauri/src/word_bank.rs:442-482 | succeeds iff the list exists; removes it and all its map pairs; clears the active list only if it was this one |
| WordBank.Store.Prepare | src-tauri/src/word_bank.rs:492-512 | passes iff the named list exists, the header row reads and validates, and the transaction begins |
| WordBank.Store.ImportFourRankCsvInternal | src-tauri/src/word_bank.rs:484-590 | succeeds iff the named list exists, the headers validate and the database does not fail; then the tables are the merge of the rows and the summary counts them; any failure leaves the store unchanged |
| WordBank.Store.Commit | src-tauri/src/word_bank.rs:583 | the transaction's tables become the store's, keeping the invariant |
| WordBank.Store.EnsureLearningRow | src-tauri/src/word_bank.rs:781-808 | succeeds iff the word exists; adds a fresh row (score 0, count 0) only when the word has none |
| WordBank.Store.IncrementProficiency | src-tauri/src/word_bank.rs:838-894 | fails for unknown words; otherwise applies the capped increment, logs one study event, invalidates the cache and returns the new progress |
| WordBank.Store.DecrementProficiency | src-tauri/src/word_bank.rs:860-909 | as the increment, but with the floored decrement and the learn count unchanged |
| WordBank.Store.FetchWords | src-tauri/src/word_bank.rs:645-695 | returns min(limit, candidates) distinct words of the list that meet the bucket condition and are not excluded; none for limit <= 0 |
| WordBank.Store.AppendPicked | src-tauri/src/word_bank.rs:712-768 | adding a fetch that excluded the words already chosen keeps the selection repeat-free and inside the list |
| WordBank.Store.SessionShape | src-tauri/src/word_bank.rs:697-772 | the five fetches together select distinct words of the list, min(50, list size) of them |
| WordBank.Store.FullBucketsLeaveNoFill | src-tauri/src/word_bank.rs:756-760 | when the four bucket fetches each return their full limit (20/20/6/4), the session already has 50 words and the fill returns nothing |
| WordBank.Store.AnyCandidates | src-tauri/src/word_bank.rs:756-768 | the fill fetch may take any word of the list that is not yet selected |
| WordBank.Store.AllocateLearningSessionForList | src-tauri/src/word_bank.rs:697-772 | the session is the five bucket fetches in order, each excluding earlier picks; it is an error iff the list has no words |
| WordBank.Store.AllocateLearningSession | src-tauri/src/word_bank.rs:774-779 | fails without a positive active list; otherwise fails iff that list is empty, and returns min(50, list size) distinct words of the list |
| FileUpload.ValidateFile | src-tauri/src/file_upload.rs:49-57 | passes iff the name ends in ".csv" (any case) and the size is at most 100 MiB; the extension is checked first |
| FileUpload.Range | src-tauri/src/file_upload.rs:200-213 | the set of indices 0 .. n-1, which has n elements |
| FileUpload.FullRange | src-tauri/src/file_upload.rs:206-211 | n received indices, all below n, are exactly 0 .. n-1 |
| FileUpload.UploadState.constructor | src-tauri/src/file_upload.rs:17-20 | the registry starts with no sessions and the upload directory as it was left |
| FileUpload.UploadState.StartUpload | src-tauri/src/file_upload.rs:59-121 | succeeds iff the id is not blank, the file passes validation, the chunk size is non-zero, the count is the ceiling, and no file or session exists for the id; then stores an empty, unfinished session with a zeroed file of `size` bytes; a failure changes nothing |
| FileUpload.UploadState.UploadChunk | src-tauri/src/file_upload.rs:123-198 | fails without change for an unknown or completed upload, a count mismatch, an index out of range, a hash conflict, an undecodable payload or a wrong length; a repeat with the same hash succeeds without change; a new chunk is spliced at index × chunk size and recorded in both the index set and the hash map, and its payload is logged as that chunk for the reassembly theorem |
| FileUpload.UploadState.FinishUpload | src-tauri/src/file_upload.rs:200-213 | succeeds iff the upload exists and has as many received chunks as its count; only sets `completed`, so finishing again changes nothing |
| FileUpload.UploadState.CompletedReassembles | src-tauri/src/file_upload.rs:200-213 | a completed upload has received every index below its count, and its file is the concatenation of its chunks in index order |
| FileUpload.UploadState.CancelUpload | src-tauri/src/file_upload.rs:215-227 | always succeeds; removes the session, and its file if there was a session; an unknown id changes nothing |
| FileUpload.UploadState.DeleteUpload | src-tauri/src/file_upload.rs:229-231 | identical to cancelling |
| FileUpload.UploadState.ImportUploadedFiles | src-tauri/src/file_upload.rs:233-274 | imports the ids in order, each from a completed session's file, and removes each after its import; the first unknown, unfinished, unreadable or failing id stops the call with that id and later ones untouched, and an id repeated in the call finds no session at its second turn, so the call cannot succeed; the store ends as the merge of the imported files, and every imported file passed the word-bank import's checks |
| FileUpload.UploadState.ImportOne | src-tauri/src/file_upload.rs:240-256 | one id: fails unless the session exists and is completed, its file reads, and the import into the list succeeds; a success implies the import's own conditions held (list exists, headers validate, no database fault) |

## Left out

- I/O and the database engine: files, SQL statements and connections are modelled as in-memory maps. Database failures appear only as the `Fault` parameter of the import: failure to begin, a row write failing, or failure to commit. Other I/O errors (reading the progress row, writing the study log, opening the upload file, seeking) are not modelled, so those operations never fail for I/O reasons.
- The proficiency updates fail only for `word_id <= 0` and for unknown words.
- Concurrency: every operation is atomic. The model does not capture that the lock is released between the duplicate check and the insert in `start_upload`, or that `upload_chunk` writes bytes outside the lock, where a session can vanish before its chunk is recorded.
- Base64 decoding of chunks, UTF-8 decoding of files and CSV tokenising are foreign libraries. They appear as parameters: an `Option<seq<bv8>>` payload, a `CsvInput` with an optional header row and rows that may have failed to deserialise, and a `parse` function from file bytes to such an input.
- `open_pool`, `ensure_schema` and the column migrations are not modelled beyond the empty store.
- `QueryBuilder` assembly is not modelled.
- `ORDER BY RANDOM()` is modelled as an arbitrary choice among the candidates.
- `list_word_lists` (the list cards and their ordering) is not part of this model.
- `row_to_learning_word`: the session returns word ids rather than full word records.
- Dates: `datetime('now')`, `last_learned_at`, and the `date(...)` grouping of the study calendar are not modelled. The calendar is a value read from the database (a parameter), and the study log records only word ids.
- The path derivation `{id}.csv` and `get_upload_dir` are replaced by keying the upload directory by upload id.
- `remove_file` is best-effort in the source; the model removes the file unconditionally.
- Integers are unbounded. The u64 sizes, indices and counts do not wrap, except in the separate as-written chunk-count function described under Findings. The `i64` ids and counts of the database do not overflow.
- `Text.LowerAscii`: does not model the full Unicode `to_lowercase`, only ASCII letters. Only ASCII letters lowercase to `c`, `s` or `v`, and only `.` gives `.`, so the ASCII-only test accepts exactly the names the source accepts.
- `WordBank.StudyCalendarCache`: the `Mutex` around the cached value is not modelled.
- `FileUpload.UploadState.StartUpload`: checks `total_chunks` against the corrected chunk count of Findings (the ceiling), not the wrapping u64 formula.
- `FileUpload.UploadState.ImportUploadedFiles`: each import is the word bank's import with the list named, as `import_four_rank_csv_file_with_list` does.
- `CsvImport.MergeIds`: new words get consecutive ids from `nextWordId`, and an upsert of an existing word consumes no id. SQLite's AUTOINCREMENT only promises ids above every id used before and may leave gaps (for example after an insert that turned into an update), so the exact id values and the "no id allocated" conjunct are a simplification of the database.
- `CsvImport.MergeIdempotent`: its `nextWordId` component rests on the same simplification of AUTOINCREMENT as `CsvImport.MergeIds`; the word rows and list pairs part does not.

## Findings

| source | as written | input that shows it | evidently intended | confidence | as-written member | corrected member |
|---|---|---|---|---|---|---|
| src-tauri/src/file_upload.rs:74 | `(size + chunk_size - 1) / chunk_size` is computed in u64 and wraps when `size + chunk_size - 1 >= 2^64` (release builds do not check for overflow) | size 4096, chunk_size 2^64 - 2048: the sum wraps to 2047 and the expected count is 0, so a 4096-byte upload with `total_chunks = 0` is accepted and can be finished without a single chunk, leaving an all-zero file; importing it then fails the header check | the chunk count is the ceiling of size / chunk_size (1 here) | medium, not executed | Chunking.ExpectedChunksU64Wraps | Chunking.ExpectedChunksIsCeiling |
