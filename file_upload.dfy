/** The chunked-upload registry of src-tauri/src/file_upload.rs: the map
    from upload id to session, the upload directory holding one
    preallocated "{id}.csv" file per upload, and the operations that start,
    fill, finish, cancel and import uploads. */
module FileUpload {
  import opened Wrappers
  import opened Text
  import opened Chunking
  import opened CsvImport
  import WordBank

  /** `UploadSession`, without its `file_path`, which is the upload id's
      file in the upload directory. */
  datatype UploadSession = UploadSession(
    size: nat,
    chunkSize: nat,
    totalChunks: nat,
    received: set<nat>,
    hashes: map<nat, string>,
    completed: bool)

  /** What `import_uploaded_files` reports per file. */
  datatype UploadImportResult = UploadImportResult(uploadId: string, summary: ImportSummary)

  /** `validate_file`: a ".csv" name (any case) of at most 100 MiB. */
  function ValidateFile(fileName: string, size: nat): (r: Outcome<string>)
    ensures r.Pass? <==> HasCsvExtension(fileName) && size <= MaxFileSize
    ensures !HasCsvExtension(fileName) ==> r == Fail("only CSV files are supported")
  {
    if !HasCsvExtension(fileName) then Fail("only CSV files are supported")
    else if size > MaxFileSize then Fail("file is larger than 100MB")
    else Pass
  }

  /** What every stored session satisfies: a non-zero chunk size, the
      agreed chunk count, received indices all below it and exactly the
      indices with a hash, and a completed session having all of them. */
  predicate SessionValid(s: UploadSession)
  {
    && s.chunkSize > 0
    && s.size <= MaxFileSize
    && s.totalChunks == ExpectedChunks(s.size, s.chunkSize)
    && s.received == s.hashes.Keys
    && (forall i :: i in s.received ==> i < s.totalChunks)
    && (s.completed ==> |s.received| == s.totalChunks)
  }

  /** The indices 0 .. n-1. */
  function Range(n: nat): (r: set<nat>)
    ensures forall i: nat :: i in r <==> i < n
    ensures |r| == n
  {
    if n == 0 then {} else Range(n - 1) + {n - 1}
  }

  lemma {:induction false} SubsetCard(a: set<nat>, b: set<nat>)
    requires a <= b
    ensures |a| <= |b|
    decreases |b|
  {
    if a != {} {
      var x :| x in a;
      SubsetCard(a - {x}, b - {x});
    }
  }

  /** n indices, all below n, are all of 0 .. n-1: the count test of
      `finish_upload` means every chunk has arrived. */
  lemma FullRange(s: set<nat>, n: nat)
    requires forall i :: i in s ==> i < n
    requires |s| == n
    ensures s == Range(n)
  {
    if s != Range(n) {
      var i :| i in Range(n) && i !in s;
      SubsetCard(s, Range(n) - {i});
    }
  }

  /** The ids of ids[..n]. */
  function Taken(ids: seq<string>, n: nat): set<string>
    requires n <= |ids|
  {
    set k | 0 <= k < n :: ids[k]
  }

  lemma TakenStep(ids: seq<string>, n: nat)
    requires n < |ids|
    ensures Taken(ids, n + 1) == Taken(ids, n) + {ids[n]}
  {
  }

  lemma RemoveOneMore<V>(m: map<string, V>, t: set<string>, id: string)
    ensures (m - t) - {id} == m - (t + {id})
  {
  }

  /** The results of the first |inputs| ids. */
  predicate Reported(results: seq<UploadImportResult>, ids: seq<string>, inputs: seq<CsvInput>)
  {
    && |results| == |inputs| <= |ids|
    && forall k :: 0 <= k < |results| ==>
         results[k] == UploadImportResult(ids[k], Summarize(Entries(inputs[k].rows)))
  }

  lemma ReportedStep(results: seq<UploadImportResult>, ids: seq<string>, inputs: seq<CsvInput>, input: CsvInput)
    requires Reported(results, ids, inputs) && |inputs| < |ids|
    ensures Reported(results + [UploadImportResult(ids[|inputs|], Summarize(Entries(input.rows)))], ids, inputs + [input])
  {
  }

  /** The first |inputs| ids named completed sessions of `sessions` whose
      files parse as `inputs`, each id at most once (an earlier turn removes
      the upload, so a repeated id finds no session). */
  predicate ReadFrom(sessions: map<string, UploadSession>, files: map<string, seq<bv8>>,
                     parse: seq<bv8> -> Option<CsvInput>, ids: seq<string>, inputs: seq<CsvInput>)
  {
    && |inputs| <= |ids|
    && forall k :: 0 <= k < |inputs| ==>
         && ids[k] !in Taken(ids, k)
         && ids[k] in sessions && sessions[ids[k]].completed
         && ids[k] in files && parse(files[ids[k]]) == Some(inputs[k])
  }

  lemma ReadFromStep(sessions: map<string, UploadSession>, files: map<string, seq<bv8>>,
                     parse: seq<bv8> -> Option<CsvInput>, ids: seq<string>, inputs: seq<CsvInput>, input: CsvInput)
    requires ReadFrom(sessions, files, parse, ids, inputs) && |inputs| < |ids|
    requires ids[|inputs|] !in Taken(ids, |inputs|)
    requires ids[|inputs|] in sessions && sessions[ids[|inputs|]].completed
    requires ids[|inputs|] in files && parse(files[ids[|inputs|]]) == Some(input)
    ensures ReadFrom(sessions, files, parse, ids, inputs + [input])
  {
  }

  /** The chunk log with `bytes` recorded as chunk `index` of upload `id`. */
  function WithChunk(log: map<string, map<nat, seq<bv8>>>, id: string, index: nat, bytes: seq<bv8>)
    : map<string, map<nat, seq<bv8>>>
    requires id in log
  {
    var chunks: map<nat, seq<bv8>> := log[id][index := bytes];
    log[id := chunks]
  }

  /** A session with its file and its recorded chunks: the session is
      valid, its recorded chunks are exactly its received indices, and the
      file holds each of them at its place. */
  ghost predicate Stored(s: UploadSession, file: seq<bv8>, chunks: map<nat, seq<bv8>>)
  {
    && SessionValid(s)
    && chunks.Keys == s.received
    && Holds(file, s.size, s.chunkSize, chunks)
  }

  /** Recording a new chunk of the right length keeps a stored session
      stored. */
  lemma RecordKeepsStored(s: UploadSession, file: seq<bv8>, chunks: map<nat, seq<bv8>>,
                          index: nat, hash: string, bytes: seq<bv8>)
    requires Stored(s, file, chunks) && !s.completed
    requires index !in s.hashes && FitsChunk(s.size, s.chunkSize, index, bytes)
    ensures ChunkOffset(s.chunkSize, index) + |bytes| <= |file|
    ensures Stored(s.(received := s.received + {index}, hashes := s.hashes[index := hash]),
                   Splice(file, ChunkOffset(s.chunkSize, index), bytes), chunks[index := bytes])
  {
    SpliceKeepsHolds(file, s.size, s.chunkSize, chunks, index, bytes);
  }

  /** Why upload `id` cannot be imported into list `listId`: there is no
      such upload, it is not finished, its file does not read, or the word
      bank's import of it fails. */
  predicate Blocked(sessions: map<string, UploadSession>, files: map<string, seq<bv8>>,
                    parse: seq<bv8> -> Option<CsvInput>, lists: map<int, string>,
                    id: string, listId: int, fault: WordBank.Fault)
  {
    || id !in sessions || !sessions[id].completed
    || id !in files || parse(files[id]).None?
    || !WordBank.ImportSucceeds(lists, parse(files[id]).value, Some(listId), fault)
  }

  /** The loop state of `import_uploaded_files` after |inputs| ids: their
      results reported, their uploads read from the initial registry and
      removed from it, and their files merged into the word tables. */
  ghost predicate Imported(u: UploadState, store: WordBank.Store, ids: seq<string>,
                           parse: seq<bv8> -> Option<CsvInput>, listId: int, fault: nat -> WordBank.Fault,
                           s0: map<string, UploadSession>, f0: map<string, seq<bv8>>, t0: Tables,
                           results: seq<UploadImportResult>, inputs: seq<CsvInput>)
    reads u, store
  {
    && |inputs| <= |ids|
    && Reported(results, ids, inputs)
    && ReadFrom(s0, f0, parse, ids, inputs)
    && u.sessions == s0 - Taken(ids, |inputs|)
    && u.files == f0 - Taken(ids, |inputs|)
    && store.WordTables() == MergeFiles(t0, inputs, Some(listId))
    && AllSucceeded(store.lists, inputs, listId, fault)
  }

  /** The word-bank import of every file taken so far passed its checks:
      the list exists, the headers validate and the database did not fail. */
  predicate AllSucceeded(lists: map<int, string>, inputs: seq<CsvInput>, listId: int, fault: nat -> WordBank.Fault)
  {
    forall k :: 0 <= k < |inputs| ==> WordBank.ImportSucceeds(lists, inputs[k], Some(listId), fault(k))
  }

  /** One more successful import keeps every import successful. */
  lemma AllSucceededStep(lists: map<int, string>, inputs: seq<CsvInput>, input: CsvInput, listId: int,
                         fault: nat -> WordBank.Fault)
    requires AllSucceeded(lists, inputs, listId, fault)
    requires WordBank.ImportSucceeds(lists, input, Some(listId), fault(|inputs|))
    ensures AllSucceeded(lists, inputs + [input], listId, fault)
  {
  }

  class UploadState {
    /** `sessions`. */
    var sessions: map<string, UploadSession>
    /** The upload directory: the bytes of "{id}.csv" for every id with a
        file, including files left from earlier runs. */
    var files: map<string, seq<bv8>>
    /** The payload of every chunk a session has recorded. */
    ghost var written: map<string, map<nat, seq<bv8>>>

    /** Each session is valid, has its file of exactly `size` bytes, and
        that file holds every recorded chunk at its place. */
    ghost predicate Valid()
      reads this
    {
      forall id :: id in sessions ==>
        id in files && id in written && Stored(sessions[id], files[id], written[id])
    }

    /** No sessions; the upload directory as a previous run left it. */
    constructor(leftover: map<string, seq<bv8>>)
      ensures Valid()
      ensures sessions == map[] && files == leftover
    {
      sessions := map[];
      files := leftover;
      written := map[];
    }

    /** `start_upload`: succeeds exactly when the id is not blank, the file
        is a CSV of at most 100 MiB, the chunk size is not zero, the
        caller's chunk count is the ceiling of size / chunk size, and no
        file and no session exist for the id; the new session has no
        chunks and a zero-filled file of `size` bytes. */
    method StartUpload(uploadId: string, fileName: string, size: nat, chunkSize: nat, totalChunks: nat)
      returns (r: Outcome<string>)
      requires Valid()
      modifies this
      ensures Valid()
      ensures r.Pass? <==>
        && Trim(uploadId) != []
        && ValidateFile(fileName, size).Pass?
        && chunkSize != 0
        && totalChunks == ExpectedChunks(size, chunkSize)
        && uploadId !in old(files) && uploadId !in old(sessions)
      ensures r.Pass? ==>
        && sessions == old(sessions)[uploadId := UploadSession(size, chunkSize, totalChunks, {}, map[], false)]
        && files == old(files)[uploadId := Zeros(size)]
      ensures r.Fail? ==> sessions == old(sessions) && files == old(files)
    {
      if Trim(uploadId) == [] {
        return Fail("upload id must not be empty");
      }
      var valid := ValidateFile(fileName, size);
      if valid.Fail? {
        return valid;
      }
      if chunkSize == 0 {
        return Fail("chunk size must not be zero");
      }
      if ExpectedChunks(size, chunkSize) != totalChunks {
        return Fail("chunk count does not match");
      }
      if uploadId in files {
        return Fail("upload already exists");
      }
      if uploadId in sessions {
        return Fail("upload already exists");
      }
      files := files[uploadId := Zeros(size)];
      sessions := sessions[uploadId := UploadSession(size, chunkSize, totalChunks, {}, map[], false)];
      written := written[uploadId := map[]];
      r := Pass;
    }

    /** `upload_chunk`.  It fails without a change for an unknown or
        completed upload, a chunk count other than the session's, an index
        past the last chunk, a known index with another hash, a payload that
        does not decode, and a payload whose length is not the chunk's.  A
        known index with the same hash succeeds without a change.  A new
        chunk is written at index * chunk size and its index and hash are
        recorded. */
    method UploadChunk(uploadId: string, chunkIndex: nat, totalChunks: nat, chunkHash: string,
                       payload: Option<seq<bv8>>)
      returns (r: Outcome<string>)
      requires Valid()
      modifies this
      ensures Valid()
      ensures uploadId !in old(sessions) ==> r.Fail?
      ensures uploadId in old(sessions) ==>
        var s := old(sessions)[uploadId];
        && (s.completed || totalChunks != s.totalChunks || chunkIndex >= s.totalChunks ==> r.Fail?)
        && (!s.completed && totalChunks == s.totalChunks && chunkIndex < s.totalChunks ==>
          && (chunkIndex in s.hashes ==> (r.Pass? <==> s.hashes[chunkIndex] == chunkHash))
          && (chunkIndex !in s.hashes ==>
                (r.Pass? <==> payload.Some? && |payload.value| == ChunkLen(s.size, s.chunkSize, chunkIndex)))
          && (chunkIndex !in s.hashes && r.Pass? ==>
            && ChunkOffset(s.chunkSize, chunkIndex) + |payload.value| <= |old(files)[uploadId]|
            && files == old(files)[uploadId := Splice(old(files)[uploadId], ChunkOffset(s.chunkSize, chunkIndex), payload.value)]
            && sessions == old(sessions)[uploadId := s.(received := s.received + {chunkIndex},
                                                         hashes := s.hashes[chunkIndex := chunkHash])]
            && uploadId in old(written)
            && written == WithChunk(old(written), uploadId, chunkIndex, payload.value)))
      ensures r.Fail? || (uploadId in old(sessions) && chunkIndex in old(sessions)[uploadId].hashes) ==>
        sessions == old(sessions) && files == old(files) && written == old(written)
    {
      if uploadId !in sessions {
        return Fail("upload does not exist");
      }
      var s := sessions[uploadId];
      if s.completed {
        return Fail("upload is already completed");
      }
      if totalChunks != s.totalChunks {
        return Fail("chunk count does not match the session");
      }
      if chunkIndex >= s.totalChunks {
        return Fail("chunk index out of range");
      }
      if chunkIndex in s.hashes {
        if s.hashes[chunkIndex] == chunkHash {
          return Pass;
        }
        return Fail("chunk hash conflict");
      }
      if payload.None? {
        return Fail("chunk data does not decode");
      }
      var bytes := payload.value;
      if |bytes| != ChunkLen(s.size, s.chunkSize, chunkIndex) {
        return Fail("chunk size does not match");
      }
      Record(uploadId, chunkIndex, chunkHash, bytes);
      r := Pass;
    }

    /** The write and bookkeeping of a new chunk: the payload is spliced in
        at its offset and the index is recorded with its hash. */
    method Record(uploadId: string, chunkIndex: nat, chunkHash: string, bytes: seq<bv8>)
      requires Valid() && uploadId in sessions
      requires chunkIndex !in sessions[uploadId].hashes && !sessions[uploadId].completed
      requires FitsChunk(sessions[uploadId].size, sessions[uploadId].chunkSize, chunkIndex, bytes)
      modifies this
      ensures Valid()
      ensures var s := old(sessions)[uploadId];
        && ChunkOffset(s.chunkSize, chunkIndex) + |bytes| <= |old(files)[uploadId]|
        && files == old(files)[uploadId := Splice(old(files)[uploadId], ChunkOffset(s.chunkSize, chunkIndex), bytes)]
        && sessions == old(sessions)[uploadId := s.(received := s.received + {chunkIndex},
                                                     hashes := s.hashes[chunkIndex := chunkHash])]
        && uploadId in old(written)
        && written == WithChunk(old(written), uploadId, chunkIndex, bytes)
    {
      var s := sessions[uploadId];
      RecordKeepsStored(s, files[uploadId], written[uploadId], chunkIndex, chunkHash, bytes);
      files := files[uploadId := Splice(files[uploadId], ChunkOffset(s.chunkSize, chunkIndex), bytes)];
      var chunks: map<nat, seq<bv8>> := written[uploadId][chunkIndex := bytes];
      written := written[uploadId := chunks];
      sessions := sessions[uploadId := s.(received := s.received + {chunkIndex},
                                          hashes := s.hashes[chunkIndex := chunkHash])];
    }

    /** `finish_upload`: an unknown upload, or one with fewer received chunks
        than its count, fails; otherwise the session is marked completed and
        nothing else changes, so finishing twice is finishing once. */
    method FinishUpload(uploadId: string) returns (r: Outcome<string>)
      requires Valid()
      modifies this
      ensures Valid()
      ensures r.Pass? <==>
        uploadId in old(sessions) && |old(sessions)[uploadId].received| == old(sessions)[uploadId].totalChunks
      ensures r.Pass? ==> sessions == old(sessions)[uploadId := old(sessions)[uploadId].(completed := true)]
      ensures r.Fail? ==> sessions == old(sessions)
      ensures uploadId in old(sessions) && old(sessions)[uploadId].completed ==> r.Pass? && sessions == old(sessions)
      ensures files == old(files)
    {
      if uploadId !in sessions {
        return Fail("upload does not exist");
      }
      var s := sessions[uploadId];
      if |s.received| != s.totalChunks {
        return Fail("not every chunk has been uploaded");
      }
      sessions := sessions[uploadId := s.(completed := true)];
      r := Pass;
    }

    /** A completed upload has received every chunk index below its count,
        and its file is the concatenation of the chunks in index order. */
    lemma CompletedReassembles(uploadId: string)
      requires Valid()
      requires uploadId in sessions && sessions[uploadId].completed
      ensures sessions[uploadId].received == Range(sessions[uploadId].totalChunks)
      ensures Covers(written[uploadId], sessions[uploadId].totalChunks)
      ensures Concat(written[uploadId], sessions[uploadId].totalChunks) == files[uploadId]
    {
      var s := sessions[uploadId];
      FullRange(s.received, s.totalChunks);
      Reassembled(files[uploadId], s.size, s.chunkSize, written[uploadId]);
    }

    /** `cancel_upload`: always succeeds; the session, if there is one, is
        removed together with its file.  An unknown id changes nothing. */
    method CancelUpload(uploadId: string) returns (r: Outcome<string>)
      requires Valid()
      modifies this
      ensures Valid()
      ensures r.Pass?
      ensures sessions == old(sessions) - {uploadId}
      ensures files == if uploadId in old(sessions) then old(files) - {uploadId} else old(files)
    {
      if uploadId in sessions {
        sessions := sessions - {uploadId};
        files := files - {uploadId};
        written := written - {uploadId};
      }
      r := Pass;
    }

    /** `delete_upload` is `cancel_upload`. */
    method DeleteUpload(uploadId: string) returns (r: Outcome<string>)
      requires Valid()
      modifies this
      ensures Valid()
      ensures r.Pass?
      ensures sessions == old(sessions) - {uploadId}
      ensures files == if uploadId in old(sessions) then old(files) - {uploadId} else old(files)
    {
      r := CancelUpload(uploadId);
    }

    /** `import_uploaded_files`: the ids in order, each of which must name a
        completed upload; its file is read (`parse`, the UTF-8 decoding and
        CSV reading, None when the file cannot be read) and imported into
        list `listId` (`fault(k)`, the database faults of the k-th import);
        its result is appended and the upload removed.  The first failure
        ends the call: the uploads before it are imported and removed, it
        and the ones after it are untouched. */
    method ImportUploadedFiles(store: WordBank.Store, ids: seq<string>, listId: int,
                               parse: seq<bv8> -> Option<CsvInput>, fault: nat -> WordBank.Fault)
      returns (r: Result<seq<UploadImportResult>, string>, ghost processed: nat, ghost inputs: seq<CsvInput>)
      requires Valid() && store.Valid()
      modifies this, store
      ensures Valid() && store.Valid()
      ensures processed <= |ids| && |inputs| == processed
      ensures r.Ok? <==> processed == |ids|
      ensures r.Ok? ==> Reported(r.value, ids, inputs)
      ensures ReadFrom(old(sessions), old(files), parse, ids, inputs)
      ensures r.Err? ==> Blocked(sessions, files, parse, store.lists, ids[processed], listId, fault(processed))
      ensures sessions == old(sessions) - Taken(ids, processed)
      ensures files == old(files) - Taken(ids, processed)
      ensures store.WordTables() == MergeFiles(old(store.WordTables()), inputs, Some(listId))
      ensures AllSucceeded(store.lists, inputs, listId, fault)
      ensures store.Rest() == old(store.Rest())
    {
      ghost var s0, f0, t0 := sessions, files, store.WordTables();
      ghost var rest0 := store.Rest();
      var results: seq<UploadImportResult> := [];
      var i := 0;
      inputs := [];
      while i < |ids|
        invariant 0 <= i <= |ids| && |inputs| == i
        invariant Valid() && store.Valid()
        invariant Imported(this, store, ids, parse, listId, fault, s0, f0, t0, results, inputs)
        invariant store.Rest() == rest0
      {
        var next;
        ghost var more;
        next, more := ImportNext(store, ids, i, parse, listId, fault, s0, f0, t0, results, inputs);
        if next.Err? {
          return Err(next.error), i, inputs;
        }
        results, inputs := next.value, more;
        i := i + 1;
      }
      r := Ok(results);
      processed := i;
    }

    /** One round of `import_uploaded_files`: the next id is imported and
        its upload removed, or the round fails and changes nothing. */
    method ImportNext(store: WordBank.Store, ids: seq<string>, i: nat, parse: seq<bv8> -> Option<CsvInput>,
                      listId: int, fault: nat -> WordBank.Fault,
                      ghost s0: map<string, UploadSession>, ghost f0: map<string, seq<bv8>>, ghost t0: Tables,
                      results: seq<UploadImportResult>, ghost inputs: seq<CsvInput>)
      returns (r: Result<seq<UploadImportResult>, string>, ghost more: seq<CsvInput>)
      requires Valid() && store.Valid() && i == |inputs| < |ids|
      requires Imported(this, store, ids, parse, listId, fault, s0, f0, t0, results, inputs)
      modifies this, store
      ensures Valid() && store.Valid()
      ensures store.Rest() == old(store.Rest())
      ensures r.Err? ==>
        && Blocked(sessions, files, parse, store.lists, ids[i], listId, fault(i))
        && Imported(this, store, ids, parse, listId, fault, s0, f0, t0, results, inputs)
      ensures r.Ok? ==> |more| == |inputs| + 1 && Imported(this, store, ids, parse, listId, fault, s0, f0, t0, r.value, more)
    {
      var id := ids[i];
      ghost var input;
      var summary;
      summary, input := ImportOne(store, id, listId, parse, fault(i));
      if summary.Err? {
        return Err(summary.error), inputs;
      }
      TakenStep(ids, i);
      ReportedStep(results, ids, inputs, input);
      ReadFromStep(s0, f0, parse, ids, inputs, input);
      MergeFilesStep(t0, inputs, input, Some(listId));
      AllSucceededStep(store.lists, inputs, input, listId, fault);
      RemoveOneMore(s0, Taken(ids, i), id);
      RemoveOneMore(f0, Taken(ids, i), id);
      Forget(id);
      r := Ok(results + [UploadImportResult(id, summary.value)]);
      more := inputs + [input];
    }

    /** Removes a session and its file (the tail of `cancel_upload`). */
    method Forget(id: string)
      requires Valid() && id in sessions
      modifies this
      ensures Valid()
      ensures sessions == old(sessions) - {id} && files == old(files) - {id}
    {
      sessions := sessions - {id};
      files := files - {id};
      written := written - {id};
    }

    /** One id of `import_uploaded_files`: the session must exist and be
        completed, its file must read, and the import into `listId` must
        succeed.  The registry is left as it is. */
    method ImportOne(store: WordBank.Store, id: string, listId: int,
                     parse: seq<bv8> -> Option<CsvInput>, fault: WordBank.Fault)
      returns (r: Result<ImportSummary, string>, ghost input: CsvInput)
      requires Valid() && store.Valid()
      modifies store
      ensures store.Valid()
      ensures r.Ok? ==>
        && id in sessions && sessions[id].completed
        && id in files && parse(files[id]) == Some(input)
        && r.value == Summarize(Entries(input.rows))
        && store.WordTables() == MergeRows(old(store.WordTables()), Entries(input.rows), Some(listId))
        && WordBank.ImportSucceeds(store.lists, input, Some(listId), fault)
      ensures r.Err? ==> Blocked(sessions, files, parse, store.lists, id, listId, fault)
      ensures r.Err? ==> store.WordTables() == old(store.WordTables())
      ensures store.Rest() == old(store.Rest())
    {
      input := CsvInput(None, []);
      if id !in sessions {
        return Err("upload does not exist"), input;
      }
      if !sessions[id].completed {
        return Err("upload is not finished"), input;
      }
      var parsed := parse(files[id]);
      if parsed.None? {
        return Err("cannot read the uploaded CSV file"), input;
      }
      input := parsed.value;
      r := store.ImportFourRankCsvInternal(parsed.value, Some(listId), fault);
    }
  }
}
