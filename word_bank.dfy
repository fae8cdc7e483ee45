/** The word bank of src-tauri/src/word_bank.rs as a class whose fields are
    the SQLite tables it keeps: `word`, `word_list`, `word_list_map`,
    `word_list_state`, `user_word_learning` and `study_log`.  Every
    operation is one atomic step on those fields. */
module WordBank {
  import opened Wrappers
  import opened Text
  import opened CsvImport
  import opened Learning

  /** Where the database can fail during an import: the transaction does not
      begin, the writes for one row fail (the upsert, the id lookup or the
      list-map insert), or the commit fails. */
  datatype Fault = NoFault | BeginFails | WriteFailsAtRow(row: nat) | CommitFails

  /** Whether `fault` aborts an import of `es`: a row-write fault only when
      that row exists and is not skipped, since skipped rows write nothing. */
  predicate FaultHits(fault: Fault, es: seq<Option<Entry>>)
  {
    match fault
    case NoFault => false
    case BeginFails => true
    case WriteFailsAtRow(k) => k < |es| && es[k].Some?
    case CommitFails => true
  }

  /** The conditions under which an import commits: the list (if one is
      named) exists, the header row reads and validates, and the database
      does not fail on these rows. */
  predicate ImportSucceeds(lists: map<int, string>, input: CsvInput, listId: Option<int>, fault: Fault)
  {
    && (listId.Some? ==> listId.value in lists)
    && input.headers.Some? && ValidateHeaders(input.headers.value).Pass?
    && !FaultHits(fault, Entries(input.rows))
  }

  /** What the proficiency commands return. */
  datatype LearningProgress = LearningProgress(wordId: int, proficiencyScore: int, learnCount: int)

  /** One day of the study calendar. */
  datatype DailyStudyCount = DailyStudyCount(date: string, wordCount: int)

  predicate Distinct(s: seq<int>)
  {
    forall i, j :: 0 <= i < j < |s| ==> s[i] != s[j]
  }

  function Elems(s: seq<int>): set<int>
  {
    set x | x in s
  }

  /** A sequence without repeats has as many elements as entries. */
  lemma {:induction false} DistinctCard(s: seq<int>)
    requires Distinct(s)
    ensures |Elems(s)| == |s|
  {
    if s != [] {
      var init := s[..|s| - 1];
      DistinctCard(init);
      assert Elems(s) == Elems(init) + {s[|s| - 1]};
    }
  }

  /** Appending words the selection does not hold yet keeps it repeat-free. */
  lemma DistinctAppend(a: seq<int>, b: seq<int>)
    requires Distinct(a) && Distinct(b)
    requires forall x :: x in b ==> x !in a
    ensures Distinct(a + b)
  {
    forall i, j | 0 <= i < j < |a + b| ensures (a + b)[i] != (a + b)[j] {
      if j >= |a| && i < |a| {
        assert (a + b)[j] in b && (a + b)[i] in a;
      }
    }
  }

  /** A repeat-free selection drawn from `pool` leaves `|pool| - |s|` words. */
  lemma LeftOver(pool: set<int>, s: seq<int>)
    requires Distinct(s) && Elems(s) <= pool
    ensures |pool - Elems(s)| == |pool| - |s| && |s| <= |pool|
  {
    DistinctCard(s);
    assert pool == (pool - Elems(s)) + Elems(s);
  }

  /** `StudyCalendarCache`: the last study calendar read, until invalidated. */
  class StudyCalendarCache {
    var counts: Option<seq<DailyStudyCount>>

    constructor()
      ensures counts == None
    {
      counts := None;
    }

    method Get() returns (c: Option<seq<DailyStudyCount>>)
      ensures c == counts
    {
      c := counts;
    }

    method Set(c: seq<DailyStudyCount>)
      modifies this
      ensures counts == Some(c)
    {
      counts := Some(c);
    }

    method Invalidate()
      modifies this
      ensures counts == None
    {
      counts := None;
    }
  }

  /** `list_daily_study_counts`: the cached calendar when there is one;
      otherwise the database's (`fromDb`, whose date grouping is not
      modelled), which is then cached.  A failed read caches nothing. */
  method ListDailyStudyCounts(cache: StudyCalendarCache, fromDb: Result<seq<DailyStudyCount>, string>)
    returns (r: Result<seq<DailyStudyCount>, string>)
    modifies cache
    ensures old(cache.counts).Some? ==> r == Ok(old(cache.counts).value) && cache.counts == old(cache.counts)
    ensures old(cache.counts).None? ==> r == fromDb
    ensures old(cache.counts).None? && fromDb.Ok? ==> cache.counts == Some(fromDb.value)
    ensures old(cache.counts).None? && fromDb.Err? ==> cache.counts == None
  {
    var cached := cache.Get();
    if cached.Some? {
      return Ok(cached.value);
    }
    if fromDb.Err? {
      return Err(fromDb.error);
    }
    cache.Set(fromDb.value);
    r := Ok(fromDb.value);
  }

  /** The loop of `import_four_rank_csv_internal` inside its transaction:
      every row counts towards `total`, a skipped row towards `skipped`,
      every other row is upserted into `t` (and mapped to the list) and
      counts towards `upserted`.  A failing row write abandons the loop. */
  method ApplyRows(t0: Tables, rows: seq<Option<Record>>, listId: Option<int>, fault: Fault)
    returns (r: Result<(Tables, ImportSummary), string>)
    ensures r.Ok? <==> !(fault.WriteFailsAtRow? && FaultHits(fault, Entries(rows)))
    ensures r.Ok? ==> r.value == (MergeRows(t0, Entries(rows), listId), Summarize(Entries(rows)))
  {
    ghost var es := Entries(rows);
    var t := t0;
    var total, upserted, skipped := 0, 0, 0;
    var i := 0;
    while i < |rows|
      invariant 0 <= i <= |rows|
      invariant t == MergeRows(t0, es[..i], listId)
      invariant ImportSummary(total, upserted, skipped) == Summarize(es[..i])
      invariant fault.WriteFailsAtRow? && fault.row < i ==> es[fault.row].None?
    {
      var e := RowEntry(rows[i]);
      assert e == es[i];
      if e.Some? && fault == WriteFailsAtRow(i) {
        return Err("cannot write the word table");
      }
      assert fault.WriteFailsAtRow? && fault.row == i ==> es[i].None?;
      PrefixStep(t0, es, i, listId);
      total := total + 1;
      if e.None? {
        skipped := skipped + 1;
      } else {
        t := MergeRow(t, e, listId);
        upserted := upserted + 1;
      }
      i := i + 1;
    }
    assert es[..i] == es;
    r := Ok((t, ImportSummary(total, upserted, skipped)));
  }

  /** Taking one more entry merges and counts one more row. */
  lemma PrefixStep(t0: Tables, es: seq<Option<Entry>>, i: nat, listId: Option<int>)
    requires i < |es|
    ensures MergeRows(t0, es[..i + 1], listId) == MergeRow(MergeRows(t0, es[..i], listId), es[i], listId)
    ensures es[i].None? ==> MergeRows(t0, es[..i + 1], listId) == MergeRows(t0, es[..i], listId)
    ensures var s := Summarize(es[..i]);
      Summarize(es[..i + 1]) ==
        if es[i].None? then s.(total := s.total + 1, skipped := s.skipped + 1)
        else s.(total := s.total + 1, upserted := s.upserted + 1)
  {
    assert es[..i + 1][..i] == es[..i];
  }

  /** `word_list`: ids positive and below the next id, names unique. */
  predicate ListsValid(lists: map<int, string>, nextListId: int)
  {
    && 0 < nextListId
    && (forall l :: l in lists ==> 0 < l < nextListId)
    && (forall l1, l2 :: l1 in lists && l2 in lists && l1 != l2 ==> lists[l1] != lists[l2])
  }

  /** Every `word_list_map` pair names an existing list and word. */
  predicate PairsValid(listMap: set<(int, int)>, lists: map<int, string>, wordIds: set<int>)
  {
    forall p :: p in listMap ==> p.0 in lists && p.1 in wordIds
  }

  /** Every learning row names an existing word and has a score in [0, 10]. */
  predicate LearningValid(learning: map<int, Progress>, wordIds: set<int>)
  {
    forall w :: w in learning ==> w in wordIds && InRange(learning[w])
  }

  /** An import into an existing list (or none) keeps the references of the
      store sound. */
  lemma ImportKeepsReferences(t: Tables, es: seq<Option<Entry>>, listId: Option<int>,
                              lists: map<int, string>, learning: map<int, Progress>)
    requires IdsValid(t) && PairsValid(t.listMap, lists, WordIdSet(t.words))
    requires LearningValid(learning, WordIdSet(t.words))
    requires listId.Some? ==> listId.value in lists
    ensures var r := MergeRows(t, es, listId);
      && IdsValid(r) && PairsValid(r.listMap, lists, WordIdSet(r.words))
      && LearningValid(learning, WordIdSet(r.words))
  {
    MergeKeepsReferences(t, es, listId);
  }

  class Store {
    /** `word`, keyed by its UNIQUE `word` column, with the next AUTOINCREMENT id. */
    var words: map<string, WordRow>
    var nextWordId: int
    /** `word_list`: id to UNIQUE name, with the next AUTOINCREMENT id. */
    var lists: map<int, string>
    var nextListId: int
    /** `word_list_map` as its (word_list_id, word_id) primary keys. */
    var listMap: set<(int, int)>
    /** `word_list_state.active_word_list_id`. */
    var active: Option<int>
    /** `user_word_learning`, keyed by word id. */
    var learning: map<int, Progress>
    /** `study_log`: the word id of every study event, oldest first. */
    var studyLog: seq<int>

    /** The tables an import writes. */
    function WordTables(): Tables
      reads this
    {
      Tables(words, nextWordId, listMap)
    }

    /** The tables an import leaves alone. */
    function Rest(): (map<int, string>, int, Option<int>, map<int, Progress>, seq<int>)
      reads this
    {
      (lists, nextListId, active, learning, studyLog)
    }

    function WordIds(): set<int>
      reads this
    {
      WordIdSet(words)
    }

    /** The existing words a list maps to (the JOIN of `word` and
      `word_list_map` the session queries make). */
    function ListWords(listId: int): set<int>
      reads this
    {
      set p | p in listMap && p.0 == listId && p.1 in WordIds() :: p.1
    }

    /** The keys and constraints of the schema: word ids positive and
        unique below the next id, list ids likewise with unique names, list
        pairs and learning rows naming existing rows, the active list
        existing, and every score in [0, 10]. */
    predicate Valid()
      reads this
    {
      && IdsValid(WordTables())
      && ListsValid(lists, nextListId)
      && PairsValid(listMap, lists, WordIdSet(words))
      && (active.Some? ==> active.value in lists)
      && LearningValid(learning, WordIdSet(words))
    }

    /** A freshly created, empty database (`ensure_schema`). */
    constructor()
      ensures Valid()
      ensures words == map[] && lists == map[] && listMap == {} && active == None
      ensures learning == map[] && studyLog == []
    {
      words, nextWordId := map[], 1;
      lists, nextListId := map[], 1;
      listMap, active := {}, None;
      learning, studyLog := map[], [];
    }

    // ---- Word lists ----

    /** `create_word_list`: a blank trimmed name or a name already in use is
        rejected; otherwise the trimmed name gets the next list id. */
    method CreateWordList(name: string) returns (r: Result<int, string>)
      requires Valid()
      modifies this
      ensures Valid()
      ensures r.Ok? <==> Trim(name) != [] && Trim(name) !in old(lists).Values
      ensures r.Ok? ==>
        && r.value == old(nextListId) && r.value !in old(lists)
        && lists == old(lists)[r.value := Trim(name)] && nextListId == old(nextListId) + 1
      ensures r.Err? ==> lists == old(lists) && nextListId == old(nextListId)
      ensures words == old(words) && nextWordId == old(nextWordId) && listMap == old(listMap)
      ensures active == old(active) && learning == old(learning) && studyLog == old(studyLog)
    {
      var trimmed := Trim(name);
      if trimmed == [] {
        return Err("word list name must not be empty");
      }
      if trimmed in lists.Values {
        return Err("word list name already exists");
      }
      var id := nextListId;
      assert forall l :: l in lists ==> lists[l] != trimmed;
      lists := lists[id := trimmed];
      nextListId := nextListId + 1;
      r := Ok(id);
    }

    /** `set_active_word_list`: ids <= 0 and ids of no list are rejected. */
    method SetActiveWordList(listId: int) returns (r: Outcome<string>)
      requires Valid()
      modifies this
      ensures Valid()
      ensures r.Pass? <==> 0 < listId && listId in old(lists)
      ensures active == if r.Pass? then Some(listId) else old(active)
      ensures words == old(words) && nextWordId == old(nextWordId) && listMap == old(listMap)
      ensures lists == old(lists) && nextListId == old(nextListId)
      ensures learning == old(learning) && studyLog == old(studyLog)
    {
      if listId <= 0 || listId !in lists {
        return Fail("word list does not exist");
      }
      active := Some(listId);
      r := Pass;
    }

    /** `clear_active_word_list`. */
    method ClearActiveWordList()
      requires Valid()
      modifies this
      ensures Valid()
      ensures active == None
      ensures words == old(words) && nextWordId == old(nextWordId) && listMap == old(listMap)
      ensures lists == old(lists) && nextListId == old(nextListId)
      ensures learning == old(learning) && studyLog == old(studyLog)
    {
      active := None;
    }

    /** `delete_word_list`: removes the list and every pair mapping a word to
        it, and clears the active list only when it was this one. */
    method DeleteWordList(listId: int) returns (r: Outcome<string>)
      requires Valid()
      modifies this
      ensures Valid()
      ensures r.Pass? <==> 0 < listId && listId in old(lists)
      ensures r.Pass? ==>
        && lists == old(lists) - {listId}
        && listMap == set p | p in old(listMap) && p.0 != listId
        && active == (if old(active) == Some(listId) then None else old(active))
      ensures r.Fail? ==> lists == old(lists) && listMap == old(listMap) && active == old(active)
      ensures words == old(words) && nextWordId == old(nextWordId) && nextListId == old(nextListId)
      ensures learning == old(learning) && studyLog == old(studyLog)
    {
      if listId <= 0 || listId !in lists {
        return Fail("word list does not exist");
      }
      listMap := set p | p in listMap && p.0 != listId;
      lists := lists - {listId};
      if active == Some(listId) {
        active := None;
      }
      r := Pass;
    }

    // ---- Import ----

    /** `import_four_rank_csv_internal`.  It succeeds exactly when the list
        (if one is named) exists, the header row reads and validates, and the
        database does not fail; then the tables are the merge of the rows and
        the summary counts them.  Any failure leaves the store as it was: the
        rows are merged into a copy that is written back only at the commit. */
    method ImportFourRankCsvInternal(input: CsvInput, listId: Option<int>, fault: Fault)
      returns (r: Result<ImportSummary, string>)
      requires Valid()
      modifies this
      ensures Valid()
      ensures r.Ok? <==> ImportSucceeds(old(lists), input, listId, fault)
      ensures r.Ok? ==>
        && r.value == Summarize(Entries(input.rows))
        && WordTables() == MergeRows(old(WordTables()), Entries(input.rows), listId)
      ensures r.Err? ==> WordTables() == old(WordTables())
      ensures lists == old(lists) && nextListId == old(nextListId) && active == old(active)
      ensures learning == old(learning) && studyLog == old(studyLog)
    {
      var ready := Prepare(input, listId, fault);
      if ready.Fail? {
        return Err(ready.error);
      }
      var applied := ApplyRows(WordTables(), input.rows, listId, fault);
      if applied.Err? {
        return Err(applied.error);
      }
      if fault == CommitFails {
        return Err("cannot commit database transaction");
      }
      var (t, summary) := applied.value;
      ImportKeepsReferences(WordTables(), Entries(input.rows), listId, lists, learning);
      Commit(t);
      r := Ok(summary);
    }

    /** The checks made before the first row is read: the named list
        exists, the header row reads and names every required column, and
        the transaction begins. */
    method Prepare(input: CsvInput, listId: Option<int>, fault: Fault) returns (r: Outcome<string>)
      ensures r.Pass? <==>
        && (listId.Some? ==> listId.value in lists)
        && input.headers.Some? && ValidateHeaders(input.headers.value).Pass?
        && fault != BeginFails
    {
      if listId.Some? && listId.value !in lists {
        return Fail("word list does not exist");
      }
      if input.headers.None? {
        return Fail("cannot read CSV headers");
      }
      var check := ValidateHeaders(input.headers.value);
      if check.Fail? {
        return Fail("CSV is missing required column " + check.error);
      }
      if fault == BeginFails {
        return Fail("cannot begin database transaction");
      }
      return Pass;
    }

    /** The commit: the transaction's copy of the word tables becomes the
        store's. */
    method Commit(t: Tables)
      requires Valid()
      requires IdsValid(t) && PairsValid(t.listMap, lists, WordIdSet(t.words))
      requires LearningValid(learning, WordIdSet(t.words))
      modifies this
      ensures Valid()
      ensures WordTables() == t
      ensures lists == old(lists) && nextListId == old(nextListId) && active == old(active)
      ensures learning == old(learning) && studyLog == old(studyLog)
    {
      words, nextWordId, listMap := t.words, t.nextWordId, t.listMap;
    }

    // ---- Proficiency ----

    /** `ensure_learning_row`: a word seen the first time gets a fresh
        learning row; a word that exists in neither table is an error. */
    method EnsureLearningRow(wordId: int) returns (r: Outcome<string>)
      requires Valid()
      modifies this
      ensures Valid()
      ensures r.Pass? <==> wordId in WordIds()
      ensures r.Pass? ==> wordId in learning
      ensures learning == if r.Pass? && wordId !in old(learning) then old(learning)[wordId := Fresh] else old(learning)
      ensures words == old(words) && nextWordId == old(nextWordId) && listMap == old(listMap)
      ensures lists == old(lists) && nextListId == old(nextListId)
      ensures active == old(active) && studyLog == old(studyLog)
    {
      if wordId in learning {
        return Pass;
      }
      if wordId !in WordIds() {
        return Fail("word does not exist or was deleted");
      }
      learning := learning[wordId := Fresh];
      r := Pass;
    }

    /** `increment_proficiency`: ids <= 0 and unknown words are rejected;
        otherwise the score rises by one up to 10, the learn count by one,
        a study event is logged and the calendar cache is invalidated. */
    method IncrementProficiency(cache: StudyCalendarCache, wordId: int) returns (r: Result<LearningProgress, string>)
      requires Valid()
      modifies this, cache
      ensures Valid()
      ensures r.Ok? <==> wordId in old(WordIds())
      ensures r.Ok? ==>
        var q := Incremented(if wordId in old(learning) then old(learning)[wordId] else Fresh);
        && learning == old(learning)[wordId := q]
        && studyLog == old(studyLog) + [wordId]
        && r.value == LearningProgress(wordId, q.score, q.learnCount)
        && cache.counts == None
      ensures r.Err? ==> learning == old(learning) && studyLog == old(studyLog) && cache.counts == old(cache.counts)
      ensures words == old(words) && nextWordId == old(nextWordId) && listMap == old(listMap)
      ensures lists == old(lists) && nextListId == old(nextListId) && active == old(active)
    {
      if wordId <= 0 {
        return Err("invalid word id");
      }
      var ok := EnsureLearningRow(wordId);
      if ok.Fail? {
        return Err(ok.error);
      }
      var q := Incremented(learning[wordId]);
      UpdatesStayInRange(learning[wordId]);
      learning := learning[wordId := q];
      studyLog := studyLog + [wordId];
      cache.Invalidate();
      r := Ok(LearningProgress(wordId, q.score, q.learnCount));
    }

    /** `decrement_proficiency`: as the increment, but the score falls by one
        down to 0 and the learn count stays. */
    method DecrementProficiency(cache: StudyCalendarCache, wordId: int) returns (r: Result<LearningProgress, string>)
      requires Valid()
      modifies this, cache
      ensures Valid()
      ensures r.Ok? <==> wordId in old(WordIds())
      ensures r.Ok? ==>
        var q := Decremented(if wordId in old(learning) then old(learning)[wordId] else Fresh);
        && learning == old(learning)[wordId := q]
        && studyLog == old(studyLog) + [wordId]
        && r.value == LearningProgress(wordId, q.score, q.learnCount)
        && cache.counts == None
      ensures r.Err? ==> learning == old(learning) && studyLog == old(studyLog) && cache.counts == old(cache.counts)
      ensures words == old(words) && nextWordId == old(nextWordId) && listMap == old(listMap)
      ensures lists == old(lists) && nextListId == old(nextListId) && active == old(active)
    {
      if wordId <= 0 {
        return Err("invalid word id");
      }
      var ok := EnsureLearningRow(wordId);
      if ok.Fail? {
        return Err(ok.error);
      }
      var q := Decremented(learning[wordId]);
      UpdatesStayInRange(learning[wordId]);
      learning := learning[wordId := q];
      studyLog := studyLog + [wordId];
      cache.Invalidate();
      r := Ok(LearningProgress(wordId, q.score, q.learnCount));
    }

    // ---- Session allocation ----

    /** The learning row of a word, None before its first study. */
    function LearningOf(w: int): Option<Progress>
      reads this
    {
      if w in learning then Some(learning[w]) else None
    }

    /** The rows one fetch may return: words of the list in the bucket and
        not excluded. */
    function Candidates(listId: int, b: Bucket, exclude: seq<int>): set<int>
      reads this
    {
      set w | w in ListWords(listId) && InBucket(b, LearningOf(w)) && w !in exclude
    }

    /** `s` is a possible answer of one fetch: candidates only, each once,
        and as many as the limit allows (none for a limit <= 0). */
    predicate Picked(listId: int, b: Bucket, exclude: seq<int>, limit: int, s: seq<int>)
      reads this
    {
      && Distinct(s)
      && (forall w :: w in s ==> w in Candidates(listId, b, exclude))
      && |s| == if limit <= 0 then 0 else Min(limit, |Candidates(listId, b, exclude)|)
    }

    /** `fetch_words_with_condition`: `ORDER BY RANDOM() LIMIT limit`, i.e.
        any `limit` candidates (all of them when there are fewer), each once. */
    method FetchWords(listId: int, b: Bucket, exclude: seq<int>, limit: int) returns (picked: seq<int>)
      ensures Picked(listId, b, exclude, limit, picked)
    {
      picked := [];
      if limit <= 0 {
        return;
      }
      var pool := Candidates(listId, b, exclude);
      while |picked| < limit && pool != {}
        invariant Distinct(picked)
        invariant pool <= Candidates(listId, b, exclude)
        invariant forall w :: w in picked ==> w in Candidates(listId, b, exclude) && w !in pool
        invariant |picked| + |pool| == |Candidates(listId, b, exclude)|
        invariant |picked| <= limit
        decreases |pool|
      {
        var w :| w in pool;
        picked := picked + [w];
        pool := pool - {w};
      }
    }

    /** Appending a fetch that excluded the words chosen so far keeps the
        selection repeat-free and inside the list. */
    lemma AppendPicked(listId: int, b: Bucket, limit: int, a: seq<int>, s: seq<int>)
      requires Distinct(a) && Elems(a) <= ListWords(listId)
      requires Picked(listId, b, a, limit, s)
      ensures Distinct(a + s) && Elems(a + s) <= ListWords(listId)
    {
      DistinctAppend(a, s);
      forall w | w in s ensures w in ListWords(listId) {
        assert w in Candidates(listId, b, a);
      }
      assert Elems(a + s) == Elems(a) + Elems(s);
    }

    /** The session the five fetches make up: repeat-free, inside the list,
        and min(50, words in the list) long. */
    lemma SessionShape(listId: int, u: seq<int>, l: seq<int>, m: seq<int>, h: seq<int>, f: seq<int>)
      requires Picked(listId, Unlearned, [], BucketLimit(Unlearned), u)
      requires Picked(listId, Low, u, BucketLimit(Low), l)
      requires Picked(listId, Mid, u + l, BucketLimit(Mid), m)
      requires Picked(listId, High, u + l + m, BucketLimit(High), h)
      requires Picked(listId, Any, u + l + m + h, SessionSize - |u + l + m + h|, f)
      ensures Distinct(u + l + m + h + f)
      ensures Elems(u + l + m + h + f) <= ListWords(listId)
      ensures |u + l + m + h + f| == Min(SessionSize, |ListWords(listId)|)
    {
      assert Elems([]) == {};
      AppendPicked(listId, Unlearned, BucketLimit(Unlearned), [], u);
      assert [] + u == u;
      AppendPicked(listId, Low, BucketLimit(Low), u, l);
      AppendPicked(listId, Mid, BucketLimit(Mid), u + l, m);
      AppendPicked(listId, High, BucketLimit(High), u + l + m, h);
      var p := u + l + m + h;
      AppendPicked(listId, Any, SessionSize - |p|, p, f);
      LeftOver(ListWords(listId), p);
      AnyCandidates(listId, p);
      assert |p| == |u| + |l| + |m| + |h| <= SessionSize;
      assert |p + f| == |p| + |f|;
    }

    /** The four bucket limits add up to the session size, so when every
        bucket fetch comes back full the session is already complete and the
        fill (`if remaining > 0`) asks for nothing. */
    lemma FullBucketsLeaveNoFill(listId: int, u: seq<int>, l: seq<int>, m: seq<int>, h: seq<int>, f: seq<int>)
      requires |u| == BucketLimit(Unlearned) && |l| == BucketLimit(Low)
      requires |m| == BucketLimit(Mid) && |h| == BucketLimit(High)
      requires Picked(listId, Any, u + l + m + h, SessionSize - |u + l + m + h|, f)
      ensures |u + l + m + h| == SessionSize
      ensures f == []
    {
      assert |u + l + m + h| == |u| + |l| + |m| + |h|;
    }

    /** The fill may take any word of the list not chosen yet. */
    lemma AnyCandidates(listId: int, p: seq<int>)
      ensures Candidates(listId, Any, p) == ListWords(listId) - Elems(p)
    {
    }

    /** `allocate_learning_session_for_list`: the unlearned words (up to 20),
        then low (< 4, up to 20), mid (4..8, up to 6) and high (8..10, up to
        4) scores, then any other words of the list up to 50 in all; each
        fetch excludes what was already chosen.  An empty session is an
        error, which happens exactly when the list has no words. */
    method AllocateLearningSessionForList(listId: int)
      returns (r: Result<seq<int>, string>, ghost u: seq<int>, ghost l: seq<int>,
               ghost m: seq<int>, ghost h: seq<int>, ghost f: seq<int>)
      ensures Picked(listId, Unlearned, [], BucketLimit(Unlearned), u)
      ensures Picked(listId, Low, u, BucketLimit(Low), l)
      ensures Picked(listId, Mid, u + l, BucketLimit(Mid), m)
      ensures Picked(listId, High, u + l + m, BucketLimit(High), h)
      ensures Picked(listId, Any, u + l + m + h, SessionSize - |u + l + m + h|, f)
      ensures r.Ok? <==> ListWords(listId) != {}
      ensures r.Ok? ==> r.value == u + l + m + h + f
    {
      var unlearned := FetchWords(listId, Unlearned, [], BucketLimit(Unlearned));
      var selected := unlearned;
      var low := FetchWords(listId, Low, selected, BucketLimit(Low));
      selected := selected + low;
      var mid := FetchWords(listId, Mid, selected, BucketLimit(Mid));
      selected := selected + mid;
      var high := FetchWords(listId, High, selected, BucketLimit(High));
      selected := selected + high;
      // 50_i64.saturating_sub(len): the four buckets hold at most 50.
      var remaining := SessionSize - |selected|;
      var fill: seq<int> := [];
      if remaining > 0 {
        fill := FetchWords(listId, Any, selected, remaining);
        selected := selected + fill;
      }
      u, l, m, h, f := unlearned, low, mid, high, fill;
      SessionShape(listId, u, l, m, h, f);
      if selected == [] {
        r := Err("No words available in the active list.");
      } else {
        r := Ok(selected);
      }
    }

    /** `allocate_learning_session`: the session for the active list, which
        must be set to a positive id. */
    method AllocateLearningSession() returns (r: Result<seq<int>, string>)
      ensures active.None? || active.value <= 0 ==> r.Err?
      ensures active.Some? && active.value > 0 ==>
        && (r.Ok? <==> ListWords(active.value) != {})
        && (r.Ok? ==>
          && Distinct(r.value)
          && Elems(r.value) <= ListWords(active.value)
          && |r.value| == Min(SessionSize, |ListWords(active.value)|))
    {
      if active.None? || active.value <= 0 {
        return Err("No active word list selected.");
      }
      ghost var u, l, m, h, f;
      r, u, l, m, h, f := AllocateLearningSessionForList(active.value);
      SessionShape(active.value, u, l, m, h, f);
    }
  }
}
