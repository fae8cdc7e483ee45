/** The import rules of src-tauri/src/word_bank.rs as pure functions: the
    required CSV columns, which rows are skipped, the ImportSummary counts,
    and the merge of rows into the `word` and `word_list_map` tables.  The
    transactional method that applies them is WordBank.Store.ImportFourRankCsvInternal. */
module CsvImport {
  import opened Wrappers
  import opened Text

  /** `REQUIRED_HEADERS`, in the order they are checked. */
  const RequiredHeaders: seq<string> := [
    "word",
    "phonetic",
    "part_of_speech_and_meanings",
    "example_sentence",
    "example_translation",
    "audio_uk",
    "audio_us"
  ]

  /** The secondary columns of a `word` row (everything but the key). */
  datatype Fields = Fields(
    phonetic: Option<string>,
    partOfSpeechAndMeanings: Option<string>,
    exampleSentence: Option<string>,
    exampleTranslation: Option<string>,
    audioUk: Option<string>,
    audioUs: Option<string>)

  /** A deserialised `FourRankCsvRecord`. */
  datatype Record = Record(word: string, fields: Fields)

  /** What the CSV reader yields for one file: its header row (None when it
      cannot be read) and each data row (None when it does not deserialise). */
  datatype CsvInput = CsvInput(headers: Option<seq<string>>, rows: seq<Option<Record>>)

  datatype ImportSummary = ImportSummary(total: nat, upserted: nat, skipped: nat)

  /** A row of the `word` table: its AUTOINCREMENT id and its secondary columns. */
  datatype WordRow = WordRow(id: int, fields: Fields)

  /** The tables an import writes: `word` keyed by its UNIQUE `word` column,
      the next AUTOINCREMENT id, and `word_list_map` as a set of
      (word_list_id, word_id) pairs (its primary key). */
  datatype Tables = Tables(words: map<string, WordRow>, nextWordId: int, listMap: set<(int, int)>)

  // ---- validate_headers ----

  /** A header cell with every leading U+FEFF and surrounding whitespace removed. */
  function NormalizeHeader(h: string): string
  {
    Trim(TrimLeadingBoms(h))
  }

  /** The header row after normalising every cell (the `normalized` vector). */
  function NormalizeHeaders(headers: seq<string>): (n: seq<string>)
    ensures |n| == |headers| && forall k :: 0 <= k < |headers| ==> n[k] == NormalizeHeader(headers[k])
  {
    seq(|headers|, k requires 0 <= k < |headers| => NormalizeHeader(headers[k]))
  }

  /** Some header cell normalises to `name`. */
  predicate HasHeader(headers: seq<string>, name: string)
  {
    exists h :: h in headers && NormalizeHeader(h) == name
  }

  lemma HasHeaderIffNormalized(headers: seq<string>, name: string)
    ensures HasHeader(headers, name) <==> name in NormalizeHeaders(headers)
  {
    var n := NormalizeHeaders(headers);
    if name in n {
      var k :| 0 <= k < |n| && n[k] == name;
      assert headers[k] in headers;
    }
    if HasHeader(headers, name) {
      var h :| h in headers && NormalizeHeader(h) == name;
      var k :| 0 <= k < |headers| && headers[k] == h;
      assert n[k] == name;
    }
  }

  /** The first name of `required[i..]` that is not among the normalised
      headers, in list order. */
  function FirstMissingFrom(normalized: seq<string>, required: seq<string>, i: nat): (r: Outcome<string>)
    requires i <= |required|
    decreases |required| - i
    ensures r.Pass? <==> forall k :: i <= k < |required| ==> required[k] in normalized
    ensures r.Fail? ==> exists k ::
      && i <= k < |required| && required[k] == r.error
      && required[k] !in normalized
      && forall j :: i <= j < k ==> required[j] in normalized
  {
    if i == |required| then Pass
    else if required[i] !in normalized then Fail(required[i])
    else FirstMissingFrom(normalized, required, i + 1)
  }

  /** `validate_headers`: passes exactly when every required column is
      present after normalisation, and otherwise names the first missing
      one, every column before it being present. */
  function ValidateHeaders(headers: seq<string>): (r: Outcome<string>)
    ensures r.Pass? <==> forall k :: 0 <= k < |RequiredHeaders| ==> HasHeader(headers, RequiredHeaders[k])
    ensures r.Fail? ==> exists k ::
      && 0 <= k < |RequiredHeaders| && RequiredHeaders[k] == r.error
      && !HasHeader(headers, r.error)
      && forall j :: 0 <= j < k ==> HasHeader(headers, RequiredHeaders[j])
  {
    var r := FirstMissingFrom(NormalizeHeaders(headers), RequiredHeaders, 0);
    forall k | 0 <= k < |RequiredHeaders| ensures HasHeader(headers, RequiredHeaders[k]) <==> RequiredHeaders[k] in NormalizeHeaders(headers) {
      HasHeaderIffNormalized(headers, RequiredHeaders[k]);
    }
    r
  }

  /** A header cell spelled as the column name, behind a byte-order mark and
      padded with blanks, normalises to that name. */
  lemma NormalizeStripsBomAndBlanks(name: string)
    requires name != [] && !IsWhitespace(name[0]) && !IsWhitespace(name[|name| - 1]) && name[0] != Bom
    ensures NormalizeHeader([Bom] + " " + name + " ") == name
  {
    var h := [Bom] + " " + name + " ";
    var p := " " + name + " ";
    var q := name + " ";
    assert h[1..] == p && p[1..] == q && p[0] == ' ' && q[0] == name[0];
    assert TrimLeadingBoms(h) == p;
    assert TrimStart(p) == q;
    assert q[..|name|] == name;
    assert TrimEnd(q) == TrimEnd(name);
  }

  // ---- Rows ----

  /** A row that is merged: its key (the trimmed `word`) and its secondary
      columns. */
  datatype Entry = Entry(key: string, fields: Fields)

  /** What the loop makes of one row: None when the row failed to deserialise
      or its trimmed word is empty (a skipped row), otherwise the entry keyed
      by the trimmed word. */
  function RowEntry(row: Option<Record>): Option<Entry>
  {
    if row.None? || Trim(row.value.word) == [] then None
    else Some(Entry(Trim(row.value.word), row.value.fields))
  }

  /** A row is kept exactly when it deserialised and its word is not all
      whitespace; it is then keyed by the trimmed, non-empty word. */
  lemma RowEntryMeaning(row: Option<Record>)
    ensures RowEntry(row).Some? <==> row.Some? && !AllWhitespace(row.value.word)
    ensures RowEntry(row).Some? ==>
      && RowEntry(row).value.key == Trim(row.value.word) && RowEntry(row).value.key != []
      && RowEntry(row).value.fields == row.value.fields
  {
    if row.Some? {
      TrimEmptyIffBlank(row.value.word);
    }
  }

  /** The rows as the loop sees them, one entry per row. */
  function Entries(rows: seq<Option<Record>>): (es: seq<Option<Entry>>)
    ensures |es| == |rows| && forall k :: 0 <= k < |rows| ==> es[k] == RowEntry(rows[k])
  {
    seq(|rows|, k requires 0 <= k < |rows| => RowEntry(rows[k]))
  }

  /** The counts the import loop reports for `es`. */
  function Summarize(es: seq<Option<Entry>>): (s: ImportSummary)
    ensures s.total == |es| && s.total == s.upserted + s.skipped
  {
    if es == [] then ImportSummary(0, 0, 0)
    else
      var s := Summarize(es[..|es| - 1]);
      if es[|es| - 1].None? then s.(total := s.total + 1, skipped := s.skipped + 1)
      else s.(total := s.total + 1, upserted := s.upserted + 1)
  }

  /** Every distinct key the entries carry. */
  function Keys(es: seq<Option<Entry>>): set<string>
  {
    if es == [] then {}
    else
      var e := es[|es| - 1];
      Keys(es[..|es| - 1]) + if e.Some? then {e.value.key} else {}
  }

  /** The fields of the last entry carrying key `key`, if any. */
  function LastFields(es: seq<Option<Entry>>, key: string): Option<Fields>
  {
    if es == [] then None
    else
      var e := es[|es| - 1];
      if e.Some? && e.value.key == key then Some(e.value.fields)
      else LastFields(es[..|es| - 1], key)
  }

  /** A file whose rows are all kept is fully upserted; one whose rows are
      all skipped upserts nothing. */
  lemma {:induction false} SummaryExtremes(es: seq<Option<Entry>>)
    ensures (forall k :: 0 <= k < |es| ==> es[k].Some?) ==> Summarize(es).upserted == |es|
    ensures (forall k :: 0 <= k < |es| ==> es[k].None?) ==> Summarize(es).skipped == |es|
  {
    if es != [] {
      var init := es[..|es| - 1];
      SummaryExtremes(init);
      assert forall k :: 0 <= k < |init| ==> init[k] == es[k];
    }
  }

  /** Ten rows of which exactly one is skipped: 10 seen, 9 upserted,
      1 skipped. */
  lemma OneBlankOfTen(es: seq<Option<Entry>>, blank: nat)
    requires |es| == 10 && blank < 10
    requires forall k :: 0 <= k < 10 && k != blank ==> es[k].Some?
    requires es[blank].None?
    ensures Summarize(es) == ImportSummary(10, 9, 1)
  {
    SkippedCount(es, blank);
  }

  lemma {:induction false} SkippedCount(es: seq<Option<Entry>>, blank: nat)
    requires blank < |es|
    requires forall k :: 0 <= k < |es| && k != blank ==> es[k].Some?
    requires es[blank].None?
    ensures Summarize(es).skipped == 1
  {
    var init := es[..|es| - 1];
    assert forall k :: 0 <= k < |init| ==> init[k] == es[k];
    if blank < |init| {
      SkippedCount(init, blank);
    } else {
      SummaryExtremes(init);
    }
  }

  // ---- The merge ----

  /** One row of the import loop: a skipped row changes nothing; otherwise
      the `INSERT ... ON CONFLICT(word) DO UPDATE` upsert (a new key takes
      the next id, an existing key keeps its id and takes the row's fields),
      then, when a list is given, `INSERT OR IGNORE` of (list, word id). */
  function MergeRow(t: Tables, e: Option<Entry>, listId: Option<int>): Tables
  {
    match e
    case None => t
    case Some(Entry(key, fields)) =>
      var id := if key in t.words then t.words[key].id else t.nextWordId;
      Tables(
        t.words[key := WordRow(id, fields)],
        if key in t.words then t.nextWordId else t.nextWordId + 1,
        if listId.Some? then t.listMap + {(listId.value, id)} else t.listMap)
  }

  /** The entries merged in file order. */
  function MergeRows(t: Tables, es: seq<Option<Entry>>, listId: Option<int>): Tables
  {
    if es == [] then t
    else MergeRow(MergeRows(t, es[..|es| - 1], listId), es[|es| - 1], listId)
  }

  /** The list pairs an import adds: one per merged key, with that key's id. */
  function ListPairs(words: map<string, WordRow>, keys: set<string>, listId: Option<int>): set<(int, int)>
    requires keys <= words.Keys
  {
    if listId.None? then {} else set k | k in keys :: (listId.value, words[k].id)
  }

  /** The keys the entries carry are exactly those with a last entry. */
  lemma {:induction false} KeysHaveLast(es: seq<Option<Entry>>)
    ensures forall k :: k in Keys(es) <==> LastFields(es, k).Some?
  {
    if es != [] {
      KeysHaveLast(es[..|es| - 1]);
    }
  }

  /** A key is among the keys exactly when some entry carries it. */
  lemma {:induction false} KeysMembers(es: seq<Option<Entry>>, key: string)
    ensures key in Keys(es) <==> exists k :: 0 <= k < |es| && es[k].Some? && es[k].value.key == key
  {
    if es != [] {
      var init := es[..|es| - 1];
      KeysMembers(init, key);
      if key in Keys(es) {
        if key in Keys(init) {
          var k :| 0 <= k < |init| && init[k].Some? && init[k].value.key == key;
          assert es[k] == init[k];
        }
      } else {
        forall k | 0 <= k < |es| ensures !(es[k].Some? && es[k].value.key == key) {
          if k < |init| {
            assert es[k] == init[k];
          }
        }
      }
    }
  }

  /** The merged table's keys are the old keys plus every entry key. */
  lemma {:induction false} MergeKeys(t: Tables, es: seq<Option<Entry>>, listId: Option<int>)
    ensures MergeRows(t, es, listId).words.Keys == t.words.Keys + Keys(es)
  {
    if es != [] {
      MergeKeys(t, es[..|es| - 1], listId);
    }
  }

  /** Last write wins: a key some entry carries holds the fields of the last
      such entry; every other key keeps its row unchanged. */
  lemma {:induction false} MergeLastWriteWins(t: Tables, es: seq<Option<Entry>>, listId: Option<int>)
    ensures var r := MergeRows(t, es, listId);
      && (forall k :: LastFields(es, k).Some? ==> k in r.words && r.words[k].fields == LastFields(es, k).value)
      && (forall k :: k in t.words && LastFields(es, k).None? ==> k in r.words && r.words[k] == t.words[k])
  {
    if es != [] {
      MergeLastWriteWins(t, es[..|es| - 1], listId);
    }
  }

  /** The merge keeps every existing id, gives new keys ids from the fresh
      range [t.nextWordId, r.nextWordId), and allocates no id when every
      entry key already exists. */
  lemma {:induction false} MergeIds(t: Tables, es: seq<Option<Entry>>, listId: Option<int>)
    requires forall k :: k in t.words ==> t.words[k].id < t.nextWordId
    ensures var r := MergeRows(t, es, listId);
      && t.words.Keys <= r.words.Keys
      && (forall k :: k in t.words ==> r.words[k].id == t.words[k].id)
      && (forall k :: k in r.words && k !in t.words ==> t.nextWordId <= r.words[k].id)
      && (forall k :: k in r.words ==> r.words[k].id < r.nextWordId)
      && t.nextWordId <= r.nextWordId
      && (Keys(es) <= t.words.Keys ==> r.nextWordId == t.nextWordId)
  {
    if es != [] {
      var init := es[..|es| - 1];
      MergeIds(t, init, listId);
      MergeKeys(t, init, listId);
    }
  }

  /** The list map gains exactly one (list, id) pair per entry key, with the
      id that key ends up with. */
  lemma {:induction false} MergeListMap(t: Tables, es: seq<Option<Entry>>, listId: Option<int>)
    ensures Keys(es) <= MergeRows(t, es, listId).words.Keys
    ensures var r := MergeRows(t, es, listId);
      r.listMap == t.listMap + ListPairs(r.words, Keys(es), listId)
  {
    MergeKeys(t, es, listId);
    if es != [] {
      var init := es[..|es| - 1];
      MergeListMap(t, init, listId);
      MergeKeys(t, init, listId);
      MergeRowListMap(t.listMap, MergeRows(t, init, listId), es[|es| - 1], Keys(init), listId);
    }
  }

  lemma MergeRowListMap(base: set<(int, int)>, m: Tables, e: Option<Entry>, keys: set<string>, listId: Option<int>)
    requires keys <= m.words.Keys
    requires m.listMap == base + ListPairs(m.words, keys, listId)
    ensures var r := MergeRow(m, e, listId);
      var more := if e.Some? then keys + {e.value.key} else keys;
      more <= r.words.Keys && r.listMap == base + ListPairs(r.words, more, listId)
  {
    var r := MergeRow(m, e, listId);
    if e.Some? {
      assert forall k :: k in m.words ==> r.words[k].id == m.words[k].id;
      ListPairsStep(m.words, r.words, keys, e.value.key, listId);
    }
  }

  lemma ListPairsStep(before: map<string, WordRow>, after: map<string, WordRow>, keys: set<string>,
                      key: string, listId: Option<int>)
    requires keys <= before.Keys && before.Keys + {key} == after.Keys
    requires forall k :: k in before ==> after[k].id == before[k].id
    ensures ListPairs(after, keys + {key}, listId) == ListPairs(before, keys, listId) + ListPairs(after, {key}, listId)
  {
  }

  /** Importing the same rows a second time changes nothing. */
  lemma MergeIdempotent(t: Tables, es: seq<Option<Entry>>, listId: Option<int>)
    requires forall k :: k in t.words ==> t.words[k].id < t.nextWordId
    ensures MergeRows(MergeRows(t, es, listId), es, listId) == MergeRows(t, es, listId)
  {
    var t1 := MergeRows(t, es, listId);
    var t2 := MergeRows(t1, es, listId);
    MergeKeys(t, es, listId);
    MergeIds(t, es, listId);
    MergeKeys(t1, es, listId);
    MergeIds(t1, es, listId);
    MergeLastWriteWins(t, es, listId);
    MergeLastWriteWins(t1, es, listId);
    KeysHaveLast(es);
    forall k | k in t2.words ensures t2.words[k] == t1.words[k] {
      if LastFields(es, k).Some? {
        assert t2.words[k].fields == t1.words[k].fields;
      }
    }
    assert t2.words == t1.words;
    MergeListMap(t, es, listId);
    MergeListMap(t1, es, listId);
  }

  /** The word-table invariant: ids positive, below the next id and
      pairwise distinct (the UNIQUE AUTOINCREMENT key). */
  predicate IdsValid(t: Tables)
  {
    && 0 < t.nextWordId
    && (forall k :: k in t.words ==> 0 < t.words[k].id < t.nextWordId)
    && (forall k1, k2 :: k1 in t.words && k2 in t.words && k1 != k2 ==> t.words[k1].id != t.words[k2].id)
  }

  /** The merge keeps the word-table invariant. */
  lemma {:induction false} MergeKeepsIds(t: Tables, es: seq<Option<Entry>>, listId: Option<int>)
    requires IdsValid(t)
    ensures IdsValid(MergeRows(t, es, listId))
  {
    if es != [] {
      MergeKeepsIds(t, es[..|es| - 1], listId);
      MergeRowKeepsIds(MergeRows(t, es[..|es| - 1], listId), es[|es| - 1], listId);
    }
  }

  lemma MergeRowKeepsIds(m: Tables, e: Option<Entry>, listId: Option<int>)
    requires IdsValid(m)
    ensures IdsValid(MergeRow(m, e, listId))
  {
    if e.Some? {
      var key := e.value.key;
      var r := MergeRow(m, e, listId);
      if key !in m.words {
        assert r.words[key].id == m.nextWordId && r.nextWordId == m.nextWordId + 1;
        assert forall k :: k in m.words ==> r.words[k] == m.words[k];
      }
    }
  }

  /** The ids the `word` table holds. */
  function WordIdSet(words: map<string, WordRow>): set<int>
  {
    set k | k in words :: words[k].id
  }

  /** What the store needs from an import to keep its references sound:
      the id invariant holds afterwards, no id disappears, and every new
      list pair names the given list and a word that exists. */
  lemma MergeKeepsReferences(t: Tables, es: seq<Option<Entry>>, listId: Option<int>)
    requires IdsValid(t)
    ensures var r := MergeRows(t, es, listId);
      && IdsValid(r)
      && WordIdSet(t.words) <= WordIdSet(r.words)
      && (forall p :: p in r.listMap ==>
            p in t.listMap || (listId.Some? && p.0 == listId.value && p.1 in WordIdSet(r.words)))
  {
    var r := MergeRows(t, es, listId);
    MergeKeepsIds(t, es, listId);
    MergeIds(t, es, listId);
    MergeListMap(t, es, listId);
    forall id | id in WordIdSet(t.words) ensures id in WordIdSet(r.words) {
      var k :| k in t.words && t.words[k].id == id;
      assert r.words[k].id == id;
    }
    forall p | p in r.listMap && p !in t.listMap
      ensures listId.Some? && p.0 == listId.value && p.1 in WordIdSet(r.words)
    {
      var k :| k in Keys(es) && p == (listId.value, r.words[k].id);
    }
  }

  /** Several files imported one after another into the same list. */
  function MergeFiles(t: Tables, inputs: seq<CsvInput>, listId: Option<int>): Tables
  {
    if inputs == [] then t
    else MergeRows(MergeFiles(t, inputs[..|inputs| - 1], listId), Entries(inputs[|inputs| - 1].rows), listId)
  }

  /** Importing files one after another is importing their rows in file
      order. */
  lemma {:induction false} MergeFilesIsMergeRows(t: Tables, inputs: seq<CsvInput>, listId: Option<int>)
    ensures MergeFiles(t, inputs, listId) == MergeRows(t, AllEntries(inputs), listId)
  {
    if inputs != [] {
      var init := inputs[..|inputs| - 1];
      MergeFilesIsMergeRows(t, init, listId);
      MergeRowsAppend(t, AllEntries(init), Entries(inputs[|inputs| - 1].rows), listId);
    }
  }

  /** One more file. */
  lemma MergeFilesStep(t: Tables, inputs: seq<CsvInput>, input: CsvInput, listId: Option<int>)
    ensures MergeFiles(t, inputs + [input], listId) == MergeRows(MergeFiles(t, inputs, listId), Entries(input.rows), listId)
  {
    assert (inputs + [input])[..|inputs|] == inputs;
  }

  /** The entries of several files, in order. */
  function AllEntries(inputs: seq<CsvInput>): seq<Option<Entry>>
  {
    if inputs == [] then [] else AllEntries(inputs[..|inputs| - 1]) + Entries(inputs[|inputs| - 1].rows)
  }

  /** Merging a + b is merging a, then b. */
  lemma {:induction false} MergeRowsAppend(t: Tables, a: seq<Option<Entry>>, b: seq<Option<Entry>>, listId: Option<int>)
    ensures MergeRows(t, a + b, listId) == MergeRows(MergeRows(t, a, listId), b, listId)
  {
    if b != [] {
      MergeRowsAppend(t, a, b[..|b| - 1], listId);
      assert (a + b)[..|a + b| - 1] == a + b[..|b| - 1];
    } else {
      assert a + b == a;
    }
  }
}
