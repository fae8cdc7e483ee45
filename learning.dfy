/** The per-word learning record of the `user_word_learning` table and the
    pure rules over it: the clamped proficiency updates and the score
    buckets the session allocator draws from (src-tauri/src/word_bank.rs). */
module Learning {
  import opened Wrappers

  /** The highest proficiency score; `MIN(10, proficiency_score + 1)`. */
  const MaxScore: int := 10

  /** A `user_word_learning` row: `proficiency_score` and `learn_count`. */
  datatype Progress = Progress(score: int, learnCount: int)

  /** The row `ensure_learning_row` inserts for a word seen the first time. */
  const Fresh: Progress := Progress(0, 0)

  predicate InRange(p: Progress)
  {
    0 <= p.score <= MaxScore && 0 <= p.learnCount
  }

  /** The increment UPDATE: score capped at 10, one more study counted. */
  function Incremented(p: Progress): (q: Progress)
    ensures q.score == if p.score < MaxScore then p.score + 1 else MaxScore
    ensures q.learnCount == p.learnCount + 1
  {
    Progress(if p.score + 1 <= MaxScore then p.score + 1 else MaxScore, p.learnCount + 1)
  }

  /** The decrement UPDATE: score floored at 0, learn count untouched. */
  function Decremented(p: Progress): (q: Progress)
    ensures q.score == if p.score > 0 then p.score - 1 else 0
    ensures q.learnCount == p.learnCount
  {
    Progress(if p.score - 1 >= 0 then p.score - 1 else 0, p.learnCount)
  }

  /** Both updates keep a row inside [0, 10] (and a non-negative count). */
  lemma UpdatesStayInRange(p: Progress)
    requires InRange(p)
    ensures InRange(Incremented(p)) && InRange(Decremented(p))
  {
  }

  /** The increment raises the score by one unless it is already at the cap,
      where it stays; the decrement mirrors this at 0. */
  lemma UpdatesSaturate(p: Progress)
    requires InRange(p)
    ensures Incremented(p).score == p.score <==> p.score == MaxScore
    ensures Decremented(p).score == p.score <==> p.score == 0
  {
  }

  /** Below the cap a decrement undoes an increment's score change; above
      the floor an increment undoes a decrement's. */
  lemma UpdatesUndo(p: Progress)
    requires InRange(p)
    ensures p.score < MaxScore ==> Decremented(Incremented(p)).score == p.score
    ensures p.score > 0 ==> Incremented(Decremented(p)).score == p.score
  {
  }

  /** n increments in a row from p. */
  function IncrementTimes(p: Progress, n: nat): Progress
  {
    if n == 0 then p else Incremented(IncrementTimes(p, n - 1))
  }

  /** Repeated increments count every study and climb one step at a time
      until they reach the cap, where they stay. */
  lemma {:induction false} IncrementTimesScore(p: Progress, n: nat)
    requires InRange(p)
    ensures IncrementTimes(p, n).score == if p.score + n <= MaxScore then p.score + n else MaxScore
    ensures IncrementTimes(p, n).learnCount == p.learnCount + n
  {
    if n > 0 {
      IncrementTimesScore(p, n - 1);
    }
  }

  // ---- Session buckets ----

  /** The WHERE conditions of the five fetches in
      `allocate_learning_session_for_list`, in the order they run. */
  datatype Bucket = Unlearned | Low | Mid | High | Any

  /** Whether a word with learning row `p` (None: no row yet) meets the
      bucket's condition.  Mid and High share score 8, as the two
      `BETWEEN` clauses do. */
  predicate InBucket(b: Bucket, p: Option<Progress>)
  {
    match b
    case Unlearned => p.None?
    case Low => p.Some? && p.value.score < 4
    case Mid => p.Some? && 4 <= p.value.score <= 8
    case High => p.Some? && 8 <= p.value.score <= 10
    case Any => true
  }

  /** The session size the final fill tops up to. */
  const SessionSize: int := 50

  /** How many words each bucket fetch asks for (its `LIMIT`); the four add
      up to the session size, so the fill only runs when a bucket came up
      short. */
  function BucketLimit(b: Bucket): (n: int)
    requires b != Any
    ensures 0 < n <= 20
  {
    match b
    case Unlearned => 20
    case Low => 20
    case Mid => 6
    case High => 4
  }

  /** Every in-range row falls in exactly one of Unlearned, Low or
      Mid-or-High, and only score 8 is in both Mid and High. */
  lemma BucketsCover(p: Option<Progress>)
    requires p.Some? ==> InRange(p.value)
    ensures InBucket(Unlearned, p) || InBucket(Low, p) || InBucket(Mid, p) || InBucket(High, p)
    ensures !(InBucket(Unlearned, p) && InBucket(Low, p))
    ensures InBucket(Low, p) ==> !InBucket(Mid, p) && !InBucket(High, p)
    ensures InBucket(Mid, p) && InBucket(High, p) <==> p.Some? && p.value.score == 8
  {
  }
}
