/**
 * Scoring and ranking: `best_chunk_score`, the loop that keeps the postings
 * scoring at least `SIMILARITY_THRESHOLD`, and the stable descending sort.
 *
 * Scores are integers in hundredths of a percent (the source rounds the
 * percentage to two decimals), so the threshold 60.0 is 6000. The embedding
 * model is a parameter: `sim(chunk, jobText)` is the cosine similarity of the
 * two texts' embeddings as such a score, or `None` when encoding fails.
 */
module Scoring {
  import opened Seqs
  import opened Wrappers
  import opened Cleaning
  import opened Fetching

  const Threshold: int := 6000

  /** The similarities of every chunk to the job text, or `None` when one of them fails. */
  function ChunkScores(chunks: seq<string>, jobText: string, sim: (string, string) -> Option<int>)
    : (r: Option<seq<int>>)
    ensures r.Some? <==> forall i :: 0 <= i < |chunks| ==> sim(chunks[i], jobText).Some?
    ensures r.Some? ==>
      |r.value| == |chunks| && forall i :: 0 <= i < |chunks| ==> r.value[i] == sim(chunks[i], jobText).value
  {
    if chunks == [] then Some([])
    else match (sim(chunks[0], jobText), ChunkScores(chunks[1..], jobText, sim))
      case (Some(first), Some(rest)) => Some([first] + rest)
      case _ =>
        assert forall i :: 0 < i < |chunks| ==> chunks[i] == chunks[1..][i - 1];
        None
  }

  /** The largest element of a non-empty list. */
  function Max(s: seq<int>): (m: int)
    requires s != []
    ensures m in s && forall x :: x in s ==> x <= m
  {
    if |s| == 1 then s[0]
    else
      var rest := Max(s[1..]);
      assert forall x :: x in s ==> x == s[0] || x in s[1..];
      if s[0] >= rest then s[0] else rest
  }

  /**
   * `best_chunk_score`: the best similarity of any chunk to the job text; 0
   * when an encoding fails, and 0 when there are no chunks (`max` of an empty
   * list raises, and the exception is swallowed).
   */
  function BestChunkScore(chunks: seq<string>, jobText: string, sim: (string, string) -> Option<int>)
    : (score: int)
    ensures (chunks == [] || exists i :: 0 <= i < |chunks| && sim(chunks[i], jobText).None?) ==> score == 0
    ensures chunks != [] && (forall i :: 0 <= i < |chunks| ==> sim(chunks[i], jobText).Some?) ==>
      (exists i :: 0 <= i < |chunks| && score == sim(chunks[i], jobText).value)
      && forall i :: 0 <= i < |chunks| ==> sim(chunks[i], jobText).value <= score
  {
    match ChunkScores(chunks, jobText, sim)
    case None => 0
    case Some(scores) =>
      if scores == [] then 0
      else
        var best := Max(scores);
        assert forall i :: 0 <= i < |chunks| ==> scores[i] in scores;
        best
  }

  /** One row of the results table. */
  datatype Match = Match(title: string, company: string, location: string, score: int, link: string)

  /** The row appended for a posting and its score. */
  function MatchOf(job: Job, score: int): Match {
    Match(job.title, job.company, job.location, score, job.link)
  }

  /** The score of one posting: its cleaned description against the resume chunks. */
  function JobScore(job: Job, chunks: seq<string>, sim: (string, string) -> Option<int>): int {
    BestChunkScore(chunks, CleanJobText(job.description), sim)
  }

  /** `JobScore` for one resume and one embedding model, as a function of the posting. */
  function Scorer(chunks: seq<string>, sim: (string, string) -> Option<int>): Job -> int {
    job => JobScore(job, chunks, sim)
  }

  /** The rows the scoring loop appends, in the order of `jobs`, when `score` scores a posting. */
  function Matched(jobs: seq<Job>, score: Job -> int): (r: seq<Match>)
    ensures forall m :: m in r ==> m.score >= Threshold
  {
    if jobs == [] then []
    else
      var n := |jobs| - 1;
      var s := score(jobs[n]);
      Matched(jobs[..n], score) + (if s >= Threshold then [MatchOf(jobs[n], s)] else [])
  }

  /** `m` is the row appended for `job`: it scores at least the threshold. */
  predicate Yields(job: Job, score: Job -> int, m: Match) {
    score(job) >= Threshold && m == MatchOf(job, score(job))
  }

  lemma {:induction false} MatchedOrigin(jobs: seq<Job>, score: Job -> int, m: Match) returns (i: nat)
    requires m in Matched(jobs, score)
    ensures i < |jobs| && Yields(jobs[i], score, m)
  {
    var n := |jobs| - 1;
    if m in Matched(jobs[..n], score) {
      i := MatchedOrigin(jobs[..n], score, m);
      assert jobs[..n][i] == jobs[i];
    } else {
      i := n;
    }
  }

  lemma {:induction false} MatchedIncludes(jobs: seq<Job>, score: Job -> int, i: nat)
    requires i < |jobs| && score(jobs[i]) >= Threshold
    ensures MatchOf(jobs[i], score(jobs[i])) in Matched(jobs, score)
  {
    var n := |jobs| - 1;
    if i < n {
      assert jobs[..n][i] == jobs[i];
      MatchedIncludes(jobs[..n], score, i);
    }
  }

  /** A row is in the results exactly when it comes from a posting scoring at least the threshold. */
  lemma MatchedMembers(jobs: seq<Job>, score: Job -> int, m: Match)
    ensures m in Matched(jobs, score) <==> exists i :: 0 <= i < |jobs| && Yields(jobs[i], score, m)
  {
    if m in Matched(jobs, score) {
      var i := MatchedOrigin(jobs, score, m);
    }
    if i :| 0 <= i < |jobs| && Yields(jobs[i], score, m) {
      MatchedIncludes(jobs, score, i);
    }
  }

  lemma {:induction false} MatchedAppend(a: seq<Job>, b: seq<Job>, score: Job -> int)
    ensures Matched(a + b, score) == Matched(a, score) + Matched(b, score)
    decreases |b|
  {
    if b == [] {
      assert a + b == a;
    } else {
      var n := |b| - 1;
      InitOfAppend(a, b);
      MatchedAppend(a, b[..n], score);
      var s := score(b[n]);
      AppendAssoc(Matched(a, score), Matched(b[..n], score),
                  if s >= Threshold then [MatchOf(b[n], s)] else []);
    }
  }

  /** A posting scoring below the threshold leaves the results as if it had never been fetched. */
  lemma BelowThresholdDropped(jobs: seq<Job>, i: nat, score: Job -> int)
    requires i < |jobs| && score(jobs[i]) < Threshold
    ensures Matched(jobs, score) == Matched(jobs[..i] + jobs[i + 1..], score)
  {
    var prefix, job, suffix := jobs[..i], jobs[i], jobs[i + 1..];
    assert Matched([job], score) == [] by {
      assert [job][..0] == [];
    }
    assert jobs == (prefix + [job]) + suffix;
    calc {
      Matched(jobs, score);
      { MatchedAppend(prefix + [job], suffix, score); }
      Matched(prefix + [job], score) + Matched(suffix, score);
      { MatchedAppend(prefix, [job], score); }
      Matched(prefix, score) + Matched([job], score) + Matched(suffix, score);
      { assert Matched(prefix, score) + [] == Matched(prefix, score); }
      Matched(prefix, score) + Matched(suffix, score);
      { MatchedAppend(prefix, suffix, score); }
      Matched(prefix + suffix, score);
    }
  }

  /**
   * A posting whose scoring fails (some encoding raises) scores 0, below the
   * threshold: the results are the same as if it had never been fetched.
   */
  lemma FailedScoringDropsJob(jobs: seq<Job>, i: nat, chunks: seq<string>,
                              sim: (string, string) -> Option<int>)
    requires i < |jobs|
    requires exists c :: c in chunks && sim(c, CleanJobText(jobs[i].description)).None?
    ensures JobScore(jobs[i], chunks, sim) == 0
    ensures Matched(jobs, Scorer(chunks, sim)) == Matched(jobs[..i] + jobs[i + 1..], Scorer(chunks, sim))
  {
    var c :| c in chunks && sim(c, CleanJobText(jobs[i].description)).None?;
    var k :| 0 <= k < |chunks| && chunks[k] == c;
    assert JobScore(jobs[i], chunks, sim) == 0;
    assert Scorer(chunks, sim)(jobs[i]) == 0;
    BelowThresholdDropped(jobs, i, Scorer(chunks, sim));
  }

  /** Scores never increase along `s`. */
  predicate Descending(s: seq<Match>) {
    forall i, j :: 0 <= i < j < |s| ==> s[i].score >= s[j].score
  }

  /** The first row of a descending list scores at least as much as any row of it. */
  lemma HeadIsBest(s: seq<Match>)
    requires s != [] && Descending(s)
    ensures forall x :: x in s ==> x.score <= s[0].score
  {
    forall x | x in s
      ensures x.score <= s[0].score
    {
      var k :| 0 <= k < |s| && s[k] == x;
    }
  }

  lemma DescendingTail(s: seq<Match>)
    requires s != [] && Descending(s)
    ensures Descending(s[1..])
  {
    assert forall i :: 0 <= i < |s| - 1 ==> s[1..][i] == s[i + 1];
  }

  lemma InsertFront(m: Match, s: seq<Match>)
    requires Descending(s) && (s == [] || m.score >= s[0].score)
    ensures Descending([m] + s)
  {
    assert forall x :: x in s ==> x.score <= m.score by { if s != [] { HeadIsBest(s); } }
    var r := [m] + s;
    assert forall j :: 0 < j < |r| ==> r[j] == s[j - 1];
  }

  lemma InsertBehind(m: Match, s: seq<Match>, tail: seq<Match>)
    requires s != [] && Descending(s) && m.score < s[0].score
    requires Descending(tail) && forall x :: x in tail ==> x == m || x in s[1..]
    ensures Descending([s[0]] + tail)
  {
    HeadIsBest(s);
    assert forall x :: x in s[1..] ==> x in s;
    var r := [s[0]] + tail;
    assert forall j :: 0 < j < |r| ==> r[j] == tail[j - 1];
  }

  /** Puts `m` in front of the first row of `s` that does not score more. */
  function Insert(m: Match, s: seq<Match>): (r: seq<Match>)
    requires Descending(s)
    ensures Descending(r)
    ensures forall x :: x in r ==> x == m || x in s
    ensures multiset(r) == multiset(s) + multiset{m}
  {
    if s == [] || m.score >= s[0].score then
      InsertFront(m, s);
      [m] + s
    else
      DescendingTail(s);
      var tail := Insert(m, s[1..]);
      InsertBehind(m, s, tail);
      assert s == [s[0]] + s[1..];
      [s[0]] + tail
  }

  /**
   * `sorted(rows, key=score, reverse=True)`: descending by score, rows with
   * equal scores in their original order.
   */
  function SortByScore(s: seq<Match>): (r: seq<Match>)
    ensures Descending(r)
    ensures multiset(r) == multiset(s)
  {
    if s == [] then []
    else
      assert s == [s[0]] + s[1..];
      Insert(s[0], SortByScore(s[1..]))
  }

  /** The rows of `s` that score exactly `v`, in their order in `s`. */
  function WithScore(s: seq<Match>, v: int): seq<Match> {
    if s == [] then []
    else (if s[0].score == v then [s[0]] else []) + WithScore(s[1..], v)
  }

  lemma WithScoreCons(x: Match, t: seq<Match>, v: int)
    ensures WithScore([x] + t, v) == (if x.score == v then [x] else []) + WithScore(t, v)
  {
    TailOfAppend([x], t);
  }

  /** Inserting `m` places it before every row with its score, and moves nothing else. */
  lemma {:induction false} InsertStable(m: Match, s: seq<Match>, v: int)
    requires Descending(s)
    ensures WithScore(Insert(m, s), v) == WithScore([m] + s, v)
  {
    if s != [] && m.score < s[0].score {
      var rest := s[1..];
      assert Descending(rest) by {
        assert forall i :: 0 <= i < |rest| ==> rest[i] == s[i + 1];
      }
      assert Insert(m, s) == [s[0]] + Insert(m, rest);
      assert s == [s[0]] + rest;
      var h0 := if s[0].score == v then [s[0]] else [];
      var hm := if m.score == v then [m] else [];
      var w := WithScore(rest, v);
      InsertStable(m, rest, v);
      WithScoreCons(s[0], Insert(m, rest), v);
      WithScoreCons(m, rest, v);
      assert WithScore(Insert(m, s), v) == h0 + (hm + w);
      WithScoreCons(s[0], rest, v);
      WithScoreCons(m, s, v);
      assert WithScore([m] + s, v) == hm + (h0 + w);
      SwapEmpty(h0, hm, w);
    }
  }

  lemma SwapEmpty(a: seq<Match>, b: seq<Match>, c: seq<Match>)
    requires a == [] || b == []
    ensures a + (b + c) == b + (a + c)
  {
    if a == [] {
      assert a + (b + c) == b + c;
      assert a + c == c;
    } else {
      assert b + c == c;
      assert b + (a + c) == a + c;
    }
  }

  /** The sort is stable: for every score, the rows with that score keep their relative order. */
  lemma {:induction false} SortStable(s: seq<Match>, v: int)
    ensures WithScore(SortByScore(s), v) == WithScore(s, v)
  {
    if s != [] {
      SortStable(s[1..], v);
      InsertStable(s[0], SortByScore(s[1..]), v);
      TailOfAppend([s[0]], SortByScore(s[1..]));
    }
  }

  /**
   * The scoring loop and the sort after it: score every posting, keep the rows
   * at or above the threshold, then order them by descending score.
   */
  method ScoreJobs(jobs: seq<Job>, chunks: seq<string>, sim: (string, string) -> Option<int>)
    returns (matched: seq<Match>)
    ensures matched == SortByScore(Matched(jobs, Scorer(chunks, sim)))
    ensures Descending(matched)
    ensures forall m :: m in matched ==> m.score >= Threshold
  {
    matched := [];
    for i := 0 to |jobs|
      invariant matched == Matched(jobs[..i], Scorer(chunks, sim))
    {
      var job := jobs[i];
      var jobText := CleanJobText(job.description);
      var score := BestChunkScore(chunks, jobText, sim);
      assert Scorer(chunks, sim)(job) == score;
      if score >= Threshold {
        matched := matched + [MatchOf(job, score)];
      }
      assert jobs[..i + 1][..i] == jobs[..i];
    }
    assert jobs[..|jobs|] == jobs;
    var unsorted := matched;
    matched := SortByScore(unsorted);
    assert forall m :: m in matched ==> m in multiset(unsorted);
  }
}
