/**
 * What pressing "Generate Matches" does: check the two inputs, cut them up,
 * run the searches, score the postings and rank the rows that pass.
 */
module App {
  import opened Text
  import opened Wrappers
  import opened Inputs
  import opened Fetching
  import opened Scoring

  /** `LOCATIONS`: every title is searched in both. */
  const Locations: seq<string> := ["United States", "Remote United States"]

  /**
   * The outcome of one run: a warning when an input is blank (nothing is
   * searched or scored), or the searches made, the postings fetched and the
   * ranked rows.
   */
  datatype Outcome =
    | MissingInput
    | Ranked(queries: seq<Query>, fetched: seq<Job>, matches: seq<Match>)

  method Generate(resume: string, titles: string, net: string -> Reply,
                  sim: (string, string) -> Option<int>)
    returns (outcome: Outcome)
    ensures outcome.MissingInput? <==> !InputsPresent(resume, titles)
    ensures outcome.Ranked? ==>
      && ResumeChunks(resume) != []
      && outcome.queries == Plan(ParseKeywords(titles), Locations)
      && |outcome.queries| == 2 * |ParseKeywords(titles)|
      && outcome.fetched == Fetched(outcome.queries, net)
      && outcome.matches == SortByScore(Matched(outcome.fetched, Scorer(ResumeChunks(resume), sim)))
      && Descending(outcome.matches)
      && forall m :: m in outcome.matches ==> m.score >= Threshold
  {
    if Strip(resume) == [] || Strip(titles) == [] {
      return MissingInput;
    }
    var chunks := ResumeChunks(resume);
    NonBlankResumeHasChunks(resume);
    var keywords := ParseKeywords(titles);
    var jobs, issued := FetchJobs(keywords, Locations, net);
    var matches := ScoreJobs(jobs, chunks, sim);
    outcome := Ranked(issued, jobs, matches);
  }
}
