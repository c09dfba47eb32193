/**
 * `fetch_jobs`: one search per (job title, location) pair, in title-major
 * order, each posting found tagged with the pair that found it. The HTTP call
 * itself is a parameter: `net` maps a query text to the reply it gets.
 */
module Fetching {
  import opened Seqs

  /** One search: `f"{keyword} in {location}"`. */
  datatype Query = Query(keyword: string, location: string) {
    function QueryText(): string {
      keyword + " in " + location
    }
  }

  /**
   * One element of the reply's `data` list: a JSON object, given by its
   * string-valued fields, or anything else, on which `job.get` raises.
   */
  datatype Item = Entry(fields: map<string, string>) | Malformed

  /**
   * What one search gives back. `Failed` is an exception raised before any
   * posting is read (connection error, a body that is not a JSON object);
   * a reply without a `data` field has `data == []`.
   */
  datatype Reply = Failed | Response(status: int, data: seq<Item>)

  /** A posting as `fetch_jobs` records it. */
  datatype Job = Job(
    title: string, company: string, description: string, link: string, date: string,
    sourceKeyword: string, location: string)

  const StatusOk := 200

  /** `job.get(key, "")`. */
  function Field(fields: map<string, string>, key: string): string {
    if key in fields then fields[key] else ""
  }

  /** The posting recorded for one object of `data`, tagged with the search that found it. */
  function JobOf(fields: map<string, string>, q: Query): Job {
    Job(Field(fields, "job_title"), Field(fields, "employer_name"),
        Field(fields, "job_description"), Field(fields, "job_apply_link"),
        Field(fields, "job_posted_at_datetime_utc"), q.keyword, q.location)
  }

  /**
   * The postings recorded from a `data` list: one per object, up to the first
   * element that is not an object, where the exception ends the reply.
   */
  function ItemJobs(items: seq<Item>, q: Query): (jobs: seq<Job>)
    ensures |jobs| <= |items|
    ensures forall job :: job in jobs ==> job.sourceKeyword == q.keyword && job.location == q.location
  {
    if items == [] then []
    else match items[0]
      case Malformed => []
      case Entry(fields) => [JobOf(fields, q)] + ItemJobs(items[1..], q)
  }

  /** The postings of a `data` list are its leading objects, in order, up to its first non-object. */
  lemma {:induction false} ItemJobsLeadingEntries(items: seq<Item>, q: Query)
    ensures var jobs := ItemJobs(items, q);
      && (forall k :: 0 <= k < |jobs| ==> items[k].Entry? && jobs[k] == JobOf(items[k].fields, q))
      && (|jobs| == |items| || items[|jobs|].Malformed?)
  {
    if items != [] && items[0].Entry? {
      var rest := items[1..];
      ItemJobsLeadingEntries(rest, q);
      var jobs := ItemJobs(items, q);
      assert jobs == [JobOf(items[0].fields, q)] + ItemJobs(rest, q);
      assert forall k :: 0 < k < |items| ==> items[k] == rest[k - 1];
    }
  }

  /** The postings one reply contributes: none unless the status is 200. */
  function ReplyJobs(reply: Reply, q: Query): (jobs: seq<Job>)
    ensures forall job :: job in jobs ==> job.sourceKeyword == q.keyword && job.location == q.location
  {
    match reply
    case Failed => []
    case Response(status, data) => if status == StatusOk then ItemJobs(data, q) else []
  }

  /** The searches for one title, one per location, in the order of `locations`. */
  function Row(keyword: string, locations: seq<string>): seq<Query> {
    seq(|locations|, j requires 0 <= j < |locations| => Query(keyword, locations[j]))
  }

  lemma RowExtend(keyword: string, locations: seq<string>, j: nat)
    requires j < |locations|
    ensures Row(keyword, locations[..j + 1]) == Row(keyword, locations[..j]) + [Query(keyword, locations[j])]
  {
    var longer, shorter := Row(keyword, locations[..j + 1]), Row(keyword, locations[..j]);
    assert forall k :: 0 <= k < j ==> longer[k] == shorter[k];
  }

  /** The searches `fetch_jobs` makes, title by title. */
  function Plan(keywords: seq<string>, locations: seq<string>): (plan: seq<Query>)
    ensures |plan| == |keywords| * |locations|
  {
    if keywords == [] then []
    else
      var n := |keywords| - 1;
      var before := Plan(keywords[..n], locations);
      assert |before| + |locations| == (n + 1) * |locations|;
      before + Row(keywords[n], locations)
  }

  /** Search number `i * |locations| + j` is title `i` in location `j`. */
  lemma {:induction false} PlanAt(keywords: seq<string>, locations: seq<string>, i: nat, j: nat)
    requires i < |keywords| && j < |locations|
    ensures i * |locations| + j < |Plan(keywords, locations)|
    ensures Plan(keywords, locations)[i * |locations| + j] == Query(keywords[i], locations[j])
  {
    var width, n := |locations|, |keywords| - 1;
    var before, row := Plan(keywords[..n], locations), Row(keywords[n], locations);
    assert Plan(keywords, locations) == before + row;
    assert |before| == n * width;
    if i < n {
      PlanAt(keywords[..n], locations, i, j);
      RowMajorBound(i, n, width, j);
      assert Plan(keywords, locations)[i * width + j] == before[i * width + j];
    } else {
      assert i * width + j == |before| + j;
      assert Plan(keywords, locations)[|before| + j] == row[j];
    }
  }

  lemma RowMajorBound(i: nat, n: nat, width: nat, j: nat)
    requires i < n && j < width
    ensures i * width + j < n * width
  {
    assert n * width == (i + 1) * width + (n - i - 1) * width;
  }

  /** Every search pairs one of the titles with one of the locations. */
  lemma {:induction false} PlanMembers(keywords: seq<string>, locations: seq<string>, q: Query)
    requires q in Plan(keywords, locations)
    ensures q.keyword in keywords && q.location in locations
  {
    var n := |keywords| - 1;
    if q in Plan(keywords[..n], locations) {
      PlanMembers(keywords[..n], locations, q);
    }
  }

  /** The postings found by a sequence of searches, in search order. */
  function Fetched(queries: seq<Query>, net: string -> Reply): (jobs: seq<Job>)
  {
    if queries == [] then []
    else
      var n := |queries| - 1;
      Fetched(queries[..n], net) + ReplyJobs(net(queries[n].QueryText()), queries[n])
  }

  lemma {:induction false} FetchedAppend(a: seq<Query>, b: seq<Query>, net: string -> Reply)
    ensures Fetched(a + b, net) == Fetched(a, net) + Fetched(b, net)
    decreases |b|
  {
    if b == [] {
      assert a + b == a;
    } else {
      var n := |b| - 1;
      InitOfAppend(a, b);
      FetchedAppend(a, b[..n], net);
      AppendAssoc(Fetched(a, net), Fetched(b[..n], net), ReplyJobs(net(b[n].QueryText()), b[n]));
    }
  }

  /** Every posting carries the title and location of one of the searches that were made. */
  lemma {:induction false} FetchedTagged(queries: seq<Query>, net: string -> Reply, job: Job)
    requires job in Fetched(queries, net)
    ensures exists q :: q in queries && job.sourceKeyword == q.keyword && job.location == q.location
  {
    var n := |queries| - 1;
    if job in Fetched(queries[..n], net) {
      FetchedTagged(queries[..n], net, job);
      var q :| q in queries[..n] && job.sourceKeyword == q.keyword && job.location == q.location;
      assert q in queries;
    } else {
      assert queries[n] in queries;
    }
  }

  /** Every posting `fetch_jobs` returns names one of the titles and one of the locations. */
  lemma JobsTagged(keywords: seq<string>, locations: seq<string>, net: string -> Reply, job: Job)
    requires job in Fetched(Plan(keywords, locations), net)
    ensures job.sourceKeyword in keywords && job.location in locations
  {
    FetchedTagged(Plan(keywords, locations), net, job);
    var q :| q in Plan(keywords, locations) && job.sourceKeyword == q.keyword && job.location == q.location;
    PlanMembers(keywords, locations, q);
  }

  /**
   * The inner loop of `fetch_jobs`: the postings read from one reply, in the
   * order of its `data` list.
   */
  method ReadReply(reply: Reply, query: Query) returns (found: seq<Job>)
    ensures found == ReplyJobs(reply, query)
    ensures |found| <= (if reply.Response? then |reply.data| else 0)
  {
    found := [];
    if reply.Response? && reply.status == StatusOk {
      var data := reply.data;
      // A non-object element raises here; the `try` around the request ends the reply.
      var k := 0;
      while k < |data| && data[k].Entry?
        invariant k <= |data|
        invariant found + ItemJobs(data[k..], query) == ItemJobs(data, query)
      {
        assert data[k..][1..] == data[k + 1..];
        found := found + [JobOf(data[k].fields, query)];
        k := k + 1;
      }
      assert ItemJobs(data[k..], query) == [];
    }
  }

  /**
   * The inner loop of `fetch_jobs` for one title: one search per location, in
   * order; returns the postings found and, as `row`, the searches made.
   */
  method FetchRow(keyword: string, locations: seq<string>, net: string -> Reply)
    returns (found: seq<Job>, row: seq<Query>)
    ensures row == Row(keyword, locations)
    ensures found == Fetched(row, net)
  {
    found, row := [], [];
    for j := 0 to |locations|
      invariant row == Row(keyword, locations[..j])
      invariant found == Fetched(row, net)
    {
      var query := Query(keyword, locations[j]);
      var reply := net(query.QueryText());
      var more := ReadReply(reply, query);
      RowExtend(keyword, locations, j);
      InitOfAppend(row, [query]);
      found, row := found + more, row + [query];
    }
    assert locations[..|locations|] == locations;
  }

  /**
   * `fetch_jobs(keywords, locations)`: returns the postings and, as `issued`,
   * the searches it made, in the order it made them.
   */
  method FetchJobs(keywords: seq<string>, locations: seq<string>, net: string -> Reply)
    returns (jobs: seq<Job>, issued: seq<Query>)
    ensures issued == Plan(keywords, locations)
    ensures |issued| == |keywords| * |locations|
    ensures jobs == Fetched(issued, net)
  {
    jobs, issued := [], [];
    for i := 0 to |keywords|
      invariant issued == Plan(keywords[..i], locations)
      invariant jobs == Fetched(issued, net)
    {
      var found, row := FetchRow(keywords[i], locations, net);
      FetchedAppend(issued, row, net);
      assert keywords[..i + 1][..i] == keywords[..i];
      jobs, issued := jobs + found, issued + row;
    }
    assert keywords[..|keywords|] == keywords;
  }
}
