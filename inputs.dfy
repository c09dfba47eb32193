/**
 * The two text inputs of the page: the resume, cut into paragraph chunks, and
 * the comma-separated job titles, plus the guard that refuses blank input.
 */
module Inputs {
  import opened Seqs
  import opened Text

  /** The comprehension `[p.strip() for p in pieces if p.strip()]`. */
  function StrippedNonEmpty(pieces: seq<string>): (r: seq<string>)
    ensures |r| <= |pieces|
    ensures forall c :: c in r ==> c != [] && IsStripped(c)
  {
    if pieces == [] then []
    else
      var head := Strip(pieces[0]);
      (if head != [] then [head] else []) + StrippedNonEmpty(pieces[1..])
  }

  /** The results are exactly the non-blank pieces, stripped. */
  lemma {:induction false} StrippedNonEmptyMembers(pieces: seq<string>, c: string)
    ensures c in StrippedNonEmpty(pieces) <==> c != [] && exists j :: 0 <= j < |pieces| && Strip(pieces[j]) == c
  {
    if pieces != [] {
      var head, rest := Strip(pieces[0]), pieces[1..];
      assert StrippedNonEmpty(pieces) == (if head != [] then [head] else []) + StrippedNonEmpty(rest);
      StrippedNonEmptyMembers(rest, c);
      if c != [] && exists j :: 0 <= j < |pieces| && Strip(pieces[j]) == c {
        var j :| 0 <= j < |pieces| && Strip(pieces[j]) == c;
        if j > 0 {
          assert Strip(rest[j - 1]) == c;
        }
      }
      if c in StrippedNonEmpty(rest) {
        var j :| 0 <= j < |rest| && Strip(rest[j]) == c;
        assert Strip(pieces[j + 1]) == c;
      }
    }
  }

  /** The comprehension works piece by piece, so the results keep the order of the pieces. */
  lemma {:induction false} StrippedNonEmptyAppend(a: seq<string>, b: seq<string>)
    ensures StrippedNonEmpty(a + b) == StrippedNonEmpty(a) + StrippedNonEmpty(b)
  {
    if a == [] {
      assert a + b == b;
    } else {
      StrippedNonEmptyAppend(a[1..], b);
      TailOfAppend(a, b);
      var head := Strip(a[0]);
      AppendAssoc(if head != [] then [head] else [], StrippedNonEmpty(a[1..]), StrippedNonEmpty(b));
    }
  }

  const ParagraphBreak: string := "\n\n"

  /** `resume_input.split("\n\n")`, each piece stripped, blank pieces dropped. */
  function ResumeChunks(resume: string): seq<string> {
    StrippedNonEmpty(Split(resume, ParagraphBreak))
  }

  /** `job_keywords_input.split(",")`, each piece stripped, blank pieces dropped. */
  function ParseKeywords(titles: string): seq<string> {
    StrippedNonEmpty(Split(titles, ","))
  }

  /** The guard in front of the pipeline: both inputs are non-blank after stripping. */
  predicate InputsPresent(resume: string, titles: string) {
    Strip(resume) != [] && Strip(titles) != []
  }

  /**
   * A resume that passes the guard yields at least one chunk, so the maximum
   * taken when scoring is over a non-empty list of similarities.
   */
  lemma NonBlankResumeHasChunks(resume: string)
    requires Strip(resume) != []
    ensures ResumeChunks(resume) != []
  {
    ParagraphBreakIsBlank();
    if ResumeChunks(resume) == [] {
      NoneKeptMeansBlank(resume, ParagraphBreak);
      assert false;
    }
  }

  lemma ParagraphBreakIsBlank()
    ensures AllSpace(ParagraphBreak)
  {
    assert ParagraphBreak == ['\n', '\n'];
  }

  /** If no piece of a split on a blank separator survives stripping, the whole text was blank. */
  lemma NoneKeptMeansBlank(s: string, sep: string)
    requires sep != [] && AllSpace(sep)
    requires StrippedNonEmpty(Split(s, sep)) == []
    ensures AllSpace(s)
  {
    var pieces := Split(s, sep);
    AllBlankWhenNoneKept(pieces);
    JoinAllSpace(sep, pieces);
    JoinSplit(s, sep);
  }

  /** When the comprehension keeps nothing, every piece was blank. */
  lemma {:induction false} AllBlankWhenNoneKept(pieces: seq<string>)
    requires StrippedNonEmpty(pieces) == []
    ensures forall p :: p in pieces ==> AllSpace(p)
  {
    if pieces != [] {
      assert Strip(pieces[0]) == [];
      AllBlankWhenNoneKept(pieces[1..]);
      assert forall p :: p in pieces ==> p == pieces[0] || p in pieces[1..];
    }
  }

  /** Every parsed job title is non-empty, has no surrounding whitespace and no comma. */
  lemma KeywordsWellFormed(titles: string)
    ensures forall k :: k in ParseKeywords(titles) ==> k != [] && IsStripped(k) && ',' !in k
  {
    var pieces := Split(titles, ",");
    SplitAvoidsSep(titles, ',');
    forall k | k in ParseKeywords(titles)
      ensures ',' !in k
    {
      StrippedNonEmptyMembers(pieces, k);
      var j :| 0 <= j < |pieces| && Strip(pieces[j]) == k;
      assert pieces[j] in pieces;
      StripRemovesEnds(pieces[j]);
      var a, b :| AllSpace(a) && AllSpace(b) && pieces[j] == a + k + b;
      assert ',' !in a + k + b;
    }
  }

  /** A non-blank title field made only of commas passes the guard yet yields no titles. */
  lemma OnlyCommasYieldNoKeywords()
    ensures Strip(",,,") != [] && ParseKeywords(",,,") == []
  {
    assert !IsSpace(',');
    var e: string := [];
    assert ",,,"[1..] == ",," && ",,"[1..] == "," && ","[1..] == e;
    assert Split(",,,", ",") == [e, e, e, e] by {
      assert Split(e, ",") == [e];
      assert Split(",", ",") == [e] + Split(e, ",");
      assert Split(",,", ",") == [e] + Split(",", ",");
      assert Split(",,,", ",") == [e] + Split(",,", ",");
    }
    assert Strip(e) == [];
    assert StrippedNonEmpty([e]) == [] by { assert [e][1..] == []; }
    assert StrippedNonEmpty([e, e]) == [] by { assert [e, e][1..] == [e]; }
    assert StrippedNonEmpty([e, e, e]) == [] by { assert [e, e, e][1..] == [e, e]; }
    assert StrippedNonEmpty([e, e, e, e]) == [] by { assert [e, e, e, e][1..] == [e, e, e]; }
  }
}
