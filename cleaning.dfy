/**
 * `clean_job_text`: reduces a job description to the lines that look like
 * requirements, so that boilerplate does not dilute the similarity score.
 */
module Cleaning {
  import opened Text

  /** The lower-case fragments that mark a line as being about requirements. */
  const RequirementMarkers: seq<string> := ["responsib", "require", "skill", "qualif"]

  /** A line longer than this many characters is kept whatever it says. */
  const LongLine: nat := 60

  predicate MentionsRequirement(line: string) {
    exists i :: 0 <= i < |RequirementMarkers| && Infix(RequirementMarkers[i], Lower(line))
  }

  predicate IsKept(line: string) {
    MentionsRequirement(line) || |line| > LongLine
  }

  /** The lines of `lines` that are kept, in their original order. */
  function KeptLines(lines: seq<string>): (r: seq<string>)
    ensures |r| <= |lines|
    ensures forall line :: line in r <==> line in lines && IsKept(line)
  {
    if lines == [] then []
    else (if IsKept(lines[0]) then [lines[0]] else []) + KeptLines(lines[1..])
  }

  /** Filtering a concatenation filters each part: the kept lines keep their order. */
  lemma {:induction false} KeptLinesAppend(a: seq<string>, b: seq<string>)
    ensures KeptLines(a + b) == KeptLines(a) + KeptLines(b)
  {
    if a != [] {
      KeptLinesAppend(a[1..], b);
      assert (a + b)[1..] == a[1..] + b;
    } else {
      assert a + b == b;
    }
  }

  /** The job text scored against the resume: the kept lines joined by single spaces. */
  function CleanJobText(text: string): (r: string)
    ensures '\n' !in r
    ensures r == [] <==> KeptLines(Split(text, "\n")) == []
  {
    var kept := KeptLines(Split(text, "\n"));
    SplitAvoidsSep(text, '\n');
    JoinAvoids(" ", kept, '\n');
    EmptyLineDropped();
    assert kept != [] ==> kept[0] != [] by {
      if kept != [] {
        assert kept[0] in kept;
      }
    }
    Join(" ", kept)
  }

  /** Every kept line of the description appears, whole, in the cleaned text. */
  lemma CleanJobTextKeeps(text: string, line: string)
    requires line in Split(text, "\n") && IsKept(line)
    ensures Infix(line, CleanJobText(text))
  {
    JoinContainsParts(" ", KeptLines(Split(text, "\n")), line);
  }

  /**
   * The kept lines of two runs of lines are joined in their input order, with
   * one space between the two runs.
   */
  lemma KeptJoinedInOrder(a: seq<string>, b: seq<string>)
    requires KeptLines(a) != [] && KeptLines(b) != []
    ensures Join(" ", KeptLines(a + b)) == Join(" ", KeptLines(a)) + " " + Join(" ", KeptLines(b))
  {
    KeptLinesAppend(a, b);
    JoinAppend(" ", KeptLines(a), KeptLines(b));
  }

  /** `a` and `b` are the same character, or the two cases of one ASCII letter. */
  predicate AsciiCaseVariants(a: char, b: char) {
    || a == b
    || ('A' <= a <= 'Z' && b as int == a as int + 32)
    || ('A' <= b <= 'Z' && a as int == b as int + 32)
  }

  /** The two lines differ at most in the case of ASCII letters. */
  predicate SameUpToAsciiCase(x: string, y: string) {
    |x| == |y| && forall i :: 0 <= i < |x| ==> AsciiCaseVariants(x[i], y[i])
  }

  /** The keep rule ignores the case of ASCII letters. */
  lemma KeepIgnoresCase(x: string, y: string)
    requires SameUpToAsciiCase(x, y)
    ensures IsKept(x) <==> IsKept(y)
  {
    assert Lower(x) == Lower(y) by {
      forall i | 0 <= i < |x|
        ensures Lower(x)[i] == Lower(y)[i]
      {
        assert AsciiCaseVariants(x[i], y[i]);
      }
    }
  }

  /** The empty line is never kept: it is short and mentions nothing. */
  lemma EmptyLineDropped()
    ensures !IsKept([])
  {
    forall i | 0 <= i < |RequirementMarkers|
      ensures !Infix(RequirementMarkers[i], Lower([]))
    {
      assert RequirementMarkers[i] != [];
    }
  }

  /** A kept line stays kept when more text follows it on the same line. */
  lemma KeptPrefix(line: string, more: string)
    requires IsKept(line)
    ensures IsKept(line + more)
  {
    if MentionsRequirement(line) {
      var i :| 0 <= i < |RequirementMarkers| && Infix(RequirementMarkers[i], Lower(line));
      InfixExtend(RequirementMarkers[i], Lower(line), Lower(more));
      LowerAppend(line, more);
    }
  }

  /** Cleaning an already cleaned text changes nothing. */
  lemma CleanJobTextIdempotent(text: string)
    ensures CleanJobText(CleanJobText(text)) == CleanJobText(text)
  {
    var kept := KeptLines(Split(text, "\n"));
    var out := CleanJobText(text);
    SplitWithoutSep(out, '\n');
    assert Split(out, "\n") == [out];
    if kept == [] {
      EmptyLineDropped();
    } else {
      assert IsKept(kept[0]) by { assert kept[0] in kept; }
      KeptPrefix(kept[0], out[|kept[0]|..]);
      assert kept[0] + out[|kept[0]|..] == out;
    }
    assert KeptLines([out]) == (if IsKept(out) then [out] else []) + KeptLines([]);
  }
}
