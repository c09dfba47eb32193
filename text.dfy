/**
 * The string primitives the job matcher relies on, as Python defines them:
 * `str.split(sep)`, `sep.join(parts)`, `str.strip()`, the substring test
 * `kw in s` and the lower-casing used before that test.
 */
module Text {

  /** Python's `str.isspace` characters: the ones `str.strip()` removes. */
  predicate IsSpace(c: char) {
    var n := c as int;
    n == 0x20 || 0x09 <= n <= 0x0D || 0x1C <= n <= 0x1F || n == 0x85 || n == 0xA0
    || n == 0x1680 || 0x2000 <= n <= 0x200A || n == 0x2028 || n == 0x2029
    || n == 0x202F || n == 0x205F || n == 0x3000
  }

  predicate AllSpace(s: string) {
    forall i :: 0 <= i < |s| ==> IsSpace(s[i])
  }

  /** A string with no whitespace at either end, as `str.strip()` leaves it. */
  predicate IsStripped(s: string) {
    s == [] || (!IsSpace(s[0]) && !IsSpace(s[|s| - 1]))
  }

  /** `s.lstrip()`: the suffix left after the leading whitespace. */
  function TrimStart(s: string): (r: string)
    ensures |r| <= |s| && r == s[|s| - |r|..]
    ensures AllSpace(s[..|s| - |r|])
    ensures r == [] || !IsSpace(r[0])
  {
    if s != [] && IsSpace(s[0]) then
      var r := TrimStart(s[1..]);
      assert s[..|s| - |r|] == [s[0]] + s[1..][..|s| - 1 - |r|];
      r
    else s
  }

  /** `s.rstrip()`: the prefix left before the trailing whitespace. */
  function TrimEnd(s: string): (r: string)
    ensures |r| <= |s| && r == s[..|r|]
    ensures AllSpace(s[|r|..])
    ensures r == [] || !IsSpace(r[|r| - 1])
  {
    if s != [] && IsSpace(s[|s| - 1]) then
      var r := TrimEnd(s[..|s| - 1]);
      assert s[|r|..] == s[..|s| - 1][|r|..] + [s[|s| - 1]];
      r
    else s
  }

  /** `s.strip()`: `s` with its leading and trailing whitespace removed. */
  function Strip(s: string): (r: string)
    ensures r == [] <==> AllSpace(s)
    ensures IsStripped(r)
  {
    var t := TrimStart(s);
    var r := TrimEnd(t);
    TrimBothEnds(s, t, r);
    assert IsStripped(r) by {
      assert r != [] ==> r[0] == t[0];
    }
    r
  }

  /** What `Strip` removes is whitespace, from the two ends only. */
  lemma StripRemovesEnds(s: string)
    ensures exists a, b :: AllSpace(a) && AllSpace(b) && s == a + Strip(s) + b
  {
    var t := TrimStart(s);
    var r := TrimEnd(t);
    assert r == Strip(s);
    TrimBothEnds(s, t, r);
    var a, b := s[..|s| - |t|], t[|r|..];
    assert AllSpace(a);
    assert AllSpace(b);
    assert s == a + Strip(s) + b;
  }

  lemma TrimBothEnds(s: string, t: string, r: string)
    requires t == TrimStart(s) && r == TrimEnd(t)
    ensures s == s[..|s| - |t|] + r + t[|r|..]
    ensures r == [] <==> AllSpace(s)
  {
    TrimLeavesMiddle(s, t, r);
    if r == [] {
      assert t == [] by { assert t[|r|..] == t; }
      assert s == s[..|s| - |t|];
    } else {
      assert !IsSpace(s[|s| - |t|]) by { assert s[|s| - |t|] == t[0]; }
    }
  }

  lemma TrimLeavesMiddle(s: string, t: string, r: string)
    requires |t| <= |s| && t == s[|s| - |t|..] && |r| <= |t| && r == t[..|r|]
    ensures s == s[..|s| - |t|] + r + t[|r|..]
  {
    assert t == r + t[|r|..];
  }

  /** Stripping leaves exactly the stripped strings unchanged. */
  lemma StripFixpoint(s: string)
    ensures Strip(s) == s <==> IsStripped(s)
  {
    if IsStripped(s) && s != [] {
      assert TrimStart(s) == s;
      assert TrimEnd(s) == s;
    }
  }

  /** The characters `LowerChar` changes: the ASCII capitals and KELVIN SIGN (U+212A). */
  predicate IsUpper(c: char) {
    'A' <= c <= 'Z' || c == '\U{212A}'
  }

  /** The ASCII letters, and KELVIN SIGN, lower-cased as Python's `str.lower` does. */
  function LowerChar(c: char): (r: char)
    ensures !IsUpper(r)
    ensures r != c <==> IsUpper(c)
  {
    if 'A' <= c <= 'Z' then (c as int + 32) as char
    else if c == '\U{212A}' then 'k'
    else c
  }

  /** `s.lower()`: no capital is left, and every other character stays where it was. */
  function Lower(s: string): (r: string)
    ensures |r| == |s|
    ensures forall i :: 0 <= i < |r| ==> !IsUpper(r[i])
    ensures forall i :: 0 <= i < |s| ==> (r[i] == s[i] <==> !IsUpper(s[i]))
  {
    seq(|s|, i requires 0 <= i < |s| => LowerChar(s[i]))
  }

  /** Each ASCII capital becomes the small letter at the same place in the alphabet, and KELVIN SIGN becomes `k`. */
  lemma LowerCharTable()
    ensures forall k :: 0 <= k < 26 ==>
      LowerChar("ABCDEFGHIJKLMNOPQRSTUVWXYZ"[k]) == "abcdefghijklmnopqrstuvwxyz"[k]
    ensures LowerChar('\U{212A}') == 'k'
  {
  }

  /** Lower-casing twice is lower-casing once. */
  lemma LowerIdempotent(s: string)
    ensures Lower(Lower(s)) == Lower(s)
  {
  }

  lemma LowerAppend(a: string, b: string)
    ensures Lower(a + b) == Lower(a) + Lower(b)
  {
    assert forall i :: 0 <= i < |a + b| ==> Lower(a + b)[i] == (Lower(a) + Lower(b))[i];
  }

  /** Python's `p in s` for strings: `p` occurs in `s` as a contiguous piece. */
  predicate Infix(p: string, s: string)
    decreases |s|
  {
    p <= s || (s != [] && Infix(p, s[1..]))
  }

  /** An occurrence in `x` is still an occurrence once something is appended to `x`. */
  lemma {:induction false} InfixExtend(p: string, x: string, y: string)
    requires Infix(p, x)
    ensures Infix(p, x + y)
  {
    if !(p <= x) {
      InfixExtend(p, x[1..], y);
      assert (x + y)[1..] == x[1..] + y;
    }
  }

  /** An occurrence in `y` is still an occurrence once something is put in front of `y`. */
  lemma {:induction false} InfixPrepend(p: string, x: string, y: string)
    requires Infix(p, y)
    ensures Infix(p, x + y)
  {
    if x == [] {
      assert x + y == y;
    } else {
      InfixPrepend(p, x[1..], y);
      assert (x + y)[1..] == x[1..] + y;
    }
  }

  /**
   * Python's `s.split(sep)` for a non-empty separator: the pieces between the
   * leftmost non-overlapping occurrences of `sep`; always at least one piece.
   */
  function Split(s: string, sep: string): (r: seq<string>)
    requires sep != []
    ensures r != []
    decreases |s|
  {
    if |s| < |sep| then [s]
    else if sep <= s then [[]] + Split(s[|sep|..], sep)
    else
      var rest := Split(s[1..], sep);
      [[s[0]] + rest[0]] + rest[1..]
  }

  /** Python's `sep.join(parts)`. */
  function Join(sep: string, parts: seq<string>): (r: string)
    ensures parts != [] ==> parts[0] <= r
  {
    if parts == [] then []
    else if |parts| == 1 then parts[0]
    else parts[0] + sep + Join(sep, parts[1..])
  }

  lemma JoinConsChar(sep: string, c: char, parts: seq<string>)
    requires parts != []
    ensures Join(sep, [[c] + parts[0]] + parts[1..]) == [c] + Join(sep, parts)
  {
    var ps := [[c] + parts[0]] + parts[1..];
    assert ps[1..] == parts[1..];
  }

  /** Joining the pieces of a split with its separator gives back the original string. */
  lemma {:induction false} JoinSplit(s: string, sep: string)
    requires sep != []
    ensures Join(sep, Split(s, sep)) == s
    decreases |s|
  {
    if |s| < |sep| {
    } else if sep <= s {
      var rest := Split(s[|sep|..], sep);
      JoinSplit(s[|sep|..], sep);
      assert ([[]] + rest)[1..] == rest;
      assert s == sep + s[|sep|..];
    } else {
      var rest := Split(s[1..], sep);
      JoinSplit(s[1..], sep);
      JoinConsChar(sep, s[0], rest);
      assert s == [s[0]] + s[1..];
    }
  }

  /** No piece of a split on a one-character separator contains that character. */
  lemma {:induction false} SplitAvoidsSep(s: string, c: char)
    ensures forall p :: p in Split(s, [c]) ==> c !in p
    decreases |s|
  {
    if |s| < 1 {
    } else if [c] <= s {
      SplitAvoidsSep(s[1..], c);
    } else {
      SplitAvoidsSep(s[1..], c);
      assert s[0] != c;
    }
  }

  /** A string without the separator character splits into itself alone. */
  lemma {:induction false} SplitWithoutSep(s: string, c: char)
    requires c !in s
    ensures Split(s, [c]) == [s]
    decreases |s|
  {
    if |s| >= 1 {
      assert s[0] in s;
      SplitWithoutSep(s[1..], c);
      assert [s[0]] + s[1..] == s;
    }
  }

  /** Joining pieces and a separator that avoid `c` gives a string that avoids `c`. */
  /** Joining two non-empty runs of parts puts one separator between their joins. */
  lemma {:induction false} JoinAppend(sep: string, a: seq<string>, b: seq<string>)
    requires a != [] && b != []
    ensures Join(sep, a + b) == Join(sep, a) + sep + Join(sep, b)
    decreases |a|
  {
    assert (a + b)[0] == a[0] && (a + b)[1..] == a[1..] + b;
    if |a| > 1 {
      JoinAppend(sep, a[1..], b);
      var rest := Join(sep, a[1..]);
      assert a[0] + sep + (rest + sep + Join(sep, b)) == (a[0] + sep + rest) + sep + Join(sep, b);
    }
  }

  /** Every part occurs in the joined string. */
  lemma {:induction false} JoinContainsParts(sep: string, parts: seq<string>, p: string)
    requires p in parts
    ensures Infix(p, Join(sep, parts))
  {
    if p == parts[0] {
      assert p <= Join(sep, parts);
    } else {
      assert p in parts[1..];
      JoinContainsParts(sep, parts[1..], p);
      InfixPrepend(p, parts[0] + sep, Join(sep, parts[1..]));
    }
  }

  lemma {:induction false} JoinAvoids(sep: string, parts: seq<string>, c: char)
    requires c !in sep && forall p :: p in parts ==> c !in p
    ensures c !in Join(sep, parts)
  {
    if |parts| > 1 {
      JoinAvoids(sep, parts[1..], c);
    }
  }

  /** Joining blank pieces with a blank separator gives a blank string. */
  lemma {:induction false} JoinAllSpace(sep: string, parts: seq<string>)
    requires AllSpace(sep) && forall p :: p in parts ==> AllSpace(p)
    ensures AllSpace(Join(sep, parts))
  {
    if |parts| > 1 {
      JoinAllSpace(sep, parts[1..]);
      assert parts[0] in parts;
    }
  }
}
