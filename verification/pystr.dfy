/** The Python `str` operations the chatbot uses to pick a handler and pull its
    argument out of an utterance: substring test (`p in s`), deletion of a literal
    (`s.replace(p, "")`), `s.count(p)`, `s.strip()`, `s.lower()`, and joining and
    splitting on a one-character separator. Strings are sequences of characters;
    whitespace and case are the ASCII part of Python's definitions. */
module PyStr {

  // ---------------------------------------------------------------------------
  // Substring test
  // ---------------------------------------------------------------------------

  /** `p` is a prefix of `s` (Python's `s.startswith(p)`). */
  predicate IsPrefix(p: string, s: string) {
    |p| <= |s| && s[..|p|] == p
  }

  /** Python's `p in s`, computed by a left-to-right scan. The empty string is
      contained in every string. */
  predicate Contains(s: string, p: string)
    ensures Contains(s, p) ==> |p| <= |s|
    decreases |s|
  {
    IsPrefix(p, s) || (|s| > 0 && Contains(s[1..], p))
  }

  /** `p` occurs in `s` starting at index `i`: the reference meaning of `in`. */
  ghost predicate OccursAt(s: string, p: string, i: int) {
    0 <= i && i + |p| <= |s| && s[i..i + |p|] == p
  }

  /** The scan agrees with the reference meaning of substring containment. */
  lemma {:induction false} ContainsIffOccurs(s: string, p: string)
    ensures Contains(s, p) <==> exists i :: OccursAt(s, p, i)
    decreases |s|
  {
    if IsPrefix(p, s) {
      assert OccursAt(s, p, 0);
    } else if |s| == 0 {
      assert !Contains(s, p);
    } else {
      ContainsIffOccurs(s[1..], p);
      if exists i :: OccursAt(s, p, i) {
        var i :| OccursAt(s, p, i);
        assert i != 0;
        assert s[1..][i - 1..i - 1 + |p|] == s[i..i + |p|];
        assert OccursAt(s[1..], p, i - 1);
      }
      if exists j :: OccursAt(s[1..], p, j) {
        var j :| OccursAt(s[1..], p, j);
        assert s[1..][j..j + |p|] == s[j + 1..j + 1 + |p|];
        assert OccursAt(s, p, j + 1);
      }
    }
  }

  /** A one-character string is contained exactly when the character occurs. */
  lemma ContainsChar(s: string, c: char)
    ensures Contains(s, [c]) <==> c in s
  {
    ContainsIffOccurs(s, [c]);
    if c in s {
      var i :| 0 <= i < |s| && s[i] == c;
      assert s[i..i + 1] == [c];
      assert OccursAt(s, [c], i);
    }
    if exists i :: OccursAt(s, [c], i) {
      var i :| OccursAt(s, [c], i);
      assert s[i..i + 1][0] == s[i];
    }
  }

  /** `p` is contained in any string that has `p` as a middle segment. */
  lemma ContainsSegment(a: string, p: string, b: string)
    ensures Contains(a + p + b, p)
  {
    var s := a + p + b;
    assert s[|a|..|a| + |p|] == p;
    assert OccursAt(s, p, |a|);
    ContainsIffOccurs(s, p);
  }

  /** Whatever a slice contains, the whole string contains. */
  lemma ContainsInSlice(s: string, i: int, j: int, p: string)
    requires 0 <= i <= j <= |s|
    requires Contains(s[i..j], p)
    ensures Contains(s, p)
  {
    ContainsIffOccurs(s[i..j], p);
    var t := s[i..j];
    var k :| OccursAt(t, p, k);
    var a, b := s[i + k..i + k + |p|], t[k..k + |p|];
    assert forall m :: 0 <= m < |p| ==> a[m] == b[m];
    assert a == p;
    assert OccursAt(s, p, i + k);
    ContainsIffOccurs(s, p);
  }

  // ---------------------------------------------------------------------------
  // Deleting every occurrence of a literal: s.replace(p, "") and s.count(p)
  // ---------------------------------------------------------------------------

  /** Python's `s.replace(p, "")`: the occurrences of `p` found by a left-to-right
      scan that resumes after each match (so they never overlap) are deleted. With
      an empty `p` Python inserts the empty replacement between characters, which
      leaves `s` as it is. */
  function RemoveAll(s: string, p: string): (r: string)
    ensures |r| <= |s|
    ensures forall c :: c in r ==> c in s
    decreases |s|
  {
    if |p| == 0 || |s| == 0 then s
    else if IsPrefix(p, s) then RemoveAll(s[|p|..], p)
    else [s[0]] + RemoveAll(s[1..], p)
  }

  /** Python's `s.count(p)`: the number of non-overlapping occurrences found by the
      same left-to-right scan; `len(s) + 1` for an empty `p`. */
  function Count(s: string, p: string): nat
    decreases |s|
  {
    if |p| == 0 then |s| + 1
    else if |s| < |p| then 0
    else if IsPrefix(p, s) then 1 + Count(s[|p|..], p)
    else Count(s[1..], p)
  }

  /** Python's identity `len(s.replace(p, "")) == len(s) - len(p) * s.count(p)`:
      deletion removes exactly the counted occurrences and nothing else. */
  lemma {:induction false} RemoveAllLength(s: string, p: string)
    requires |p| > 0
    ensures |RemoveAll(s, p)| + |p| * Count(s, p) == |s|
    decreases |s|
  {
    if |s| < |p| {
      RemoveAllSkipsShort(s, p);
    } else if IsPrefix(p, s) {
      var rest := s[|p|..];
      RemoveAllLength(rest, p);
      var c := Count(rest, p);
      assert RemoveAll(s, p) == RemoveAll(rest, p);
      assert Count(s, p) == 1 + c;
      MulSucc(|p|, c);
    } else {
      RemoveAllLength(s[1..], p);
      assert RemoveAll(s, p) == [s[0]] + RemoveAll(s[1..], p);
      assert Count(s, p) == Count(s[1..], p);
    }
  }

  lemma MulSucc(a: int, c: int)
    ensures a * (1 + c) == a + a * c
  {
  }

  /** A stretch free of the pattern's first character is kept as it is. */
  lemma {:induction false} RemoveAllKeepsFreeStretch(a: string, b: string, p: string)
    requires |p| > 0 && p[0] !in a
    ensures RemoveAll(a + b, p) == a + RemoveAll(b, p)
    decreases |a|
  {
    if |a| > 0 {
      RemoveAllKeepsFreeStretch(a[1..], b, p);
      assert (a + b)[1..] == a[1..] + b;
      assert (a + b)[0] == a[0];
      assert a == [a[0]] + a[1..];
    } else {
      assert a + b == b;
    }
  }

  /** A leading occurrence of the pattern is deleted. */
  lemma RemoveAllLeading(b: string, p: string)
    requires |p| > 0
    ensures RemoveAll(p + b, p) == RemoveAll(b, p)
  {
    assert (p + b)[..|p|] == p;
    assert (p + b)[|p|..] == b;
  }

  /** A string without the pattern's first character does not contain it. */
  lemma {:induction false} ContainsNeedsFirstChar(s: string, p: string)
    requires |p| > 0 && p[0] !in s
    ensures !Contains(s, p)
    decreases |s|
  {
    if |s| > 0 {
      ContainsNeedsFirstChar(s[1..], p);
      assert s[0] in s;
    }
  }

  /** A string shorter than the pattern is neither changed nor counted. */
  lemma {:induction false} RemoveAllSkipsShort(s: string, p: string)
    requires |s| < |p|
    ensures RemoveAll(s, p) == s && Count(s, p) == 0
    decreases |s|
  {
    if |s| > 0 {
      RemoveAllSkipsShort(s[1..], p);
    }
  }

  /** A non-empty pattern is counted at least once exactly when it occurs. */
  lemma {:induction false} CountPositiveIffContains(s: string, p: string)
    requires |p| > 0
    ensures Count(s, p) > 0 <==> Contains(s, p)
    decreases |s|
  {
    if |s| < |p| {
      RemoveAllSkipsShort(s, p);
      ShortContainsNothing(s, p);
    } else if !IsPrefix(p, s) {
      CountPositiveIffContains(s[1..], p);
    }
  }

  /** A string shorter than a pattern does not contain it. */
  lemma {:induction false} ShortContainsNothing(s: string, p: string)
    requires |s| < |p|
    ensures !Contains(s, p)
    decreases |s|
  {
    if |s| > 0 {
      ShortContainsNothing(s[1..], p);
    }
  }

  /** Deleting `p` changes the string exactly when `p` is non-empty and occurs. */
  lemma RemoveAllIdentityIff(s: string, p: string)
    ensures RemoveAll(s, p) == s <==> (|p| == 0 || !Contains(s, p))
  {
    if |p| > 0 {
      RemoveAllLength(s, p);
      CountPositiveIffContains(s, p);
    }
  }

  /** Deleting a one-character pattern leaves no occurrence of it behind. */
  lemma {:induction false} RemoveSingleCharComplete(s: string, p: string)
    requires |p| == 1
    ensures !Contains(RemoveAll(s, p), p)
    decreases |s|
  {
    if |s| > 0 {
      RemoveSingleCharComplete(s[1..], p);
      if !IsPrefix(p, s) {
        var rest := RemoveAll(s[1..], p);
        assert ([s[0]] + rest)[1..] == rest;
      }
    }
  }

  /** Deletion is not idempotent for longer patterns: the pieces on either side of
      a deleted occurrence can join into a new one. */
  lemma RemovalMayLeavePattern()
    ensures RemoveAll("aadddd", "add") == "add"
    ensures Contains(RemoveAll("aadddd", "add"), "add")
  {
    // The scan passes the first "a", deletes "add" and keeps "a" + "dd".
    var s, p, d := "aadddd", "add", "dd";
    assert s == "a" + p + d;
    assert s[0] == 'a' && s[1] == 'a' && p[1] == 'd';
    assert s[..3][1] != p[1];
    assert !IsPrefix(p, s);
    assert s[1..] == p + d;
    RemoveAllLeading(d, p);
    assert p[0] !in d by { assert d[0] == 'd' && d[1] == 'd'; }
    RemoveAllKeepsFreeStretch(d, [], p);
    assert d + [] == d;
    assert RemoveAll(p + d, p) == d;
    assert RemoveAll(s, p) == [s[0]] + d;
    assert [s[0]] + d == p;
    assert IsPrefix(p, p);
  }

  // ---------------------------------------------------------------------------
  // Deletion described by its gaps
  // ---------------------------------------------------------------------------

  /** The gaps put back together with `p` between each two. */
  function Interleave(gaps: seq<string>, p: string): (s: string)
    requires |gaps| > 0
    ensures IsPrefix(gaps[0], s)
    ensures |gaps| == 1 ==> s == gaps[0]
    decreases |gaps|
  {
    if |gaps| == 1 then gaps[0] else gaps[0] + p + Interleave(gaps[1..], p)
  }

  /** The gaps put back together with nothing between them. */
  function Concat(gaps: seq<string>): (s: string)
    ensures |gaps| > 0 ==> IsPrefix(gaps[0], s)
    decreases |gaps|
  {
    if |gaps| == 0 then [] else gaps[0] + Concat(gaps[1..])
  }

  /** Cutting `s == Interleave(gaps, p)` at these occurrences of `p` is the
      left-to-right, non-overlapping reading: no occurrence of `p` starts inside a
      gap (for a gap followed by `p`, one starting inside it would lie within the
      gap and the first `|p| - 1` characters of `p`), and the last gap holds none. */
  ghost predicate LeftmostGaps(gaps: seq<string>, p: string) {
    && |p| > 0
    && |gaps| > 0
    && (forall k :: 0 <= k < |gaps| - 1 ==> !Contains(gaps[k] + p[..|p| - 1], p))
    && !Contains(gaps[|gaps| - 1], p)
  }

  /** Python's `replace(p, "")` and `count(p)` are determined by the leftmost gaps:
      deleting the occurrences between them leaves the gaps joined together, in
      order, and the occurrences counted are exactly those between the gaps. */
  lemma {:induction false} RemoveAllByGaps(gaps: seq<string>, p: string)
    requires LeftmostGaps(gaps, p)
    ensures RemoveAll(Interleave(gaps, p), p) == Concat(gaps)
    ensures Count(Interleave(gaps, p), p) == |gaps| - 1
    decreases |gaps|
  {
    if |gaps| == 1 {
      RemoveAllIdentityIff(gaps[0], p);
      CountPositiveIffContains(gaps[0], p);
      assert Concat(gaps) == gaps[0] + [];
    } else {
      var rest := Interleave(gaps[1..], p);
      assert LeftmostGaps(gaps[1..], p);
      RemoveAllByGaps(gaps[1..], p);
      GapThenPattern(gaps[0], p, rest);
      assert Interleave(gaps, p) == gaps[0] + p + rest;
    }
  }

  /** A gap in which no occurrence of `p` starts is kept, and the `p` after it is
      deleted and counted. */
  lemma {:induction false} GapThenPattern(g: string, p: string, rest: string)
    requires |p| > 0 && !Contains(g + p[..|p| - 1], p)
    ensures RemoveAll(g + p + rest, p) == g + RemoveAll(rest, p)
    ensures Count(g + p + rest, p) == 1 + Count(rest, p)
    decreases |g|
  {
    var s := g + p + rest;
    if |g| == 0 {
      assert s == p + rest;
      RemoveAllLeading(rest, p);
      assert s[..|p|] == p && s[|p|..] == rest;
    } else {
      GapShapes(g, p, rest);
      var t := g + p[..|p| - 1];
      assert !IsPrefix(p, t);
      assert !IsPrefix(p, s);
      GapThenPattern(g[1..], p, rest);
      assert g == [g[0]] + g[1..];
    }
  }

  /** How a non-empty gap, the pattern after it and its first `|p| - 1`
      characters line up. */
  lemma GapShapes(g: string, p: string, rest: string)
    requires |g| > 0 && |p| > 0
    ensures |p| <= |g + p[..|p| - 1]| && (g + p[..|p| - 1])[..|p|] == (g + p + rest)[..|p|]
    ensures (g + p[..|p| - 1])[1..] == g[1..] + p[..|p| - 1]
    ensures (g + p + rest)[1..] == g[1..] + p + rest && (g + p + rest)[0] == g[0]
  {
    var t := g + p[..|p| - 1];
    var s := g + p + rest;
    forall m | 0 <= m < |p|
      ensures t[m] == s[m]
    {
      if m >= |g| {
        assert t[m] == p[m - |g|] == s[m];
      }
    }
  }

  /** Every string has a leftmost cutting at a non-empty pattern, and the cutting
      gives what `replace(p, "")` and `count(p)` return: together with
      `RemoveAllByGaps`, deletion is exactly "cut at the leftmost non-overlapping
      occurrences and keep the rest in order". */
  lemma {:induction false} RemoveAllDeletesLeftmost(s: string, p: string)
    requires |p| > 0
    ensures exists gaps :: LeftmostGaps(gaps, p) && Interleave(gaps, p) == s
                           && RemoveAll(s, p) == Concat(gaps) && Count(s, p) == |gaps| - 1
  {
    var gaps := LeftmostCut(s, p);
    RemoveAllByGaps(gaps, p);
  }

  /** The leftmost cutting of `s` at `p`, built by the same scan as Python's. */
  ghost function LeftmostCut(s: string, p: string): (gaps: seq<string>)
    requires |p| > 0
    ensures LeftmostGaps(gaps, p) && Interleave(gaps, p) == s
    decreases |s|
  {
    if IsPrefix(p, s) then
      var tail := LeftmostCut(s[|p|..], p);
      CutAtPattern(s, p, tail);
      [[]] + tail
    else if |s| == 0 || !Contains(s[1..], p) then
      [s]
    else
      var tail := LeftmostCut(s[1..], p);
      CutOfContaining(s[1..], p, tail);
      GapPrefix(s, p, tail);
      [[s[0]] + tail[0]] + tail[1..]
  }

  /** An occurrence at the front gives an empty first gap. */
  lemma CutAtPattern(s: string, p: string, tail: seq<string>)
    requires IsPrefix(p, s) && LeftmostGaps(tail, p) && Interleave(tail, p) == s[|p|..]
    ensures LeftmostGaps([[]] + tail, p) && Interleave([[]] + tail, p) == s
  {
    var gaps: seq<string> := [[]] + tail;
    assert gaps[1..] == tail;
    assert Interleave(gaps, p) == [] + p + s[|p|..];
    assert s == p + s[|p|..];
    forall k | 0 <= k < |gaps| - 1
      ensures !Contains(gaps[k] + p[..|p| - 1], p)
    {
      if k == 0 {
        ShortContainsNothing(p[..|p| - 1], p);
        assert gaps[0] + p[..|p| - 1] == p[..|p| - 1];
      } else {
        assert gaps[k] == tail[k - 1];
      }
    }
    assert gaps[|gaps| - 1] == tail[|tail| - 1];
  }

  /** A cutting of a string that contains `p` has more than one gap. */
  lemma CutOfContaining(x: string, p: string, tail: seq<string>)
    requires Contains(x, p) && LeftmostGaps(tail, p) && Interleave(tail, p) == x
    ensures |tail| > 1
  {
  }

  /** One character with no occurrence of `p` at it, put in front of a gap
      followed by `p`, still has no occurrence starting in it. */
  lemma GapPrefix(s: string, p: string, tail: seq<string>)
    requires |p| > 0 && |s| > 0 && !IsPrefix(p, s) && |tail| > 1
    requires LeftmostGaps(tail, p) && Interleave(tail, p) == s[1..]
    ensures LeftmostGaps([[s[0]] + tail[0]] + tail[1..], p)
    ensures Interleave([[s[0]] + tail[0]] + tail[1..], p) == s
  {
    var g := [s[0]] + tail[0];
    var rest := Interleave(tail[1..], p);
    assert s[1..] == tail[0] + p + rest;
    assert !Contains(tail[0] + p[..|p| - 1], p);
    GapPrefixSplice(s, p, tail[0], rest);
    var gaps := [g] + tail[1..];
    assert gaps[0] == g && gaps[1..] == tail[1..];
    assert forall k :: 1 <= k < |gaps| ==> gaps[k] == tail[k];
  }

  /** The string-level half of `GapPrefix`. */
  lemma GapPrefixSplice(s: string, p: string, h: string, rest: string)
    requires |p| > 0 && |s| > 0 && !IsPrefix(p, s)
    requires s[1..] == h + p + rest && !Contains(h + p[..|p| - 1], p)
    ensures !Contains([s[0]] + h + p[..|p| - 1], p)
    ensures s == [s[0]] + h + p + rest
  {
    assert s == [s[0]] + s[1..];
    ConsAssoc(s[0], h, p, rest);
    var q := p[..|p| - 1];
    var t := [s[0]] + h + q;
    ConsTail(s[0], h + q);
    ConsAssoc2(s[0], h, q);
    SpliceStart(s, p, h, rest, t);
    NoMatchAtFront(t, p, s);
  }

  /** Concatenation regrouped after a leading character. */
  lemma ConsAssoc2(c: char, x: string, y: string)
    ensures [c] + (x + y) == [c] + x + y
  {
  }

  /** Dropping the leading character again. */
  lemma ConsTail(c: char, x: string)
    ensures ([c] + x)[1..] == x
  {
  }

  /** Concatenation regrouped after a leading character. */
  lemma ConsAssoc(c: char, x: string, y: string, z: string)
    ensures [c] + (x + y + z) == [c] + x + y + z
  {
  }

  /** The character-then-gap `t` agrees with `s` on its first `|p|` characters. */
  lemma SpliceStart(s: string, p: string, h: string, rest: string, t: string)
    requires |p| > 0 && |s| > 0 && s[1..] == h + p + rest && t == [s[0]] + h + p[..|p| - 1]
    ensures |p| <= |t| && t[..|p|] == s[..|p|]
  {
    forall m | 1 <= m < |p|
      ensures t[m] == s[m]
    {
      assert t[m] == (h + p[..|p| - 1])[m - 1];
      assert s[m] == s[1..][m - 1];
    }
  }

  /** No occurrence starts at the front of `t` when `t` starts like a string
      that does not begin with `p`; with none later, `t` has none. */
  lemma NoMatchAtFront(t: string, p: string, s: string)
    requires |p| > 0 && |p| <= |t| && |p| <= |s| && t[..|p|] == s[..|p|] && !IsPrefix(p, s)
    requires !Contains(t[1..], p)
    ensures !Contains(t, p)
  {
  }

  // ---------------------------------------------------------------------------
  // Whitespace: s.strip()
  // ---------------------------------------------------------------------------

  /** ASCII whitespace as Python's `str.isspace` sees it: tab, line feed, vertical
      tab, form feed, carriage return, the four separators 0x1C-0x1F, and space. */
  predicate IsSpace(c: char) {
    c == ' ' || 9 <= c as int <= 13 || 28 <= c as int <= 31
  }

  ghost predicate AllSpace(s: string) {
    forall i :: 0 <= i < |s| ==> IsSpace(s[i])
  }

  /** `s[i..j]` is `s` with its surrounding whitespace cut off: everything before
      `i` and from `j` on is whitespace, and the slice is either empty or starts
      and ends with a non-whitespace character. */
  ghost predicate TrimmedAt(s: string, i: int, j: int) {
    && 0 <= i <= j <= |s|
    && (forall k :: 0 <= k < i ==> IsSpace(s[k]))
    && (forall k :: j <= k < |s| ==> IsSpace(s[k]))
    && (i == j || (!IsSpace(s[i]) && !IsSpace(s[j - 1])))
  }

  /** How many whitespace characters `s` starts with. */
  function LeadingSpace(s: string): (n: nat)
    ensures n <= |s|
    ensures forall k :: 0 <= k < n ==> IsSpace(s[k])
    ensures n == |s| || !IsSpace(s[n])
    decreases |s|
  {
    if |s| > 0 && IsSpace(s[0]) then
      var n := LeadingSpace(s[1..]);
      assert forall k :: 1 <= k < 1 + n ==> s[k] == s[1..][k - 1];
      1 + n
    else 0
  }

  /** Where `s[..j]` ends once its trailing whitespace, down to position `lo`,
      is cut off. */
  function TrailingCut(s: string, lo: nat, j: nat): (e: nat)
    requires lo <= j <= |s|
    ensures lo <= e <= j
    ensures forall k :: e <= k < j ==> IsSpace(s[k])
    ensures e == lo || !IsSpace(s[e - 1])
    decreases j
  {
    if j > lo && IsSpace(s[j - 1]) then TrailingCut(s, lo, j - 1) else j
  }

  /** Python's `s.strip()`: `s` with its surrounding whitespace cut off. */
  function Strip(s: string): (r: string)
    ensures exists i, j :: TrimmedAt(s, i, j) && r == s[i..j]
  {
    var i := LeadingSpace(s);
    var j := TrailingCut(s, i, |s|);
    assert TrimmedAt(s, i, j);
    s[i..j]
  }

  /** The trimmed slice is unique: any two ways of trimming `s` give the same
      string. */
  lemma TrimmedUnique(s: string, i: int, j: int, i': int, j': int)
    requires TrimmedAt(s, i, j) && TrimmedAt(s, i', j')
    ensures s[i..j] == s[i'..j']
  {
  }

  /** `Strip` returns the trimmed slice, whichever way it is described. */
  lemma StripIsTrimmed(s: string, i: int, j: int)
    requires TrimmedAt(s, i, j)
    ensures Strip(s) == s[i..j]
  {
    var r := Strip(s);
    var i', j' :| TrimmedAt(s, i', j') && r == s[i'..j'];
    TrimmedUnique(s, i, j, i', j');
  }

  /** A string with no surrounding whitespace is its own strip. */
  lemma StripFixed(s: string)
    requires s == [] || (!IsSpace(s[0]) && !IsSpace(s[|s| - 1]))
    ensures Strip(s) == s
  {
    assert s[0..|s|] == s;
    StripIsTrimmed(s, 0, |s|);
  }

  /** Stripping twice is stripping once. */
  lemma StripIdempotent(s: string)
    ensures Strip(Strip(s)) == Strip(s)
  {
    StripFixed(Strip(s));
  }

  /** `s.strip()` is a piece of `s`: no longer, made of the same characters, and
      containing nothing `s` does not. */
  lemma StripIsPiece(s: string)
    ensures |Strip(s)| <= |s|
    ensures forall c :: c in Strip(s) ==> c in s
    ensures forall p :: Contains(Strip(s), p) ==> Contains(s, p)
  {
    var r := Strip(s);
    var i, j :| TrimmedAt(s, i, j) && r == s[i..j];
    forall c | c in r
      ensures c in s
    {
      var m :| 0 <= m < |r| && r[m] == c;
      assert s[i + m] == c;
    }
    forall p | Contains(r, p)
      ensures Contains(s, p)
    {
      ContainsInSlice(s, i, j, p);
    }
  }

  /** `s.strip()` is empty exactly when `s` is all whitespace; otherwise it starts
      and ends with a non-whitespace character. */
  lemma StripEmptyIff(s: string)
    ensures Strip(s) == [] <==> AllSpace(s)
    ensures Strip(s) != [] ==> !IsSpace(Strip(s)[0]) && !IsSpace(Strip(s)[|Strip(s)| - 1])
  {
    var r := Strip(s);
    var i, j :| TrimmedAt(s, i, j) && r == s[i..j];
  }

  // ---------------------------------------------------------------------------
  // Case: s.lower()
  // ---------------------------------------------------------------------------

  predicate IsUpper(c: char) {
    'A' <= c <= 'Z'
  }

  /** Python's `c.lower()` on ASCII characters. */
  function LowerChar(c: char): (d: char)
    ensures !IsUpper(d)
    ensures IsUpper(c) ==> d as int == c as int + 32
    ensures !IsUpper(c) ==> d == c
  {
    if IsUpper(c) then (c as int + 32) as char else c
  }

  /** Python's `s.lower()`, restricted to ASCII letters: the result has the same
      length, no upper-case letter, and every other character in place. */
  function Lower(s: string): (r: string)
    ensures |r| == |s|
    ensures forall i :: 0 <= i < |r| ==> !IsUpper(r[i])
    ensures forall c :: c in r ==> !IsUpper(c)
    ensures forall i :: 0 <= i < |s| && !IsUpper(s[i]) ==> r[i] == s[i]
    ensures forall i :: 0 <= i < |s| && IsUpper(s[i]) ==> r[i] as int == s[i] as int + 32
  {
    seq(|s|, i requires 0 <= i < |s| => LowerChar(s[i]))
  }

  /** Lower-casing removes nothing that needs lower-casing again. */
  lemma LowerIdempotent(s: string)
    ensures Lower(Lower(s)) == Lower(s)
  {
  }

  // ---------------------------------------------------------------------------
  // Joining and splitting on a one-character separator
  // ---------------------------------------------------------------------------

  /** Python's `sep.join(parts)` for a one-character separator. */
  function Join(sep: char, parts: seq<string>): (r: string)
    ensures |parts| == 0 ==> r == []
    ensures |parts| > 0 ==> |r| == TotalLength(parts) + |parts| - 1
    ensures |parts| > 0 ==> IsPrefix(parts[0], r)
    decreases |parts|
  {
    if |parts| == 0 then []
    else if |parts| == 1 then parts[0]
    else parts[0] + [sep] + Join(sep, parts[1..])
  }

  /** The summed length of the parts. */
  function TotalLength(parts: seq<string>): nat
    decreases |parts|
  {
    if |parts| == 0 then 0 else |parts[0]| + TotalLength(parts[1..])
  }

  /** Python's `s.split(sep)` for a one-character separator: the pieces between
      separators, always at least one. */
  function Split(s: string, sep: char): (r: seq<string>)
    ensures |r| >= 1
    decreases |s|
  {
    if |s| == 0 then [[]]
    else
      var rest := Split(s[1..], sep);
      if s[0] == sep then [[]] + rest
      else [[s[0]] + rest[0]] + rest[1..]
  }

  /** Splitting a string whose first piece `t` holds no separator puts `t` in front
      of the first piece of the rest. */
  lemma {:induction false} SplitAfterPlain(t: string, u: string, sep: char)
    requires sep !in t
    ensures Split(t + u, sep) == [t + Split(u, sep)[0]] + Split(u, sep)[1..]
    decreases |t|
  {
    if |t| > 0 {
      SplitAfterPlain(t[1..], u, sep);
      assert (t + u)[1..] == t[1..] + u;
      assert [t[0]] + (t[1..] + Split(u, sep)[0]) == t + Split(u, sep)[0];
    } else {
      var r := Split(u, sep);
      assert t + u == u;
      assert t + r[0] == r[0];
      assert r == [r[0]] + r[1..];
    }
  }

  /** Joining then splitting gives the pieces back when none holds the separator. */
  lemma {:induction false} SplitJoin(parts: seq<string>, sep: char)
    requires |parts| > 0
    requires forall k :: 0 <= k < |parts| ==> sep !in parts[k]
    ensures Split(Join(sep, parts), sep) == parts
    decreases |parts|
  {
    if |parts| == 1 {
      SplitAfterPlain(parts[0], [], sep);
      assert Split([], sep) == [[]];
      assert parts[0] + [] == parts[0];
    } else {
      var tail := Join(sep, parts[1..]);
      SplitJoin(parts[1..], sep);
      assert Join(sep, parts) == parts[0] + ([sep] + tail);
      assert sep !in parts[0];
      SplitAfterPlain(parts[0], [sep] + tail, sep);
      assert ([sep] + tail)[1..] == tail;
      assert Split([sep] + tail, sep) == [[]] + parts[1..];
      assert parts[0] + [] == parts[0];
      assert parts == [parts[0]] + parts[1..];
    }
  }

  /** Splitting then joining gives the string back, whatever it holds. */
  lemma {:induction false} JoinSplit(s: string, sep: char)
    ensures Join(sep, Split(s, sep)) == s
    decreases |s|
  {
    if |s| > 0 {
      var rest := Split(s[1..], sep);
      JoinSplit(s[1..], sep);
      if s[0] == sep {
        assert ([[]] + rest)[1..] == rest;
        assert s == [s[0]] + s[1..];
      } else {
        var parts := [[s[0]] + rest[0]] + rest[1..];
        if |rest| == 1 {
          assert s == [s[0]] + s[1..];
        } else {
          assert parts[1..] == rest[1..];
          assert Join(sep, rest) == rest[0] + [sep] + Join(sep, rest[1..]);
          assert s == [s[0]] + s[1..];
        }
      }
    }
  }

  /** Every piece can be found in the joined string. */
  lemma {:induction false} JoinContainsParts(sep: char, parts: seq<string>, k: int)
    requires 0 <= k < |parts|
    ensures Contains(Join(sep, parts), parts[k])
    decreases |parts|
  {
    if |parts| == 1 {
      ContainsSegment([], parts[0], []);
      assert [] + parts[0] + [] == parts[0];
    } else if k == 0 {
      var rest := [sep] + Join(sep, parts[1..]);
      ContainsSegment([], parts[0], rest);
      assert [] + parts[0] + rest == Join(sep, parts);
    } else {
      JoinContainsParts(sep, parts[1..], k - 1);
      ContainsInSuffix(parts[0] + [sep], Join(sep, parts[1..]), parts[k]);
    }
  }

  /** Whatever a suffix contains, the whole string contains. */
  lemma {:induction false} ContainsInSuffix(a: string, b: string, p: string)
    requires Contains(b, p)
    ensures Contains(a + b, p)
    decreases |a|
  {
    if |a| > 0 {
      ContainsInSuffix(a[1..], b, p);
      assert (a + b)[1..] == a[1..] + b;
    } else {
      assert a + b == b;
    }
  }
}
