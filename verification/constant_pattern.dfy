// The constant scan of processJavaFile: repeated Matcher.find() of the pattern
// `/\*\*(.*?)\*/\s*(\w+)(\((.*?)\))?` (DOTALL) over one trimmed enum body.
module ConstantPattern {
  import opened JavaText

  // One match: it starts at `start` with `/**`, group 1 is s[start + 3..commentEnd],
  // `*/` sits at commentEnd, group 2 is s[nameStart..nameEnd], and when group 3 took
  // part, s[nameEnd] is `(`, `close` is the index of its `)` and group 4 is
  // s[nameEnd + 1..close].
  datatype ConstMatch = ConstMatch(start: nat, commentEnd: nat, nameStart: nat, nameEnd: nat, close: Option<nat>)
  {
    /** Where the next find() resumes. */
    function End(): nat {
      if close.Some? then close.value + 1 else nameEnd
    }
  }

  /** `m` is one way for the pattern to match s at m.start, whatever the quantifiers prefer. */
  predicate IsConstantShape(s: string, m: ConstMatch) {
    && m.start + 3 <= m.commentEnd
    && m.commentEnd + 2 <= m.nameStart < m.nameEnd <= |s|
    && s[m.start..m.start + 3] == "/**"
    && s[m.commentEnd..m.commentEnd + 2] == "*/"
    && AllSpace(s, m.commentEnd + 2, m.nameStart)
    && AllWord(s, m.nameStart, m.nameEnd)
    && (m.close.Some? ==> m.nameEnd < m.close.value < |s| && s[m.nameEnd] == '(' && s[m.close.value] == ')')
  }

  /**
   * The way Java's backtracking matcher picks among the shapes at one position:
   * the lazy comment is the shortest any shape allows, the greedy name is the
   * whole word run, the greedy optional group is taken whenever a `)` follows the
   * `(`, and the lazy argument stops at the first `)`.
   */
  ghost predicate IsConstantMatch(s: string, m: ConstMatch) {
    && IsConstantShape(s, m)
    && (forall m' :: IsConstantShape(s, m') && m'.start == m.start ==> m.commentEnd <= m'.commentEnd)
    && (m.nameEnd == |s| || !IsWord(s[m.nameEnd]))
    && (match m.close
        case Some(c) => forall k :: m.nameEnd < k < c ==> s[k] != ')'
        case None => !(m.nameEnd < |s| && s[m.nameEnd] == '(' && exists k :: m.nameEnd < k < |s| && s[k] == ')'))
  }

  // A comment ending at `ce` lets the rest of the pattern match: `*/`, optional spaces, a word char.
  predicate CommentCloses(s: string, ce: nat)
    requires ce <= |s|
  {
    ce + 2 <= |s| && s[ce..ce + 2] == "*/" && SpaceRunEnd(s, ce + 2) < |s| && IsWord(s[SpaceRunEnd(s, ce + 2)])
  }

  /** The lazy `(.*?)`: the first end position, at or after `ce`, for which the rest matches. */
  function LazyCommentEnd(s: string, ce: nat): (r: Option<nat>)
    requires ce <= |s|
    ensures r.Some? ==> ce <= r.value <= |s| && CommentCloses(s, r.value)
    ensures r.Some? ==> forall c :: ce <= c < r.value ==> !CommentCloses(s, c)
    ensures r.None? ==> forall c :: ce <= c <= |s| ==> !CommentCloses(s, c)
    decreases |s| - ce
  {
    if CommentCloses(s, ce) then Some(ce)
    else if ce == |s| then None
    else LazyCommentEnd(s, ce + 1)
  }

  /** The match attempt at position i. */
  function MatchConstantAt(s: string, i: nat): (r: Option<ConstMatch>)
    requires i <= |s|
    ensures r.Some? ==> r.value.start == i && IsConstantShape(s, r.value)
  {
    if i + 3 <= |s| && s[i..i + 3] == "/**" then
      match LazyCommentEnd(s, i + 3)
      case None => None
      case Some(ce) =>
        var nameStart := SpaceRunEnd(s, ce + 2);
        var nameEnd := WordRunEnd(s, nameStart);
        var close := if nameEnd < |s| && s[nameEnd] == '(' then IndexOf(s, ')', nameEnd + 1) else None;
        Some(ConstMatch(i, ce, nameStart, nameEnd, close))
    else None
  }

  /** Every shape ends its comment at a position where the rest of the pattern matches. */
  lemma ShapeCloses(s: string, m: ConstMatch)
    requires IsConstantShape(s, m)
    ensures CommentCloses(s, m.commentEnd)
    ensures SpaceRunEnd(s, m.commentEnd + 2) == m.nameStart
  {
    SpaceRunEndUnique(s, m.commentEnd + 2, m.nameStart);
  }

  /** What MatchConstantAt finds is the match Java's matcher reports. */
  lemma MatchConstantAtIsJavaChoice(s: string, i: nat)
    requires i <= |s| && MatchConstantAt(s, i).Some?
    ensures IsConstantMatch(s, MatchConstantAt(s, i).value)
  {
    var m := MatchConstantAt(s, i).value;
    forall m' | IsConstantShape(s, m') && m'.start == i
      ensures m.commentEnd <= m'.commentEnd
    {
      ShapeCloses(s, m');
    }
  }

  /** Wherever the pattern can match, MatchConstantAt finds a match. */
  lemma MatchConstantAtComplete(s: string, m: ConstMatch)
    requires IsConstantShape(s, m)
    ensures MatchConstantAt(s, m.start).Some?
  {
    ShapeCloses(s, m);
  }

  /** Java's choice at a position is unique, and it is what MatchConstantAt returns. */
  lemma JavaChoiceIsMatchConstantAt(s: string, m: ConstMatch)
    requires IsConstantMatch(s, m)
    ensures MatchConstantAt(s, m.start) == Some(m)
  {
    MatchConstantAtComplete(s, m);
    var r := MatchConstantAt(s, m.start).value;
    ShapeCloses(s, m);
    ShapeCloses(s, r);
    assert r.commentEnd == m.commentEnd;
    WordRunEndUnique(s, m.nameStart, m.nameEnd);
    match m.close {
      case Some(c) =>
      case None =>
        if m.nameEnd < |s| && s[m.nameEnd] == '(' {
          assert IndexOf(s, ')', m.nameEnd + 1).None?;
        }
    }
  }

  /** Matcher.find() from `from`: the leftmost position at or after `from` where the pattern matches. */
  function FindConstant(s: string, from: nat): (r: Option<ConstMatch>)
    requires from <= |s|
    ensures r.Some? ==> from <= r.value.start <= |s| && MatchConstantAt(s, r.value.start) == r
    ensures r.Some? ==> forall i :: from <= i < r.value.start ==> MatchConstantAt(s, i).None?
    ensures r.None? ==> forall i :: from <= i <= |s| ==> MatchConstantAt(s, i).None?
    decreases |s| - from
  {
    var here := MatchConstantAt(s, from);
    if here.Some? || from == |s| then here
    else
      var later := FindConstant(s, from + 1);
      assert forall i :: from < i <= |s| && (later.None? || i < later.value.start) ==> MatchConstantAt(s, i).None?;
      later
  }

  /** The matches of the inner `while (enumConstantMatcher.find())` loop, from `from` on, in order. */
  function ScanConstants(s: string, from: nat): (ms: seq<ConstMatch>)
    requires from <= |s|
    ensures forall k :: 0 <= k < |ms| ==> IsConstantShape(s, ms[k]) && from <= ms[k].start && ms[k].End() <= |s|
    ensures forall k :: 0 < k < |ms| ==> ms[k - 1].End() <= ms[k].start
    decreases |s| - from
  {
    var found := FindConstant(s, from);
    if found.None? then []
    else
      var m := found.value;
      var rest := ScanConstants(s, m.End());
      ScanConstantsCons(s, from, m, rest);
      [m] + rest
  }

  lemma ScanConstantsCons(s: string, from: nat, m: ConstMatch, rest: seq<ConstMatch>)
    requires IsConstantShape(s, m) && from <= m.start && m.End() <= |s|
    requires forall k :: 0 <= k < |rest| ==> IsConstantShape(s, rest[k]) && m.End() <= rest[k].start && rest[k].End() <= |s|
    requires forall k :: 0 < k < |rest| ==> rest[k - 1].End() <= rest[k].start
    ensures forall k :: 0 <= k < |[m] + rest| ==> IsConstantShape(s, ([m] + rest)[k]) && from <= ([m] + rest)[k].start && ([m] + rest)[k].End() <= |s|
    ensures forall k :: 0 < k < |[m] + rest| ==> ([m] + rest)[k - 1].End() <= ([m] + rest)[k].start
  {
    var ms := [m] + rest;
    assert forall k :: 0 < k < |ms| ==> ms[k] == rest[k - 1];
  }

  /** Every scanned match is the one Java's matcher reports at its position. */
  lemma ScannedAreJavaChoices(s: string, from: nat, k: nat)
    requires from <= |s| && k < |ScanConstants(s, from)|
    ensures IsConstantMatch(s, ScanConstants(s, from)[k])
  {
    var m := ScanConstants(s, from)[k];
    assert m.start <= |s|;
    JavaChoiceOfScanned(s, from, k);
    MatchConstantAtIsJavaChoice(s, m.start);
  }

  lemma {:induction false} JavaChoiceOfScanned(s: string, from: nat, k: nat)
    requires from <= |s| && k < |ScanConstants(s, from)|
    ensures ScanConstants(s, from)[k].start <= |s|
    ensures MatchConstantAt(s, ScanConstants(s, from)[k].start) == Some(ScanConstants(s, from)[k])
    decreases |s| - from
  {
    var first := FindConstant(s, from).value;
    if k > 0 {
      JavaChoiceOfScanned(s, first.End(), k - 1);
    }
  }

  // The scan finds nothing exactly when the body holds no `/** ... */ name` at all.
  lemma ScanConstantsEmptyIff(s: string)
    ensures ScanConstants(s, 0) == [] <==> forall m :: !IsConstantShape(s, m)
  {
    if ScanConstants(s, 0) == [] {
      forall m | IsConstantShape(s, m) ensures false {
        MatchConstantAtComplete(s, m);
      }
    } else {
      assert IsConstantShape(s, ScanConstants(s, 0)[0]);
    }
  }

  /**
   * Nothing is skipped: every place at or after `from` where the pattern can match
   * lies inside one of the scanned matches.
   */
  lemma ScanConstantsCovers(s: string, from: nat, m: ConstMatch)
    requires from <= |s| && IsConstantShape(s, m) && from <= m.start
    ensures exists k :: 0 <= k < |ScanConstants(s, from)| && ScanConstants(s, from)[k].start <= m.start < ScanConstants(s, from)[k].End()
  {
    MatchConstantAtComplete(s, m);
    ScanConstantsCoversAt(s, from, m.start);
  }

  lemma {:induction false} ScanConstantsCoversAt(s: string, from: nat, p: nat)
    requires from <= p <= |s| && MatchConstantAt(s, p).Some?
    ensures exists k :: 0 <= k < |ScanConstants(s, from)| && ScanConstants(s, from)[k].start <= p < ScanConstants(s, from)[k].End()
    decreases |s| - from
  {
    var first := FindConstant(s, from).value;
    var ms := ScanConstants(s, from);
    var rest := ScanConstants(s, first.End());
    assert ms == [first] + rest;
    if p < first.End() {
      assert ms[0].start <= p < ms[0].End();
    } else {
      ScanConstantsCoversAt(s, first.End(), p);
      var k :| 0 <= k < |rest| && rest[k].start <= p < rest[k].End();
      assert ms[k + 1] == rest[k];
      assert ms[k + 1].start <= p < ms[k + 1].End();
    }
  }
}
