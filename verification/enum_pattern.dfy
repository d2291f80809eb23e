/**
 * The enum scan of processJavaFile: repeated Matcher.find() of the pattern
 * `enum\s+(\w+)\s*\{([^}]*)}` over a whole source file.
 */
module EnumPattern {
  import opened JavaText

  /**
   * One match: it starts at `start`, group 1 is s[nameStart..nameEnd], the `{` sits
   * at bodyStart - 1, group 2 is s[bodyStart..bodyEnd] and the `}` sits at bodyEnd.
   */
  datatype EnumMatch = EnumMatch(start: nat, nameStart: nat, nameEnd: nat, bodyStart: nat, bodyEnd: nat)
  {
    /** Where the next find() resumes: just past the closing brace. */
    function End(): nat {
      bodyEnd + 1
    }
  }

  /** `m` is a way for the pattern to match s at m.start (the language of the pattern, groups included). */
  predicate IsEnumMatch(s: string, m: EnumMatch) {
    && m.start + 4 < m.nameStart < m.nameEnd < m.bodyStart <= m.bodyEnd < |s|
    && s[m.start..m.start + 4] == "enum"
    && AllSpace(s, m.start + 4, m.nameStart)
    && AllWord(s, m.nameStart, m.nameEnd)
    && AllSpace(s, m.nameEnd, m.bodyStart - 1)
    && s[m.bodyStart - 1] == '{'
    && (forall k :: m.bodyStart <= k < m.bodyEnd ==> s[k] != '}')
    && s[m.bodyEnd] == '}'
  }

  /**
   * The match attempt at position i. Each greedy step is forced: giving back a
   * space or a word char leaves a char the next step cannot take, so no
   * backtracking can succeed where this fails.
   */
  function MatchEnumAt(s: string, i: nat): (r: Option<EnumMatch>)
    requires i <= |s|
    ensures r.Some? ==> r.value.start == i && IsEnumMatch(s, r.value)
  {
    if i + 4 <= |s| && s[i..i + 4] == "enum" then
      var j := SpaceRunEnd(s, i + 4);
      var k := WordRunEnd(s, j);
      var m := SpaceRunEnd(s, k);
      if j == i + 4 || k == j || m == |s| || s[m] != '{' then None
      else
        match IndexOf(s, '}', m + 1)
        case None => None
        case Some(c) => Some(EnumMatch(i, j, k, m + 1, c))
    else None
  }

  /** Every way the pattern can match at a position is the one MatchEnumAt finds there. */
  lemma MatchEnumAtComplete(s: string, m: EnumMatch)
    requires IsEnumMatch(s, m)
    ensures MatchEnumAt(s, m.start) == Some(m)
  {
    SpaceRunEndUnique(s, m.start + 4, m.nameStart);
    WordRunEndUnique(s, m.nameStart, m.nameEnd);
    SpaceRunEndUnique(s, m.nameEnd, m.bodyStart - 1);
    assert IndexOf(s, '}', m.bodyStart) == Some(m.bodyEnd);
  }

  /** The pattern matches at one position in at most one way. */
  lemma EnumMatchUnique(s: string, m1: EnumMatch, m2: EnumMatch)
    requires IsEnumMatch(s, m1) && IsEnumMatch(s, m2) && m1.start == m2.start
    ensures m1 == m2
  {
    MatchEnumAtComplete(s, m1);
    MatchEnumAtComplete(s, m2);
  }

  /** Matcher.find() from `from`: the leftmost position at or after `from` where the pattern matches. */
  function FindEnum(s: string, from: nat): (r: Option<EnumMatch>)
    requires from <= |s|
    ensures r.Some? ==> from <= r.value.start <= |s| && MatchEnumAt(s, r.value.start) == r
    ensures r.Some? ==> forall i :: from <= i < r.value.start ==> MatchEnumAt(s, i).None?
    ensures r.None? ==> forall i :: from <= i <= |s| ==> MatchEnumAt(s, i).None?
    decreases |s| - from
  {
    var here := MatchEnumAt(s, from);
    if here.Some? || from == |s| then here
    else
      var later := FindEnum(s, from + 1);
      assert forall i :: from < i <= |s| && (later.None? || i < later.value.start) ==> MatchEnumAt(s, i).None?;
      later
  }

  /** The matches of the `while (matcher.find())` loop, from `from` on, in order. */
  function ScanEnums(s: string, from: nat): (ms: seq<EnumMatch>)
    requires from <= |s|
    ensures forall k :: 0 <= k < |ms| ==> IsEnumMatch(s, ms[k]) && from <= ms[k].start
    ensures forall k :: 0 < k < |ms| ==> ms[k - 1].End() <= ms[k].start
    decreases |s| - from
  {
    var found := FindEnum(s, from);
    if found.None? then []
    else
      var m := found.value;
      var rest := ScanEnums(s, m.End());
      ScanEnumsCons(s, from, m, rest);
      [m] + rest
  }

  lemma ScanEnumsCons(s: string, from: nat, m: EnumMatch, rest: seq<EnumMatch>)
    requires IsEnumMatch(s, m) && from <= m.start
    requires forall k :: 0 <= k < |rest| ==> IsEnumMatch(s, rest[k]) && m.End() <= rest[k].start
    requires forall k :: 0 < k < |rest| ==> rest[k - 1].End() <= rest[k].start
    ensures forall k :: 0 <= k < |[m] + rest| ==> IsEnumMatch(s, ([m] + rest)[k]) && from <= ([m] + rest)[k].start
    ensures forall k :: 0 < k < |[m] + rest| ==> ([m] + rest)[k - 1].End() <= ([m] + rest)[k].start
  {
    var ms := [m] + rest;
    assert forall k :: 0 < k < |ms| ==> ms[k] == rest[k - 1];
  }

  /** The scan is empty exactly when the pattern matches nowhere in s. */
  lemma ScanEnumsEmptyIff(s: string)
    ensures ScanEnums(s, 0) == [] <==> forall m :: !IsEnumMatch(s, m)
  {
    if ScanEnums(s, 0) == [] {
      forall m | IsEnumMatch(s, m) ensures false {
        MatchEnumAtComplete(s, m);
      }
    } else {
      assert IsEnumMatch(s, ScanEnums(s, 0)[0]);
    }
  }

  /** Some match of `ms` spans position p. */
  predicate Covers(ms: seq<EnumMatch>, p: nat) {
    exists k :: 0 <= k < |ms| && ms[k].start <= p < ms[k].End()
  }

  /**
   * Nothing is skipped: every place at or after `from` where the pattern matches
   * lies inside one of the scanned matches (it is that match, or a match that
   * starts inside an earlier match's text and so is never tried).
   */
  lemma ScanEnumsCovers(s: string, from: nat, m: EnumMatch)
    requires from <= |s| && IsEnumMatch(s, m) && from <= m.start
    ensures Covers(ScanEnums(s, from), m.start)
  {
    MatchEnumAtComplete(s, m);
    ScanEnumsCoversAt(s, from, m.start);
  }

  lemma {:induction false} ScanEnumsCoversAt(s: string, from: nat, p: nat)
    requires from <= p <= |s| && MatchEnumAt(s, p).Some?
    ensures Covers(ScanEnums(s, from), p)
    decreases |s| - from
  {
    var first := ScanEnumsStep(s, from, p);
    var rest := ScanEnums(s, first.End());
    if p < first.End() {
      assert ([first] + rest)[0] == first;
    } else {
      ScanEnumsCoversAt(s, first.End(), p);
      CoversCons(first, rest, p);
    }
  }

  lemma CoversCons(first: EnumMatch, rest: seq<EnumMatch>, p: nat)
    requires Covers(rest, p)
    ensures Covers([first] + rest, p)
  {
    var k :| 0 <= k < |rest| && rest[k].start <= p < rest[k].End();
    assert ([first] + rest)[k + 1] == rest[k];
  }

  lemma ScanEnumsStep(s: string, from: nat, p: nat) returns (first: EnumMatch)
    requires from <= p <= |s| && MatchEnumAt(s, p).Some?
    ensures FindEnum(s, from) == Some(first) && first.start <= p && first.End() <= |s|
    ensures ScanEnums(s, from) == [first] + ScanEnums(s, first.End())
  {
    first := FindEnum(s, from).value;
  }

  /** An enum body never contains `}`: it runs from the `{` to the first `}` after it. */
  lemma EnumBodyHasNoCloseBrace(s: string, m: EnumMatch)
    requires IsEnumMatch(s, m)
    ensures '}' !in s[m.bodyStart..m.bodyEnd]
    ensures '}' !in Trim(s[m.bodyStart..m.bodyEnd])
  {
    TrimContents(s[m.bodyStart..m.bodyEnd]);
  }
}
