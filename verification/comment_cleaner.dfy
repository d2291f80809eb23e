// EnumDocMojo.cleanComment: turns the trimmed text between `/**` and `*/`
// into a one-line description.
module CommentCleaner {
  import opened JavaText

  /** The characters of the class `[/\*]`. */
  predicate IsDelimiter(c: char) {
    c == '/' || c == '*'
  }

  /** The chars at k - 1 and k are both `\s` chars. */
  predicate DoubleSpaceAt(s: string, k: nat)
    requires 0 < k < |s|
  {
    IsSpace(s[k - 1]) && IsSpace(s[k])
  }

  /** No two adjacent `\s` chars. */
  predicate NoDoubleSpace(s: string) {
    forall k :: 0 < k < |s| ==> !DoubleSpaceAt(s, k)
  }

  /** What `replaceAll("\\s+", " ")` leaves: every `\s` char is a plain space, and none is next to another. */
  predicate Collapsed(s: string) {
    NoDoubleSpace(s) && forall k :: 0 <= k < |s| && IsSpace(s[k]) ==> s[k] == ' '
  }

  /** `s` with its `\s` chars removed: the visible text a whitespace rewrite must keep. */
  function Visible(s: string): string {
    if s == [] then [] else (if IsSpace(s[0]) then [] else [s[0]]) + Visible(s[1..])
  }

  /** `replaceAll("[/\\*]", "")`: every `/` and `*` is deleted, everything else kept in order. */
  function DeleteDelimiters(s: string): (r: string)
    ensures |r| <= |s|
  {
    if s == [] then [] else (if IsDelimiter(s[0]) then [] else [s[0]]) + DeleteDelimiters(s[1..])
  }

  /** The deletion works char by char: it keeps a char exactly when it is not `/` or `*`. */
  lemma DeleteDelimitersOne(c: char)
    ensures DeleteDelimiters([c]) == if IsDelimiter(c) then [] else [c]
  {
    assert [c][1..] == [];
  }

  /** The deletion of a concatenation is the concatenation of the deletions, so order and count are kept. */
  lemma {:induction false} DeleteDelimitersAppend(a: string, b: string)
    ensures DeleteDelimiters(a + b) == DeleteDelimiters(a) + DeleteDelimiters(b)
    decreases |a|
  {
    if a == [] {
      assert a + b == b;
    } else {
      assert (a + b)[0] == a[0] && (a + b)[1..] == a[1..] + b;
      DeleteDelimitersAppend(a[1..], b);
    }
  }

  /** The deletion keeps exactly the chars that are not `/` or `*`. */
  lemma {:induction false} DeleteDelimitersChars(s: string)
    ensures forall c :: c in DeleteDelimiters(s) <==> c in s && !IsDelimiter(c)
    decreases |s|
  {
    if s != [] {
      DeleteDelimitersChars(s[1..]);
      assert s == [s[0]] + s[1..];
    }
  }

  /** `s` starts with a run of `\s` chars, possibly empty, followed by `*`. */
  predicate HasLeadingMarker(s: string) {
    exists n :: 0 <= n < |s| && AllSpace(s, 0, n) && s[n] == '*'
  }

  /**
   * `replaceAll("^\\s*\\*", "")`: without MULTILINE, `^` anchors at the start of the
   * input only, so at most one leading run of spaces and a `*` is removed.
   */
  function StripLeadingMarker(s: string): (r: string)
    ensures r != s <==> HasLeadingMarker(s)
    ensures r != s ==> exists n :: 0 <= n < |s| && AllSpace(s, 0, n) && s[n] == '*' && r == s[n + 1..]
    ensures '*' !in s ==> r == s
  {
    var n := SpaceRunEnd(s, 0);
    if n < |s| && s[n] == '*' then s[n + 1..]
    else s
  }

  /** `replaceAll("\\s+", " ")`: each maximal run of `\s` chars becomes one space. */
  function Collapse(s: string): (r: string)
    ensures Collapsed(r)
    ensures s == [] <==> r == []
    ensures s != [] ==> r[0] == (if IsSpace(s[0]) then ' ' else s[0])
    decreases |s|
  {
    if s == [] then []
    else if IsSpace(s[0]) then
      var n := SpaceRunEnd(s, 0);
      var rest := Collapse(s[n..]);
      CollapsedCons(' ', rest);
      " " + rest
    else
      var rest := Collapse(s[1..]);
      CollapsedCons(s[0], rest);
      [s[0]] + rest
  }

  /** A non-empty run of `\s` chars becomes one space. */
  lemma CollapseSpaceRun(w: string)
    requires w != [] && AllSpace(w, 0, |w|)
    ensures Collapse(w) == " "
  {
    SpaceRunEndUnique(w, 0, |w|);
    assert w[|w|..] == [];
  }

  /** A char other than `\s` is kept as it is. */
  lemma CollapseVisibleChar(c: char)
    requires !IsSpace(c)
    ensures Collapse([c]) == [c]
  {
    assert [c][1..] == [];
  }

  /**
   * Collapsing works run by run: text split where no run of `\s` chars is cut
   * collapses piecewise. With the two lemmas above, this fixes the result on
   * every input.
   */
  lemma {:induction false} CollapseAppend(a: string, b: string)
    requires a == [] || b == [] || !IsSpace(a[|a| - 1]) || !IsSpace(b[0])
    ensures Collapse(a + b) == Collapse(a) + Collapse(b)
    decreases |a|
  {
    if a == [] {
      assert a + b == b;
    } else if b == [] {
      assert a + b == a;
    } else if !IsSpace(a[0]) {
      assert (a + b)[0] == a[0] && (a + b)[1..] == a[1..] + b;
      CollapseAppend(a[1..], b);
      AppendAssoc([a[0]], Collapse(a[1..]), Collapse(b));
    } else {
      var na := SpaceRunEnd(a, 0);
      assert AllSpace(a + b, 0, na);
      if na < |a| {
        SpaceRunEndUnique(a + b, 0, na);
        assert (a + b)[na..] == a[na..] + b;
        CollapseAppend(a[na..], b);
        AppendAssoc(" ", Collapse(a[na..]), Collapse(b));
      } else {
        SpaceRunEndUnique(a + b, 0, |a|);
        assert (a + b)[|a|..] == b;
        assert a[|a|..] == [];
      }
    }
  }

  /** The rewrite adds no char other than a plain space. */
  lemma {:induction false} CollapseChars(s: string)
    ensures forall c :: c in Collapse(s) ==> c in s || c == ' '
    decreases |s|
  {
    if s != [] {
      if IsSpace(s[0]) {
        var n := SpaceRunEnd(s, 0);
        CollapseChars(s[n..]);
        assert forall c :: c in s[n..] ==> c in s;
      } else {
        CollapseChars(s[1..]);
        assert forall c :: c in s[1..] ==> c in s;
      }
    }
  }

  lemma CollapsedCons(c: char, rest: string)
    requires Collapsed(rest)
    requires IsSpace(c) ==> c == ' ' && (rest == [] || !IsSpace(rest[0]))
    ensures Collapsed([c] + rest)
  {
    var r := [c] + rest;
    forall k | 0 < k < |r|
      ensures !DoubleSpaceAt(r, k)
    {
      if k > 1 {
        assert r[k - 1] == rest[k - 2] && r[k] == rest[k - 1];
        assert !DoubleSpaceAt(rest, k - 1);
      }
    }
  }

  /** cleanComment: delete delimiters, strip a leading marker, collapse whitespace, trim. */
  function CleanComment(raw: string): (r: string)
    ensures '/' !in r && '*' !in r
    ensures Trimmed(r)
    ensures Collapsed(r)
  {
    var deleted := DeleteDelimiters(raw);
    var collapsed := Collapse(StripLeadingMarker(deleted));
    DeleteDelimitersChars(raw);
    assert StripLeadingMarker(deleted) == deleted;
    CollapseChars(deleted);
    TrimContents(collapsed);
    TrimKeepsCollapsed(collapsed);
    Trim(collapsed)
  }

  lemma TrimKeepsCollapsed(s: string)
    requires Collapsed(s)
    ensures Collapsed(Trim(s))
  {
    var st := TrimStart(s, 0);
    var e := TrimEnd(s, st, |s|);
    assert Trim(s) == s[st..e];
    forall k | 0 < k < e - st
      ensures !DoubleSpaceAt(s[st..e], k)
    {
      assert s[st..e][k - 1] == s[st + k - 1] && s[st..e][k] == s[st + k];
      assert !DoubleSpaceAt(s, st + k);
    }
  }

  /** On text without `/` and `*`, the delimiter deletion changes nothing. */
  lemma {:induction false} DeleteDelimitersNoOp(s: string)
    requires '/' !in s && '*' !in s
    ensures DeleteDelimiters(s) == s
    decreases |s|
  {
    if s != [] {
      assert s[0] in s;
      assert forall c :: c in s[1..] ==> c in s;
      DeleteDelimitersNoOp(s[1..]);
    }
  }

  /** The `^\s*\*` step of cleanComment never changes its input: the `*` it looks for is already gone. */
  lemma LeadingMarkerStepIsNoOp(raw: string)
    ensures StripLeadingMarker(DeleteDelimiters(raw)) == DeleteDelimiters(raw)
  {
    DeleteDelimitersChars(raw);
    assert '*' !in DeleteDelimiters(raw);
  }

  /** Collapsing whitespace keeps the visible text exactly. */
  lemma {:induction false} CollapseKeepsVisible(s: string)
    ensures Visible(Collapse(s)) == Visible(s)
    decreases |s|
  {
    if s != [] {
      if IsSpace(s[0]) {
        var n := SpaceRunEnd(s, 0);
        SpacesInvisible(s, n);
        CollapseKeepsVisible(s[n..]);
        assert Visible(" " + Collapse(s[n..])) == Visible(Collapse(s[n..]));
      } else {
        CollapseKeepsVisible(s[1..]);
        assert ([s[0]] + Collapse(s[1..]))[1..] == Collapse(s[1..]);
      }
    }
  }

  lemma {:induction false} SpacesInvisible(s: string, n: nat)
    requires n <= |s| && AllSpace(s, 0, n)
    ensures Visible(s) == Visible(s[n..])
    decreases n
  {
    if n > 0 {
      assert AllSpace(s[1..], 0, n - 1);
      SpacesInvisible(s[1..], n - 1);
      assert s[1..][n - 1..] == s[n..];
    }
  }

  /** On already collapsed text the whitespace rewrite changes nothing. */
  lemma {:induction false} CollapseNoOp(s: string)
    requires Collapsed(s)
    ensures Collapse(s) == s
    decreases |s|
  {
    if s != [] {
      assert Collapsed(s[1..]) by {
        forall k | 0 < k < |s[1..]|
          ensures !DoubleSpaceAt(s[1..], k)
        {
          assert s[1..][k - 1] == s[k] && s[1..][k] == s[k + 1];
          assert !DoubleSpaceAt(s, k + 1);
        }
      }
      if IsSpace(s[0]) {
        assert |s| > 1 ==> !DoubleSpaceAt(s, 1);
        SpaceRunEndUnique(s, 0, 1);
      }
      CollapseNoOp(s[1..]);
    }
  }

  lemma {:induction false} VisibleAppend(a: string, b: string)
    ensures Visible(a + b) == Visible(a) + Visible(b)
    decreases |a|
  {
    if a != [] {
      assert (a + b)[1..] == a[1..] + b;
      VisibleAppend(a[1..], b);
    } else {
      assert a + b == b;
    }
  }

  lemma {:induction false} VisibleOfBlanks(s: string)
    requires forall k :: 0 <= k < |s| ==> IsSpace(s[k])
    ensures Visible(s) == []
    decreases |s|
  {
    if s != [] {
      VisibleOfBlanks(s[1..]);
    }
  }

  /** Trimming text whose blanks are all `\s` chars keeps its visible text. */
  lemma TrimKeepsVisible(s: string)
    requires forall c :: c in s && IsBlank(c) ==> IsSpace(c)
    ensures Visible(Trim(s)) == Visible(s)
  {
    var st := TrimStart(s, 0);
    var e := TrimEnd(s, st, |s|);
    assert s == s[..st] + s[st..e] + s[e..];
    assert forall k :: 0 <= k < st ==> s[k] in s;
    assert forall k :: e <= k < |s| ==> s[k] in s;
    VisibleOfBlanks(s[..st]);
    VisibleOfBlanks(s[e..]);
    VisibleAppend(s[..st] + s[st..e], s[e..]);
    VisibleAppend(s[..st], s[st..e]);
  }

  /**
   * Apart from deleting `/` and `*`, cleaning keeps every visible char in order,
   * provided the comment holds no control char outside `\s` (trim would strip
   * such a char at either end as well).
   */
  lemma CleanCommentKeepsVisible(raw: string)
    requires forall c :: c in raw && IsBlank(c) ==> IsSpace(c)
    ensures Visible(CleanComment(raw)) == Visible(DeleteDelimiters(raw))
  {
    var d := DeleteDelimiters(raw);
    LeadingMarkerStepIsNoOp(raw);
    var collapsed := Collapse(d);
    CollapseKeepsVisible(d);
    DeleteDelimitersChars(raw);
    CollapseChars(d);
    TrimKeepsVisible(collapsed);
  }

  /**
   * Cleaning the trimmed comment group keeps every visible char of the raw group
   * except `/` and `*`, in order, when the group holds no control char outside `\s`.
   */
  lemma TrimmedCommentKeepsVisible(group: string)
    ensures (forall c :: c in group && IsBlank(c) ==> IsSpace(c))
        ==> Visible(CleanComment(Trim(group))) == Visible(DeleteDelimiters(group))
  {
    if forall c :: c in group && IsBlank(c) ==> IsSpace(c) {
      TrimContents(group);
      CleanCommentKeepsVisible(Trim(group));
      TrimDeleteKeepsVisible(group);
    }
  }

  lemma TrimDeleteKeepsVisible(group: string)
    requires forall c :: c in group && IsBlank(c) ==> IsSpace(c)
    ensures Visible(DeleteDelimiters(Trim(group))) == Visible(DeleteDelimiters(group))
  {
    var st := TrimStart(group, 0);
    var e := TrimEnd(group, st, |group|);
    var pre, mid, post := group[0..st], group[st..e], group[e..|group|];
    assert Trim(group) == mid;
    assert group == (pre + mid) + post;
    BlankSliceSpaces(group, 0, st);
    BlankSliceSpaces(group, e, |group|);
    SpacesDeleteToNothing(pre);
    SpacesDeleteToNothing(post);
    DeleteDelimitersAppend(pre + mid, post);
    DeleteDelimitersAppend(pre, mid);
    VisibleAppend(pre + DeleteDelimiters(mid), post);
    VisibleAppend(pre, DeleteDelimiters(mid));
  }

  lemma BlankSliceSpaces(group: string, lo: nat, hi: nat)
    requires lo <= hi <= |group|
    requires forall c :: c in group && IsBlank(c) ==> IsSpace(c)
    requires forall k :: lo <= k < hi ==> IsBlank(group[k])
    ensures forall k :: 0 <= k < hi - lo ==> IsSpace(group[lo..hi][k])
  {
    forall k | 0 <= k < hi - lo
      ensures IsSpace(group[lo..hi][k])
    {
      assert group[lo..hi][k] == group[lo + k];
      assert group[lo + k] in group;
    }
  }

  /** A run of `\s` chars survives the deletion and has no visible char. */
  lemma SpacesDeleteToNothing(w: string)
    requires forall k :: 0 <= k < |w| ==> IsSpace(w[k])
    ensures DeleteDelimiters(w) == w && Visible(w) == []
  {
    assert '/' !in w && '*' !in w;
    DeleteDelimitersNoOp(w);
    VisibleOfBlanks(w);
  }

  /** The visible chars are exactly the chars that are not `\s`. */
  lemma {:induction false} VisibleChars(s: string, c: char)
    ensures c in Visible(s) <==> c in s && !IsSpace(c)
    decreases |s|
  {
    if s != [] {
      VisibleChars(s[1..], c);
      assert s == [s[0]] + s[1..];
    }
  }

  /** Every char of the comment that is neither blank nor `/` or `*` is still in the cleaned comment. */
  lemma CleanCommentKeepsChar(raw: string, c: char)
    requires c in raw && !IsBlank(c) && !IsDelimiter(c)
    ensures c in CleanComment(raw)
  {
    var d := DeleteDelimiters(raw);
    DeleteDelimitersChars(raw);
    LeadingMarkerStepIsNoOp(raw);
    CollapseKeepsVisible(d);
    VisibleChars(d, c);
    VisibleChars(Collapse(d), c);
    TrimKeepsNonBlank(Collapse(d), c);
  }

  /**
   * The texts cleaning leaves unchanged are exactly the cleaned ones: no `/` or
   * `*`, nothing blank at either end, whitespace already collapsed.
   */
  lemma CleanCommentFixedPoint(s: string)
    ensures CleanComment(s) == s <==> '/' !in s && '*' !in s && Trimmed(s) && Collapsed(s)
  {
    if '/' !in s && '*' !in s && Trimmed(s) && Collapsed(s) {
      DeleteDelimitersNoOp(s);
      assert StripLeadingMarker(s) == s;
      CollapseNoOp(s);
    }
  }

  /** Cleaning a cleaned comment returns it unchanged. */
  lemma CleanCommentIdempotent(raw: string)
    ensures CleanComment(CleanComment(raw)) == CleanComment(raw)
  {
    CleanCommentFixedPoint(CleanComment(raw));
  }
}
