/**
 * Character classes and string helpers with the meaning that java.lang.String
 * and java.util.regex give them (no UNICODE_CHARACTER_CLASS flag).
 */
module JavaText {

  /** A regex group that may not have taken part in a match (Java's `null`). */
  datatype Option<T> = None | Some(value: T)

  /** `\s`: the class [ \t\n\x0B\f\r]. */
  predicate IsSpace(c: char) {
    c == ' ' || c == '\t' || c == '\n' || c == '\r' || c == 11 as char || c == 12 as char
  }

  /** `\w`: the class [a-zA-Z_0-9]. */
  predicate IsWord(c: char) {
    ('a' <= c <= 'z') || ('A' <= c <= 'Z') || ('0' <= c <= '9') || c == '_'
  }

  /** What String.trim() strips from both ends: every char whose code is at most U+0020. */
  predicate IsBlank(c: char) {
    c <= ' '
  }

  predicate AllSpace(s: string, lo: nat, hi: nat)
    requires lo <= hi <= |s|
  {
    forall k :: lo <= k < hi ==> IsSpace(s[k])
  }

  predicate AllWord(s: string, lo: nat, hi: nat)
    requires lo <= hi <= |s|
  {
    forall k :: lo <= k < hi ==> IsWord(s[k])
  }

  /** A string with no blank at either end, i.e. one that trim() leaves alone. */
  predicate Trimmed(s: string) {
    s == [] || (!IsBlank(s[0]) && !IsBlank(s[|s| - 1]))
  }

  /** Where a greedy `\s*` starting at `i` stops: the end of the maximal run of spaces. */
  function SpaceRunEnd(s: string, i: nat): (r: nat)
    requires i <= |s|
    ensures i <= r <= |s|
    ensures AllSpace(s, i, r)
    ensures r == |s| || !IsSpace(s[r])
    decreases |s| - i
  {
    if i == |s| || !IsSpace(s[i]) then i else SpaceRunEnd(s, i + 1)
  }

  /** Where a greedy `\w+` starting at `i` stops: the end of the maximal run of word chars. */
  function WordRunEnd(s: string, i: nat): (r: nat)
    requires i <= |s|
    ensures i <= r <= |s|
    ensures AllWord(s, i, r)
    ensures r == |s| || !IsWord(s[r])
    decreases |s| - i
  {
    if i == |s| || !IsWord(s[i]) then i else WordRunEnd(s, i + 1)
  }

  /** Index of the first `c` at or after `i`, if any. */
  function IndexOf(s: string, c: char, i: nat): (r: Option<nat>)
    requires i <= |s|
    ensures r.Some? ==> i <= r.value < |s| && s[r.value] == c
    ensures r.Some? ==> forall k :: i <= k < r.value ==> s[k] != c
    ensures r.None? ==> forall k :: i <= k < |s| ==> s[k] != c
    decreases |s| - i
  {
    if i == |s| then None else if s[i] == c then Some(i) else IndexOf(s, c, i + 1)
  }

  /** A run of spaces followed by a non-space is the run a greedy `\s*` takes. */
  lemma SpaceRunEndUnique(s: string, i: nat, n: nat)
    requires i <= n <= |s| && AllSpace(s, i, n)
    requires n == |s| || !IsSpace(s[n])
    ensures SpaceRunEnd(s, i) == n
  {
  }

  /** A run of word chars followed by a non-word char is the run a greedy `\w+` takes. */
  lemma WordRunEndUnique(s: string, i: nat, n: nat)
    requires i <= n <= |s| && AllWord(s, i, n)
    requires n == |s| || !IsWord(s[n])
    ensures WordRunEnd(s, i) == n
  {
  }

  /** Regrouping a concatenation, for loops that build a sequence piece by piece. */
  lemma AppendAssoc<T>(a: seq<T>, b: seq<T>, c: seq<T>)
    ensures (a + b) + c == a + (b + c)
  {
  }

  /** trim()'s first loop: the index of the first non-blank char at or after `a`. */
  function TrimStart(s: string, a: nat): (st: nat)
    requires a <= |s|
    ensures a <= st <= |s|
    ensures forall k :: a <= k < st ==> IsBlank(s[k])
    ensures st == |s| || !IsBlank(s[st])
    decreases |s| - a
  {
    if a < |s| && IsBlank(s[a]) then TrimStart(s, a + 1) else a
  }

  /** trim()'s second loop: shrink `len` while the char before it is blank, never below `st`. */
  function TrimEnd(s: string, st: nat, len: nat): (e: nat)
    requires st <= len <= |s|
    ensures st <= e <= len
    ensures forall k :: e <= k < len ==> IsBlank(s[k])
    ensures e == st || !IsBlank(s[e - 1])
    decreases len
  {
    if st < len && IsBlank(s[len - 1]) then TrimEnd(s, st, len - 1) else len
  }

  /** String.trim(): the slice left once blanks are stripped from both ends. */
  function Trim(s: string): (r: string)
    ensures Trimmed(r)
    ensures |r| <= |s|
    ensures Trimmed(s) ==> r == s
  {
    var st := TrimStart(s, 0);
    var e := TrimEnd(s, st, |s|);
    assert Trimmed(s) && s != [] ==> st == 0 && e == |s|;
    s[st..e]
  }

  /**
   * `r` is `s` without its leading and trailing blanks: a slice of `s` with only
   * blanks outside it and no blank at either of its own ends.
   */
  predicate IsTrimOf(r: string, s: string) {
    && Trimmed(r)
    && exists st, e ::
         && 0 <= st <= e <= |s|
         && r == s[st..e]
         && (forall k :: 0 <= k < st ==> IsBlank(s[k]))
         && (forall k :: e <= k < |s| ==> IsBlank(s[k]))
  }

  /** trim() strips exactly the leading and trailing blanks. */
  lemma TrimSlice(s: string)
    ensures IsTrimOf(Trim(s), s)
  {
    var st := TrimStart(s, 0);
    var e := TrimEnd(s, st, |s|);
    assert Trim(s) == s[st..e];
  }

  /** Conversely, `s` without its leading and trailing blanks is what trim() returns. */
  lemma IsTrimOfIsTrim(r: string, s: string)
    requires IsTrimOf(r, s)
    ensures r == Trim(s)
  {
    var st, e :| 0 <= st <= e <= |s| && r == s[st..e]
      && (forall k :: 0 <= k < st ==> IsBlank(s[k])) && (forall k :: e <= k < |s| ==> IsBlank(s[k]));
    if r == [] {
      assert forall k :: 0 <= k < |s| ==> IsBlank(s[k]);
      TrimContents(s);
    } else {
      assert s[st] == r[0] && s[e - 1] == r[|r| - 1];
      TrimStartUnique(s, 0, st);
      TrimEndUnique(s, st, |s|, e);
    }
  }

  lemma {:induction false} TrimStartUnique(s: string, a: nat, st: nat)
    requires a <= st <= |s|
    requires forall k :: a <= k < st ==> IsBlank(s[k])
    requires st == |s| || !IsBlank(s[st])
    ensures TrimStart(s, a) == st
    decreases st - a
  {
    if a < st {
      TrimStartUnique(s, a + 1, st);
    }
  }

  lemma {:induction false} TrimEndUnique(s: string, st: nat, len: nat, e: nat)
    requires st <= e <= len <= |s|
    requires forall k :: e <= k < len ==> IsBlank(s[k])
    requires e == st || !IsBlank(s[e - 1])
    ensures TrimEnd(s, st, len) == e
    decreases len - e
  {
    if e < len {
      TrimEndUnique(s, st, len - 1, e);
    }
  }

  /** trim() keeps every char that is not blank. */
  lemma TrimKeepsNonBlank(s: string, c: char)
    requires c in s && !IsBlank(c)
    ensures c in Trim(s)
  {
    var st := TrimStart(s, 0);
    var e := TrimEnd(s, st, |s|);
    assert Trim(s) == s[st..e];
    var k :| 0 <= k < |s| && s[k] == c;
    assert s[st..e][k - st] == c;
  }

  /** trim() returns "" exactly for a string of blanks, and never adds a char. */
  lemma TrimContents(s: string)
    ensures Trim(s) == [] <==> forall k :: 0 <= k < |s| ==> IsBlank(s[k])
    ensures forall c :: c in Trim(s) ==> c in s
  {
    var st := TrimStart(s, 0);
    var e := TrimEnd(s, st, |s|);
    assert Trim(s) == s[st..e];
  }
}
