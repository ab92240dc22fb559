/** The handful of Python `str` operations the scraper relies on:
    substring search (`in`), `split`, `endswith` and `lower`. */
module Text {
  import opened Wrappers

  /** `sep[i..]` matches `s` from index `k + i` on, character by character. */
  predicate MatchesFrom(s: string, sep: string, k: nat, i: nat)
    requires k + |sep| <= |s| && i <= |sep|
    decreases |sep| - i
  {
    i == |sep| || (s[k + i] == sep[i] && MatchesFrom(s, sep, k, i + 1))
  }

  /** `sep` occurs in `s` starting at index `k`. */
  predicate OccursAt(s: string, sep: string, k: nat)
  {
    k + |sep| <= |s| && MatchesFrom(s, sep, k, 0)
  }

  lemma {:induction false} MatchesFromIff(s: string, sep: string, k: nat, i: nat)
    requires k + |sep| <= |s| && i <= |sep|
    ensures MatchesFrom(s, sep, k, i) <==> s[k + i..k + |sep|] == sep[i..]
    decreases |sep| - i
  {
    if i < |sep| {
      MatchesFromIff(s, sep, k, i + 1);
      assert s[k + i..k + |sep|] == [s[k + i]] + s[k + i + 1..k + |sep|];
      assert sep[i..] == [sep[i]] + sep[i + 1..];
    }
  }

  /** An occurrence at `k` is the slice of `s` from `k` being equal to `sep`. */
  lemma OccursAtIff(s: string, sep: string, k: nat)
    ensures OccursAt(s, sep, k) <==> k + |sep| <= |s| && s[k..k + |sep|] == sep
  {
    if k + |sep| <= |s| {
      MatchesFromIff(s, sep, k, 0);
    }
  }

  /** The leftmost occurrence of `sep` in `s` at or after index `from`;
      `FindFromIsLeftmost` shows that nothing is skipped. */
  function FindFrom(s: string, sep: string, from: nat): (r: Option<nat>)
    decreases |s| - from
    ensures r.Some? ==> from <= r.value && OccursAt(s, sep, r.value)
  {
    if from + |sep| > |s| then None
    else if OccursAt(s, sep, from) then Some(from)
    else FindFrom(s, sep, from + 1)
  }

  /** Any occurrence at or after `from` is found, or one before it is: so
      `FindFrom` gives `None` only when there is no occurrence at all from
      `from` on, and otherwise the leftmost one. */
  lemma {:induction false} FindFromIsLeftmost(s: string, sep: string, from: nat, j: nat)
    requires from <= j && OccursAt(s, sep, j)
    ensures FindFrom(s, sep, from).Some? && FindFrom(s, sep, from).value <= j
    decreases |s| - from
  {
    if !OccursAt(s, sep, from) {
      FindFromIsLeftmost(s, sep, from + 1, j);
    }
  }

  /** The search from the start succeeds exactly when `sep` occurs in `s`. */
  lemma FoundIffOccurs(s: string, sep: string)
    ensures FindFrom(s, sep, 0).Some? <==> exists k: nat :: OccursAt(s, sep, k)
  {
    if k: nat :| OccursAt(s, sep, k) {
      FindFromIsLeftmost(s, sep, 0, k);
    }
  }

  /** Python's `sep in s`: it holds exactly when `sep` occurs somewhere in `s`. */
  predicate Contains(s: string, sep: string)
    ensures Contains(s, sep) <==> exists k: nat :: OccursAt(s, sep, k)
  {
    FoundIffOccurs(s, sep);
    FindFrom(s, sep, 0).Some?
  }

  /** Python's `s.endswith(suffix)`: `s` is some text followed by `suffix`. */
  predicate EndsWith(s: string, suffix: string)
    ensures EndsWith(s, suffix) <==> exists p: string :: s == p + suffix
  {
    if |suffix| <= |s| && s[|s| - |suffix|..] == suffix then
      assert s == s[..|s| - |suffix|] + suffix;
      true
    else
      false
  }

  /** An occurrence inside a slice is an occurrence in the whole text, shifted. */
  lemma OccursInSlice(s: string, sep: string, a: nat, b: nat, k: nat)
    requires a <= b <= |s| && OccursAt(s[a..b], sep, k)
    ensures OccursAt(s, sep, a + k) && a + k + |sep| <= b
  {
    var t := s[a..b];
    OccursAtIff(t, sep, k);
    forall i | 0 <= i < |sep|
      ensures s[a + k..a + k + |sep|][i] == sep[i]
    {
      assert t[k..k + |sep|][i] == sep[i];
    }
    OccursAtIff(s, sep, a + k);
  }

  /** The pieces Python's `split` produces from index `from` on: the text is
      cut at every occurrence found scanning left to right. */
  function SplitFrom(s: string, sep: string, from: nat): (parts: seq<string>)
    requires |sep| > 0 && from <= |s|
    decreases |s| - from
    ensures |parts| >= 1
  {
    match FindFrom(s, sep, from)
    case None => [s[from..]]
    case Some(i) => [s[from..i]] + SplitFrom(s, sep, i + |sep|)
  }

  /** There is a single piece from `from` on exactly when nothing is found. */
  lemma SplitFromSingle(s: string, sep: string, from: nat)
    requires |sep| > 0 && from <= |s|
    ensures |SplitFrom(s, sep, from)| == 1 <==> FindFrom(s, sep, from).None?
  {
  }

  /** Python's `s.split(sep)` for a non-empty separator: there is a single
      piece exactly when the separator does not occur. */
  function Split(s: string, sep: string): (parts: seq<string>)
    requires |sep| > 0
    ensures |parts| >= 1
    ensures |parts| == 1 <==> !Contains(s, sep)
  {
    SplitFromSingle(s, sep, 0);
    SplitFrom(s, sep, 0)
  }

  /** Python's `sep.join(parts)`. */
  function Join(parts: seq<string>, sep: string): string
  {
    if |parts| == 0 then ""
    else if |parts| == 1 then parts[0]
    else parts[0] + sep + Join(parts[1..], sep)
  }

  /** Where the last piece of `split` starts, scanning from `from`: `from`
      itself when nothing is found, otherwise right after an occurrence. */
  function LastStart(s: string, sep: string, from: nat): (r: nat)
    requires |sep| > 0 && from <= |s|
    decreases |s| - from
    ensures from <= r <= |s|
    ensures r == from <==> FindFrom(s, sep, from).None?
  {
    match FindFrom(s, sep, from)
    case None => from
    case Some(i) => LastStart(s, sep, i + |sep|)
  }

  /** When something was found, the last piece starts right after an occurrence. */
  lemma {:induction false} LastStartFollowsOccurrence(s: string, sep: string, from: nat)
    requires |sep| > 0 && from <= |s|
    ensures var r := LastStart(s, sep, from);
      r != from ==> from + |sep| <= r && OccursAt(s, sep, r - |sep|)
    decreases |s| - from
  {
    var found := FindFrom(s, sep, from);
    if found.Some? {
      var next := found.value + |sep|;
      assert LastStart(s, sep, from) == LastStart(s, sep, next);
      LastStartFollowsOccurrence(s, sep, next);
    }
  }

  /** No occurrence starts at or after the start of the last piece. */
  lemma {:induction false} NothingAfterLastStart(s: string, sep: string, from: nat, j: nat)
    requires |sep| > 0 && from <= |s| && LastStart(s, sep, from) <= j
    ensures !OccursAt(s, sep, j)
    decreases |s| - from
  {
    var found := FindFrom(s, sep, from);
    if found.None? {
      if OccursAt(s, sep, j) {
        FindFromIsLeftmost(s, sep, from, j);
      }
    } else {
      var next := found.value + |sep|;
      assert LastStart(s, sep, from) == LastStart(s, sep, next);
      NothingAfterLastStart(s, sep, next, j);
    }
  }

  /** Python's `s.split(sep)[-1]`: a suffix of the text, immediately preceded
      by an occurrence of the separator when there is one, and the whole text
      exactly when there is none. */
  function LastPiece(s: string, sep: string): (r: string)
    requires |sep| > 0
    ensures |r| <= |s| && s[|s| - |r|..] == r
    ensures !Contains(s, sep) <==> r == s
    ensures Contains(s, sep) ==> |r| + |sep| <= |s| && OccursAt(s, sep, |s| - |r| - |sep|)
  {
    LastStartFollowsOccurrence(s, sep, 0);
    s[LastStart(s, sep, 0)..]
  }

  /** The last piece never contains the separator. */
  lemma LastPieceAvoidsSep(s: string, sep: string)
    requires |sep| > 0
    ensures !Contains(LastPiece(s, sep), sep)
  {
    var start := LastStart(s, sep, 0);
    var piece := LastPiece(s, sep);
    if Contains(piece, sep) {
      var k := FindFrom(piece, sep, 0).value;
      assert piece == s[start..|s|];
      OccursInSlice(s, sep, start, |s|, k);
      NothingAfterLastStart(s, sep, 0, start + k);
      assert false;
    }
  }

  /** The last element of the pieces from `from` on starts at `LastStart`. */
  lemma {:induction false} LastOfSplitFrom(s: string, sep: string, from: nat)
    requires |sep| > 0 && from <= |s|
    ensures var parts := SplitFrom(s, sep, from);
      parts[|parts| - 1] == s[LastStart(s, sep, from)..]
    decreases |s| - from
  {
    var found := FindFrom(s, sep, from);
    if found.Some? {
      var next := found.value + |sep|;
      assert SplitFrom(s, sep, from) == [s[from..found.value]] + SplitFrom(s, sep, next);
      LastOfSplitFrom(s, sep, next);
    }
  }

  /** `LastPiece` is the last element of `Split`. */
  lemma LastPieceIsLastOfSplit(s: string, sep: string)
    requires |sep| > 0
    ensures LastPiece(s, sep) == Split(s, sep)[|Split(s, sep)| - 1]
  {
    LastOfSplitFrom(s, sep, 0);
  }

  /** Joining a piece in front of at least one other puts the separator
      between them. */
  lemma JoinCons(head: string, tail: seq<string>, sep: string)
    requires |tail| >= 1
    ensures Join([head] + tail, sep) == head + sep + Join(tail, sep)
  {
    assert ([head] + tail)[1..] == tail;
  }

  /** A text from `a` on is its three consecutive slices cut at `i` and `j`. */
  lemma SliceAt(s: string, a: nat, i: nat, j: nat)
    requires a <= i <= j <= |s|
    ensures s[a..] == s[a..i] + s[i..j] + s[j..]
  {
  }

  /** Joining the pieces from `from` on gives back the text from `from` on. */
  lemma {:induction false} JoinSplitFrom(s: string, sep: string, from: nat)
    requires |sep| > 0 && from <= |s|
    ensures Join(SplitFrom(s, sep, from), sep) == s[from..]
    decreases |s| - from
  {
    var found := FindFrom(s, sep, from);
    if found.Some? {
      var i := found.value;
      var next := i + |sep|;
      assert SplitFrom(s, sep, from) == [s[from..i]] + SplitFrom(s, sep, next);
      JoinCons(s[from..i], SplitFrom(s, sep, next), sep);
      JoinSplitFrom(s, sep, next);
      OccursAtIff(s, sep, i);
      SliceAt(s, from, i, next);
    }
  }

  /** Splitting and joining back with the same separator gives the text again. */
  lemma JoinSplit(s: string, sep: string)
    requires |sep| > 0
    ensures Join(Split(s, sep), sep) == s
  {
    JoinSplitFrom(s, sep, 0);
  }

  /** No piece produced from `from` on contains the separator. */
  lemma {:induction false} SplitFromPiecesAvoidSep(s: string, sep: string, from: nat)
    requires |sep| > 0 && from <= |s|
    ensures var parts := SplitFrom(s, sep, from);
      forall k :: 0 <= k < |parts| ==> !Contains(parts[k], sep)
    decreases |s| - from
  {
    var parts := SplitFrom(s, sep, from);
    var found := FindFrom(s, sep, from);
    var end := if found.Some? then found.value else |s|;
    assert found.None? ==> s[from..end] == s[from..];
    var head := s[from..end];
    if Contains(head, sep) {
      var k := FindFrom(head, sep, 0).value;
      OccursInSlice(s, sep, from, end, k);
      FindFromIsLeftmost(s, sep, from, from + k);
      assert false;
    }
    if found.Some? {
      var next := found.value + |sep|;
      assert parts == [head] + SplitFrom(s, sep, next);
      SplitFromPiecesAvoidSep(s, sep, next);
    } else {
      assert parts == [head];
    }
  }

  /** No piece produced by `Split` contains the separator. */
  lemma SplitPiecesAvoidSep(s: string, sep: string)
    requires |sep| > 0
    ensures var parts := Split(s, sep);
      forall k :: 0 <= k < |parts| ==> !Contains(parts[k], sep)
  {
    assert Split(s, sep) == SplitFrom(s, sep, 0);
    SplitFromPiecesAvoidSep(s, sep, 0);
  }

  /** `sep` has no proper prefix that is also a suffix of it, so two of its
      occurrences in a text can never overlap. */
  predicate BorderFree(sep: string)
  {
    forall d :: 0 < d < |sep| ==> sep[d..] != sep[..|sep| - d]
  }

  /** Two overlapping occurrences of `sep` exhibit a border of `sep`. */
  lemma OverlapGivesBorder(s: string, sep: string, p: nat, j: nat)
    requires OccursAt(s, sep, p) && OccursAt(s, sep, j)
    requires p < j < p + |sep|
    ensures sep[j - p..] == sep[..|sep| - (j - p)]
  {
    OccursAtIff(s, sep, p);
    OccursAtIff(s, sep, j);
    assert s[p..p + |sep|][j - p..] == s[j..p + |sep|] == s[j..j + |sep|][..|sep| - (j - p)];
  }

  lemma NoOverlap(s: string, sep: string, p: nat, j: nat)
    requires BorderFree(sep) && OccursAt(s, sep, p) && OccursAt(s, sep, j)
    requires p < j
    ensures p + |sep| <= j
  {
    if j < p + |sep| {
      OverlapGivesBorder(s, sep, p, j);
      assert false;
    }
  }

  /** For a separator whose occurrences cannot overlap, the last piece of
      `Split` is exactly the text after the last occurrence: every occurrence
      ends at or before the piece begins. */
  lemma LastPieceFollowsLastOccurrence(s: string, sep: string, j: nat)
    requires |sep| > 0 && BorderFree(sep) && OccursAt(s, sep, j)
    ensures j + |sep| <= |s| - |LastPiece(s, sep)|
  {
    var start := LastStart(s, sep, 0);
    assert |LastPiece(s, sep)| == |s| - start;
    if j >= start {
      NothingAfterLastStart(s, sep, 0, j);
      assert false;
    }
    FindFromIsLeftmost(s, sep, 0, j);
    var p := start - |sep|;
    if j > p {
      NoOverlap(s, sep, p, j);
      assert false;
    } else if j < p {
      NoOverlap(s, sep, j, p);
    }
  }

  /** Python's `str.lower()` on one character, restricted to ASCII letters. */
  function LowerChar(c: char): char
  {
    if 'A' <= c <= 'Z' then (c as int + 32) as char else c
  }

  predicate IsUpper(c: char)
  {
    'A' <= c <= 'Z'
  }

  /** Python's `s.lower()` (ASCII letters only). */
  function Lower(s: string): (r: string)
    ensures |r| == |s|
    ensures forall i :: 0 <= i < |s| ==> !IsUpper(r[i])
    ensures forall i :: 0 <= i < |s| && !IsUpper(s[i]) ==> r[i] == s[i]
    ensures forall i :: 0 <= i < |s| && IsUpper(s[i]) ==> r[i] as int == s[i] as int + 32
  {
    seq(|s|, i requires 0 <= i < |s| => LowerChar(s[i]))
  }

  lemma LowerIdempotent(s: string)
    ensures Lower(Lower(s)) == Lower(s)
  {
  }
}
