/**
 * Python's `str.find`, `str.split(sep)` and `sep.join(parts)` on strings
 * modelled as `seq<char>`. The log analyzer splits on ": " and the string
 * iterator on "\n"; both follow the same left-to-right, non-overlapping scan.
 */
module Strings {
  import opened Common

  /** `sep` occurs in `s` starting at index `j`. */
  predicate OccursAt(s: string, sep: string, j: int)
  {
    0 <= j && j + |sep| <= |s| && s[j..j + |sep|] == sep
  }

  /** `s` contains no occurrence of `sep` (Python: `sep not in s`). */
  predicate NoOccurrence(s: string, sep: string)
  {
    forall j :: 0 <= j <= |s| ==> !OccursAt(s, sep, j)
  }

  /** `s.find(sep, from)`: the first index at or after `from` where `sep` occurs. */
  function Find(s: string, sep: string, from: nat): (r: Option<nat>)
    requires |sep| > 0
    ensures r.Some? ==> from <= r.value && r.value + |sep| <= |s|
    decreases |s| - from
  {
    if from + |sep| > |s| then None
    else if s[from..from + |sep|] == sep then Some(from)
    else Find(s, sep, from + 1)
  }

  /**
   * `Find` returns an occurrence with none between `from` and it, and
   * returns nothing only when `sep` does not occur at or after `from`.
   */
  lemma {:induction false} FindSpec(s: string, sep: string, from: nat)
    requires |sep| > 0
    ensures Find(s, sep, from).Some? ==> OccursAt(s, sep, Find(s, sep, from).value)
    ensures Find(s, sep, from).Some? ==>
              forall j :: from <= j < Find(s, sep, from).value ==> !OccursAt(s, sep, j)
    ensures Find(s, sep, from).None? ==> forall j :: from <= j ==> !OccursAt(s, sep, j)
    decreases |s| - from
  {
    if from + |sep| <= |s| && s[from..from + |sep|] != sep {
      FindSpec(s, sep, from + 1);
    }
  }

  /** An occurrence of `sep` inside a prefix of `s` is an occurrence in `s`. */
  lemma OccursInPrefix(s: string, sep: string, i: nat, j: int)
    requires i <= |s| && OccursAt(s[..i], sep, j)
    ensures OccursAt(s, sep, j)
  {
    assert s[..i][j..j + |sep|] == s[j..j + |sep|];
  }

  /** An occurrence of `sep` inside a suffix of `s` is an occurrence in `s`, shifted. */
  lemma OccursInSuffix(s: string, sep: string, i: nat, j: int)
    requires i <= |s|
    ensures OccursAt(s[i..], sep, j) <==> 0 <= j && OccursAt(s, sep, i + j)
  {
    if 0 <= j && j + |sep| <= |s| - i {
      assert s[i..][j..j + |sep|] == s[i + j..i + j + |sep|];
    }
  }

  /** `s.split(sep)`: the pieces between successive occurrences of `sep`. */
  function Split(s: string, sep: string): (r: seq<string>)
    requires |sep| > 0
    ensures |r| >= 1
    ensures |r| == 1 ==> r[0] == s
    decreases |s|
  {
    match Find(s, sep, 0)
    case None => [s]
    case Some(i) => [s[..i]] + Split(s[i + |sep|..], sep)
  }

  /** The split has a single piece exactly when `sep` does not occur. */
  lemma SplitSingle(s: string, sep: string)
    requires |sep| > 0
    ensures |Split(s, sep)| == 1 <==> NoOccurrence(s, sep)
  {
    FindSpec(s, sep, 0);
    match Find(s, sep, 0)
    case None =>
    case Some(i) =>
      assert |Split(s, sep)| == 1 + |Split(s[i + |sep|..], sep)|;
  }

  /** No piece of a split contains `sep`. */
  lemma {:induction false} SplitPiecesClean(s: string, sep: string)
    requires |sep| > 0
    ensures forall k :: 0 <= k < |Split(s, sep)| ==> NoOccurrence(Split(s, sep)[k], sep)
    decreases |s|
  {
    FindSpec(s, sep, 0);
    match Find(s, sep, 0)
    case None =>
    case Some(i) =>
      var rest := s[i + |sep|..];
      SplitPiecesClean(rest, sep);
      PrefixBeforeFirstIsClean(s, sep, i);
      assert Split(s, sep) == [s[..i]] + Split(rest, sep);
  }

  /** The text before the first occurrence of `sep` contains no `sep`. */
  lemma PrefixBeforeFirstIsClean(s: string, sep: string, i: nat)
    requires |sep| > 0 && i <= |s|
    requires forall j :: 0 <= j < i ==> !OccursAt(s, sep, j)
    ensures NoOccurrence(s[..i], sep)
  {
    forall j | 0 <= j <= i ensures !OccursAt(s[..i], sep, j) {
      if OccursAt(s[..i], sep, j) {
        OccursInPrefix(s, sep, i, j);
      }
    }
  }

  /** `sep.join(parts)`. */
  function Join(parts: seq<string>, sep: string): (r: string)
    ensures |parts| == 1 ==> r == parts[0]
  {
    if |parts| == 0 then ""
    else if |parts| == 1 then parts[0]
    else parts[0] + sep + Join(parts[1..], sep)
  }

  /** Joining the pieces of a split with the same separator gives back the text. */
  lemma {:induction false} JoinSplit(s: string, sep: string)
    requires |sep| > 0
    ensures Join(Split(s, sep), sep) == s
    decreases |s|
  {
    match Find(s, sep, 0)
    case None =>
      assert Split(s, sep) == [s];
    case Some(i) =>
      var head, tail := s[..i], s[i + |sep|..];
      var rest := Split(tail, sep);
      assert Split(s, sep) == [head] + rest;
      FindSpec(s, sep, 0);
      JoinSplit(tail, sep);
      JoinCons(head, rest, sep);
      Reassemble(s, sep, i);
  }

  /** Putting `sep` back between the text before and after one of its occurrences. */
  lemma Reassemble(s: string, sep: string, i: nat)
    requires OccursAt(s, sep, i)
    ensures s[..i] + sep + s[i + |sep|..] == s
  {
    SplitAround(s, i, |sep|);
  }

  /** Cutting a string into three consecutive slices loses nothing. */
  lemma SplitAround(s: string, i: nat, n: nat)
    requires i + n <= |s|
    ensures s[..i] + s[i..i + n] + s[i + n..] == s
  {
  }

  /** Joining a non-empty list after a first piece puts one separator between them. */
  lemma JoinCons(head: string, rest: seq<string>, sep: string)
    requires |rest| >= 1
    ensures Join([head] + rest, sep) == head + sep + Join(rest, sep)
  {
    assert ([head] + rest)[1..] == rest;
  }

  /**
   * For a one-character separator the split also undoes the join: pieces
   * that hold no separator come back unchanged.
   */
  lemma {:induction false} SplitJoin(parts: seq<string>, sep: string)
    requires |sep| == 1 && |parts| >= 1
    requires forall k :: 0 <= k < |parts| ==> NoOccurrence(parts[k], sep)
    ensures Split(Join(parts, sep), sep) == parts
    decreases |parts|
  {
    if |parts| > 1 {
      var head, tail := parts[0], Join(parts[1..], sep);
      var s := head + sep + tail;
      assert Join(parts, sep) == s;
      forall j | 0 <= j < |head| ensures !OccursAt(s, sep, j) {
        assert s[j..j + 1] == head[j..j + 1];
        assert !OccursAt(head, sep, j);
      }
      assert s[|head|..|head| + 1] == sep;
      FirstOccurrence(s, sep, |head|);
      assert s[..|head|] == head;
      assert s[|head| + 1..] == tail;
      SplitJoin(parts[1..], sep);
      assert Split(s, sep) == [head] + Split(tail, sep);
    } else {
      SplitSingle(parts[0], sep);
    }
  }

  /** `Find` from 0 returns the first occurrence. */
  lemma FirstOccurrence(s: string, sep: string, i: nat)
    requires |sep| > 0 && OccursAt(s, sep, i)
    requires forall j :: 0 <= j < i ==> !OccursAt(s, sep, j)
    ensures Find(s, sep, 0) == Some(i)
  {
    FindSpec(s, sep, 0);
    match Find(s, sep, 0)
    case None =>
    case Some(k) =>
  }

  /**
   * The first piece of a split is a prefix of `s` free of `sep`, and it ends
   * at the end of `s` or at the first occurrence of `sep`.
   */
  lemma SplitFirstPiece(s: string, sep: string)
    requires |sep| > 0
    ensures var first := Split(s, sep)[0];
      && |first| <= |s| && s[..|first|] == first
      && (forall j :: 0 <= j < |first| ==> !OccursAt(s, sep, j))
      && (|first| == |s| || OccursAt(s, sep, |first|))
  {
    FindSpec(s, sep, 0);
    match Find(s, sep, 0)
    case None =>
      assert Split(s, sep)[0] == s;
    case Some(m) =>
      assert Split(s, sep)[0] == s[..m];
  }
}
