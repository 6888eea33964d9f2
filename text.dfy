/**
 * The .NET string operations the core relies on, modelled with ordinal
 * (code-point by code-point) comparison: `IndexOf`, `StartsWith`,
 * `Replace(string, "")`, `Replace(char, char)`, `Split(char)` and an ASCII
 * `ToLower`.
 */
module Text {
  import opened Wrappers
  import opened Seqs

  /** `pat` occurs in `s` starting at position `k`. */
  predicate MatchAt(s: string, pat: string, k: int)
  {
    0 <= k && k + |pat| <= |s| && s[k..k + |pat|] == pat
  }

  /** The first position at or after `from` where `pat` occurs in `s`. */
  function IndexFrom(s: string, pat: string, from: nat): (r: Option<nat>)
    ensures r.Some? ==> from <= r.value && MatchAt(s, pat, r.value)
    ensures r.Some? ==> forall k :: from <= k < r.value ==> !MatchAt(s, pat, k)
    ensures r.None? ==> forall k :: from <= k ==> !MatchAt(s, pat, k)
    decreases |s| - from
  {
    if from + |pat| > |s| then None
    else if s[from..from + |pat|] == pat then Some(from)
    else IndexFrom(s, pat, from + 1)
  }

  /** `s.IndexOf(pat)`, with `None` for -1: the first occurrence of `pat` in `s`. */
  function IndexOf(s: string, pat: string): (r: Option<nat>)
    ensures r.Some? ==> MatchAt(s, pat, r.value)
    ensures r.Some? ==> forall k :: 0 <= k < r.value ==> !MatchAt(s, pat, k)
    ensures r.None? <==> forall k :: !MatchAt(s, pat, k)
  {
    IndexFrom(s, pat, 0)
  }

  /** `s.IndexOf(pat) != -1`. */
  predicate Contains(s: string, pat: string)
  {
    IndexOf(s, pat).Some?
  }

  /** A pattern with a character that `s` lacks does not occur in `s`; the comparison is ordinal, so letter case counts. */
  lemma MissingCharNotContained(s: string, pat: string, q: nat)
    requires q < |pat| && pat[q] !in s
    ensures !Contains(s, pat)
  {
  }

  /** The empty string occurs in every string (`IndexOf("")` is 0). */
  lemma EmptyOccursEverywhere(s: string)
    ensures IndexOf(s, "") == Some(0)
  {
    assert MatchAt(s, "", 0);
  }

  predicate StartsWith(s: string, prefix: string)
  {
    |prefix| <= |s| && s[..|prefix|] == prefix
  }

  /** Ordinal lower-casing of the ASCII letters; every other character is kept. */
  function LowerChar(c: char): (r: char)
    ensures 'A' <= c <= 'Z' ==> 'a' <= r <= 'z' && r as int == c as int + 32
    ensures !('A' <= c <= 'Z') ==> r == c
  {
    if 'A' <= c <= 'Z' then (c as int + 32) as char else c
  }

  function Lower(s: string): (r: string)
    ensures |r| == |s|
    ensures forall k :: 0 <= k < |s| ==> r[k] == LowerChar(s[k])
  {
    seq(|s|, k requires 0 <= k < |s| => LowerChar(s[k]))
  }

  /**
   * `s.Replace(pat, "")`: one left-to-right pass that deletes every
   * non-overlapping occurrence of `pat`. .NET refuses an empty `pat`.
   */
  function RemoveAll(s: string, pat: string): (r: string)
    requires |pat| > 0
    ensures |r| <= |s|
    decreases |s|
  {
    if |s| < |pat| then s
    else if s[..|pat|] == pat then RemoveAll(s[|pat|..], pat)
    else [s[0]] + RemoveAll(s[1..], pat)
  }

  /** Deleting occurrences adds no character. */
  lemma {:induction false} RemoveAllKeepsChars(s: string, pat: string)
    requires |pat| > 0
    ensures forall c :: c in RemoveAll(s, pat) ==> c in s
    decreases |s|
  {
    if |s| >= |pat| {
      if s[..|pat|] == pat {
        RemoveAllKeepsChars(s[|pat|..], pat);
      } else {
        RemoveAllKeepsChars(s[1..], pat);
      }
    }
  }

  /** Deleting a one-character pattern leaves none of that character. */
  lemma RemoveAllDeletesChar(s: string, c: char)
    ensures c !in RemoveAll(s, [c])
  {
    RemoveCharKeepsOthers(s, c);
  }

  /** Deleting one character keeps every other character, in order. */
  lemma {:induction false} RemoveCharKeepsOthers(s: string, c: char)
    ensures RemoveAll(s, [c]) == Filter(s, c)
    decreases |s|
  {
    if |s| >= 1 {
      RemoveCharKeepsOthers(s[1..], c);
    }
  }

  /** `s` with every `c` deleted: the reference definition for deleting one character. */
  function Filter(s: string, c: char): (r: string)
    ensures c !in r
  {
    if s == [] then [] else (if s[0] == c then [] else [s[0]]) + Filter(s[1..], c)
  }

  /**
   * After deleting the pairs "??" from left to right, no "??" remains: a kept
   * '?' is never followed by another '?'.
   */
  lemma {:induction false} NoPairAfterRemovingPairs(s: string)
    ensures !Contains(RemoveAll(s, "??"), "??")
    decreases |s|
  {
    var r := RemoveAll(s, "??");
    if |s| < 2 {
      assert |r| < 2;
      assert forall k :: !MatchAt(r, "??", k);
    } else if s[..2] == "??" {
      NoPairAfterRemovingPairs(s[2..]);
    } else {
      var tail := RemoveAll(s[1..], "??");
      NoPairAfterRemovingPairs(s[1..]);
      assert r == [s[0]] + tail;
      if s[0] == '?' {
        assert s[1] != '?';
        HeadKept(s[1..]);
      }
      forall k | MatchAt(r, "??", k) ensures false {
        if k >= 1 {
          assert r[k..k + 2] == tail[k - 1..k + 1];
          assert MatchAt(tail, "??", k - 1);
        }
      }
    }
  }

  /** A string that does not start with '?' keeps its first character. */
  lemma HeadKept(s: string)
    requires |s| > 0 && s[0] != '?'
    ensures |RemoveAll(s, "??")| > 0 && RemoveAll(s, "??")[0] == s[0]
  {
    if |s| >= 2 {
      assert s[..2] != "??";
    }
  }

  /** `s.Replace(from, to)` for characters: every `from` becomes `to`, the length is kept. */
  function ReplaceChar(s: string, from: char, to: char): (r: string)
    ensures |r| == |s|
    ensures forall k :: 0 <= k < |s| ==> r[k] == (if s[k] == from then to else s[k])
  {
    seq(|s|, k requires 0 <= k < |s| => if s[k] == from then to else s[k])
  }

  /**
   * `s.Split(sep)`: the maximal pieces between separators, empty pieces
   * included, so there is always at least one piece.
   */
  function Split(s: string, sep: char): (r: seq<string>)
    ensures |r| >= 1
    ensures forall k :: 0 <= k < |r| ==> sep !in r[k]
    decreases |s|
  {
    match IndexOf(s, [sep])
    case None =>
      assert forall k :: 0 <= k < |s| ==> !MatchAt(s, [sep], k) && s[k..k + 1] == [s[k]];
      [s]
    case Some(k) =>
      assert forall i :: 0 <= i < k ==> !MatchAt(s, [sep], i) && s[i..i + 1] == [s[i]];
      [s[..k]] + Split(s[k + 1..], sep)
  }

  /** The inverse of `Split`: the pieces glued back together with `sep`. */
  function Join(parts: seq<string>, sep: char): string
    requires |parts| >= 1
  {
    if |parts| == 1 then parts[0] else parts[0] + [sep] + Join(parts[1..], sep)
  }

  lemma {:induction false} JoinSplit(s: string, sep: char)
    ensures Join(Split(s, sep), sep) == s
    decreases |s|
  {
    match IndexOf(s, [sep])
    case None =>
    case Some(k) =>
      JoinSplit(s[k + 1..], sep);
      assert s[k..k + 1] == [sep];
      AroundIndex(s, k);
  }

  lemma {:induction false} SplitJoin(parts: seq<string>, sep: char)
    requires |parts| >= 1
    requires forall k :: 0 <= k < |parts| ==> sep !in parts[k]
    ensures Split(Join(parts, sep), sep) == parts
    decreases |parts|
  {
    var s := Join(parts, sep);
    if |parts| == 1 {
      forall k | 0 <= k < |s| ensures !MatchAt(s, [sep], k) {
        assert s[k..k + 1] == [s[k]];
      }
    } else {
      var p := parts[0];
      var rest := Join(parts[1..], sep);
      assert s == p + [sep] + rest;
      assert MatchAt(s, [sep], |p|) by {
        assert s[|p|..|p| + 1] == [sep];
      }
      forall k | 0 <= k < |p| ensures !MatchAt(s, [sep], k) {
        assert s[k] == p[k];
      }
      assert IndexOf(s, [sep]) == Some(|p|);
      assert s[..|p|] == p;
      assert s[|p| + 1..] == rest;
      SplitJoin(parts[1..], sep);
    }
  }
}
