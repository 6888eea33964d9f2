/**
 * `ToolsClass`: the search-term formatter, the relevance "sort" and the
 * synchsafe encoder.
 *
 * `TrackInsertionSort` is kept exactly as written. It is a partition-exchange
 * routine with the first element of the range as pivot, but its partition
 * step does not separate the range around the pivot, so its result is in
 * general not ordered. What it does guarantee is proved here: it reads and
 * writes only inside `[start, end]`, it permutes the elements, and it stops.
 */
module Tools {
  import opened Wrappers
  import opened Tracks
  import opened Text

  // ---------------------------------------------------------------- FormatInputString

  /** The characters `FormatInputString` overwrites with NUL (the quote appears twice in the source list). */
  const BrokenChars: seq<char> := ['\'', '"', '.', '\\', '/', '\'', ',']

  /** What `FormatInputString` makes of one character. */
  function FormatChar(c: char): char
  {
    if c == ' ' then '-' else if c in BrokenChars then '\0' else c
  }

  /**
   * The formatted search term: spaces become '-', the listed punctuation
   * becomes NUL (it is overwritten, not removed), everything else stays.
   */
  function Formatted(s: string): (r: string)
    ensures |r| == |s|
    ensures ' ' !in r
    ensures forall c :: c in BrokenChars ==> c !in r
    ensures forall k :: 0 <= k < |s| && s[k] == ' ' ==> r[k] == '-'
    ensures forall k :: 0 <= k < |s| && s[k] in BrokenChars ==> r[k] == '\0'
    ensures forall k :: 0 <= k < |s| && s[k] != ' ' && s[k] !in BrokenChars ==> r[k] == s[k]
  {
    seq(|s|, k requires 0 <= k < |s| => FormatChar(s[k]))
  }

  /** `FormatInputString`: one `Replace(' ', '-')`, then one `Replace(c, '\0')` per listed character. */
  method FormatInputString(str: string) returns (r: string)
    ensures r == Formatted(str)
  {
    r := ReplaceChar(str, ' ', '-');
    for n := 0 to |BrokenChars|
      invariant |r| == |str|
      invariant forall k :: 0 <= k < |str| ==>
        r[k] == (if str[k] == ' ' then '-' else if str[k] in BrokenChars[..n] then '\0' else str[k])
    {
      assert BrokenChars[..n + 1] == BrokenChars[..n] + [BrokenChars[n]];
      r := ReplaceChar(r, BrokenChars[n], '\0');
    }
    assert BrokenChars[..|BrokenChars|] == BrokenChars;
  }

  /** The driver's search term "Iron Maiden" is sent as "Iron-Maiden". */
  lemma FormatIronMaiden()
    ensures Formatted("Iron Maiden") == "Iron-Maiden"
  {
    var r := Formatted("Iron Maiden");
    forall k | 0 <= k < 11 ensures r[k] == "Iron-Maiden"[k] {
      assert "Iron Maiden"[k] !in BrokenChars;
    }
  }

  /** Formatting never changes what is already formatted. */
  lemma {:induction false} FormattedIdempotent(s: string)
    ensures Formatted(Formatted(s)) == Formatted(s)
  {
    var r := Formatted(s);
    forall k | 0 <= k < |r| ensures Formatted(r)[k] == r[k] {
      assert r[k] == FormatChar(s[k]);
      assert '-' !in BrokenChars && '\0' !in BrokenChars;
    }
  }

  // ---------------------------------------------------------------- TrackInsertionSort

  /**
   * The sort specification is generic in the element type; `key` is the
   * number the routine compares, the relevance count for tracks.
   */
  function Relevance(t: Track): int
  {
    t.relevance
  }

  /** `SwapTrack`: the elements at `i` and `j` exchanged. */
  function Swapped<T>(s: seq<T>, i: int, j: int): (r: seq<T>)
    requires 0 <= i < |s| && 0 <= j < |s|
    ensures |r| == |s| && r[i] == s[j] && r[j] == s[i]
  {
    s[i := s[j]][j := s[i]]
  }

  lemma SwappedPermutes<T>(s: seq<T>, i: int, j: int)
    requires 0 <= i < |s| && 0 <= j < |s|
    ensures multiset(Swapped(s, i, j)) == multiset(s)
  {
  }

  /**
   * The first inner loop: `i` moves right while the key at `i` is at most
   * the pivot, `i <= end` and `j > i`. The element at `i` is read before the
   * other two tests.
   */
  function ScanUp<T>(s: seq<T>, key: T -> int, i: int, j: int, end: int, pivot: int): (r: int)
    requires 0 <= i < |s| && j < |s|
    ensures i <= r < |s|
    ensures r == i || r <= j
    ensures j > i && key(s[i]) <= pivot && i <= end ==> r > i
    ensures r < j && r <= end ==> key(s[r]) > pivot
    decreases j - i
  {
    if key(s[i]) <= pivot && i <= end && j > i then ScanUp(s, key, i + 1, j, end, pivot) else i
  }

  /**
   * The second inner loop: `j` moves left while the key at `j` is above
   * the pivot, `j >= start` and `j >= i`. With `start < i` it never reads
   * below `start`.
   */
  function ScanDown<T>(s: seq<T>, key: T -> int, i: int, j: int, start: int, pivot: int): (r: int)
    requires 0 <= start < i && 0 <= j < |s|
    ensures 0 <= r <= j
    ensures r == j || r >= i - 1
    ensures r >= i ==> key(s[r]) <= pivot
    decreases j
  {
    if key(s[j]) > pivot && j >= start && j >= i then ScanDown(s, key, i, j - 1, start, pivot) else j
  }

  /** The list and the two indices when the `while (j > i)` loop stops. */
  datatype PState<T> = PState(s: seq<T>, i: int, j: int)

  /**
   * The `while (j > i)` loop: scan up, scan down, and swap the two elements
   * when the indices have not crossed. The key at `i` is at most the pivot
   * whenever the loop goes on, so each round moves `i` right.
   */
  function Partition<T>(s: seq<T>, key: T -> int, start: int, end: int, pivot: int, i: int, j: int): (r: PState<T>)
    requires 0 <= start <= i <= end < |s| && start <= j <= end
    requires j > i ==> key(s[i]) <= pivot
    ensures |r.s| == |s|
    ensures start <= r.i <= end && start <= r.j <= end && r.j <= r.i
    decreases j - i
  {
    if j <= i then PState(s, i, j)
    else
      var i' := ScanUp(s, key, i, j, end, pivot);
      var j' := ScanDown(s, key, i', j, start, pivot);
      var s' := if j' > i' then Swapped(s, i', j') else s;
      Partition(s', key, start, end, pivot, i', j')
  }

  /**
   * `TrackInsertionSort(list, start, end)` on the list's contents: partition
   * around the key of the element at `start`, swap the element where `i`
   * stopped with the one at `end`, then recurse on `[start, j - 1]` and
   * `[j + 1, end]`. A range with fewer than two elements is left alone, and
   * nothing outside `[start, end]` moves.
   */
  function Sort<T>(s: seq<T>, key: T -> int, start: int, end: int): (r: seq<T>)
    requires end - start >= 1 ==> 0 <= start && end < |s|
    ensures |r| == |s|
    ensures end - start < 1 ==> r == s
    decreases end - start
  {
    if end - start >= 1 then
      var p := Partition(s, key, start, end, key(s[start]), start, end);
      var s1 := Swapped(p.s, p.i, end);
      var s2 := Sort(s1, key, start, p.j - 1);
      Sort(s2, key, p.j + 1, end)
    else s
  }

  /** The partition loop only exchanges elements. */
  lemma {:induction false} PartitionPermutes<T>(s: seq<T>, key: T -> int, start: int, end: int, pivot: int, i: int, j: int)
    requires 0 <= start <= i <= end < |s| && start <= j <= end
    requires j > i ==> key(s[i]) <= pivot
    ensures multiset(Partition(s, key, start, end, pivot, i, j).s) == multiset(s)
    decreases j - i
  {
    if j > i {
      var i' := ScanUp(s, key, i, j, end, pivot);
      var j' := ScanDown(s, key, i', j, start, pivot);
      var s' := if j' > i' then Swapped(s, i', j') else s;
      if j' > i' {
        SwappedPermutes(s, i', j');
      }
      PartitionPermutes(s', key, start, end, pivot, i', j');
    }
  }

  /** `r` is `s` with at most the elements inside `[start, end]` changed. */
  ghost predicate SameOutside<T>(s: seq<T>, r: seq<T>, start: int, end: int)
  {
    |r| == |s| && forall k :: 0 <= k < |s| && !(start <= k <= end) ==> r[k] == s[k]
  }

  /** The partition loop only touches elements inside `[start, end]`. */
  lemma {:induction false} PartitionFrame<T>(s: seq<T>, key: T -> int, start: int, end: int, pivot: int, i: int, j: int)
    requires 0 <= start <= i <= end < |s| && start <= j <= end
    requires j > i ==> key(s[i]) <= pivot
    ensures SameOutside(s, Partition(s, key, start, end, pivot, i, j).s, start, end)
    decreases j - i
  {
    if j > i {
      var i' := ScanUp(s, key, i, j, end, pivot);
      var j' := ScanDown(s, key, i', j, start, pivot);
      var s' := if j' > i' then Swapped(s, i', j') else s;
      PartitionFrame(s', key, start, end, pivot, i', j');
      var r := Partition(s', key, start, end, pivot, i', j').s;
      forall k | 0 <= k < |s| && !(start <= k <= end) ensures r[k] == s[k] {
        assert r[k] == s'[k];
      }
    }
  }

  /**
   * `Sort` on a range of at least two elements is its one level of
   * recursion. (Kept as a predicate so that proving it unfolds `Sort` once.)
   */
  ghost predicate OneLevel<T>(s: seq<T>, key: T -> int, start: int, end: int)
    requires 0 <= start < end < |s|
  {
    var p := Partition(s, key, start, end, key(s[start]), start, end);
    Sort(s, key, start, end) == Sort(Sort(Swapped(p.s, p.i, end), key, start, p.j - 1), key, p.j + 1, end)
  }

  lemma SortUnfold<T>(s: seq<T>, key: T -> int, start: int, end: int)
    requires 0 <= start < end < |s|
    ensures OneLevel(s, key, start, end)
  {
  }

  /** `Sort` of `s` is the two recursive calls after a partition that stopped at `i`, `j` with the list `sp`. */
  ghost predicate SplitsAt<T>(s: seq<T>, key: T -> int, start: int, end: int, i: int, j: int, sp: seq<T>)
    requires 0 <= start <= j <= i <= end < |s| && |sp| == |s|
  {
    Sort(s, key, start, end) == Sort(Sort(Swapped(sp, i, end), key, start, j - 1), key, j + 1, end)
  }

  lemma SortSplits<T>(s: seq<T>, key: T -> int, start: int, end: int)
    requires 0 <= start < end < |s|
    ensures var p := Partition(s, key, start, end, key(s[start]), start, end); SplitsAt(s, key, start, end, p.i, p.j, p.s)
  {
    var p := Partition(s, key, start, end, key(s[start]), start, end);
    assert SplitsAt(s, key, start, end, p.i, p.j, p.s) by { SortUnfold(s, key, start, end); }
  }

  /** The same level, with the partition's outcome named as the method computes it. */
  lemma SortStep<T>(s: seq<T>, key: T -> int, start: int, end: int, i: int, j: int, sp: seq<T>)
    requires 0 <= start < end < |s|
    requires var p := Partition(s, key, start, end, key(s[start]), start, end); i == p.i && j == p.j && sp == p.s
    ensures |sp| == |s| && start <= j <= i <= end
    ensures SplitsAt(s, key, start, end, i, j, sp)
  {
    SortSplits(s, key, start, end);
  }

  /** The routine reads and writes only inside `[start, end]`: every element outside stays where it was. */
  lemma {:induction false} SortFrame<T>(s: seq<T>, key: T -> int, start: int, end: int)
    requires end - start >= 1 ==> 0 <= start && end < |s|
    ensures SameOutside(s, Sort(s, key, start, end), start, end)
    decreases end - start, 2
  {
    if end - start >= 1 {
      RangeFrame(s, key, start, end);
    }
  }

  /** The frame on a range of at least two elements: partition, then the two recursive calls. */
  lemma {:induction false} RangeFrame<T>(s: seq<T>, key: T -> int, start: int, end: int)
    requires 0 <= start < end < |s|
    ensures SameOutside(s, Sort(s, key, start, end), start, end)
    decreases end - start, 1
  {
    var pivot := key(s[start]);
    var i, j, sp := Partition(s, key, start, end, pivot, start, end).i,
                    Partition(s, key, start, end, pivot, start, end).j,
                    Partition(s, key, start, end, pivot, start, end).s;
    SortStep(s, key, start, end, i, j, sp);
    PartitionFrame(s, key, start, end, pivot, start, end);
    SwapInside(s, sp, start, end, i);
    LevelFrame(s, key, start, end, j, Swapped(sp, i, end));
  }

  /** The two recursive calls on a list that agrees with `s` outside `[start, end]` keep that agreement. */
  lemma {:induction false} LevelFrame<T>(s: seq<T>, key: T -> int, start: int, end: int, j: int, s1: seq<T>)
    requires 0 <= start <= j <= end < |s|
    requires SameOutside(s, s1, start, end)
    ensures SameOutside(s, Sort(Sort(s1, key, start, j - 1), key, j + 1, end), start, end)
    decreases end - start, 0
  {
    SubrangeFrame(s, s1, key, start, end, start, j - 1);
    var s2 := Sort(s1, key, start, j - 1);
    SubrangeFrame(s, s2, key, start, end, j + 1, end);
  }

  /** Sorting a subrange of a list that agrees with `s` outside `[start, end]` keeps that agreement. */
  lemma {:induction false} SubrangeFrame<T>(s: seq<T>, r: seq<T>, key: T -> int, start: int, end: int, lo: int, hi: int)
    requires SameOutside(s, r, start, end) && start <= lo && hi <= end
    requires hi - lo >= 1 ==> 0 <= lo && hi < |r|
    ensures SameOutside(s, Sort(r, key, lo, hi), start, end)
    decreases hi - lo, 3
  {
    SortFrame(r, key, lo, hi);
    OutsideTrans(s, r, Sort(r, key, lo, hi), start, end, lo, hi);
  }

  /** Agreement outside a range composes with agreement outside a smaller range. */
  lemma OutsideTrans<T>(s: seq<T>, r: seq<T>, t: seq<T>, start: int, end: int, lo: int, hi: int)
    requires SameOutside(s, r, start, end) && SameOutside(r, t, lo, hi) && start <= lo && hi <= end
    ensures SameOutside(s, t, start, end)
  {
    forall k | 0 <= k < |s| && !(start <= k <= end) ensures t[k] == s[k] {
      assert t[k] == r[k];
    }
  }

  /** Swapping two elements inside the range changes nothing outside it. */
  lemma SwapInside<T>(s: seq<T>, sp: seq<T>, start: int, end: int, i: int)
    requires 0 <= start <= i <= end < |s| && SameOutside(s, sp, start, end)
    ensures SameOutside(s, Swapped(sp, i, end), start, end)
  {
    forall k | 0 <= k < |s| && !(start <= k <= end) ensures Swapped(sp, i, end)[k] == s[k] {
      assert Swapped(sp, i, end)[k] == sp[k];
    }
  }

  /** The routine only rearranges the list: its result is a permutation of its input. */
  lemma {:induction false} SortPermutes<T>(s: seq<T>, key: T -> int, start: int, end: int)
    requires end - start >= 1 ==> 0 <= start && end < |s|
    ensures multiset(Sort(s, key, start, end)) == multiset(s)
    decreases end - start
  {
    if end - start >= 1 {
      var p := Partition(s, key, start, end, key(s[start]), start, end);
      SortStep(s, key, start, end, p.i, p.j, p.s);
      PartitionPermutes(s, key, start, end, key(s[start]), start, end);
      SwappedPermutes(p.s, p.i, end);
      var s1 := Swapped(p.s, p.i, end);
      var s2 := Sort(s1, key, start, p.j - 1);
      SortPermutes(s1, key, start, p.j - 1);
      SortPermutes(s2, key, p.j + 1, end);
      assert multiset(s2) == multiset(s1) == multiset(p.s) == multiset(s);
    }
  }

  /** A track that only carries a relevance count. */
  function Scored(n: int): Track
  {
    Track(None, None, None, None, n)
  }

  /** Relevance counts [3, 1, 2] come out unchanged: the routine does not order them. */
  lemma SortLeaves312()
    ensures Sort([Scored(3), Scored(1), Scored(2)], Relevance, 0, 2) == [Scored(3), Scored(1), Scored(2)]
  {
    var s := [Scored(3), Scored(1), Scored(2)];
    assert ScanUp(s, Relevance, 0, 2, 2, 3) == 2;
    assert ScanDown(s, Relevance, 2, 2, 0, 3) == 2;
    assert Partition(s, Relevance, 0, 2, 3, 0, 2) == PState(s, 2, 2);
    assert Swapped(s, 2, 2) == s;
    assert ScanUp(s, Relevance, 0, 1, 1, 3) == 1;
    assert ScanDown(s, Relevance, 1, 1, 0, 3) == 1;
    assert Partition(s, Relevance, 0, 1, 3, 0, 1) == PState(s, 1, 1);
    assert Swapped(s, 1, 1) == s;
    assert Sort(s, Relevance, 0, 1) == s;
  }

  /** Relevance counts [1, 2, 3] come out as [1, 3, 2]. */
  lemma SortMakes132()
    ensures Sort([Scored(1), Scored(2), Scored(3)], Relevance, 0, 2) == [Scored(1), Scored(3), Scored(2)]
  {
    var s := [Scored(1), Scored(2), Scored(3)];
    var t := [Scored(1), Scored(3), Scored(2)];
    assert ScanUp(s, Relevance, 0, 2, 2, 1) == 1;
    assert ScanDown(s, Relevance, 1, 2, 0, 1) == 0;
    assert Partition(s, Relevance, 0, 2, 1, 0, 2) == PState(s, 1, 0);
    assert Swapped(s, 1, 2) == t;
    assert ScanUp(t, Relevance, 1, 2, 2, 3) == 2;
    assert ScanDown(t, Relevance, 2, 2, 1, 3) == 2;
    assert Partition(t, Relevance, 1, 2, 3, 1, 2) == PState(t, 2, 2);
    assert Swapped(t, 2, 2) == t;
    assert Sort(t, Relevance, 1, 2) == t;
  }

  /** `SwapTrack`, in place. */
  method SwapTrack(a: array<Track>, i: int, j: int)
    requires 0 <= i < a.Length && 0 <= j < a.Length
    modifies a
    ensures a[..] == Swapped(old(a[..]), i, j)
  {
    var tmp := a[i];
    a[i] := a[j];
    a[j] := tmp;
  }

  /** The first inner loop of `TrackInsertionSort`, in place. */
  method ScanUpLoop(a: array<Track>, i0: int, j: int, end: int, pivot: int) returns (i: int)
    requires 0 <= i0 <= j < a.Length
    ensures i == ScanUp(a[..], Relevance, i0, j, end, pivot)
  {
    i := i0;
    while a[i].relevance <= pivot && i <= end && j > i
      invariant i0 <= i <= j
      invariant ScanUp(a[..], Relevance, i, j, end, pivot) == ScanUp(a[..], Relevance, i0, j, end, pivot)
      decreases j - i
    {
      i := i + 1;
    }
  }

  /** The second inner loop of `TrackInsertionSort`, in place. */
  method ScanDownLoop(a: array<Track>, i: int, j0: int, start: int, pivot: int) returns (j: int)
    requires 0 <= start < i && 0 <= j0 < a.Length
    ensures j == ScanDown(a[..], Relevance, i, j0, start, pivot)
  {
    j := j0;
    while a[j].relevance > pivot && j >= start && j >= i
      invariant 0 <= j <= j0 && (j == j0 || j >= i - 1)
      invariant ScanDown(a[..], Relevance, i, j, start, pivot) == ScanDown(a[..], Relevance, i, j0, start, pivot)
      decreases j
    {
      j := j - 1;
    }
  }

  /** The `while (j > i)` loop of `TrackInsertionSort`, in place. */
  method PartitionLoop(a: array<Track>, start: int, end: int, pivot: int) returns (i: int, j: int)
    requires 0 <= start < end < a.Length && a[start].relevance <= pivot
    modifies a
    ensures var p := Partition(old(a[..]), Relevance, start, end, pivot, start, end); i == p.i && j == p.j && a[..] == p.s
  {
    i, j := start, end;
    while j > i
      invariant start <= i <= end && start <= j <= end
      invariant j > i ==> a[i].relevance <= pivot
      invariant Partition(a[..], Relevance, start, end, pivot, i, j) == Partition(old(a[..]), Relevance, start, end, pivot, start, end)
      decreases j - i
    {
      i := ScanUpLoop(a, i, j, end, pivot);
      j := ScanDownLoop(a, i, j, start, pivot);
      if j > i {
        SwapTrack(a, i, j);
      }
    }
  }

  /**
   * `TrackInsertionSort`, in place on the array of tracks, with its loops and
   * recursion kept; it indexes only inside `[start, end]`.
   */
  method TrackInsertionSort(a: array<Track>, start: int, end: int)
    requires end - start >= 1 ==> 0 <= start && end < a.Length
    modifies a
    ensures a[..] == Sort(old(a[..]), Relevance, start, end)
    ensures multiset(a[..]) == multiset(old(a[..]))
    decreases end - start
  {
    if end - start >= 1 {
      ghost var s0 := a[..];
      var pivot := a[start].relevance;
      assert pivot == Relevance(s0[start]);
      var i, j := PartitionLoop(a, start, end, pivot);
      ghost var sp := a[..];
      PartitionPermutes(s0, Relevance, start, end, pivot, start, end);
      SortStep(s0, Relevance, start, end, i, j, sp);
      SwappedPermutes(sp, i, end);
      SwapTrack(a, i, end);
      TrackInsertionSort(a, start, j - 1);
      TrackInsertionSort(a, j + 1, end);
    }
  }

  // ---------------------------------------------------------------- synchsafe

  /** The mask before the loop's `k`-th round: 0x7F, 0x7FFF, 0x7FFFFF, then 0x7FFFFFFF, which ends it. */
  function MaskAt(k: nat): bv32
    requires k <= 3
  {
    if k == 0 then 0x7F else if k == 1 then 0x7FFF else if k == 2 then 0x7F_FFFF else 0x7FFF_FFFF
  }

  /** One round: the bits above the mask move up by one, opening a zero bit just above the mask. */
  function Spread(x: bv32, mask: bv32): bv32
  {
    ((x & !mask) << 1) | (x & mask)
  }

  /** The value after `k` rounds. */
  function Rounds(x: bv32, k: nat): bv32
    requires k <= 3
  {
    if k == 0 then x else Spread(Rounds(x, k - 1), MaskAt(k - 1))
  }

  /**
   * The synchsafe encoding of section 6.2 of the ID3v2.4.0 structure
   * document: 7 bits per byte, the top bit of each byte clear, the bits
   * above bit 28 of the input shifted out (C# `int` shifts wrap).
   */
  function SynchsafeOf(x: bv32): bv32
  {
    (x & 0x7F) | ((x << 1) & 0x7F00) | ((x << 2) & 0x7F_0000) | ((x << 3) & 0xFF00_0000)
  }

  /** The first round moves everything above bit 6 up by one. */
  lemma FirstRound(x: bv32)
    ensures Spread(x, 0x7F) == (x & 0x7F) | ((x << 1) & 0xFFFF_FF00)
  {
  }

  lemma SecondRound(x: bv32)
    ensures Spread((x & 0x7F) | ((x << 1) & 0xFFFF_FF00), 0x7FFF)
         == (x & 0x7F) | ((x << 1) & 0x7F00) | ((x << 2) & 0xFFFF_0000)
  {
  }

  lemma ThirdRound(x: bv32)
    ensures Spread((x & 0x7F) | ((x << 1) & 0x7F00) | ((x << 2) & 0xFFFF_0000), 0x7F_FFFF) == SynchsafeOf(x)
  {
  }

  /** Three rounds are exactly the synchsafe encoding. */
  lemma RoundsAreSynchsafe(x: bv32)
    ensures Rounds(x, 3) == SynchsafeOf(x)
  {
    var x1 := (x & 0x7F) | ((x << 1) & 0xFFFF_FF00);
    var x2 := (x & 0x7F) | ((x << 1) & 0x7F00) | ((x << 2) & 0xFFFF_0000);
    FirstRound(x);
    assert Rounds(x, 1) == x1;
    SecondRound(x);
    assert Rounds(x, 2) == x2;
    ThirdRound(x);
  }

  /** The loop's mask update `((mask + 1) << 8) - 1` walks through `MaskAt`, and only the last mask ends the loop. */
  lemma MaskSteps(k: nat)
    requires k <= 3
    ensures (MaskAt(k) ^ 0x7FFF_FFFF != 0) <==> k < 3
    ensures k < 3 ==> ((MaskAt(k) + 1) << 8) - 1 == MaskAt(k + 1)
  {
  }

  /** The three statements of one round of `synchsafe`'s loop. */
  method SpreadRound(x: bv32, mask: bv32) returns (outData: bv32)
    ensures outData == Spread(x, mask)
  {
    outData := x & !mask;
    outData := outData << 1;
    outData := outData | (x & mask);
  }

  /** `synchsafe` on the bits of a C# `int`, with its `while` loop kept. */
  method Synchsafe(inData: bv32) returns (outData: bv32)
    ensures outData == SynchsafeOf(inData)
  {
    outData := 0;
    var mask: bv32 := 0x7F;
    var x := inData;
    ghost var k: nat := 0;
    while (mask ^ 0x7FFF_FFFF) != 0
      invariant k <= 3 && mask == MaskAt(k)
      invariant x == Rounds(inData, k)
      invariant k > 0 ==> outData == x
      decreases 3 - k
    {
      MaskSteps(k);
      outData := SpreadRound(x, mask);
      mask := ((mask + 1) << 8) - 1;
      x := outData;
      k := k + 1;
    }
    MaskSteps(k);
    RoundsAreSynchsafe(inData);
  }

  /** Decoding a synchsafe integer: the low 7 bits of each byte, packed together. */
  function Unsynchsafe(y: bv32): bv32
  {
    (y & 0x7F) | ((y & 0x7F00) >> 1) | ((y & 0x7F_0000) >> 2) | ((y & 0x7F00_0000) >> 3)
  }

  /** Every value below 2^28 survives encoding and decoding, and its encoding has no byte's top bit set. */
  lemma SynchsafeRoundTrip(x: bv32)
    requires x < 0x1000_0000
    ensures Unsynchsafe(SynchsafeOf(x)) == x
    ensures SynchsafeOf(x) & 0x8080_8080 == 0
  {
  }

  /** Every word with no byte's top bit set is the encoding of its decoding. */
  lemma UnsynchsafeRoundTrip(y: bv32)
    requires y & 0x8080_8080 == 0
    ensures SynchsafeOf(Unsynchsafe(y)) == y
    ensures Unsynchsafe(y) < 0x1000_0000
  {
  }
}
