/**
 * `Downstream.GenerateTrackList`: the links from every provider, the tracks
 * parsed from them, then (on request) duplicate titles removed, a relevance
 * score added to every track and the list reordered by that score.
 *
 * Titles are compared exactly (the dictionary's default string comparer),
 * and a search-term token matches a field when the field contains it, by
 * ordinal comparison (see the `Text` module).
 */
module Downstream {
  import opened Wrappers
  import opened Text
  import opened Tracks
  import opened Seqs
  import opened Tools
  import opened Links
  import opened Id3

  // ---------------------------------------------------------------- duplicates

  /** The titles the tracks carry: the keys `uniqueTrackDictionary` has been given. */
  function TitlesOf(ts: seq<Track>): set<Option<string>>
  {
    set k | 0 <= k < |ts| :: ts[k].title
  }

  /** No earlier track has the title of the track at `k`. */
  predicate FirstOfTitle(ts: seq<Track>, k: int)
    requires 0 <= k < |ts|
  {
    forall p :: 0 <= p < k ==> ts[p].title != ts[k].title
  }

  /** What the dedup loop keeps: each track whose title no earlier track had, in input order. */
  function Unique(ts: seq<Track>): (r: seq<Track>)
    ensures |r| <= |ts|
    decreases |ts|
  {
    if ts == [] then []
    else
      var init, last := ts[..|ts| - 1], ts[|ts| - 1];
      Unique(init) + (if last.title in TitlesOf(init) then [] else [last])
  }

  lemma TitlesSnoc(ts: seq<Track>, t: Track)
    ensures TitlesOf(ts + [t]) == TitlesOf(ts) + {t.title}
  {
    var u := ts + [t];
    assert u[|ts|] == t;
    forall x | x in TitlesOf(ts) ensures x in TitlesOf(u) {
      var k :| 0 <= k < |ts| && ts[k].title == x;
      assert u[k] == ts[k];
    }
  }

  lemma UniqueSnoc(ts: seq<Track>, t: Track)
    ensures Unique(ts + [t]) == Unique(ts) + (if t.title in TitlesOf(ts) then [] else [t])
  {
    assert (ts + [t])[..|ts|] == ts;
  }

  /** Dedup keeps every title, and adds none. */
  lemma {:induction false} UniqueKeepsTitles(ts: seq<Track>)
    ensures TitlesOf(Unique(ts)) == TitlesOf(ts)
    decreases |ts|
  {
    if ts != [] {
      var init, last := ts[..|ts| - 1], ts[|ts| - 1];
      assert ts == init + [last];
      UniqueKeepsTitles(init);
      UniqueSnoc(init, last);
      TitlesSnoc(init, last);
      if last.title !in TitlesOf(init) {
        TitlesSnoc(Unique(init), last);
      } else {
        assert Unique(ts) == Unique(init);
      }
    }
  }

  /** No two tracks of the deduplicated list share a title. */
  lemma {:induction false} UniqueDistinctTitles(ts: seq<Track>)
    ensures var r := Unique(ts); forall i, j :: 0 <= i < j < |r| ==> r[i].title != r[j].title
    decreases |ts|
  {
    if ts != [] {
      var init, last := ts[..|ts| - 1], ts[|ts| - 1];
      assert ts == init + [last];
      UniqueDistinctTitles(init);
      UniqueSnoc(init, last);
      UniqueKeepsTitles(init);
      var u := Unique(init);
      if last.title !in TitlesOf(init) {
        forall i | 0 <= i < |u| ensures u[i].title != last.title {
          assert u[i].title in TitlesOf(u);
        }
      }
    }
  }

  /** `a` is `b` with some elements left out, the rest in the same order. */
  predicate IsSubsequence<T(==)>(a: seq<T>, b: seq<T>)
    decreases |b|
  {
    if a == [] then true
    else if b == [] then false
    else
      || (a[|a| - 1] == b[|b| - 1] && IsSubsequence(a[..|a| - 1], b[..|b| - 1]))
      || IsSubsequence(a, b[..|b| - 1])
  }

  /** A subsequence is no longer than the sequence it is taken from. */
  lemma {:induction false} SubsequenceNoLonger<T>(a: seq<T>, b: seq<T>)
    requires IsSubsequence(a, b)
    ensures |a| <= |b|
    decreases |b|
  {
    if a != [] {
      if a[|a| - 1] == b[|b| - 1] && IsSubsequence(a[..|a| - 1], b[..|b| - 1]) {
        SubsequenceNoLonger(a[..|a| - 1], b[..|b| - 1]);
      } else {
        SubsequenceNoLonger(a, b[..|b| - 1]);
      }
    }
  }

  /** Dedup only leaves tracks out; the survivors keep their relative order. */
  lemma {:induction false} UniqueIsSubsequence(ts: seq<Track>)
    ensures IsSubsequence(Unique(ts), ts)
    decreases |ts|
  {
    if ts != [] {
      var init, last := ts[..|ts| - 1], ts[|ts| - 1];
      assert ts == init + [last];
      UniqueIsSubsequence(init);
      UniqueSnoc(init, last);
      var u := Unique(init);
      if last.title in TitlesOf(init) {
        assert Unique(ts) == u;
        if u != [] {
          assert ts[..|ts| - 1] == init;
          assert IsSubsequence(u, ts);
        }
      } else {
        Snoc(u, last);
        Snoc(init, last);
        assert Unique(ts) == u + [last];
      }
    }
  }

  /** The tracks that survive are exactly those that are the first with their title. */
  lemma {:induction false} UniqueKeepsFirst(ts: seq<Track>)
    ensures forall k :: 0 <= k < |ts| && FirstOfTitle(ts, k) ==> ts[k] in Unique(ts)
    ensures forall t :: t in Unique(ts) ==> exists k :: 0 <= k < |ts| && ts[k] == t && FirstOfTitle(ts, k)
    decreases |ts|
  {
    if ts != [] {
      var init, last := ts[..|ts| - 1], ts[|ts| - 1];
      assert ts == init + [last];
      UniqueKeepsFirst(init);
      UniqueSnoc(init, last);
      forall k | 0 <= k < |init| ensures FirstOfTitle(ts, k) == FirstOfTitle(init, k) {
      }
      if last.title in TitlesOf(init) {
        var p :| 0 <= p < |init| && init[p].title == last.title;
        assert !FirstOfTitle(ts, |ts| - 1);
      } else {
        assert FirstOfTitle(ts, |ts| - 1);
      }
    }
  }

  /** Every kept track comes from the input, so it has the input's properties. */
  lemma UniqueKeepsText(ts: seq<Track>)
    requires AllHaveText(ts)
    ensures AllHaveText(Unique(ts)) && |Unique(ts)| <= |ts|
    ensures forall i :: 0 <= i < |Unique(ts)| ==> Unique(ts)[i] in ts
  {
    var u := Unique(ts);
    UniqueKeepsFirst(ts);
    forall i | 0 <= i < |u| ensures u[i].HasText() && u[i] in ts {
      assert u[i] in u;
    }
    UniqueIsSubsequence(ts);
    SubsequenceNoLonger(u, ts);
  }

  /** Two tracks titled "Run" with different artists: only the first is kept. */
  lemma SecondRunDropped(first: Track, second: Track)
    requires first.title == Some("Run") && second.title == Some("Run") && first.artist != second.artist
    ensures Unique([first, second]) == [first]
  {
    UniqueSnoc([], first);
    UniqueSnoc([first], second);
    assert [first, second] == [first] + [second] && [first] == [] + [first];
    assert first.title in TitlesOf([first]) by { assert [first][0] == first; }
  }

  /**
   * The `removeDuplicates` block: a track is added to the new list when the
   * dictionary does not yet hold its title, and its title is then added.
   * A null title would make the dictionary throw, hence the precondition.
   */
  method RemoveDuplicates(ts: seq<Track>) returns (r: seq<Track>)
    requires forall k :: 0 <= k < |ts| ==> ts[k].title.Some?
    ensures r == Unique(ts)
  {
    var keys: set<string> := {};
    r := [];
    TakeNoneAll([], ts);
    for n := 0 to |ts|
      invariant forall x :: x in keys <==> Some(x) in TitlesOf(ts[..n])
      invariant r == Unique(ts[..n])
    {
      var trk := ts[n];
      TakeSnoc([], ts, n);
      UniqueSnoc(ts[..n], trk);
      TitlesSnoc(ts[..n], trk);
      if trk.title.value !in keys {
        keys := keys + {trk.title.value};
        r := r + [trk];
      }
    }
  }

  // ---------------------------------------------------------------- relevance

  /** One point per token that occurs in `field` (`IndexOf(token) != -1`); a repeated token scores again. */
  function FieldHits(field: string, tokens: seq<string>): (n: nat)
    ensures n <= |tokens|
    decreases |tokens|
  {
    if tokens == [] then 0
    else FieldHits(field, tokens[..|tokens| - 1]) + (if Contains(field, tokens[|tokens| - 1]) then 1 else 0)
  }

  lemma FieldHitsSnoc(field: string, tokens: seq<string>, token: string)
    ensures FieldHits(field, tokens + [token]) == FieldHits(field, tokens) + (if Contains(field, token) then 1 else 0)
  {
    Snoc(tokens, token);
  }

  /** The positions of the tokens that occur in `field`. */
  function MatchingTokens(field: string, tokens: seq<string>): set<int>
  {
    set q | 0 <= q < |tokens| && Contains(field, tokens[q])
  }

  lemma MatchingSnoc(field: string, tokens: seq<string>, token: string)
    ensures MatchingTokens(field, tokens + [token])
         == MatchingTokens(field, tokens) + (if Contains(field, token) then {|tokens|} else {})
    ensures |tokens| !in MatchingTokens(field, tokens)
  {
    var u := tokens + [token];
    var m, m' := MatchingTokens(field, tokens), MatchingTokens(field, u);
    forall q | q in m ensures q in m' {
      assert u[q] == tokens[q];
    }
    forall q | q in m' && q != |tokens| ensures q in m {
      assert u[q] == tokens[q];
    }
    assert u[|tokens|] == token;
  }

  /** A field earns exactly one point per token position whose token it contains. */
  lemma {:induction false} FieldHitsCounts(field: string, tokens: seq<string>)
    ensures FieldHits(field, tokens) == |MatchingTokens(field, tokens)|
    decreases |tokens|
  {
    if tokens != [] {
      var init, last := tokens[..|tokens| - 1], tokens[|tokens| - 1];
      assert tokens == init + [last];
      FieldHitsCounts(field, init);
      FieldHitsSnoc(field, init, last);
      MatchingSnoc(field, init, last);
    }
  }

  /** Token matching is case-sensitive: "maiden" earns nothing in "Iron Maiden", "Maiden" earns a point. */
  lemma ScoringIsCaseSensitive()
    ensures FieldHits("Iron Maiden", ["Maiden"]) == 1
    ensures FieldHits("Iron Maiden", ["maiden"]) == 0
  {
    var field := "Iron Maiden";
    assert field[5..11] == "Maiden";
    assert MatchAt(field, "Maiden", 5);
    MissingCharNotContained(field, "maiden", 0);
    FieldHitsSnoc(field, [], "Maiden");
    FieldHitsSnoc(field, [], "maiden");
    assert [] + ["Maiden"] == ["Maiden"] && [] + ["maiden"] == ["maiden"];
  }

  /** The points earned over several fields: the sum of each field's points. */
  function Hits(items: seq<string>, tokens: seq<string>): (n: nat)
    ensures n <= |items| * |tokens|
    decreases |items|
  {
    if items == [] then 0
    else Hits(items[..|items| - 1], tokens) + FieldHits(items[|items| - 1], tokens)
  }

  lemma HitsSnoc(items: seq<string>, item: string, tokens: seq<string>)
    ensures Hits(items + [item], tokens) == Hits(items, tokens) + FieldHits(item, tokens)
  {
    Snoc(items, item);
  }

  lemma HitsOfThree(x: string, y: string, z: string, tokens: seq<string>)
    ensures Hits([x, y, z], tokens) == FieldHits(x, tokens) + FieldHits(y, tokens) + FieldHits(z, tokens)
  {
    HitsSnoc([], x, tokens);
    HitsSnoc([x], y, tokens);
    HitsSnoc([x, y], z, tokens);
    assert [x] == [] + [x] && [x, y] == [x] + [y] && [x, y, z] == [x, y] + [z];
  }

  /** `TrackItems` of a track whose fields are all set: title, artist, album. */
  function TextItems(t: Track): (r: seq<string>)
    requires t.HasText()
    ensures |r| == 3 && t.Items() == [Some(r[0]), Some(r[1]), Some(r[2])]
  {
    [t.title.value, t.artist.value, t.album.value]
  }

  /** The track after the scoring loop has run over it. */
  function Rescored(t: Track, tokens: seq<string>): (r: Track)
    requires t.HasText()
    ensures r.Items() == t.Items() && r.link == t.link
    ensures t.relevance <= r.relevance <= t.relevance + 3 * |tokens|
  {
    t.(relevance := t.relevance + Hits(TextItems(t), tokens))
  }

  /** Every track of the list scored. */
  function ScoreAll(ts: seq<Track>, tokens: seq<string>): (r: seq<Track>)
    requires AllHaveText(ts)
    ensures |r| == |ts| && AllHaveText(r)
  {
    seq(|ts|, k requires 0 <= k < |ts| => Rescored(ts[k], tokens))
  }

  /**
   * A track earns exactly one point per (field, token) pair whose token
   * occurs in the field, so at most three points per token.
   */
  lemma TrackHitsArePairs(t: Track, tokens: seq<string>)
    requires t.HasText()
    ensures Hits(TextItems(t), tokens)
         == |MatchingTokens(t.title.value, tokens)| + |MatchingTokens(t.artist.value, tokens)| + |MatchingTokens(t.album.value, tokens)|
    ensures Hits(TextItems(t), tokens) <= 3 * |tokens|
  {
    HitsOfThree(t.title.value, t.artist.value, t.album.value, tokens);
    FieldHitsCounts(t.title.value, tokens);
    FieldHitsCounts(t.artist.value, tokens);
    FieldHitsCounts(t.album.value, tokens);
  }

  /**
   * Scoring keeps the list's length, order and text: each track only gains
   * its points, between none and three per token.
   */
  lemma ScoreAllKeepsTracks(ts: seq<Track>, tokens: seq<string>)
    requires AllHaveText(ts)
    ensures var r := ScoreAll(ts, tokens);
      && |r| == |ts| && AllHaveText(r)
      && forall k :: 0 <= k < |ts| ==>
           && r[k].Items() == ts[k].Items() && r[k].link == ts[k].link
           && ts[k].relevance <= r[k].relevance <= ts[k].relevance + 3 * |tokens|
  {
    forall k | 0 <= k < |ts| ensures Hits(TextItems(ts[k]), tokens) <= 3 * |tokens| {
      TrackHitsArePairs(ts[k], tokens);
    }
  }

  /** An empty token (an empty term, or two '-' in a row) occurs in every field. */
  lemma EmptyTokenMatchesEveryField(field: string, tokens: seq<string>, q: int)
    requires 0 <= q < |tokens| && tokens[q] == ""
    ensures q in MatchingTokens(field, tokens)
  {
    EmptyOccursEverywhere(field);
  }

  /** An empty search term is the single empty token, which earns every track three points. */
  lemma EmptyTermScoresThree(t: Track)
    requires t.HasText()
    ensures Hits(TextItems(t), Split("", '-')) == 3
  {
    assert IndexOf("", "-") == None;
    var tokens := Split("", '-');
    assert tokens == [""];
    HitsOfThree(t.title.value, t.artist.value, t.album.value, tokens);
    forall field ensures FieldHits(field, tokens) == 1 {
      EmptyOccursEverywhere(field);
      FieldHitsSnoc(field, [], "");
      assert tokens == [] + [""];
    }
  }

  /**
   * The scoring loops, in place: for each track, for each of its three
   * fields, for each token, one point when the field contains the token.
   */
  method ScoreByRelevance(a: array<Track>, tokens: seq<string>)
    requires forall k :: 0 <= k < a.Length ==> a[k].HasText()
    modifies a
    ensures AllHaveText(old(a[..])) && a[..] == ScoreAll(old(a[..]), tokens)
  {
    ghost var before := a[..];
    for k := 0 to a.Length
      invariant forall m :: 0 <= m < k ==> a[m] == Rescored(before[m], tokens)
      invariant forall m :: k <= m < a.Length ==> a[m] == before[m]
    {
      var items := TextItems(a[k]);
      ghost var t := a[k];
      ghost var mid := a[..];
      TakeNoneAll([], items);
      for f := 0 to 3
        invariant a[k] == t.(relevance := t.relevance + Hits(items[..f], tokens))
        invariant forall m :: 0 <= m < a.Length && m != k ==> a[m] == mid[m]
      {
        var trkItem := items[f];
        TakeSnoc([], items, f);
        HitsSnoc(items[..f], trkItem, tokens);
        TakeNoneAll([], tokens);
        for q := 0 to |tokens|
          invariant a[k] == t.(relevance := t.relevance + Hits(items[..f], tokens) + FieldHits(trkItem, tokens[..q]))
          invariant forall m :: 0 <= m < a.Length && m != k ==> a[m] == mid[m]
        {
          TakeSnoc([], tokens, q);
          FieldHitsSnoc(trkItem, tokens[..q], tokens[q]);
          if Contains(trkItem, tokens[q]) {
            a[k] := a[k].(relevance := a[k].relevance + 1);
          }
        }
      }
    }
  }

  // ---------------------------------------------------------------- the whole list

  /** The list after the `removeDuplicates` step. */
  function Deduped(ts: seq<Track>, removeDuplicates: bool): (d: seq<Track>)
    requires AllHaveText(ts)
    ensures AllHaveText(d) && |d| <= |ts|
    ensures forall i :: 0 <= i < |d| ==> d[i] in ts
  {
    if removeDuplicates then
      UniqueKeepsText(ts);
      Unique(ts)
    else ts
  }

  /** The `focusForEfficiency` block: score every track against the term's tokens, then reorder. */
  function Focused(d: seq<Track>, term: string): (r: seq<Track>)
    requires AllHaveText(d)
    ensures |r| == |d|
  {
    var scored := ScoreAll(d, Split(term, '-'));
    Sort(scored, Relevance, 0, |scored| - 1)
  }

  /** What `GenerateTrackList` makes of the parsed tracks. */
  function Aggregated(ts: seq<Track>, term: string, removeDuplicates: bool, focusForEfficiency: bool): (r: seq<Track>)
    requires AllHaveText(ts)
    ensures |r| <= |ts|
  {
    var d := Deduped(ts, removeDuplicates);
    if focusForEfficiency then Focused(d, term) else d
  }

  /**
   * The result is a permutation of the deduplicated list, scored when asked:
   * no track is lost or added by the sort.
   */
  lemma AggregatedPermutes(ts: seq<Track>, term: string, removeDuplicates: bool, focusForEfficiency: bool)
    requires AllHaveText(ts)
    ensures var d := Deduped(ts, removeDuplicates);
      multiset(Aggregated(ts, term, removeDuplicates, focusForEfficiency))
      == multiset(if focusForEfficiency then ScoreAll(d, Split(term, '-')) else d)
  {
    if focusForEfficiency {
      var scored := ScoreAll(Deduped(ts, removeDuplicates), Split(term, '-'));
      SortPermutes(scored, Relevance, 0, |scored| - 1);
    }
  }

  /**
   * Every track of the result is one of the parsed tracks, with the same
   * title, artist, album and link, and a relevance raised by at most three
   * points per token (by none when scoring is off); there are no more of them.
   */
  lemma AggregatedFromInput(ts: seq<Track>, term: string, removeDuplicates: bool, focusForEfficiency: bool)
    requires AllHaveText(ts)
    ensures var r := Aggregated(ts, term, removeDuplicates, focusForEfficiency);
      && |r| <= |ts| && AllHaveText(r)
      && forall i :: 0 <= i < |r| ==>
           Descends(r[i], ts, if focusForEfficiency then 3 * |Split(term, '-')| else 0)
  {
    var d := Deduped(ts, removeDuplicates);
    var x := if focusForEfficiency then ScoreAll(d, Split(term, '-')) else d;
    AggregatedPermutes(ts, term, removeDuplicates, focusForEfficiency);
    BeforeSortDescends(ts, term, removeDuplicates, focusForEfficiency);
    PermutedDescends(x, Aggregated(ts, term, removeDuplicates, focusForEfficiency), ts,
                     if focusForEfficiency then 3 * |Split(term, '-')| else 0);
  }

  /** `t` is one of the tracks `ts` with its texts and link kept and its relevance raised by at most `bonus`. */
  ghost predicate Descends(t: Track, ts: seq<Track>, bonus: nat)
  {
    exists k ::
      && 0 <= k < |ts|
      && t.Items() == ts[k].Items() && t.link == ts[k].link
      && ts[k].relevance <= t.relevance <= ts[k].relevance + bonus
  }

  /** Before the sort, every track of the deduplicated (and possibly scored) list descends from an input track. */
  lemma BeforeSortDescends(ts: seq<Track>, term: string, removeDuplicates: bool, focusForEfficiency: bool)
    requires AllHaveText(ts)
    ensures var d := Deduped(ts, removeDuplicates);
      var x := if focusForEfficiency then ScoreAll(d, Split(term, '-')) else d;
      && |x| <= |ts|
      && forall j :: 0 <= j < |x| ==>
           x[j].HasText() && Descends(x[j], ts, if focusForEfficiency then 3 * |Split(term, '-')| else 0)
  {
    var d := Deduped(ts, removeDuplicates);
    var tokens := Split(term, '-');
    var bonus := if focusForEfficiency then 3 * |tokens| else 0;
    var x := if focusForEfficiency then ScoreAll(d, tokens) else d;
    if focusForEfficiency {
      ScoreAllKeepsTracks(d, tokens);
    }
    forall j | 0 <= j < |x| ensures x[j].HasText() && Descends(x[j], ts, bonus) {
      var k :| 0 <= k < |ts| && ts[k] == d[j];
    }
  }

  /** Reordering a list keeps its length and every property of its elements. */
  lemma PermutedDescends(x: seq<Track>, r: seq<Track>, ts: seq<Track>, bonus: nat)
    requires multiset(r) == multiset(x)
    requires forall j :: 0 <= j < |x| ==> x[j].HasText() && Descends(x[j], ts, bonus)
    ensures |r| == |x|
    ensures forall i :: 0 <= i < |r| ==> r[i].HasText() && Descends(r[i], ts, bonus)
  {
    assert |r| == |multiset(r)| == |multiset(x)| == |x|;
    forall i | 0 <= i < |r| ensures r[i].HasText() && Descends(r[i], ts, bonus) {
      assert r[i] in multiset(x);
      var j :| 0 <= j < |x| && x[j] == r[i];
    }
  }

  /**
   * The `focusForEfficiency` block: every track is scored against the
   * tokens of the term and the list is then reordered, both in place.
   */
  method ScoreAndSort(d: seq<Track>, term: string) returns (r: seq<Track>)
    requires AllHaveText(d)
    ensures r == Focused(d, term)
  {
    var queryItems := Split(term, '-');
    var a := new Track[|d|](k requires 0 <= k < |d| => d[k]);
    assert a[..] == d;
    ScoreByRelevance(a, queryItems);
    ghost var scored := a[..];
    assert scored == ScoreAll(d, queryItems);
    var last := a.Length - 1;
    assert last == |scored| - 1;
    TrackInsertionSort(a, 0, last);
    r := a[..];
  }

  /** The dedup, scoring and sorting steps of `GenerateTrackList`. */
  method AggregateTracks(ts: seq<Track>, term: string, removeDuplicates: bool, focusForEfficiency: bool)
    returns (r: seq<Track>)
    requires AllHaveText(ts)
    ensures r == Aggregated(ts, term, removeDuplicates, focusForEfficiency)
  {
    r := ts;
    if removeDuplicates {
      r := RemoveDuplicates(ts);
    }
    var d := r;
    assert d == Deduped(ts, removeDuplicates);
    if focusForEfficiency {
      r := ScoreAndSort(d, term);
    }
  }

  /** The whole of `GenerateTrackList`: links, then tracks, then the aggregation; or divergence of some parse. */
  function TrackList(term: string, removeDuplicates: bool, focusForEfficiency: bool, bodies: seq<seq<string>>,
                     fetch: string -> Response, decode: seq<Byte> -> string, fuel: nat): (r: Download)
    ensures r.Diverged? <==> Downloaded(LinkList(bodies), fetch, decode, fuel).Diverged?
    ensures r.Collected? ==> |r.tracks| <= |LinkList(bodies)|
  {
    match Downloaded(LinkList(bodies), fetch, decode, fuel)
    case Diverged => Diverged
    case Collected(ts) =>
      assert AllHaveText(ts);
      Collected(Aggregated(ts, term, removeDuplicates, focusForEfficiency))
  }

  /**
   * Every track in the final list has all three fields set, a title that does
   * not start with "??", and one of the gathered links.
   */
  lemma TrackListWellFormed(term: string, removeDuplicates: bool, focusForEfficiency: bool, bodies: seq<seq<string>>,
                            fetch: string -> Response, decode: seq<Byte> -> string, fuel: nat)
    ensures var r := TrackList(term, removeDuplicates, focusForEfficiency, bodies, fetch, decode, fuel);
      r.Collected? ==> forall i :: 0 <= i < |r.tracks| ==>
        && r.tracks[i].HasText() && !StartsWith(r.tracks[i].title.value, "??")
        && r.tracks[i].link.Some? && r.tracks[i].link.value in LinkList(bodies)
  {
    var dl := Downloaded(LinkList(bodies), fetch, decode, fuel);
    if dl.Collected? {
      var ts := dl.tracks;
      AggregatedFromInput(ts, term, removeDuplicates, focusForEfficiency);
      DescendantsWellFormed(Aggregated(ts, term, removeDuplicates, focusForEfficiency), ts,
                            if focusForEfficiency then 3 * |Split(term, '-')| else 0, LinkList(bodies));
    }
  }

  /** Tracks that keep the texts and links of collected tracks keep their well-formedness. */
  lemma DescendantsWellFormed(r: seq<Track>, ts: seq<Track>, bonus: nat, links: seq<string>)
    requires WellCollected(ts, links)
    requires forall i :: 0 <= i < |r| ==> Descends(r[i], ts, bonus)
    ensures forall i :: 0 <= i < |r| ==>
      && r[i].HasText() && !StartsWith(r[i].title.value, "??")
      && r[i].link.Some? && r[i].link.value in links
  {
    forall i | 0 <= i < |r|
      ensures r[i].HasText() && !StartsWith(r[i].title.value, "??")
      ensures r[i].link.Some? && r[i].link.value in links
    {
      var k :| 0 <= k < |ts| && r[i].Items() == ts[k].Items() && r[i].link == ts[k].link;
      assert r[i].title == ts[k].title;
    }
  }

  /**
   * `GenerateTrackList` with the providers' responses (`bodies`) and the
   * HTTP requests for each link (`fetch`) as parameters. A `targetCount` of
   * -1 means `int.MaxValue`; neither value limits anything.
   */
  method GenerateTrackList(term: string, targetCount: int, removeDuplicates: bool, focusForEfficiency: bool,
                           bodies: seq<seq<string>>, fetch: string -> Response, decode: seq<Byte> -> string, fuel: nat)
    returns (r: Download)
    ensures r == TrackList(term, removeDuplicates, focusForEfficiency, bodies, fetch, decode, fuel)
  {
    var target := if targetCount == -1 then 0x7FFF_FFFF else targetCount;
    var data := GenerateLinkList(bodies);
    var download := DownloadID3(data, target, fetch, decode, fuel);
    if download.Diverged? {
      return Diverged;
    }
    var trackList := AggregateTracks(download.tracks, term, removeDuplicates, focusForEfficiency);
    return Collected(trackList);
  }
}
