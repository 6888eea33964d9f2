/**
 * `DownloadClass.GenerateLinkList` without its HTTP requests: each provider's
 * response arrives as a sequence of lines, and every line that mentions
 * ".mp3" contributes one candidate link. The candidates are gathered into
 * one list that never holds a link twice and keeps the order in which links
 * were first seen.
 *
 * `IndexOf` is ordinal and `ToLower` lower-cases ASCII letters only (see the
 * `Text` module). The providers are taken one after another, in list order.
 */
module Links {
  import opened Wrappers
  import opened Text
  import opened Seqs

  const Mp3: string := ".mp3"
  const Http: string := "http"

  // ---------------------------------------------------------------- one line

  /** The 4-character window at `i` (`Substring(i, 4)`) lower-cases to "http". */
  predicate HttpAt(line: string, i: int)
  {
    0 <= i && i + 4 <= |line| && Lower(line[i..i + 4]) == Http
  }

  /**
   * `s` is where the link of a line whose first ".mp3" is at `idx` starts:
   * the largest `i` in `1..idx` with an "http" window, or 0 when there is
   * none (index 0 itself is never looked at).
   */
  predicate IsLinkStart(line: string, idx: nat, s: nat)
  {
    || (s == 0 && forall i :: 1 <= i <= idx ==> !HttpAt(line, i))
    || (1 <= s <= idx && HttpAt(line, s) && forall i :: s < i <= idx ==> !HttpAt(line, i))
  }

  /** The backward search for the link's start, from `i` down to 1. */
  function LinkStart(line: string, i: nat): (s: nat)
    requires i + 4 <= |line|
    ensures IsLinkStart(line, i, s)
    decreases i
  {
    if i == 0 then 0
    else if HttpAt(line, i) then i
    else LinkStart(line, i - 1)
  }

  /** At most one position fits the description of the start. */
  lemma LinkStartUnique(line: string, idx: nat, s: nat, s': nat)
    requires IsLinkStart(line, idx, s) && IsLinkStart(line, idx, s')
    ensures s == s'
  {
  }

  /**
   * The link a line contributes: none without ".mp3"; otherwise the text
   * from the start found by the backward search up to and including the
   * first ".mp3".
   */
  function ExtractLink(line: string): (r: Option<string>)
    ensures r.None? <==> !Contains(line, Mp3)
    ensures r.Some? ==>
      var idx := IndexOf(line, Mp3).value;
      && 4 <= |r.value| <= idx + 4
      && r.value == line[idx + 4 - |r.value|..idx + 4]
      && IsLinkStart(line, idx, idx + 4 - |r.value|)
  {
    match IndexOf(line, Mp3)
    case None => None
    case Some(idx) => Some(line[LinkStart(line, idx)..idx + 4])
  }

  /** Every extracted link ends with ".mp3". */
  lemma LinkEndsWithMp3(line: string)
    requires ExtractLink(line).Some?
    ensures var link := ExtractLink(line).value; |link| >= 4 && link[|link| - 4..] == Mp3
  {
    var idx := IndexOf(line, Mp3).value;
    var link := ExtractLink(line).value;
    var a := idx + 4 - |link|;
    assert MatchAt(line, Mp3, idx);
    SliceOfSlice(line, a, idx + 4, |link| - 4, |link|);
    assert link[|link| - 4..] == link[|link| - 4..|link|];
  }

  /** A link that does not start at 0 starts with "http", in any letter case. */
  lemma LinkStartsWithHttp(line: string)
    requires ExtractLink(line).Some?
    requires var idx := IndexOf(line, Mp3).value; |ExtractLink(line).value| < idx + 4
    ensures Lower(ExtractLink(line).value[..4]) == Http
  {
    var idx := IndexOf(line, Mp3).value;
    var link := ExtractLink(line).value;
    var s := idx + 4 - |link|;
    assert link[..4] == line[s..s + 4];
  }

  /**
   * Without an "http" window after index 0 and up to the ".mp3", the whole
   * line up to and including ".mp3" is taken as the link.
   */
  lemma NoSchemeKeepsWholePrefix(line: string)
    requires Contains(line, Mp3)
    requires forall i :: 1 <= i <= IndexOf(line, Mp3).value ==> !HttpAt(line, i)
    ensures ExtractLink(line) == Some(line[..IndexOf(line, Mp3).value + 4])
  {
  }

  /** A 4-character string contains "http" exactly when it is "http". */
  lemma WindowContainsHttp(w: string)
    requires |w| == 4
    ensures Contains(w, Http) <==> w == Http
  {
    if Contains(w, Http) {
      var k := IndexOf(w, Http).value;
      assert MatchAt(w, Http, k);
      assert k == 0;
      assert w == w[0..4];
    } else {
      assert !MatchAt(w, Http, 0);
    }
  }

  /**
   * The body of the `while` loop over the response for one line, with the
   * backward `for` loop and its `break` kept.
   */
  method ScanLine(line: string) returns (link: Option<string>)
    ensures link == ExtractLink(line)
  {
    var found := IndexOf(line, Mp3);
    if found.None? {
      return None;
    }
    var idx := found.value;
    var startIndex, endIndex := 0, idx + 4;
    var i := endIndex - 4;
    while i > 0
      invariant 0 <= i <= idx
      invariant LinkStart(line, i) == LinkStart(line, idx)
      decreases i
    {
      var identifier := Lower(line[i..i + 4]);
      WindowContainsHttp(identifier);
      if Contains(identifier, Http) {
        startIndex := i;
        break;
      }
      i := i - 1;
    }
    return Some(line[startIndex..endIndex]);
  }

  // ---------------------------------------------------------------- gathering

  /** What one line contributes: its link, or nothing. */
  function LineLinks(line: string): (r: seq<string>)
    ensures |r| <= 1
  {
    match ExtractLink(line)
    case None => []
    case Some(link) => [link]
  }

  /** The links contributed by `lines`, in line order, repeats included. */
  function Candidates(lines: seq<string>): (r: seq<string>)
    ensures |r| <= |lines|
    decreases |lines|
  {
    if lines == [] then []
    else Candidates(lines[..|lines| - 1]) + LineLinks(lines[|lines| - 1])
  }

  lemma CandidatesSnoc(lines: seq<string>, line: string)
    ensures Candidates(lines + [line]) == Candidates(lines) + LineLinks(line)
  {
    assert (lines + [line])[..|lines|] == lines;
  }

  /** `if (!list.Contains(link)) list.Add(link)`. */
  function AddNew(acc: seq<string>, link: string): (r: seq<string>)
    ensures link in r
    ensures link in acc ==> r == acc
    ensures link !in acc ==> r == acc + [link]
  {
    if link in acc then acc else acc + [link]
  }

  /** `links` added one after another to the list `acc`. */
  function Gather(acc: seq<string>, links: seq<string>): seq<string>
    decreases |links|
  {
    if links == [] then acc
    else AddNew(Gather(acc, links[..|links| - 1]), links[|links| - 1])
  }

  /** Gathering keeps what was gathered and adds at most one link per input link. */
  lemma {:induction false} GatherBounds(acc: seq<string>, links: seq<string>)
    ensures |acc| <= |Gather(acc, links)| <= |acc| + |links|
    decreases |links|
  {
    if links != [] {
      GatherBounds(acc, links[..|links| - 1]);
    }
  }

  /** No element occurs twice. */
  predicate NoDuplicates(s: seq<string>)
  {
    forall i, j :: 0 <= i < j < |s| ==> s[i] != s[j]
  }

  /** What was already in the list stays at its place, and the list holds exactly the old entries and the new links. */
  lemma {:induction false} GatherExtends(acc: seq<string>, links: seq<string>)
    ensures |acc| <= |Gather(acc, links)| && Gather(acc, links)[..|acc|] == acc
    ensures forall x :: x in Gather(acc, links) <==> x in acc || x in links
    decreases |links|
  {
    if links != [] {
      var init := links[..|links| - 1];
      GatherExtends(acc, init);
      assert links == init + [links[|links| - 1]];
    }
  }

  /** The gathered list never holds a link twice. */
  lemma {:induction false} GatherNoDuplicates(acc: seq<string>, links: seq<string>)
    requires NoDuplicates(acc)
    ensures NoDuplicates(Gather(acc, links))
    decreases |links|
  {
    if links != [] {
      GatherNoDuplicates(acc, links[..|links| - 1]);
    }
  }

  /** Where `x` first occurs in `s`. */
  function FirstIndex(s: seq<string>, x: string): (k: nat)
    requires x in s
    ensures k < |s| && s[k] == x && forall j :: 0 <= j < k ==> s[j] != x
  {
    if s[0] == x then 0 else 1 + FirstIndex(s[1..], x)
  }

  /** Appending to a sequence does not move the first occurrence of what was already there. */
  lemma FirstIndexAppend(s: seq<string>, y: string, x: string)
    requires x in s
    ensures FirstIndex(s + [y], x) == FirstIndex(s, x)
  {
    var k, k' := FirstIndex(s, x), FirstIndex(s + [y], x);
    assert (s + [y])[k] == x;
    assert k' <= k;
    assert (s + [y])[k'] == s[k'];
  }

  /** Every element of `r` occurs in `links`, and `r` lists them by their first occurrence there. */
  predicate InFirstSeenOrder(r: seq<string>, links: seq<string>)
  {
    forall i, j :: 0 <= i < j < |r| ==> r[i] in links && r[j] in links && FirstIndex(links, r[i]) < FirstIndex(links, r[j])
  }

  /** Adding one more candidate keeps the gathered list in first-seen order. */
  lemma FirstSeenStep(p: seq<string>, init: seq<string>, last: string)
    requires InFirstSeenOrder(p, init)
    requires forall x :: x in p <==> x in init
    ensures InFirstSeenOrder(AddNew(p, last), init + [last])
  {
    var links, r := init + [last], AddNew(p, last);
    forall x | x in init ensures x in links && FirstIndex(links, x) == FirstIndex(init, x) < |init| {
      FirstIndexAppend(init, last, x);
    }
    forall i, j | 0 <= i < j < |r| ensures r[i] in links && r[j] in links && FirstIndex(links, r[i]) < FirstIndex(links, r[j]) {
      assert r[i] == p[i] && r[i] in init;
      if j < |p| {
        assert r[j] == p[j] && r[j] in init;
      } else {
        assert r[j] == last && last !in init;
        assert links[|init|] == last;
      }
    }
  }

  /**
   * First-seen order: starting from an empty list, links appear in the
   * gathered list in the order of their first occurrence among the candidates.
   */
  lemma {:induction false} GatherFirstSeenOrder(links: seq<string>)
    ensures InFirstSeenOrder(Gather([], links), links)
    decreases |links|
  {
    if links != [] {
      var init, last := links[..|links| - 1], links[|links| - 1];
      GatherFirstSeenOrder(init);
      GatherExtends([], init);
      FirstSeenStep(Gather([], init), init, last);
      assert links == init + [last];
    }
  }

  /** Concatenation of the providers' responses, in provider order. */
  function Concat(bodies: seq<seq<string>>): seq<string>
    decreases |bodies|
  {
    if bodies == [] then [] else Concat(bodies[..|bodies| - 1]) + bodies[|bodies| - 1]
  }

  /** The list `GenerateLinkList` returns for the providers' responses, taken in order. */
  function LinkList(bodies: seq<seq<string>>): (r: seq<string>)
    ensures NoDuplicates(r)
    ensures forall x :: x in r <==> x in Candidates(Concat(bodies))
  {
    var c := Candidates(Concat(bodies));
    GatherNoDuplicates([], c);
    GatherExtends([], c);
    Gather([], c)
  }

  /** Adding one more link to the gathered candidates is one more `AddNew`. */
  lemma GatherSnoc(acc: seq<string>, links: seq<string>, link: string)
    ensures Gather(acc, links + [link]) == AddNew(Gather(acc, links), link)
  {
    assert (links + [link])[..|links|] == links;
  }

  /** Scanning one more line: the candidates grow by that line's link, and the list by `AddNew` of it. */
  lemma ScanStep(seen: seq<string>, line: string, link: Option<string>)
    requires link == ExtractLink(line)
    ensures Candidates(seen + [line]) == Candidates(seen) + LineLinks(line)
    ensures Gather([], Candidates(seen + [line]))
         == if link.Some? then AddNew(Gather([], Candidates(seen)), link.value) else Gather([], Candidates(seen))
  {
    CandidatesSnoc(seen, line);
    if link.Some? {
      GatherSnoc([], Candidates(seen), link.value);
    } else {
      assert Candidates(seen) + LineLinks(line) == Candidates(seen);
    }
  }

  lemma ConcatSnoc(bodies: seq<seq<string>>, p: nat)
    requires p < |bodies|
    ensures Concat(bodies[..p + 1]) == Concat(bodies[..p]) + bodies[p]
  {
    assert bodies[..p + 1][..p] == bodies[..p];
  }

  /**
   * `GenerateLinkList`, one provider after another: every line of every
   * response is scanned, and its link added when the list does not hold it
   * yet. A provider whose request or stream fails with a `WebException`
   * contributes the lines read before the failure (none when the request
   * itself fails). Other exceptions abort the whole call in the C# and have
   * no counterpart here.
   */
  method GenerateLinkList(bodies: seq<seq<string>>) returns (list: seq<string>)
    ensures list == LinkList(bodies)
  {
    list := [];
    for p := 0 to |bodies|
      invariant list == Gather([], Candidates(Concat(bodies[..p])))
    {
      var body := bodies[p];
      ghost var before := Concat(bodies[..p]);
      TakeNoneAll(before, body);
      for n := 0 to |body|
        invariant list == Gather([], Candidates(before + body[..n]))
      {
        TakeSnoc(before, body, n);
        var link := ScanLine(body[n]);
        ScanStep(before + body[..n], body[n], link);
        if link.Some? {
          list := AddNew(list, link.value);
        }
      }
      ConcatSnoc(bodies, p);
    }
    TakeNoneAll([], bodies);
  }

  /** A link not gathered yet is appended. */
  lemma GatherAddsNew(acc: seq<string>, links: seq<string>, link: string)
    requires link !in Gather(acc, links)
    ensures Gather(acc, links + [link]) == Gather(acc, links) + [link]
  {
    GatherSnoc(acc, links, link);
  }

  /** A link gathered already changes nothing. */
  lemma GatherSkipsSeen(acc: seq<string>, links: seq<string>, link: string)
    requires link in Gather(acc, links)
    ensures Gather(acc, links + [link]) == Gather(acc, links)
  {
    GatherSnoc(acc, links, link);
  }

  /** Two providers that share one link and have one link each of their own give three links, the shared one once. */
  lemma SharedLinkListedOnce(shared: string, a: string, b: string)
    requires shared != a && shared != b && a != b
    ensures Gather([], [shared, a] + [shared, b]) == [shared, a, b]
  {
    GatherAddsNew([], [], shared);
    assert [] + [shared] == [shared];
    GatherAddsNew([], [shared], a);
    assert [shared] + [a] == [shared, a];
    GatherSkipsSeen([], [shared, a], shared);
    assert [shared, a] + [shared] == [shared, a, shared];
    GatherAddsNew([], [shared, a, shared], b);
    assert [shared, a] + [shared, b] == [shared, a, shared] + [b];
  }
}
