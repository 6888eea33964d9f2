# DownstreamLib in Dafny

A model of DownstreamLib, the core of the DownDLL repository, with proofs. DownstreamLib finds MP3 files for a search term. It asks each search provider for a results page. It scans every line of the page for a link ending in ".mp3" and gathers those links into one list without repeats. For each link it reads the first 1024 bytes of the resource and parses the ID3v2 tag there into a `Track` (title, artist, album). It can then drop tracks whose titles repeat, score each track against the tokens of the search term, and reorder the list by that score.

Modules, one per concern of `DownDLL/DownLib.cs`:

- `Tracks`: the `Track` record and its `TrackItems` property.
- `Text`: the .NET string operations the library uses, written out:
  - ordinal `IndexOf`;
  - ASCII `ToLower`;
  - `Replace`;
  - `Split`.
- `Links`: `DownloadClass.GenerateLinkList`. The line scan with its backward `for` loop and `break` is kept as a method. It is proved against the function `ExtractLink`. Link gathering is proved against the fold `Gather`.
- `Id3`: `ID3Class`.
  - `ParseID3` keeps its `while` loop over `uint` offsets, which wrap modulo 2^32.
  - `TryParseFrameData` and the four clean-up `Replace` calls are modelled.
  - `DownloadID3` takes the HTTP responses as a parameter.
  - The tag layout follows sections 3.1 and 3.3 of the ID3v2.3.0 informal standard. Frame sizes are read big-endian.
- `Tools`: `ToolsClass`.
  - `FormatInputString` is modelled.
  - The recursive partition-exchange `TrackInsertionSort` works in place on an `array<Track>`. It is proved equal to the functional `Sort` and proved to be a permutation.
  - `synchsafe` is modelled on `bv32`, with its inverse.
- `Downstream`: `Downstream.GenerateTrackList`.
  - Dedup, as the function `Unique` and as the method `RemoveDuplicates` with its key set.
  - Scoring, as `ScoreAll` and as the in-place method `ScoreByRelevance` with its three nested loops.
  - The sort, and the whole pipeline.
- `Seqs` and `Wrappers`: generic sequence facts and `Option`.

Some behaviour of `DownLib.cs` differs from what its names, its comments or the ID3v2.3.0 standard suggest. The model keeps the C# behaviour:

- The tag walk runs while `count + 8 < buffer.Length`. The `<` is strict, and `count + 8` is a `uint` sum that can wrap.
- The ID3v2.3.0 standard defines a tag-size field in the header (section 3.1), but the C# never reads it. The walk goes on to the end of the 1024-byte buffer.
- `"ÿþ"` is removed wherever it occurs in a frame text, not only at the front, because `Replace` is global.
- Token matching in the scoring is case-sensitive, although the link scan lower-cases what it compares (DownDLL/DownLib.cs:176). `Downstream.ScoringIsCaseSensitive` shows that "maiden" earns nothing in "Iron Maiden".
- `TrackInsertionSort` does not sort, despite its name.
  - `Tools.SortLeaves312`: relevances `[3,1,2]` stay as they are.
  - `Tools.SortMakes132`: `[1,2,3]` becomes `[1,3,2]`.
  - The model keeps this behaviour and proves what does hold: the result is a permutation and leaves everything outside the range alone.
- A frame size of 0xFFFFFFF6 brings the offset back to where it was, so `ParseID3` can loop forever (`Id3.WrappingFrameNeverEnds`).

## Model

| member | source | states |
|---|---|---|
| Tracks.EmptyTrack | DownDLL/DownLib.cs:57 | `new Track()` has no text fields, no link and relevance 0 |
| Tracks.NewTrack | DownDLL/DownLib.cs:58-61 | the four-argument constructor sets title, artist, album and link, and relevance is 0 |
| Tracks.WithOwnItems | DownDLL/DownLib.cs:51-55 | writing `TrackItems` with what it reads leaves the track unchanged |
| Tracks.ItemsAfterWithItems | DownDLL/DownLib.cs:51-55 | reading `TrackItems` after setting it gives back the first three elements, as title, artist, album |
| Tracks.Track.Items | DownDLL/DownLib.cs:51-53 | the `TrackItems` getter returns exactly three items |
| Tracks.Track.WithItems | DownDLL/DownLib.cs:51-54 | the `TrackItems` setter leaves link and relevance alone |
| Text.IndexFrom | DownDLL/DownLib.cs:169 | the result is the first match at or after `from`, or none when there is no match from there |
| Text.IndexOf | DownDLL/DownLib.cs:169 | the result is the first position where the pattern matches; none exactly when it matches nowhere |
| Text.MissingCharNotContained | DownDLL/DownLib.cs:113 | a pattern holding a character the string lacks is not found (ordinal comparison) |
| Text.EmptyOccursEverywhere | DownDLL/DownLib.cs:113 | the empty token is found at 0 in every string |
| Text.LowerChar | DownDLL/DownLib.cs:176 | an upper-case ASCII letter becomes the lower-case letter 32 code points further on; every other character is unchanged |
| Text.Lower | DownDLL/DownLib.cs:176 | `ToLower` keeps the length and lower-cases each character |
| Text.RemoveAll | DownDLL/DownLib.cs:282-285 | `Replace(pat, "")` never lengthens the string |
| Text.RemoveAllKeepsChars | DownDLL/DownLib.cs:282-285 | `Replace(pat, "")` adds no character |
| Text.RemoveAllDeletesChar | DownDLL/DownLib.cs:282-285 | `Replace(pat, "")` with a one-character pattern leaves none of that character |
| Text.RemoveCharKeepsOthers | DownDLL/DownLib.cs:282-285 | removing one character equals filtering it out |
| Text.Filter | DownDLL/DownLib.cs:282-285 | the filtered string does not contain the character |
| Text.NoPairAfterRemovingPairs | DownDLL/DownLib.cs:283 | no "??" is left after `Replace("??", "")` |
| Text.HeadKept | DownDLL/DownLib.cs:283 | a string that does not start with '?' keeps its first character |
| Text.ReplaceChar | DownDLL/DownLib.cs:377-381 | `Replace(from, to)` keeps the length and changes exactly the `from` characters to `to` |
| Text.Split | DownDLL/DownLib.cs:104 | `Split('-')` gives at least one piece, and no piece contains the separator |
| Text.JoinSplit | DownDLL/DownLib.cs:104 | joining the pieces with the separator gives back the term |
| Text.SplitJoin | DownDLL/DownLib.cs:104 | splitting a join of separator-free pieces gives back the pieces |
| Links.LinkStart | DownDLL/DownLib.cs:174-182 | the backward search returns the nearest "http" window in `1..idx` (index 0 is never examined), or 0 when there is none |
| Links.LinkStartUnique | DownDLL/DownLib.cs:174-182 | that description fixes the start uniquely |
| Links.ExtractLink | DownDLL/DownLib.cs:169-184 | a line yields a link iff it contains ".mp3"; the link is the slice ending just after the first ".mp3" and starting where the backward search stops |
| Links.LinkEndsWithMp3 | DownDLL/DownLib.cs:172-184 | every link ends with ".mp3" |
| Links.LinkStartsWithHttp | DownDLL/DownLib.cs:174-184 | a link that does not start at 0 starts with "http" in some letter case |
| Links.NoSchemeKeepsWholePrefix | DownDLL/DownLib.cs:171-184 | with no "http" window after index 0 the whole line up to ".mp3" is the link |
| Links.WindowContainsHttp | DownDLL/DownLib.cs:176-177 | the 4-character window contains "http" iff it equals "http" |
| Links.ScanLine | DownDLL/DownLib.cs:169-184 | the loop with its `break` computes `ExtractLink` |
| Links.LineLinks | DownDLL/DownLib.cs:169-184 | a line yields at most one link |
| Links.Candidates | DownDLL/DownLib.cs:164-188 | the response gives at most one candidate per line |
| Links.CandidatesSnoc | DownDLL/DownLib.cs:164-188 | one more line adds that line's link, if any, at the end |
| Links.AddNew | DownDLL/DownLib.cs:186-187 | `if (!Contains) Add`: the link ends up in the list, which is unchanged when it was already there and extended by it otherwise |
| Links.GatherBounds | DownDLL/DownLib.cs:186-187 | gathering never drops a listed link and adds at most one per candidate |
| Links.GatherAddsNew | DownDLL/DownLib.cs:186-187 | a candidate not listed yet is appended |
| Links.GatherSkipsSeen | DownDLL/DownLib.cs:186-187 | a candidate listed already changes nothing |
| Links.GatherExtends | DownDLL/DownLib.cs:186-187 | gathering keeps what was already listed as a prefix, and a link is listed iff it was listed before or is a candidate |
| Links.GatherNoDuplicates | DownDLL/DownLib.cs:186-187 | gathering never lists a link twice |
| Links.GatherFirstSeenOrder | DownDLL/DownLib.cs:186-187 | links are listed in the order of their first occurrence among the candidates |
| Links.FirstSeenStep | DownDLL/DownLib.cs:186-187 | adding one more candidate keeps the list in first-seen order |
| Links.FirstIndexAppend | DownDLL/DownLib.cs:186-187 | appending does not move the first occurrence of a link already present |
| Links.GatherSnoc | DownDLL/DownLib.cs:186-187 | one more candidate is added only when it is new |
| Links.LinkList | DownDLL/DownLib.cs:149-197 | the list has no repeats and holds exactly the candidates of all responses |
| Links.GenerateLinkList | DownDLL/DownLib.cs:149-197 | the nested loops over providers and lines compute `LinkList` |
| Links.SharedLinkListedOnce | DownDLL/DownLib.cs:186-187 | two providers that share one link and each have one more give exactly three links |
| Id3.BigEndianDecodesEncoding | DownDLL/DownLib.cs:323-329 | reading the big-endian bytes of any `uint` gives it back |
| Id3.BigEndianEncodesDecoding | DownDLL/DownLib.cs:323-329 | any four bytes are the big-endian bytes of what they read as |
| Id3.SizeIsReadBigEndian | DownDLL/DownLib.cs:323-329 | `[0,0,0,5]` is 5 and `[5,0,0,0]` is 0x05000000 |
| Id3.BigEndian32Bounds | DownDLL/DownLib.cs:323-329 | the first size byte is the most significant: it fixes the size to within 2^24 |
| Id3.CleanText | DownDLL/DownLib.cs:282-285 | the cleaned frame text has no NUL and no 0x01 and is no longer than the decoded text |
| Id3.CleaningCanLeaveQuestionPair | DownDLL/DownLib.cs:282-285 | "?\x01?" cleans to "??", so a cleaned title can still start with "??" |
| Id3.TryParseFrameData | DownDLL/DownLib.cs:275-293 | null iff the frame data, 10 bytes after the header, runs past the buffer; otherwise a text with no NUL and no 0x01, no longer than the decoded frame data |
| Id3.KnownFrameFields | DownDLL/DownLib.cs:331-342 | TALB goes to album, TIT1 and TIT2 to title, TPE1 and TPE2 to artist |
| Id3.FrameFieldExactly | DownDLL/DownLib.cs:331-342 | a frame goes to album, title or artist iff its identifier is one of the five known ones for that field; any other identifier is ignored |
| Id3.RouteByIdentifier | DownDLL/DownLib.cs:331-342 | the `if`/`else if` chain on the identifier assigns what routing assigns |
| Id3.LoopGuardWraps | DownDLL/DownLib.cs:314 | the guard compares `count + 8` with the buffer length, wrapped modulo 2^32 when the sum passes 2^32 |
| Id3.FilledHasText | DownDLL/DownLib.cs:347 | a track that passes the "everything is full" test has all three text fields |
| Id3.NextOffset | DownDLL/DownLib.cs:345 | the next offset is `count + 10 + frameSize` modulo 2^32 |
| Id3.Route | DownDLL/DownLib.cs:331-342 | a frame overwrites exactly its routed field, possibly with null, and nothing else |
| Id3.Step | DownDLL/DownLib.cs:316-345 | one loop pass moves the offset to the next header, 10 + size bytes on, modulo 2^32 |
| Id3.Walk | DownDLL/DownLib.cs:314-353 | the walk returns only a track with album, artist and title all non-empty |
| Id3.ParseSpec | DownDLL/DownLib.cs:301-359 | no "ID3" magic gives null; a parsed track has the magic, all three fields non-empty, no link and relevance 0 |
| Id3.ParseID3 | DownDLL/DownLib.cs:301-359 | the `while` loop over `uint` offsets computes `ParseSpec` |
| Id3.FixpointLoops | DownDLL/DownLib.cs:314-352 | a frame that leads back to its own offset without filling the track makes the loop run forever |
| Id3.WrappingFrameNeverEnds | DownDLL/DownLib.cs:313-345 | a first frame of size 0xFFFFFFF6 makes `ParseID3` never return |
| Id3.NoWrapWalkEnds | DownDLL/DownLib.cs:314-352 | without wrapping sizes the walk ends within the buffer's length in iterations |
| Id3.NoWrapParseEnds | DownDLL/DownLib.cs:301-359 | without wrapping sizes `ParseID3` always returns |
| Id3.StepOverFrame | DownDLL/DownLib.cs:316-345 | a well-formed frame routes its cleaned text and moves the offset past it |
| Id3.WalkOverFrame | DownDLL/DownLib.cs:344-352 | a frame that leaves the track unfilled hands over to the next frame |
| Id3.WalkFillsAt | DownDLL/DownLib.cs:347-351 | a frame that fills the last field ends the walk with that track |
| Id3.WalkEndsAt | DownDLL/DownLib.cs:314 | an offset within 8 bytes of the end stops the walk with null |
| Id3.ZeroStep | DownDLL/DownLib.cs:316-345 | an all-zero header is an ignored frame of size 0: the offset moves on by 10 and the track is unchanged |
| Id3.ZerosEndWalk | DownDLL/DownLib.cs:313-353 | a walk that is not filled and has only zero bytes ahead ends with null |
| Id3.TitleThenZeros | DownDLL/DownLib.cs:313-353 | a title frame after only an album, then zeros, ends the walk with null |
| Id3.TwoFramesThenZeros | DownDLL/DownLib.cs:313-353 | album and title frames from offset 10, then zeros, end the walk with null |
| Id3.ThreeFramesGiveTrack | DownDLL/DownLib.cs:301-351 | a tag of TALB, TIT2 and TPE1 frames with non-empty text parses to exactly those three fields |
| Id3.MissingArtistGivesNull | DownDLL/DownLib.cs:313-353 | a tag with album and title frames but no artist frame, followed by any number of zero bytes (as in the zero-padded read buffer), parses to null |
| Id3.StepKeepsArtist | DownDLL/DownLib.cs:316-345 | in a buffer with no TPE1 or TPE2 identifier, one loop pass leaves the artist as it was |
| Id3.NoArtistWalkNeverParsed | DownDLL/DownLib.cs:313-353 | a walk that starts without an artist, over a buffer with no artist identifier, never returns a track |
| Id3.NoArtistNeverParsed | DownDLL/DownLib.cs:301-359 | a buffer with no TPE1 or TPE2 identifier never parses to a track: the parse is never partial |
| Id3.ReadBuffer | DownDLL/DownLib.cs:252-253 | the buffer holds 1024 bytes: what was received, then zeros |
| Id3.AdmittedThreshold | DownDLL/DownLib.cs:242-243 | an unparsable Content-Length lets the link through; a parsed one does iff it is at least 1,500,000 |
| Id3.Probe | DownDLL/DownLib.cs:217-263 | a link yields a track exactly when it is reachable, not under 1,500,000 bytes, parses, and its title does not start with "??"; that track is the parsed one with the link set; the probe is stuck exactly when the parse runs out of fuel |
| Id3.Downloaded | DownDLL/DownLib.cs:212-266 | every collected track is complete, "??"-free and carries one of the links; no more tracks than links |
| Id3.Kept | DownDLL/DownLib.cs:212-266 | the reference list of tracks the links keep, in link order, no longer than the links |
| Id3.KeptSnoc | DownDLL/DownLib.cs:212-266 | one more link adds its kept track, if any, at the end |
| Id3.DownloadedIsKept | DownDLL/DownLib.cs:212-266 | a download that does not diverge collects exactly the kept tracks, in link order |
| Id3.KeptMembers | DownDLL/DownLib.cs:217-263 | a track is kept iff the probe of some link keeps it |
| Id3.GoodLinkCollected | DownDLL/DownLib.cs:242-261 | a reachable, admitted link that parses to a title not starting with "??" has its track, with the link, in the download |
| Id3.DivergedIffStuck | DownDLL/DownLib.cs:217-264 | the download diverges exactly when the parse for some link runs out of the given fuel |
| Id3.NoWrapNotStuck | DownDLL/DownLib.cs:252-255 | with fuel for the 1024-byte buffer, a reachable link whose buffer holds no wrapping frame size never gets stuck |
| Id3.DownloadID3 | DownDLL/DownLib.cs:212-266 | the loop over the links computes `Downloaded` |
| Id3.QuestionTitleDropped | DownDLL/DownLib.cs:258-262 | a parsed track whose title starts with "??" is dropped |
| Id3.MissingArtistSkipped | DownDLL/DownLib.cs:252-262 | a resource holding only album and title frames is skipped: its zero-padded buffer parses to null |
| Tools.Formatted | DownDLL/DownLib.cs:373-384 | same length; each space becomes '-', each listed punctuation character becomes NUL (overwritten, not removed), every other character is kept; so no space and none of the listed characters remain |
| Tools.FormatInputString | DownDLL/DownLib.cs:373-384 | the `Replace` calls compute `Formatted`: spaces to '-', the listed characters to NUL, the rest unchanged |
| Tools.FormatIronMaiden | DownDLL/DownLib.cs:373-384 | "Iron Maiden" becomes "Iron-Maiden" |
| Tools.FormattedIdempotent | DownDLL/DownLib.cs:373-384 | formatting twice is formatting once |
| Tools.Swapped | DownDLL/DownLib.cs:410-415 | the two positions exchange their tracks |
| Tools.SwappedPermutes | DownDLL/DownLib.cs:410-415 | a swap is a permutation |
| Tools.ScanUp | DownDLL/DownLib.cs:396-397 | the upward scan stops at a track above the pivot, at `j`, or past `end` |
| Tools.ScanDown | DownDLL/DownLib.cs:398-399 | the downward scan stops at a track not above the pivot or just below `i` |
| Tools.Partition | DownDLL/DownLib.cs:394-402 | the partition loop ends with `start <= j <= i <= end` |
| Tools.Sort | DownDLL/DownLib.cs:386-408 | the recursion keeps the length and leaves ranges of fewer than two tracks alone |
| Tools.PartitionPermutes | DownDLL/DownLib.cs:394-402 | the partition loop only permutes |
| Tools.PartitionFrame | DownDLL/DownLib.cs:394-402 | the partition loop changes nothing outside `start..end` |
| Tools.SortFrame | DownDLL/DownLib.cs:386-408 | the sort changes nothing outside `start..end` |
| Tools.SortPermutes | DownDLL/DownLib.cs:386-408 | the sort is a permutation |
| Tools.SortLeaves312 | DownDLL/DownLib.cs:386-408 | relevances `[3,1,2]` are left as they are |
| Tools.SortMakes132 | DownDLL/DownLib.cs:386-408 | relevances `[1,2,3]` become `[1,3,2]` |
| Tools.SwapTrack | DownDLL/DownLib.cs:410-415 | the array after the call is the swapped array |
| Tools.ScanUpLoop | DownDLL/DownLib.cs:396-397 | the first inner loop computes `ScanUp` |
| Tools.ScanDownLoop | DownDLL/DownLib.cs:398-399 | the second inner loop computes `ScanDown` |
| Tools.PartitionLoop | DownDLL/DownLib.cs:394-402 | the outer loop computes `Partition` |
| Tools.TrackInsertionSort | DownDLL/DownLib.cs:386-408 | the array after the call is `Sort` of the array before it, and a permutation of it; by `Tools.SortFrame` nothing outside `start..end` changes |
| Tools.RoundsAreSynchsafe | DownDLL/DownLib.cs:420-434 | the three rounds of the loop spread the bits into four 7-bit groups |
| Tools.MaskSteps | DownDLL/DownLib.cs:424-429 | the mask goes 0x7F, 0x7FFF, 0x7FFFFF, 0x7FFFFFFF and the loop stops at the last one |
| Tools.SpreadRound | DownDLL/DownLib.cs:426-428 | one loop body shifts the bits above the mask up by one |
| Tools.Synchsafe | DownDLL/DownLib.cs:420-434 | the loop computes the synchsafe form of its input |
| Tools.SynchsafeRoundTrip | DownDLL/DownLib.cs:420-434 | a 28-bit value survives encoding then decoding, and its encoding has every top bit of a byte clear |
| Tools.UnsynchsafeRoundTrip | DownDLL/DownLib.cs:420-434 | a value with every top bit clear survives decoding then encoding |
| Downstream.TitlesSnoc | DownDLL/DownLib.cs:93-95 | one more track adds its title to the keys seen |
| Downstream.UniqueSnoc | DownDLL/DownLib.cs:91-98 | a track is kept iff its title was not seen before |
| Downstream.Unique | DownDLL/DownLib.cs:88-99 | dedup yields no more tracks than it is given |
| Downstream.UniqueKeepsTitles | DownDLL/DownLib.cs:85-100 | dedup keeps every title |
| Downstream.UniqueDistinctTitles | DownDLL/DownLib.cs:85-100 | after dedup no title occurs twice |
| Downstream.UniqueIsSubsequence | DownDLL/DownLib.cs:91-98 | the survivors keep their original relative order |
| Downstream.UniqueKeepsFirst | DownDLL/DownLib.cs:91-98 | a track survives iff it is the first with its title |
| Downstream.UniqueKeepsText | DownDLL/DownLib.cs:85-100 | survivors are input tracks, and no more of them |
| Downstream.SecondRunDropped | DownDLL/DownLib.cs:91-98 | of two tracks titled "Run" with different artists only the first survives |
| Downstream.RemoveDuplicates | DownDLL/DownLib.cs:85-100 | the dictionary loop computes `Unique` |
| Downstream.FieldHits | DownDLL/DownLib.cs:111-117 | a field earns at most one point per token |
| Downstream.FieldHitsCounts | DownDLL/DownLib.cs:109-117 | a field earns exactly one point per token position whose token it contains |
| Downstream.MatchingSnoc | DownDLL/DownLib.cs:111-117 | one more token adds its position iff the field contains it |
| Downstream.ScoringIsCaseSensitive | DownDLL/DownLib.cs:113 | "Maiden" scores in "Iron Maiden", "maiden" does not |
| Downstream.Hits | DownDLL/DownLib.cs:109-117 | several fields earn at most one point per field and token |
| Downstream.HitsOfThree | DownDLL/DownLib.cs:109-117 | a track's points are the sum over title, artist and album |
| Downstream.TextItems | DownDLL/DownLib.cs:109 | the three texts scored are the `TrackItems` |
| Downstream.TrackHitsArePairs | DownDLL/DownLib.cs:107-118 | a track's points are its matching field/token pairs, at most three per token |
| Downstream.Rescored | DownDLL/DownLib.cs:104-118 | scoring keeps a track's text fields and link and raises its relevance by between zero and three per token |
| Downstream.ScoreAll | DownDLL/DownLib.cs:104-118 | scoring keeps the number of tracks and their text fields set |
| Downstream.ScoreAllKeepsTracks | DownDLL/DownLib.cs:107-120 | scoring keeps length, order, text fields and link, and raises each relevance by between zero and three per token |
| Downstream.EmptyTokenMatchesEveryField | DownDLL/DownLib.cs:113 | an empty token matches every field |
| Downstream.EmptyTermScoresThree | DownDLL/DownLib.cs:104-117 | an empty search term gives every track three points |
| Downstream.ScoreByRelevance | DownDLL/DownLib.cs:107-120 | the three nested loops turn the list into `ScoreAll` of it |
| Downstream.Deduped | DownDLL/DownLib.cs:85-100 | the dedup step yields no more tracks, all of them from the input |
| Downstream.AggregatedPermutes | DownDLL/DownLib.cs:102-124 | the sort only reorders the scored list |
| Downstream.AggregatedFromInput | DownDLL/DownLib.cs:85-124 | each result track is a parsed track with the same fields and link, its relevance raised by at most three per token |
| Downstream.Focused | DownDLL/DownLib.cs:102-124 | scoring and sorting keep the number of tracks |
| Downstream.Aggregated | DownDLL/DownLib.cs:85-124 | the aggregation yields no more tracks than were parsed |
| Downstream.ScoreAndSort | DownDLL/DownLib.cs:102-124 | scoring then the in-place sort compute `Focused` |
| Downstream.AggregateTracks | DownDLL/DownLib.cs:85-124 | dedup, scoring and the in-place sort compute `Aggregated` |
| Downstream.TrackListWellFormed | DownDLL/DownLib.cs:77-127 | every returned track is complete, "??"-free, and carries one of the gathered links |
| Downstream.TrackList | DownDLL/DownLib.cs:77-127 | the track list diverges exactly when the download diverges, and otherwise has no more tracks than links |
| Downstream.GenerateTrackList | DownDLL/DownLib.cs:77-127 | links, then tracks, then aggregation compute `TrackList`; -1 stands for `int.MaxValue` |

## Left out

- HTTP: the providers' pages arrive as sequences of lines (`bodies`). The HEAD and GET requests for a link are a parameter `fetch` that returns a `Response`. Timeouts, URL creation, the `%@` substitution into the provider URLs and the reading of the stream are not modelled.
- Uncaught exceptions: the C# catches only some failures. A `WebException` (and, when the link requests are created, a `UriFormatException`) skips a provider or a link, and so does any exception from the first GET response. Everything else leaves `Parallel.ForEach` and aborts the whole `GenerateLinkList`, `DownloadID3` or `GenerateTrackList`. Examples are the `HttpWebRequest` cast of a non-HTTP link such as "ftp://h/a.mp3", the second `GetResponse` and the `Read` of a link. The model has no aborting outcome: a `fetch` result at most skips its link, and a provider's lines are whatever it delivered.
- `Parallel.ForEach`: providers and links are taken one after another, in list order. The unsynchronised `Contains`/`Add` on the shared lists, and any order other than list order, are not modelled.
- Text decoding: `UTF7Encoding.GetString` is a parameter `decode`, and no property depends on what it returns. Frame identifiers and the "ID3" magic are compared as bytes.
- `IndexOf`, `StartsWith` and `ToLower` use the current culture in .NET. The model uses ordinal comparison and ASCII lower-casing.
- `int.TryParse` of the Content-Length header is the `Option<int>` inside a `Response`.
- Console logging and the caught exceptions' messages are not modelled.
- `DownlibTest/Program.cs` is a console driver and is not part of this model.
- `targetCount` is accepted and ignored, as in the C#.
- Id3.ParseID3: the loop may never end, so it runs for at most `fuel` iterations and answers `OutOfFuel` when they are used up. `Id3.NoWrapParseEnds` shows that fuel equal to the buffer length suffices when no frame size wraps.
- Downstream.RemoveDuplicates: requires every title to be set, because `Dictionary.ContainsKey(null)` throws. Titles are always set on tracks that come out of `DownloadID3`.
- Downstream.ScoreByRelevance: requires title, artist and album to be set, because `IndexOf` on a null field throws.
- Downstream.Rescored: relevance is an unbounded integer, so the 32-bit wrap-around of `RelevenceCount++` is not modelled; it would need more than 2^31 points.
- Tracks: `Track` is a value. Identity and aliasing of the C# objects are not modelled; each track belongs to one list.
