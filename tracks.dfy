/**
 * The `Track` record: the text fields are C# strings that stay `null`
 * (`None`) until assigned; `relevance` is the `RelevenceCount` score.
 */
module Tracks {
  import opened Wrappers

  datatype Track = Track(
    title: Option<string>,
    artist: Option<string>,
    album: Option<string>,
    link: Option<string>,
    relevance: int)
  {
    /** The `TrackItems` getter: the three text fields in the order title, artist, album. */
    function Items(): (r: seq<Option<string>>)
      ensures |r| == 3
    {
      [title, artist, album]
    }

    /** The `TrackItems` setter: elements 0, 1 and 2 become title, artist and album. */
    function WithItems(items: seq<Option<string>>): (r: Track)
      requires |items| >= 3
      ensures r.link == link && r.relevance == relevance
    {
      this.(title := items[0], artist := items[1], album := items[2])
    }

    /** All three text fields are set (and may then be used as .NET strings). */
    predicate HasText()
    {
      title.Some? && artist.Some? && album.Some?
    }
  }

  /** `new Track()`: every field null, relevance 0. */
  function EmptyTrack(): (t: Track)
    ensures !t.HasText() && t.link.None? && t.relevance == 0
  {
    Track(None, None, None, None, 0)
  }

  /** `new Track(title, artist, album, link)`. */
  function NewTrack(title: string, artist: string, album: string, link: string): (t: Track)
    ensures t.HasText() && t.relevance == 0
    ensures t.Items() == [Some(title), Some(artist), Some(album)] && t.link == Some(link)
  {
    Track(Some(title), Some(artist), Some(album), Some(link), 0)
  }

  /** Setting `TrackItems` to what it reads leaves the track as it was. */
  lemma WithOwnItems(t: Track)
    ensures t.WithItems(t.Items()) == t
  {
  }

  /** Reading `TrackItems` after setting it gives back the first three elements. */
  lemma ItemsAfterWithItems(t: Track, items: seq<Option<string>>)
    requires |items| >= 3
    ensures t.WithItems(items).Items() == items[..3]
  {
  }

  /** Every track in the list has its three text fields set. */
  predicate AllHaveText(ts: seq<Track>)
  {
    forall k :: 0 <= k < |ts| ==> ts[k].HasText()
  }
}
