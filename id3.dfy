/**
 * `ID3Class`: reading title, artist and album out of the first bytes of an
 * MP3 resource, laid out as an ID3v2.3 tag: a 10-byte tag header (section
 * 3.1 of the ID3v2.3.0 informal standard) followed by frames, each with a
 * 4-byte identifier, a 4-byte big-endian size and 2 flag bytes (section 3.3).
 *
 * The offsets are C# `uint`s, so every addition here wraps modulo 2^32. The
 * walk over the frames need not end (a size of 0xFFFFFFF6 leaves the offset
 * where it was), so the model runs it for at most `fuel` iterations and
 * answers `OutOfFuel` when they are used up.
 *
 * The text decoder (.NET's `UTF7Encoding.GetString`) is a parameter `decode`:
 * every property below holds whatever it returns.
 */
module Id3 {
  import opened Wrappers
  import opened Text
  import opened Tracks
  import opened Seqs

  type Byte = b: int | 0 <= b < 0x100

  const Two32: int := 0x1_0000_0000

  /** A C# `uint`. */
  type UInt32 = x: int | 0 <= x < 0x1_0000_0000

  const MAGIC: seq<Byte> := [0x49, 0x44, 0x33]  // "ID3"
  const TALB: seq<Byte> := [0x54, 0x41, 0x4C, 0x42]
  const TIT1: seq<Byte> := [0x54, 0x49, 0x54, 0x31]
  const TIT2: seq<Byte> := [0x54, 0x49, 0x54, 0x32]
  const TPE1: seq<Byte> := [0x54, 0x50, 0x45, 0x31]
  const TPE2: seq<Byte> := [0x54, 0x50, 0x45, 0x32]

  // ---------------------------------------------------------------- frame size

  /** The frame-size field: four bytes, most significant first (reversed on a little-endian host). */
  function BigEndian32(b: seq<Byte>): UInt32
    requires |b| == 4
  {
    (b[0] as int) * 0x100_0000 + (b[1] as int) * 0x1_0000 + (b[2] as int) * 0x100 + b[3]
  }

  /** The first byte alone fixes the value to within one block of 2^24. */
  lemma BigEndian32Bounds(b: seq<Byte>)
    requires |b| == 4
    ensures (b[0] as int) * 0x100_0000 <= BigEndian32(b) < (b[0] as int + 1) * 0x100_0000
  {
  }

  /** The four bytes that encode `n` most significant first. */
  function ToBigEndian32(n: UInt32): (b: seq<Byte>)
    ensures |b| == 4
  {
    [n / 0x100_0000, (n / 0x1_0000) % 0x100, (n / 0x100) % 0x100, n % 0x100]
  }

  lemma BigEndianDecodesEncoding(n: UInt32)
    ensures BigEndian32(ToBigEndian32(n)) == n
  {
    var b := ToBigEndian32(n);
    assert n == (n / 0x100) * 0x100 + n % 0x100;
    assert n / 0x100 == (n / 0x1_0000) * 0x100 + (n / 0x100) % 0x100;
    assert n / 0x1_0000 == (n / 0x100_0000) * 0x100 + (n / 0x1_0000) % 0x100;
  }

  lemma BigEndianEncodesDecoding(b: seq<Byte>)
    requires |b| == 4
    ensures ToBigEndian32(BigEndian32(b)) == b
  {
    var n := BigEndian32(b);
    assert n / 0x100 == (b[0] as int) * 0x1_0000 + (b[1] as int) * 0x100 + b[2];
    assert n / 0x1_0000 == (b[0] as int) * 0x100 + b[1];
    assert n / 0x100_0000 == b[0];
  }

  /** The bytes 00 00 00 05 are the size 5, not 0x05000000. */
  lemma SizeIsReadBigEndian()
    ensures BigEndian32([0x00, 0x00, 0x00, 0x05]) == 5
    ensures BigEndian32([0x05, 0x00, 0x00, 0x00]) == 0x0500_0000
  {
  }

  // ---------------------------------------------------------------- frame text

  /**
   * The four `Replace` calls applied to the decoded frame text, in order:
   * NUL, the pair "??", the control character 0x01, and the byte-order mark
   * read as the two characters U+00FF U+00FE.
   */
  function CleanText(s: string): (r: string)
    ensures '\0' !in r && '\U{1}' !in r
    ensures |r| <= |s|
  {
    var noNul := RemoveAll(s, "\0");
    var noPairs := RemoveAll(noNul, "??");
    var noSoh := RemoveAll(noPairs, "\U{1}");
    RemoveAllDeletesChar(s, '\0');
    RemoveAllKeepsChars(noNul, "??");
    RemoveAllDeletesChar(noPairs, '\U{1}');
    RemoveAllKeepsChars(noPairs, "\U{1}");
    RemoveAllKeepsChars(noSoh, "\U{FF}\U{FE}");
    RemoveAll(noSoh, "\U{FF}\U{FE}")
  }

  /** Deleting 0x01 after "??" can bring two '?' together: "?\x01?" cleans to "??". */
  lemma CleaningCanLeaveQuestionPair()
    ensures CleanText("?\U{1}?") == "??"
  {
    assert RemoveAll("?\U{1}?", "\0") == "?\U{1}?";
    assert RemoveAll("?\U{1}?", "??") == "?\U{1}?";
    assert RemoveAll("?\U{1}?", "\U{1}") == "??";
    assert RemoveAll("??", "\U{FF}\U{FE}") == "??";
  }

  /**
   * `TryParseFrameData`: the frame's data starts 10 bytes after the frame
   * header (the offset wrapping as a `uint`) and is `frameSize` bytes long;
   * when it does not fit in the buffer `Array.Copy` throws and the answer is
   * null.
   */
  function TryParseFrameData(buffer: seq<Byte>, count: UInt32, frameSize: UInt32, decode: seq<Byte> -> string): (r: Option<string>)
    ensures r.None? <==> (count + 10) % Two32 + frameSize > |buffer|
    ensures r.Some? ==>
      var from := (count + 10) % Two32;
      && '\0' !in r.value && '\U{1}' !in r.value
      && |r.value| <= |decode(buffer[from..from + frameSize])|
  {
    var from := (count + 10) % Two32;
    if from + frameSize > |buffer| then None
    else Some(CleanText(decode(buffer[from..from + frameSize])))
  }

  // ---------------------------------------------------------------- frame walk

  /** Which field of the track a frame identifier fills. */
  datatype Field = Album | Title | Artist | Ignored

  function FrameField(id: seq<Byte>): Field
  {
    if id == TALB then Album
    else if id == TIT1 || id == TIT2 then Title
    else if id == TPE1 || id == TPE2 then Artist
    else Ignored
  }

  /** The routing of the five identifiers the parser knows. */
  lemma KnownFrameFields()
    ensures FrameField(TALB) == Album
    ensures FrameField(TIT1) == Title && FrameField(TIT2) == Title
    ensures FrameField(TPE1) == Artist && FrameField(TPE2) == Artist
  {
    assert TIT1[1] != TALB[1] && TIT2[1] != TALB[1];
    assert TPE1[1] != TALB[1] && TPE1[1] != TIT1[1] && TPE1[1] != TIT2[1];
    assert TPE2[1] != TALB[1] && TPE2[1] != TIT1[1] && TPE2[1] != TIT2[1] && TPE2[3] != TPE1[3];
  }

  /** Only these five identifiers are routed; every other identifier is ignored. */
  lemma FrameFieldExactly(id: seq<Byte>)
    ensures FrameField(id) == Album <==> id == TALB
    ensures FrameField(id) == Title <==> id == TIT1 || id == TIT2
    ensures FrameField(id) == Artist <==> id == TPE1 || id == TPE2
    ensures FrameField(id) == Ignored <==> id !in {TALB, TIT1, TIT2, TPE1, TPE2}
  {
    KnownFrameFields();
  }

  /** The `if`/`else if` chain on the identifier assigns what `Route` assigns. */
  lemma RouteByIdentifier(t: Track, id: seq<Byte>, v: Option<string>)
    ensures Route(t, FrameField(id), v)
         == if id == TALB then t.(album := v)
            else if id == TIT1 || id == TIT2 then t.(title := v)
            else if id == TPE1 || id == TPE2 then t.(artist := v)
            else t
  {
  }

  /** `string.IsNullOrEmpty`. */
  predicate IsNullOrEmpty(s: Option<string>)
  {
    s.None? || s.value == ""
  }

  /** Album, artist and title are all non-empty: the walk's exit test. */
  predicate Filled(t: Track)
  {
    !IsNullOrEmpty(t.album) && !IsNullOrEmpty(t.artist) && !IsNullOrEmpty(t.title)
  }

  /** A filled track has all three text fields, so it can be scored. */
  lemma FilledHasText(t: Track)
    requires Filled(t)
    ensures t.HasText()
  {
  }

  /** The loop guard `(count + 8) < buffer.Length`, where `count + 8` is a `uint` sum. */
  predicate LoopGuard(buffer: seq<Byte>, count: UInt32)
  {
    (count + 8) % Two32 < |buffer|
  }

  /** Without wrap the guard is the plain comparison; past 2^32 - 8 it compares the wrapped sum. */
  lemma LoopGuardWraps(buffer: seq<Byte>, count: UInt32)
    ensures count + 8 < Two32 ==> (LoopGuard(buffer, count) <==> count + 8 < |buffer|)
    ensures count + 8 >= Two32 ==> (LoopGuard(buffer, count) <==> count + 8 - Two32 < |buffer|)
  {
  }

  datatype WalkState = WalkState(count: UInt32, track: Track)

  /** `count += (frameSize + 10)` on `uint`s: both additions wrap, which is one wrap of the whole sum. */
  function NextOffset(count: UInt32, frameSize: UInt32): (r: UInt32)
    ensures r == (count + 10 + frameSize) % Two32
  {
    var step := (frameSize + 10) % Two32;
    assert step == if frameSize + 10 < Two32 then frameSize + 10 else frameSize + 10 - Two32;
    (count + step) % Two32
  }

  /** The state of `ParseID3` when the walk starts: offset 10, an empty track. */
  function Start(): WalkState
  {
    WalkState(10, EmptyTrack())
  }

  /**
   * The assignment made for a frame routed to `f`: that one field is
   * overwritten with `v` (possibly null), and nothing else changes.
   */
  function Route(t: Track, f: Field, v: Option<string>): (r: Track)
    ensures r.album == (if f == Album then v else t.album)
    ensures r.title == (if f == Title then v else t.title)
    ensures r.artist == (if f == Artist then v else t.artist)
    ensures r.link == t.link && r.relevance == t.relevance
  {
    match f
    case Album => t.(album := v)
    case Title => t.(title := v)
    case Artist => t.(artist := v)
    case Ignored => t
  }

  /**
   * One pass of the loop body when the 8 header bytes at `count` are inside
   * the buffer: the frame's text goes to the routed field and the offset
   * moves to the next frame header, 10 + size bytes on (modulo 2^32).
   */
  function Step(buffer: seq<Byte>, decode: seq<Byte> -> string, st: WalkState): (r: WalkState)
    requires st.count + 8 <= |buffer|
    ensures r.count == (st.count + 10 + BigEndian32(buffer[st.count + 4..st.count + 8])) % Two32
  {
    var c := st.count;
    var frameSize := BigEndian32(buffer[c + 4..c + 8]);
    var value := TryParseFrameData(buffer, c, frameSize, decode);
    WalkState(NextOffset(c, frameSize), Route(st.track, FrameField(buffer[c..c + 4]), value))
  }

  /** What `ParseID3` answers: a filled track, null, or "still looping after the bound". */
  datatype ParseResult = Parsed(track: Track) | Null | OutOfFuel

  /**
   * The `while` loop of `ParseID3` from state `st`, for at most `fuel` more
   * iterations. Reading 8 header bytes past the end throws, which the
   * method's `catch` turns into null.
   */
  function Walk(buffer: seq<Byte>, decode: seq<Byte> -> string, st: WalkState, fuel: nat): (r: ParseResult)
    ensures r.Parsed? ==> Filled(r.track) && r.track.HasText()
    ensures r.Parsed? ==> r.track.link == st.track.link && r.track.relevance == st.track.relevance
    decreases fuel
  {
    if !LoopGuard(buffer, st.count) then Null
    else if fuel == 0 then OutOfFuel
    else if st.count + 8 > |buffer| then Null
    else
      var next := Step(buffer, decode, st);
      if Filled(next.track) then Parsed(next.track) else Walk(buffer, decode, next, fuel - 1)
  }

  /** One iteration that leaves the track unfilled hands the walk over to the next state. */
  lemma WalkGoesOn(buffer: seq<Byte>, decode: seq<Byte> -> string, st: WalkState, fuel: nat)
    requires LoopGuard(buffer, st.count) && st.count + 8 <= |buffer| && fuel > 0
    requires !Filled(Step(buffer, decode, st).track)
    ensures Walk(buffer, decode, st, fuel) == Walk(buffer, decode, Step(buffer, decode, st), fuel - 1)
  {
  }

  /** The buffer starts with the ASCII bytes "ID3". A shorter buffer makes `Array.Copy` throw. */
  predicate HasMagic(buffer: seq<Byte>)
  {
    |buffer| >= 3 && buffer[..3] == MAGIC
  }

  /**
   * `ParseID3` as a function of the buffer. The tag-size field of the header
   * is not consulted: the walk goes on to the end of the buffer.
   */
  function ParseSpec(buffer: seq<Byte>, decode: seq<Byte> -> string, fuel: nat): (r: ParseResult)
    ensures r.Parsed? ==> HasMagic(buffer)
    ensures r.Parsed? ==> Filled(r.track) && r.track.HasText() && r.track.link.None? && r.track.relevance == 0
    ensures !HasMagic(buffer) ==> r == Null
  {
    if !HasMagic(buffer) then Null else Walk(buffer, decode, Start(), fuel)
  }

  /**
   * `ParseID3`, with the C# loop kept: `count` and `frameSize` are `uint`s, a
   * frame whose identifier is TALB, TIT1/TIT2 or TPE1/TPE2 overwrites album,
   * title or artist, and the method returns as soon as all three are
   * non-empty. `fuel` bounds the number of iterations.
   */
  method ParseID3(buffer: seq<Byte>, decode: seq<Byte> -> string, fuel: nat) returns (r: ParseResult)
    ensures r == ParseSpec(buffer, decode, fuel)
  {
    var track := EmptyTrack();
    if |buffer| < 3 || buffer[..3] != MAGIC {
      return Null;
    }
    var count: UInt32 := 10;
    var steps: nat := 0;
    assert WalkState(count, track) == Start();
    while (count + 8) % Two32 < |buffer|
      invariant steps <= fuel
      invariant Walk(buffer, decode, WalkState(count, track), fuel - steps) == Walk(buffer, decode, Start(), fuel)
      decreases fuel - steps
    {
      if steps == fuel {
        return OutOfFuel;
      }
      if count + 8 > |buffer| {
        return Null;
      }
      ghost var st := WalkState(count, track);
      var frameId := buffer[count..count + 4];
      var frameSize := BigEndian32(buffer[count + 4..count + 8]);
      RouteByIdentifier(track, frameId, TryParseFrameData(buffer, count, frameSize, decode));
      if frameId == TALB {
        track := track.(album := TryParseFrameData(buffer, count, frameSize, decode));
      } else if frameId == TIT1 || frameId == TIT2 {
        track := track.(title := TryParseFrameData(buffer, count, frameSize, decode));
      } else if frameId == TPE1 || frameId == TPE2 {
        track := track.(artist := TryParseFrameData(buffer, count, frameSize, decode));
      }
      count := NextOffset(count, frameSize);
      assert WalkState(count, track) == Step(buffer, decode, st);
      if Filled(track) {
        return Parsed(track);
      }
      WalkGoesOn(buffer, decode, st, fuel - steps);
      steps := steps + 1;
    }
    return Null;
  }

  // ---------------------------------------------------------------- properties of the walk

  /** A state that one iteration maps to itself, with the exit test false, loops for ever. */
  lemma {:induction false} FixpointLoops(buffer: seq<Byte>, decode: seq<Byte> -> string, st: WalkState, fuel: nat)
    requires LoopGuard(buffer, st.count) && st.count + 8 <= |buffer|
    requires Step(buffer, decode, st) == st && !Filled(st.track)
    ensures Walk(buffer, decode, st, fuel) == OutOfFuel
    decreases fuel
  {
    if fuel > 0 {
      FixpointLoops(buffer, decode, st, fuel - 1);
    }
  }

  /**
   * A first frame whose size field is FF FF FF F6 sends the offset back to
   * 10: whatever its identifier, the walk never ends.
   */
  lemma WrappingFrameNeverEnds(buffer: seq<Byte>, decode: seq<Byte> -> string, fuel: nat)
    requires HasMagic(buffer) && 19 <= |buffer| < Two32
    requires buffer[14..18] == [0xFF, 0xFF, 0xFF, 0xF6]
    ensures ParseSpec(buffer, decode, fuel) == OutOfFuel
  {
    var st0 := Start();
    assert BigEndian32(buffer[14..18]) == 0xFFFF_FFF6;
    var st1 := Step(buffer, decode, st0);
    assert st1.count == 10;
    assert TryParseFrameData(buffer, 10, 0xFFFF_FFF6, decode) == None;
    assert st1.track == EmptyTrack();
    if fuel > 0 {
      FixpointLoops(buffer, decode, st1, fuel - 1);
    }
  }

  /** The size field that would be read from the four bytes at `k`. */
  function SizeAt(buffer: seq<Byte>, k: nat): UInt32
    requires k + 4 <= |buffer|
  {
    BigEndian32(buffer[k..k + 4])
  }

  /** No four consecutive bytes encode a size that could carry an offset inside the buffer past 2^32. */
  ghost predicate NoWrappingSizes(buffer: seq<Byte>)
  {
    forall k: nat :: k + 4 <= |buffer| ==> SizeAt(buffer, k) + |buffer| + 10 < Two32
  }

  /** Without wrap-around, one iteration moves the offset forward by at least 10 and keeps it below 2^32 - 8. */
  lemma NoWrapStep(buffer: seq<Byte>, decode: seq<Byte> -> string, st: WalkState)
    requires NoWrappingSizes(buffer) && st.count + 8 < Two32 && LoopGuard(buffer, st.count)
    ensures st.count + 8 < |buffer|
    ensures st.count + 10 <= Step(buffer, decode, st).count && Step(buffer, decode, st).count + 8 < Two32
  {
    var c := st.count;
    assert c + 8 < |buffer|;
    var size := SizeAt(buffer, c + 4);
    assert size + |buffer| + 10 < Two32;
    assert Step(buffer, decode, st).count == c + 10 + size;
  }

  lemma {:induction false} NoWrapWalkEnds(buffer: seq<Byte>, decode: seq<Byte> -> string, st: WalkState, fuel: nat)
    requires NoWrappingSizes(buffer)
    requires st.count + 8 < Two32
    requires fuel >= |buffer| - st.count
    ensures Walk(buffer, decode, st, fuel) != OutOfFuel
    decreases fuel
  {
    if LoopGuard(buffer, st.count) {
      var next := Step(buffer, decode, st);
      NoWrapStep(buffer, decode, st);
      if !Filled(next.track) {
        NoWrapWalkEnds(buffer, decode, next, fuel - 1);
      }
    }
  }

  /**
   * When the offset cannot wrap, the walk ends (with a track or null) within
   * as many iterations as the buffer has bytes: only wrap-around makes
   * `ParseID3` loop.
   */
  lemma NoWrapParseEnds(buffer: seq<Byte>, decode: seq<Byte> -> string, fuel: nat)
    requires NoWrappingSizes(buffer)
    requires fuel >= |buffer|
    ensures ParseSpec(buffer, decode, fuel) != OutOfFuel
  {
    if HasMagic(buffer) {
      NoWrapWalkEnds(buffer, decode, Start(), fuel);
    }
  }

  /** A frame as it sits in the tag: identifier, big-endian size, two flag bytes, data. */
  function Frame(id: seq<Byte>, data: seq<Byte>): (f: seq<Byte>)
    requires |id| == 4 && |data| < Two32
    ensures |f| == 10 + |data|
  {
    id + ToBigEndian32(|data|) + [0, 0] + data
  }

  /** The buffer holds, at offset `c`, a frame with identifier `id` and data `data`. */
  predicate FrameAt(buffer: seq<Byte>, c: nat, id: seq<Byte>, data: seq<Byte>)
  {
    && c + 10 + |data| <= |buffer|
    && buffer[c..c + 4] == id
    && BigEndian32(buffer[c + 4..c + 8]) == |data|
    && buffer[c + 10..c + 10 + |data|] == data
  }

  /** Reading a frame header and data back from a buffer that holds `Frame(id, data)` at `c`. */
  lemma ReadFrame(buffer: seq<Byte>, c: nat, id: seq<Byte>, data: seq<Byte>)
    requires |id| == 4 && |data| < Two32
    requires c + 10 + |data| <= |buffer|
    requires buffer[c..c + 10 + |data|] == Frame(id, data)
    ensures FrameAt(buffer, c, id, data)
  {
    var f := Frame(id, data);
    var size := ToBigEndian32(|data|);
    assert f == id + size + ([0, 0] + data);
    assert f[..4] == id;
    assert f[4..8] == size;
    assert f[10..] == data;
    SliceOfSlice(buffer, c, c + 10 + |data|, 0, 4);
    SliceOfSlice(buffer, c, c + 10 + |data|, 4, 8);
    SliceOfSlice(buffer, c, c + 10 + |data|, 10, 10 + |data|);
    assert f[..4] == f[0..4] && f[10..] == f[10..10 + |data|];
    BigEndianDecodesEncoding(|data|);
  }

  /** One iteration over a well-formed frame: the routed field gets the cleaned text, the offset moves past the frame. */
  lemma StepOverFrame(buffer: seq<Byte>, decode: seq<Byte> -> string, st: WalkState, id: seq<Byte>, data: seq<Byte>)
    requires |buffer| < Two32 && FrameAt(buffer, st.count, id, data)
    ensures Step(buffer, decode, st)
         == WalkState(st.count + 10 + |data|, Route(st.track, FrameField(id), Some(CleanText(decode(data)))))
  {
    var c := st.count;
    assert (c + 10) % Two32 == c + 10;
    assert TryParseFrameData(buffer, c, |data|, decode) == Some(CleanText(decode(data)));
    assert NextOffset(c, |data|) == c + 10 + |data|;
  }

  /** The walk over a well-formed frame that does not fill the track goes on from the next frame. */
  lemma WalkOverFrame(buffer: seq<Byte>, decode: seq<Byte> -> string, st: WalkState, fuel: nat, id: seq<Byte>, data: seq<Byte>)
    requires |buffer| < Two32 && FrameAt(buffer, st.count, id, data) && fuel >= 1
    requires !Filled(Route(st.track, FrameField(id), Some(CleanText(decode(data)))))
    ensures Walk(buffer, decode, st, fuel)
         == Walk(buffer, decode, WalkState(st.count + 10 + |data|, Route(st.track, FrameField(id), Some(CleanText(decode(data))))), fuel - 1)
  {
    var c := st.count;
    assert c + 8 <= |buffer| && (c + 8) % Two32 == c + 8;
    assert LoopGuard(buffer, c);
    StepOverFrame(buffer, decode, st, id, data);
  }

  /** The walk over a well-formed frame that fills the track stops there with that track. */
  lemma WalkFillsAt(buffer: seq<Byte>, decode: seq<Byte> -> string, st: WalkState, fuel: nat, id: seq<Byte>, data: seq<Byte>)
    requires |buffer| < Two32 && FrameAt(buffer, st.count, id, data) && fuel >= 1
    requires Filled(Route(st.track, FrameField(id), Some(CleanText(decode(data)))))
    ensures Walk(buffer, decode, st, fuel) == Parsed(Route(st.track, FrameField(id), Some(CleanText(decode(data)))))
  {
    var c := st.count;
    assert c + 8 <= |buffer| && (c + 8) % Two32 == c + 8;
    assert LoopGuard(buffer, c);
    StepOverFrame(buffer, decode, st, id, data);
  }

  /** Where the three frames of a `TALB`, `TIT2`, `TPE1` tag begin. */
  lemma ThreeFramesLayout(header: seq<Byte>, fa: seq<Byte>, ft: seq<Byte>, fp: seq<Byte>, rest: seq<Byte>)
    requires |header| == 7
    ensures var buffer := MAGIC + header + fa + ft + fp + rest;
      && buffer[..3] == MAGIC
      && buffer[10..10 + |fa|] == fa
      && buffer[10 + |fa|..10 + |fa| + |ft|] == ft
      && buffer[10 + |fa| + |ft|..10 + |fa| + |ft| + |fp|] == fp
  {
  }

  /** An offset whose 8 header bytes would reach past the end (without wrapping) ends the walk with null. */
  lemma WalkEndsAt(buffer: seq<Byte>, decode: seq<Byte> -> string, st: WalkState, fuel: nat)
    requires |buffer| <= st.count + 8 < Two32
    ensures Walk(buffer, decode, st, fuel) == Null
  {
    assert (st.count + 8) % Two32 == st.count + 8;
  }

  /** Every byte from offset `c` to the end of the buffer is zero. */
  predicate ZerosFrom(buffer: seq<Byte>, c: nat)
  {
    forall k :: c <= k < |buffer| ==> buffer[k] == 0
  }

  /** A frame header of eight zero bytes is an unknown identifier of size 0: the walk moves 10 bytes on and keeps the track. */
  lemma ZeroStep(buffer: seq<Byte>, decode: seq<Byte> -> string, st: WalkState)
    requires |buffer| + 10 < Two32 && st.count + 8 < |buffer| && ZerosFrom(buffer, st.count)
    ensures Step(buffer, decode, st) == WalkState(st.count + 10, st.track)
  {
    var c := st.count;
    var id := buffer[c..c + 4];
    assert id[0] == 0 && TALB[0] != 0 && TIT1[0] != 0 && TIT2[0] != 0 && TPE1[0] != 0 && TPE2[0] != 0;
    assert FrameField(id) == Ignored;
    assert buffer[c + 4..c + 8] == [0, 0, 0, 0];
    assert NextOffset(c, 0) == c + 10;
  }

  /** From an offset where only zero bytes remain, the walk answers null once the offset nears the end. */
  lemma {:induction false} ZerosEndWalk(buffer: seq<Byte>, decode: seq<Byte> -> string, st: WalkState, fuel: nat)
    requires |buffer| + 10 < Two32 && st.count <= |buffer| + 1 && ZerosFrom(buffer, st.count)
    requires !Filled(st.track)
    requires fuel >= |buffer| - st.count
    ensures Walk(buffer, decode, st, fuel) == Null
    decreases |buffer| + 1 - st.count
  {
    if st.count + 8 >= |buffer| {
      WalkEndsAt(buffer, decode, st, fuel);
    } else {
      assert LoopGuard(buffer, st.count);
      ZeroStep(buffer, decode, st);
      ZerosEndWalk(buffer, decode, Step(buffer, decode, st), fuel - 1);
    }
  }

  /** A TIT2 frame at `c` after only the album, then zeros: the walk ends without a track. */
  lemma TitleThenZeros(buffer: seq<Byte>, decode: seq<Byte> -> string, fuel: nat, c: UInt32, a: Option<string>, title: seq<Byte>)
    requires |buffer| + 10 < Two32 && FrameAt(buffer, c, TIT2, title) && ZerosFrom(buffer, c + 10 + |title|)
    requires fuel >= 1 + |buffer| - (c + 10 + |title|)
    ensures Walk(buffer, decode, WalkState(c, Track(None, None, a, None, 0)), fuel) == Null
  {
    var st := WalkState(c, Track(None, None, a, None, 0));
    assert c + 8 <= |buffer| && (c + 8) % Two32 == c + 8;
    assert LoopGuard(buffer, c);
    assert FrameField(TIT2) == Title by { KnownFrameFields(); }
    StepOverFrame(buffer, decode, st, TIT2, title);
    ZerosEndWalk(buffer, decode, Step(buffer, decode, st), fuel - 1);
  }

  /** TALB then TIT2 from offset 10 and only zero bytes after them: the walk ends without a track. */
  lemma TwoFramesThenZeros(buffer: seq<Byte>, decode: seq<Byte> -> string, fuel: nat, album: seq<Byte>, title: seq<Byte>)
    requires |buffer| + 10 < Two32
    requires FrameAt(buffer, 10, TALB, album) && FrameAt(buffer, 20 + |album|, TIT2, title)
    requires ZerosFrom(buffer, 30 + |album| + |title|)
    requires fuel >= 2 + |buffer| - (30 + |album| + |title|)
    ensures Walk(buffer, decode, Start(), fuel) == Null
  {
    var a := Some(CleanText(decode(album)));
    assert (10 + 8) % Two32 == 18 && LoopGuard(buffer, 10);
    assert FrameField(TALB) == Album by { KnownFrameFields(); }
    StepOverFrame(buffer, decode, Start(), TALB, album);
    assert Step(buffer, decode, Start()) == WalkState(20 + |album|, Track(None, None, a, None, 0));
    TitleThenZeros(buffer, decode, fuel - 1, 20 + |album|, a, title);
  }

  /** TALB, TIT2 and TPE1 frames one after another from offset 10, each with a non-empty cleaned text. */
  predicate ThreeFrames(buffer: seq<Byte>, decode: seq<Byte> -> string, album: seq<Byte>, title: seq<Byte>, artist: seq<Byte>)
  {
    && |buffer| < Two32
    && FrameAt(buffer, 10, TALB, album) && FrameAt(buffer, 20 + |album|, TIT2, title)
    && FrameAt(buffer, 30 + |album| + |title|, TPE1, artist)
    && CleanText(decode(album)) != "" && CleanText(decode(title)) != "" && CleanText(decode(artist)) != ""
  }

  /** After the album frame, TIT2 then TPE1 with non-empty texts fill the track. */
  lemma TitleArtistFill(buffer: seq<Byte>, decode: seq<Byte> -> string, fuel: nat,
                        album: seq<Byte>, title: seq<Byte>, artist: seq<Byte>)
    requires ThreeFrames(buffer, decode, album, title, artist) && fuel >= 2
    ensures Walk(buffer, decode, WalkState(20 + |album|, Track(None, None, Some(CleanText(decode(album))), None, 0)), fuel)
         == Parsed(Track(Some(CleanText(decode(title))), Some(CleanText(decode(artist))), Some(CleanText(decode(album))), None, 0))
  {
    var a, t := Some(CleanText(decode(album))), Some(CleanText(decode(title)));
    var c1, c2 := 20 + |album|, 30 + |album| + |title|;
    ArtistFills(buffer, decode, fuel - 1, c2, a, t, artist);
    TitleStep(buffer, decode, fuel, c1, c2, a, title);
  }

  /** A TIT2 frame at `c` after only the album is known: the walk goes on with the title set. */
  lemma TitleStep(buffer: seq<Byte>, decode: seq<Byte> -> string, fuel: nat, c: UInt32, next: UInt32, a: Option<string>, title: seq<Byte>)
    requires |buffer| < Two32 && FrameAt(buffer, c, TIT2, title) && fuel >= 1
    requires next == c + 10 + |title|
    ensures Walk(buffer, decode, WalkState(c, Track(None, None, a, None, 0)), fuel)
         == Walk(buffer, decode, WalkState(next, Track(Some(CleanText(decode(title))), None, a, None, 0)), fuel - 1)
  {
    var st := WalkState(c, Track(None, None, a, None, 0));
    var v := Some(CleanText(decode(title)));
    assert FrameField(TIT2) == Title by { KnownFrameFields(); }
    WalkOverFrame(buffer, decode, st, fuel, TIT2, title);
    assert WalkState(st.count + 10 + |title|, Route(st.track, FrameField(TIT2), v)) == WalkState(next, Track(v, None, a, None, 0));
  }

  /** A TPE1 frame with non-empty text at `c` after album and title: the walk stops with the full track. */
  lemma ArtistFills(buffer: seq<Byte>, decode: seq<Byte> -> string, fuel: nat, c: UInt32,
                    a: Option<string>, t: Option<string>, artist: seq<Byte>)
    requires |buffer| < Two32 && FrameAt(buffer, c, TPE1, artist) && fuel >= 1
    requires !IsNullOrEmpty(a) && !IsNullOrEmpty(t) && CleanText(decode(artist)) != ""
    ensures Walk(buffer, decode, WalkState(c, Track(t, None, a, None, 0)), fuel)
         == Parsed(Track(t, Some(CleanText(decode(artist))), a, None, 0))
  {
    var st := WalkState(c, Track(t, None, a, None, 0));
    var v := Some(CleanText(decode(artist)));
    assert FrameField(TPE1) == Artist by { KnownFrameFields(); }
    assert Route(st.track, FrameField(TPE1), v) == Track(t, v, a, None, 0);
    WalkFillsAt(buffer, decode, st, fuel, TPE1, artist);
  }

  /** TALB, TIT2 then TPE1 from offset 10 with non-empty texts: the walk stops after the third frame. */
  lemma ThreeFramesFill(buffer: seq<Byte>, decode: seq<Byte> -> string, fuel: nat,
                        album: seq<Byte>, title: seq<Byte>, artist: seq<Byte>)
    requires ThreeFrames(buffer, decode, album, title, artist) && fuel >= 3
    ensures Walk(buffer, decode, Start(), fuel)
         == Parsed(Track(Some(CleanText(decode(title))), Some(CleanText(decode(artist))), Some(CleanText(decode(album))), None, 0))
  {
    var a := Some(CleanText(decode(album)));
    assert (10 + 8) % Two32 == 18 && LoopGuard(buffer, 10);
    assert FrameField(TALB) == Album by { KnownFrameFields(); }
    StepOverFrame(buffer, decode, Start(), TALB, album);
    assert Step(buffer, decode, Start()) == WalkState(20 + |album|, Track(None, None, a, None, 0));
    TitleArtistFill(buffer, decode, fuel - 1, album, title, artist);
  }

  /**
   * Well-formed TALB, TIT2 and TPE1 frames right after the header give a
   * track holding exactly their cleaned texts; the bytes after them do not matter.
   */
  lemma ThreeFramesGiveTrack(header: seq<Byte>, album: seq<Byte>, title: seq<Byte>, artist: seq<Byte>,
                             rest: seq<Byte>, decode: seq<Byte> -> string, fuel: nat)
    requires |header| == 7
    requires 40 + |album| + |title| + |artist| + |rest| < Two32
    requires CleanText(decode(album)) != "" && CleanText(decode(title)) != "" && CleanText(decode(artist)) != ""
    requires fuel >= 3
    ensures ParseSpec(MAGIC + header + Frame(TALB, album) + Frame(TIT2, title) + Frame(TPE1, artist) + rest, decode, fuel)
         == Parsed(Track(Some(CleanText(decode(title))), Some(CleanText(decode(artist))), Some(CleanText(decode(album))), None, 0))
  {
    var buffer := MAGIC + header + Frame(TALB, album) + Frame(TIT2, title) + Frame(TPE1, artist) + rest;
    ThreeFramesRead(header, album, title, artist, rest);
    ThreeFramesFill(buffer, decode, fuel, album, title, artist);
  }

  /** The buffer of `ThreeFramesGiveTrack` has the magic and the three frames where the walk looks for them. */
  lemma ThreeFramesRead(header: seq<Byte>, album: seq<Byte>, title: seq<Byte>, artist: seq<Byte>, rest: seq<Byte>)
    requires |header| == 7
    requires 40 + |album| + |title| + |artist| + |rest| < Two32
    ensures var buffer := MAGIC + header + Frame(TALB, album) + Frame(TIT2, title) + Frame(TPE1, artist) + rest;
      && HasMagic(buffer) && |buffer| < Two32
      && FrameAt(buffer, 10, TALB, album) && FrameAt(buffer, 20 + |album|, TIT2, title)
      && FrameAt(buffer, 30 + |album| + |title|, TPE1, artist)
  {
    var fa, ft, fp := Frame(TALB, album), Frame(TIT2, title), Frame(TPE1, artist);
    var buffer := MAGIC + header + fa + ft + fp + rest;
    ThreeFramesLayout(header, fa, ft, fp, rest);
    ReadFrame(buffer, 10, TALB, album);
    ReadFrame(buffer, 20 + |album|, TIT2, title);
    ReadFrame(buffer, 30 + |album| + |title|, TPE1, artist);
  }

  /**
   * With only TALB and TIT2 frames, followed by any number of zero bytes
   * (the padding of the 1024-byte read buffer), the walk reaches the end
   * of the buffer and answers null.
   */
  lemma MissingArtistGivesNull(header: seq<Byte>, album: seq<Byte>, title: seq<Byte>, n: nat,
                               decode: seq<Byte> -> string, fuel: nat)
    requires |header| == 7
    requires 40 + |album| + |title| + n < Two32
    requires fuel >= n + 2
    ensures ParseSpec(MAGIC + header + Frame(TALB, album) + Frame(TIT2, title) + seq(n, _ => 0), decode, fuel) == Null
  {
    var buffer := MAGIC + header + Frame(TALB, album) + Frame(TIT2, title) + seq(n, _ => 0);
    TwoFramesRead(header, album, title, n);
    TwoFramesThenZeros(buffer, decode, fuel, album, title);
  }

  /** The four bytes from offset `k`, where a frame identifier would sit. */
  function IdAt(buffer: seq<Byte>, k: nat): seq<Byte>
    requires k + 4 <= |buffer|
  {
    buffer[k..k + 4]
  }

  /** No four bytes of the buffer spell an artist identifier, TPE1 or TPE2. */
  predicate NoArtistFrame(buffer: seq<Byte>)
  {
    forall k: nat :: k + 4 <= |buffer| ==> IdAt(buffer, k) != TPE1 && IdAt(buffer, k) != TPE2
  }

  /** Without an artist identifier in the buffer, one iteration leaves the artist as it was. */
  lemma StepKeepsArtist(buffer: seq<Byte>, decode: seq<Byte> -> string, st: WalkState)
    requires NoArtistFrame(buffer) && st.count + 8 <= |buffer|
    ensures Step(buffer, decode, st).track.artist == st.track.artist
  {
    var id := buffer[st.count..st.count + 4];
    assert id == IdAt(buffer, st.count);
    FrameFieldExactly(id);
  }

  /** A walk that starts without an artist never fills the track when no frame can route to the artist. */
  lemma {:induction false} NoArtistWalkNeverParsed(buffer: seq<Byte>, decode: seq<Byte> -> string, st: WalkState, fuel: nat)
    requires NoArtistFrame(buffer) && IsNullOrEmpty(st.track.artist)
    ensures !Walk(buffer, decode, st, fuel).Parsed?
    decreases fuel
  {
    if LoopGuard(buffer, st.count) && fuel > 0 && st.count + 8 <= |buffer| {
      StepKeepsArtist(buffer, decode, st);
      NoArtistWalkNeverParsed(buffer, decode, Step(buffer, decode, st), fuel - 1);
    }
  }

  /** A tag is never partial: a buffer in which no frame can carry the artist never parses to a track. */
  lemma NoArtistNeverParsed(buffer: seq<Byte>, decode: seq<Byte> -> string, fuel: nat)
    requires NoArtistFrame(buffer)
    ensures !ParseSpec(buffer, decode, fuel).Parsed?
  {
    if HasMagic(buffer) {
      NoArtistWalkNeverParsed(buffer, decode, Start(), fuel);
    }
  }

  /** The buffer of `MissingArtistGivesNull` has the magic, the two frames, and zeros after them. */
  lemma TwoFramesRead(header: seq<Byte>, album: seq<Byte>, title: seq<Byte>, n: nat)
    requires |header| == 7
    requires 40 + |album| + |title| + n < Two32
    ensures var buffer := MAGIC + header + Frame(TALB, album) + Frame(TIT2, title) + seq(n, _ => 0);
      && HasMagic(buffer) && |buffer| == 30 + |album| + |title| + n
      && FrameAt(buffer, 10, TALB, album) && FrameAt(buffer, 20 + |album|, TIT2, title)
      && ZerosFrom(buffer, 30 + |album| + |title|)
  {
    var fa, ft, zeros := Frame(TALB, album), Frame(TIT2, title), seq(n, _ => 0);
    var buffer := MAGIC + header + fa + ft + zeros;
    ThreeFramesLayout(header, fa, ft, zeros, []);
    assert MAGIC + header + fa + ft + zeros + [] == buffer;
    ReadFrame(buffer, 10, TALB, album);
    ReadFrame(buffer, 20 + |album|, TIT2, title);
    forall k | 30 + |album| + |title| <= k < |buffer| ensures buffer[k] == 0 {
      assert buffer[k] == zeros[k - (30 + |album| + |title|)];
    }
  }

  // ---------------------------------------------------------------- DownloadID3

  /** `bytecount`: how many bytes of each resource are requested. */
  const ByteCount: nat := 1024

  /**
   * What the two HTTP requests for one link give. `Unreachable` stands for
   * the failures the C# catches and answers by skipping the link: a
   * `WebException` or `UriFormatException` while creating the requests, a
   * `WebException` from the HEAD response, or any exception from the first
   * GET response. Otherwise: the parsed Content-Length header of the HEAD
   * response (`None` when `int.TryParse` fails) and the bytes that the one
   * `Read` of the GET stream delivered. Exceptions the C# does not catch
   * (the `HttpWebRequest` cast of a non-HTTP request, the second GET
   * response, the `Read`) abort the whole download and have no value here.
   */
  datatype Response = Unreachable | Fetched(contentLength: Option<int>, received: seq<Byte>)

  /** The HEAD test: a length that parses and is below 1,500,000 marks a preview or demo file. */
  predicate Admitted(contentLength: Option<int>)
  {
    !(contentLength.Some? && contentLength.value < 1500000)
  }

  /** An unknown length is let through; a known one only from 1500000 bytes up. */
  lemma AdmittedThreshold(contentLength: Option<int>)
    ensures contentLength.None? ==> Admitted(contentLength)
    ensures contentLength.Some? ==> (Admitted(contentLength) <==> contentLength.value >= 1500000)
  {
  }

  /** The `new byte[1024]` buffer after the `Read`: the received bytes, up to 1024 of them, then zeros. */
  function ReadBuffer(received: seq<Byte>): (r: seq<Byte>)
    ensures |r| == ByteCount
    ensures forall k :: 0 <= k < |received| && k < ByteCount ==> r[k] == received[k]
    ensures forall k :: |received| <= k < ByteCount ==> r[k] == 0
  {
    var n := if |received| < ByteCount then |received| else ByteCount;
    received[..n] + seq(ByteCount - n, _ => 0)
  }

  /** What one link contributes: a track to keep, nothing, or a parse still looping after `fuel` iterations. */
  datatype Outcome = Keep(track: Track) | Skip | Stuck

  /**
   * The body of the `Parallel.ForEach` for one link: a track is kept only
   * when the link is reachable, not a preview, its first 1024 bytes parse,
   * and the title does not start with "??"; the kept track gets the link.
   */
  function Probe(link: string, fetch: string -> Response, decode: seq<Byte> -> string, fuel: nat): (r: Outcome)
    ensures r.Keep? ==> fetch(link).Fetched? && Admitted(fetch(link).contentLength)
    ensures r.Keep? ==> var p := ParseSpec(ReadBuffer(fetch(link).received), decode, fuel);
      p.Parsed? && r.track == p.track.(link := Some(link))
    ensures r.Keep? ==> Filled(r.track) && r.track.HasText() && !StartsWith(r.track.title.value, "??")
    ensures r.Keep? ==> r.track.link == Some(link) && r.track.relevance == 0
    ensures r.Stuck? <==> fetch(link).Fetched? && Admitted(fetch(link).contentLength)
                          && ParseSpec(ReadBuffer(fetch(link).received), decode, fuel).OutOfFuel?
    ensures fetch(link).Fetched? && Admitted(fetch(link).contentLength) ==>
      var p := ParseSpec(ReadBuffer(fetch(link).received), decode, fuel);
      p.Parsed? && !StartsWith(p.track.title.value, "??") ==> r == Keep(p.track.(link := Some(link)))
  {
    match fetch(link)
    case Unreachable => Skip
    case Fetched(contentLength, received) =>
      if !Admitted(contentLength) then Skip
      else
        match ParseSpec(ReadBuffer(received), decode, fuel)
        case Null => Skip
        case OutOfFuel => Stuck
        case Parsed(t) => if StartsWith(t.title.value, "??") then Skip else Keep(t.(link := Some(link)))
  }

  /** The list `DownloadID3` returns, or `Diverged` when some link's parse runs out of fuel. */
  datatype Download = Collected(tracks: seq<Track>) | Diverged

  /** Every collected track is complete, keeps its "??"-free title, carries one of the links and has count 0. */
  predicate WellCollected(tracks: seq<Track>, links: seq<string>)
  {
    forall k :: 0 <= k < |tracks| ==>
      && Filled(tracks[k]) && tracks[k].HasText()
      && !StartsWith(tracks[k].title.value, "??")
      && tracks[k].link.Some? && tracks[k].link.value in links
      && tracks[k].relevance == 0
  }

  /** The links processed one after another, in list order. */
  function Downloaded(links: seq<string>, fetch: string -> Response, decode: seq<Byte> -> string, fuel: nat): (r: Download)
    ensures r.Collected? ==> WellCollected(r.tracks, links) && |r.tracks| <= |links|
  {
    if links == [] then Collected([])
    else
      var init := links[..|links| - 1];
      var last := links[|links| - 1];
      var prev := Downloaded(init, fetch, decode, fuel);
      assert forall k :: 0 <= k < |init| ==> init[k] == links[k];
      if prev.Diverged? then Diverged
      else
        match Probe(last, fetch, decode, fuel)
        case Keep(t) => Collected(prev.tracks + [t])
        case Skip => prev
        case Stuck => Diverged
  }

  /** The download diverges exactly when the parse for some link runs out of the given fuel. */
  lemma {:induction false} DivergedIffStuck(links: seq<string>, fetch: string -> Response, decode: seq<Byte> -> string, fuel: nat)
    ensures Downloaded(links, fetch, decode, fuel).Diverged?
        <==> exists k :: 0 <= k < |links| && Probe(links[k], fetch, decode, fuel).Stuck?
    decreases |links|
  {
    if links != [] {
      var init, last := links[..|links| - 1], links[|links| - 1];
      DivergedIffStuck(init, fetch, decode, fuel);
      assert forall k :: 0 <= k < |init| ==> init[k] == links[k];
    }
  }

  /** The track one link contributes, if any. */
  function KeptBy(link: string, fetch: string -> Response, decode: seq<Byte> -> string, fuel: nat): seq<Track>
  {
    match Probe(link, fetch, decode, fuel)
    case Keep(t) => [t]
    case _ => []
  }

  /** The tracks the links keep, in link order: the reference for what the download collects. */
  function Kept(links: seq<string>, fetch: string -> Response, decode: seq<Byte> -> string, fuel: nat): (r: seq<Track>)
    ensures |r| <= |links|
  {
    if links == [] then [] else KeptBy(links[0], fetch, decode, fuel) + Kept(links[1..], fetch, decode, fuel)
  }

  lemma {:induction false} KeptSnoc(links: seq<string>, last: string, fetch: string -> Response, decode: seq<Byte> -> string, fuel: nat)
    ensures Kept(links + [last], fetch, decode, fuel) == Kept(links, fetch, decode, fuel) + KeptBy(last, fetch, decode, fuel)
    decreases |links|
  {
    if links == [] {
      assert [last][1..] == [];
    } else {
      assert (links + [last])[1..] == links[1..] + [last];
      KeptSnoc(links[1..], last, fetch, decode, fuel);
    }
  }

  /** A download that does not diverge collects exactly the kept tracks, in link order. */
  lemma {:induction false} DownloadedIsKept(links: seq<string>, fetch: string -> Response, decode: seq<Byte> -> string, fuel: nat)
    ensures Downloaded(links, fetch, decode, fuel).Collected?
        ==> Downloaded(links, fetch, decode, fuel).tracks == Kept(links, fetch, decode, fuel)
    decreases |links|
  {
    if links != [] {
      var init, last := links[..|links| - 1], links[|links| - 1];
      DownloadedIsKept(init, fetch, decode, fuel);
      assert links == init + [last];
      KeptSnoc(init, last, fetch, decode, fuel);
    }
  }

  /** The kept tracks are exactly the tracks that some link's probe keeps. */
  lemma {:induction false} KeptMembers(links: seq<string>, fetch: string -> Response, decode: seq<Byte> -> string, fuel: nat, t: Track)
    ensures t in Kept(links, fetch, decode, fuel) <==> exists k :: 0 <= k < |links| && Probe(links[k], fetch, decode, fuel) == Keep(t)
    decreases |links|
  {
    if links != [] {
      KeptMembers(links[1..], fetch, decode, fuel, t);
      if t in Kept(links[1..], fetch, decode, fuel) {
        var k :| 0 <= k < |links[1..]| && Probe(links[1..][k], fetch, decode, fuel) == Keep(t);
        assert Probe(links[k + 1], fetch, decode, fuel) == Keep(t);
      }
      if exists k :: 0 <= k < |links| && Probe(links[k], fetch, decode, fuel) == Keep(t) {
        var k :| 0 <= k < |links| && Probe(links[k], fetch, decode, fuel) == Keep(t);
        if k > 0 {
          assert Probe(links[1..][k - 1], fetch, decode, fuel) == Keep(t);
        }
      }
    }
  }

  /**
   * A link that is reachable, not a preview, parses, and whose title does
   * not start with "??" has its track, with the link, in the collected list.
   */
  lemma GoodLinkCollected(links: seq<string>, fetch: string -> Response, decode: seq<Byte> -> string, fuel: nat, k: nat)
    requires k < |links| && Downloaded(links, fetch, decode, fuel).Collected?
    requires fetch(links[k]).Fetched? && Admitted(fetch(links[k]).contentLength)
    requires var p := ParseSpec(ReadBuffer(fetch(links[k]).received), decode, fuel);
      p.Parsed? && !StartsWith(p.track.title.value, "??")
    ensures var p := ParseSpec(ReadBuffer(fetch(links[k]).received), decode, fuel);
      p.track.(link := Some(links[k])) in Downloaded(links, fetch, decode, fuel).tracks
  {
    var p := ParseSpec(ReadBuffer(fetch(links[k]).received), decode, fuel);
    var t := p.track.(link := Some(links[k]));
    assert Probe(links[k], fetch, decode, fuel) == Keep(t);
    KeptMembers(links, fetch, decode, fuel, t);
    DownloadedIsKept(links, fetch, decode, fuel);
  }

  /** When no size in the read buffer can wrap the offset, 1024 iterations are enough: the link's parse is never stuck. */
  lemma NoWrapNotStuck(link: string, fetch: string -> Response, decode: seq<Byte> -> string, fuel: nat)
    requires fetch(link).Fetched? && NoWrappingSizes(ReadBuffer(fetch(link).received))
    requires fuel >= ByteCount
    ensures !Probe(link, fetch, decode, fuel).Stuck?
  {
    NoWrapParseEnds(ReadBuffer(fetch(link).received), decode, fuel);
  }

  /** A resource holding only TALB and TIT2 frames is skipped: its zero-padded read buffer parses to null. */
  lemma MissingArtistSkipped(link: string, fetch: string -> Response, decode: seq<Byte> -> string, fuel: nat,
                             header: seq<Byte>, album: seq<Byte>, title: seq<Byte>)
    requires |header| == 7 && 30 + |album| + |title| <= ByteCount
    requires fetch(link).Fetched? && fetch(link).received == MAGIC + header + Frame(TALB, album) + Frame(TIT2, title)
    requires fuel >= ByteCount
    ensures Probe(link, fetch, decode, fuel) == Skip
  {
    var received := fetch(link).received;
    var n := ByteCount - |received|;
    assert received[..|received|] == received;
    assert ReadBuffer(received) == received + seq(n, _ => 0);
    MissingArtistGivesNull(header, album, title, n, decode, fuel);
  }

  /**
   * `DownloadID3`, one link after another: probe, read 1024 bytes, parse,
   * filter. The target count is accepted and not used, as in the source.
   */
  method DownloadID3(links: seq<string>, targetCount: int, fetch: string -> Response, decode: seq<Byte> -> string, fuel: nat)
    returns (r: Download)
    ensures r == Downloaded(links, fetch, decode, fuel)
  {
    var tracks: seq<Track> := [];
    for n := 0 to |links|
      invariant Downloaded(links[..n], fetch, decode, fuel) == Collected(tracks)
    {
      assert links[..n + 1][..n] == links[..n];
      var response := fetch(links[n]);
      if response.Unreachable? || !Admitted(response.contentLength) {
        continue;
      }
      var buffer := ReadBuffer(response.received);
      var parsed := ParseID3(buffer, decode, fuel);
      if parsed.OutOfFuel? {
        assert Probe(links[n], fetch, decode, fuel).Stuck?;
        DivergedIffStuck(links, fetch, decode, fuel);
        return Diverged;
      }
      if parsed.Parsed? && !StartsWith(parsed.track.title.value, "??") {
        tracks := tracks + [parsed.track.(link := Some(links[n]))];
      }
    }
    assert links[..|links|] == links;
    return Collected(tracks);
  }

  /** A tag whose title cleans to a string starting with "??" is dropped although it parses. */
  lemma QuestionTitleDropped(link: string, fetch: string -> Response, decode: seq<Byte> -> string, fuel: nat)
    requires fetch(link).Fetched? && Admitted(fetch(link).contentLength)
    requires var p := ParseSpec(ReadBuffer(fetch(link).received), decode, fuel);
      p.Parsed? && StartsWith(p.track.title.value, "??")
    ensures Probe(link, fetch, decode, fuel) == Skip
  {
  }
}
