/**
 * The catalogue verbs of `DiscordPlayer.processCommand`, and `loadFile`
 * once the server has answered. A command is the message text after the
 * mention or marker; `words` is that text split on single spaces, so empty
 * words are kept.
 *
 * A reply is the text handed to `respond`. A JVM exception (a missing word,
 * a word that is not a number, a missing header) is `crashed`: the handler
 * stops there, and a composite command runs none of its later parts.
 */
module Commands {
  import opened Options
  import opened Text
  import opened Records
  import opened Collections
  import opened Library
  import Download

  // ---------------------------------------------------------------------
  // Arguments

  /** `words[i].toInt()`: `None` when the word is missing or not a number. */
  function IntArg(words: seq<string>, i: nat): Option<int> {
    if i < |words| then ParseInt(words[i]) else None
  }

  /** `words.map(String::toInt)`: `None` when any word is not a number. */
  function IntArgs(words: seq<string>): (r: Option<seq<int>>)
    ensures r.Some? <==> forall k :: 0 <= k < |words| ==> ParseInt(words[k]).Some?
    ensures r.Some? ==> |r.value| == |words| && forall k :: 0 <= k < |words| ==> ParseInt(words[k]) == Some(r.value[k])
  {
    if words == [] then Some([])
    else
      match ParseInt(words[0])
      case None => None
      case Some(x) =>
        match IntArgs(words[1..])
        case None =>
          assert !ParseInt(words[1..][0]).Some? || exists k :: 0 <= k < |words[1..]| && ParseInt(words[1..][k]).None?;
          None
        case Some(xs) => Some([x] + xs)
  }

  /** `commandText.substringAfter(word).trim()`: the text after the first occurrence of `word`. */
  function TextAfter(text: string, word: string): string {
    Trim(SubstringAfter(text, word))
  }

  // ---------------------------------------------------------------------
  // find

  /** `key in it.toString().toLowerCase()` */
  predicate Matches(m: MusicFile, key: string) {
    Contains(Lower(Display(m)), key)
  }

  /** The tracks `find` reports. */
  function MatchSet(files: set<MusicFile>, key: string): set<MusicFile> {
    set m | m in files && Matches(m, key)
  }

  /** `filter`, over the order the set is iterated in. */
  function Filter(order: seq<MusicFile>, key: string): (r: seq<MusicFile>)
    ensures forall m :: m in r <==> m in order && Matches(m, key)
  {
    if order == [] then []
    else (if Matches(order[0], key) then [order[0]] else []) + Filter(order[1..], key)
  }

  lemma {:induction false} FilterDistinct(order: seq<MusicFile>, key: string)
    requires Distinct(order)
    ensures Distinct(Filter(order, key))
  {
    if order != [] {
      DistinctTail(order);
      FilterDistinct(order[1..], key);
      if Matches(order[0], key) {
        DistinctCons(order[0], Filter(order[1..], key));
      } else {
        assert Filter(order, key) == Filter(order[1..], key);
      }
    }
  }

  /**
   * Filtering an iteration order of the catalogue lists each matching
   * track once, so `found.size` counts all the matches.
   */
  lemma FilterIsOrder(order: seq<MusicFile>, files: set<MusicFile>, key: string)
    requires IsOrderOf(order, files)
    ensures IsOrderOf(Filter(order, key), MatchSet(files, key))
  {
    OrderDistinct(order, files);
    FilterDistinct(order, key);
    DistinctOrder(Filter(order, key));
    assert Elements(Filter(order, key)) == MatchSet(files, key);
  }

  /** The blank check is commented out: an empty key matches every track. */
  lemma {:induction false} EmptyKeyMatchesAll(order: seq<MusicFile>)
    ensures Filter(order, "") == order
  {
    if order != [] {
      assert OccursAt(Lower(Display(order[0])), "", 0);
      EmptyKeyMatchesAll(order[1..]);
      assert order == [order[0]] + order[1..];
    }
  }

  /** The key `find` searches for. */
  function FindKey(text: string, verb: string): string {
    Lower(TextAfter(text, verb))
  }

  function Displays(ms: seq<MusicFile>): (r: seq<string>)
    ensures |r| == |ms| && forall k :: 0 <= k < |ms| ==> r[k] == Display(ms[k])
  {
    seq(|ms|, k requires 0 <= k < |ms| => Display(ms[k]))
  }

  const FIND_LIMIT: int := 1800

  const TOO_MANY: string := "\n Found so much. Can't show them all..."

  const NOT_FOUND_REPLY: string := "No matching tracks found"

  /** Every line followed by a newline. */
  function AllLines(lines: seq<string>): string {
    if lines == [] then [] else lines[0] + "\n" + AllLines(lines[1..])
  }

  /**
   * The `forEach` of `find`, from the text `acc` gathered so far: the text
   * at the end, and whether some line was left out. A line goes in when its
   * length plus the text's is under the limit, both counted in UTF-16 code
   * units as `String.length` counts them; a later, shorter line can still go
   * in after one was left out.
   */
  function Shown(acc: string, lines: seq<string>): (string, bool)
    decreases |lines|
  {
    if lines == [] then (acc, false)
    else if Utf16Length(lines[0]) + Utf16Length(acc) < FIND_LIMIT then Shown(acc + lines[0] + "\n", lines[1..])
    else (Shown(acc, lines[1..]).0, true)
  }

  /** The text shown never goes over the limit, in UTF-16 code units and so in characters. */
  lemma {:induction false} ShownBounded(acc: string, lines: seq<string>)
    requires Utf16Length(acc) <= FIND_LIMIT
    ensures Utf16Length(Shown(acc, lines).0) <= FIND_LIMIT
    ensures |Shown(acc, lines).0| <= FIND_LIMIT
    decreases |lines|
  {
    if lines != [] {
      if Utf16Length(lines[0]) + Utf16Length(acc) < FIND_LIMIT {
        Utf16LengthAppend(acc, lines[0]);
        Utf16LengthAppend(acc + lines[0], "\n");
        ShownBounded(acc + lines[0] + "\n", lines[1..]);
      } else {
        ShownBounded(acc, lines[1..]);
      }
    }
  }

  lemma {:induction false} ShownLength(acc: string, lines: seq<string>)
    ensures !Shown(acc, lines).1 ==> Shown(acc, lines).0 == acc + AllLines(lines)
    ensures Shown(acc, lines).1 ==> |Shown(acc, lines).0| < |acc| + |AllLines(lines)|
    ensures |Shown(acc, lines).0| <= |acc| + |AllLines(lines)|
    decreases |lines|
  {
    if lines != [] {
      var next := acc + lines[0] + "\n";
      if Utf16Length(lines[0]) + Utf16Length(acc) < FIND_LIMIT {
        ShownLength(next, lines[1..]);
        assert next + AllLines(lines[1..]) == acc + AllLines(lines);
      } else {
        ShownLength(acc, lines[1..]);
      }
    }
  }

  /** Something was left out exactly when the text is not every line in turn. */
  lemma ShownAllUnlessSkipped(lines: seq<string>)
    ensures Shown("", lines).1 <==> Shown("", lines).0 != AllLines(lines)
  {
    ShownLength("", lines);
    assert "" + AllLines(lines) == AllLines(lines);
  }

  /**
   * A line of 900 or more characters above U+FFFF is 1800 code units or
   * more, so it is left out even though it has fewer than 1800 characters.
   */
  lemma WideLineLeftOut(line: string)
    requires |line| >= 900 && forall i :: 0 <= i < |line| ==> IsSupplementary(line[i])
    ensures Shown("", [line]) == ("", true)
  {
    Utf16LengthSupplementary(line);
  }

  /** A line that does not fit is passed over, and the next one that fits is shown. */
  lemma SkipThenShow(acc: string, long: string, short: string, rest: seq<string>)
    requires Utf16Length(long) + Utf16Length(acc) >= FIND_LIMIT && Utf16Length(short) + Utf16Length(acc) < FIND_LIMIT
    ensures Shown(acc, [long, short] + rest) == (Shown(acc + short + "\n", rest).0, true)
  {
    var lines, tail := [long, short] + rest, [short] + rest;
    assert lines[0] == long && lines[1..] == tail;
    assert Shown(acc, lines) == (Shown(acc, tail).0, true);
    assert tail[0] == short && tail[1..] == rest;
  }

  /** The loop of `find` that gathers the lines to show and the warning. */
  method ShowMatches(lines: seq<string>) returns (result: string, extra: string)
    ensures (result, extra == TOO_MANY) == Shown("", lines)
    ensures extra == "" || extra == TOO_MANY
  {
    result := "";
    extra := "";
    var i := 0;
    while i < |lines|
      invariant 0 <= i <= |lines|
      invariant extra == "" || extra == TOO_MANY
      invariant Shown(result, lines[i..]).0 == Shown("", lines).0
      invariant Shown("", lines).1 <==> extra == TOO_MANY || Shown(result, lines[i..]).1
    {
      assert lines[i..][1..] == lines[i + 1..];
      if Utf16Length(lines[i]) + Utf16Length(result) < FIND_LIMIT {
        result := result + lines[i] + "\n";
      } else {
        extra := TOO_MANY;
      }
      i := i + 1;
    }
  }

  /** `"${found.size} match${es} found:\n```\n$result```$extra"` */
  function FindReply(count: nat, shown: (string, bool)): string {
    NatToString(count) + " match" + (if count > 1 then "es" else "") + " found:\n```\n" + shown.0 + "```"
    + (if shown.1 then TOO_MANY else "")
  }

  /**
   * The reply says "matches" exactly when there is more than one match, and
   * ends with the warning exactly when a match was left out.
   */
  lemma FindReplyShape(count: nat, shown: (string, bool))
    ensures var reply := FindReply(count, shown);
      var n := |NatToString(count)|;
      && reply[..n] == NatToString(count)
      && (reply[n + 6] == 'e' <==> count > 1)
      && (shown.1 <==> reply[|reply| - 3..] == "...")
  {
    var reply := FindReply(count, shown);
    var digits := NatToString(count);
    var plural := if count > 1 then "es" else "";
    var extra := if shown.1 then TOO_MANY else "";
    var front := digits + " match" + plural + " found:\n```\n" + shown.0 + "```";
    assert reply == front + extra;
    assert front[..|digits|] == digits;
    assert front[|digits| + 6] == (if count > 1 then 'e' else ' ');
    if shown.1 {
      assert reply[|reply| - 3..] == TOO_MANY[|TOO_MANY| - 3..];
    } else {
      assert reply == front;
      assert reply[|reply| - 1] == '`';
    }
  }

  // ---------------------------------------------------------------------
  // list and playlists

  const NO_PLAYLISTS: string := "No playlists available"

  function TrackIndex(m: MusicFile): int { m.index }

  function PlaylistIndex(p: Playlist): int { p.index }

  /**
   * `sortedBy(key).joinToString("\n")`, or the fixed text when that is
   * empty; `list` uses the same text as `playlists`.
   */
  function SortedListing<T>(order: seq<T>, key: T -> int, show: T -> string): string {
    var sorted := SortBy(order, key);
    var text := Join(seq(|sorted|, k requires 0 <= k < |sorted| => show(sorted[k])), '\n');
    if text == [] then NO_PLAYLISTS else text
  }

  /**
   * When no two entries share a key, the listing does not depend on the
   * order the set was iterated in.
   */
  lemma SortedListingDeterministic<T>(a: seq<T>, b: seq<T>, s: set<T>, key: T -> int, show: T -> string)
    requires IsOrderOf(a, s) && IsOrderOf(b, s)
    requires forall x, y | x in s && y in s && key(x) == key(y) :: x == y
    ensures SortedListing(a, key, show) == SortedListing(b, key, show)
  {
    OrdersSameMultiset(a, b, s);
    var sa := SortBy(a, key);
    var sb := SortBy(b, key);
    forall x, y | x in sa && y in sa && key(x) == key(y)
      ensures x == y
    {
      assert x in multiset(sa) && y in multiset(sa);
      assert x in multiset(a) && y in multiset(a);
    }
    SortedUnique(sa, sb, key);
  }

  lemma {:induction false} JoinHead(pieces: seq<string>, d: char)
    requires pieces != [] && pieces[0] != []
    ensures Join(pieces, d) != [] && Join(pieces, d)[0] == pieces[0][0]
  {
  }

  /** The fixed text is the reply exactly when there is nothing to list. */
  lemma SortedListingEmpty<T>(order: seq<T>, key: T -> int, show: T -> string)
    requires forall x: T :: |show(x)| > 0 && show(x)[0] != 'N'
    ensures SortedListing(order, key, show) == NO_PLAYLISTS <==> order == []
  {
    var sorted := SortBy(order, key);
    assert |sorted| == |multiset(sorted)| == |multiset(order)| == |order|;
    var shown := seq(|sorted|, k requires 0 <= k < |sorted| => show(sorted[k]));
    if order != [] {
      assert sorted[0] in multiset(order);
      var i :| 0 <= i < |order| && order[i] == sorted[0];
      assert |show(order[i])| > 0;
      assert shown[0] == show(order[i]);
      JoinHead(shown, '\n');
      assert Join(shown, '\n')[0] != NO_PLAYLISTS[0];
    }
  }

  /** A display starts with the index, so never with `N`. */
  lemma DisplayHead(m: MusicFile)
    ensures Display(m) != [] && Display(m)[0] != 'N'
  {
    var digits := IntToString(m.index);
    assert Display(m)[0] == digits[0];
    if m.index < 0 {
      assert digits[0] == '-';
    } else {
      assert IsAsciiDigit(digits[0]);
    }
  }

  lemma PlaylistDisplayHead(p: Playlist)
    ensures PlaylistDisplay(p) != [] && PlaylistDisplay(p)[0] != 'N'
  {
    var digits := IntToString(p.index);
    assert PlaylistDisplay(p)[0] == digits[0];
    if p.index < 0 {
      assert digits[0] == '-';
    } else {
      assert IsAsciiDigit(digits[0]);
    }
  }

  /** The `list` reply: "No playlists available" exactly when there are no tracks. */
  lemma ListEmpty(order: seq<MusicFile>)
    ensures SortedListing(order, TrackIndex, Display) == NO_PLAYLISTS <==> order == []
  {
    forall m: MusicFile
      ensures Display(m) != [] && Display(m)[0] != 'N'
    {
      DisplayHead(m);
    }
    SortedListingEmpty(order, TrackIndex, Display);
  }

  /** The `playlists` reply: the fixed text exactly when there are no playlists. */
  lemma PlaylistsEmpty(order: seq<Playlist>)
    ensures SortedListing(order, PlaylistIndex, PlaylistDisplay) == NO_PLAYLISTS <==> order == []
  {
    forall p: Playlist
      ensures PlaylistDisplay(p) != [] && PlaylistDisplay(p)[0] != 'N'
    {
      PlaylistDisplayHead(p);
    }
    SortedListingEmpty(order, PlaylistIndex, PlaylistDisplay);
  }

  // ---------------------------------------------------------------------
  // Editing a track

  /** Which field `file`/`move`/`rename`, `artist` and `name` replace. */
  datatype Field = FilePath | Artist | Title

  /** `MusicFile(it.index, ...)` with one field replaced by `value`. */
  function Retagged(m: MusicFile, field: Field, value: string): MusicFile {
    match field
    case FilePath => MusicFile(m.index, m.artist, m.name, value)
    case Artist => MusicFile(m.index, Some(value), m.name, m.path)
    case Title => MusicFile(m.index, m.artist, Some(value), m.path)
  }

  /**
   * Replacing a record keeps the allocator invariant, and leaves exactly one
   * record with its index, the new one, which differs from the old one in
   * the named field only.
   */
  lemma RetagKeepsAllocator(files: set<MusicFile>, next: int, m: MusicFile, field: Field, value: string)
    requires AllocatorOk(files, next) && m in files
    ensures var files' := files - {m} + {Retagged(m, field, value)};
      && AllocatorOk(files', next)
      && Indices(files') == Indices(files)
      && (forall g :: g in files' && g.index == m.index <==> g == Retagged(m, field, value))
    ensures var r := Retagged(m, field, value);
      && r.index == m.index
      && (field != FilePath ==> r.path == m.path)
      && (field != Artist ==> r.artist == m.artist)
      && (field != Title ==> r.name == m.name)
  {
    var files' := files - {m} + {Retagged(m, field, value)};
    assert Indices(files') == Indices(files - {m}) + {m.index};
    assert Indices(files) == Indices(files - {m}) + {m.index};
  }

  // ---------------------------------------------------------------------
  // Playlists

  /** `playlists.forEach { p -> p.tracks -= index }` */
  function Cascade(lists: map<int, Playlist>, index: int): (r: map<int, Playlist>)
    ensures r.Keys == lists.Keys
    ensures forall k :: k in r ==> r[k].index == lists[k].index && r[k].name == lists[k].name && index !in r[k].tracks
    ensures forall k, t :: k in r && t != index ==> (t in r[k].tracks <==> t in lists[k].tracks)
  {
    map k | k in lists :: lists[k].(tracks := lists[k].tracks - {index})
  }

  /** `tracks += args` or `tracks -= args` */
  function Edited(tracks: set<int>, args: seq<int>, add: bool): (r: set<int>)
    ensures add ==> forall t :: t in r <==> t in tracks || t in args
    ensures !add ==> forall t :: t in r <==> t in tracks && t !in args
  {
    if add then tracks + Elements(args) else tracks - Elements(args)
  }

  /** Removing what was just added leaves the tracks that were not named. */
  lemma AddThenRemove(tracks: set<int>, args: seq<int>)
    ensures Edited(Edited(tracks, args, true), args, false) == tracks - Elements(args)
  {
  }

  /** `lists.any { it.name == name }` */
  predicate NameTaken(lists: map<int, Playlist>, name: string) {
    exists k | k in lists :: lists[k].name == name
  }

  /** The indices `lists.associateBy { it.index }` is keyed by. */
  function PlaylistIndices(lists: map<int, Playlist>): set<int> {
    set k | k in lists :: lists[k].index
  }

  /**
   * The counter after `create_playlist`. The size compared is the one
   * before the new playlist went in, and the scan is over the old lists.
   */
  function NextAfterCreate(lists: map<int, Playlist>, next: int): int {
    if |lists| == next then next + 1 else ScanFrom(PlaylistIndices(lists), next + 1)
  }

  /**
   * As no command deletes a playlist, the indices stay `1..next-1`: the size
   * test never holds, the scan stops at once, and the counter moves on by
   * one; the new playlist keeps the invariant.
   */
  lemma CreateAdvancesByOne(lists: map<int, Playlist>, next: int, name: string)
    requires PlaylistsOk(lists, next)
    ensures NextAfterCreate(lists, next) == next + 1
    ensures PlaylistsOk(lists[next := NewPlaylist(next, name)], next + 1)
  {
    assert lists.Keys == Below(next);
    assert |lists| == |lists.Keys| == next - 1;
    assert PlaylistIndices(lists) == lists.Keys;
    assert next + 1 !in PlaylistIndices(lists);
    NewPlaylistKeepsOk(lists, next, name);
  }

  lemma NewPlaylistKeepsOk(lists: map<int, Playlist>, next: int, name: string)
    requires PlaylistsOk(lists, next)
    ensures PlaylistsOk(lists[next := NewPlaylist(next, name)], next + 1)
  {
    var grown := lists[next := NewPlaylist(next, name)];
    forall k
      ensures k in grown <==> 1 <= k < next + 1
    {
    }
    forall k | k in grown
      ensures grown[k].index == k
    {
      if k != next {
        assert grown[k] == lists[k];
      }
    }
  }

  /** Under the invariant no two playlists share an index. */
  lemma PlaylistValuesUnique(lists: map<int, Playlist>, next: int)
    requires PlaylistsOk(lists, next)
    ensures forall x, y | x in lists.Values && y in lists.Values && PlaylistIndex(x) == PlaylistIndex(y) :: x == y
  {
    forall x, y | x in lists.Values && y in lists.Values && PlaylistIndex(x) == PlaylistIndex(y)
      ensures x == y
    {
      var kx := KeyOf(lists, x);
      var ky := KeyOf(lists, y);
    }
  }

  lemma KeyOf(lists: map<int, Playlist>, p: Playlist) returns (k: int)
    requires p in lists.Values
    ensures k in lists && lists[k] == p
  {
    if forall j | j in lists :: lists[j] != p {
      assert false;
    }
    k :| k in lists && lists[k] == p;
  }

  /** The answer gets past every gate of `loadFile`. */
  predicate Passes(answer: Download.Answer) {
    !Download.Refused(answer) && Download.IsAudio(answer) == Some(true)
    && !Download.TooLarge(answer.length, Download.MAX_LENGTH)
  }

  const PLAYLIST_EXISTS: string := "Playlist with that name already exists"

  const LEAVE_REPLY: string := "bb"

  const UNSUPPORTED_REPLY: string := "This audio format is not supported\nPlease try one of the following: wav, mp3"

  /** The verbs that act on the audio player or the network only. */
  predicate IsPlaybackVerb(w: string) {
    w in {"next", "skip", "pause", "resume", "stop", "volume", "current", "queue_now",
          "queue_clear", "queue", "queue_all", "leave_channel", "shuffle",
          "loop", "no-loop", "queue_playlist", "after_this"}
  }

  predicate IsLeaveVerb(w: string) {
    w == "leave" || w == "GTFO" || w == "gtfo"
  }

  /** The verbs `processCommand` knows. */
  predicate IsKnownVerb(w: string) {
    || IsLeaveVerb(w) || IsPlaybackVerb(w)
    || w in {"quit", "load", "load_youtube", "list", "remove", "find", "file", "move", "rename", "artist", "name",
             "create_playlist", "playlists", "playlist_add", "playlist_remove", "{"}
  }

  /** The branches of the `when` on the first word. */
  datatype Verb =
    | Leaving | Quitting | Loading | PlaybackOnly | Listing | Removing | Finding | Retagging(field: Field)
    | Creating | ListingPlaylists | Editing(add: bool) | Composite | Unknown

  /** The branch `processCommand` takes for the first word `w`. */
  function VerbOf(w: string): (v: Verb)
    ensures v == Unknown <==> !IsKnownVerb(w)
    ensures v == Leaving <==> IsLeaveVerb(w)
    ensures v == Quitting <==> w == "quit"
    ensures v == Loading <==> w == "load" || w == "load_youtube"
    ensures v == PlaybackOnly <==> IsPlaybackVerb(w)
    ensures v == Composite <==> w == "{"
  {
    if IsLeaveVerb(w) then Leaving
    else if w == "quit" then Quitting
    else if w == "load" || w == "load_youtube" then Loading
    else if IsPlaybackVerb(w) then PlaybackOnly
    else if w == "list" then Listing
    else if w == "remove" then Removing
    else if w == "find" then Finding
    else if w == "file" || w == "move" || w == "rename" then Retagging(FilePath)
    else if w == "artist" then Retagging(Artist)
    else if w == "name" then Retagging(Title)
    else if w == "create_playlist" then Creating
    else if w == "playlists" then ListingPlaylists
    else if w == "playlist_add" then Editing(true)
    else if w == "playlist_remove" then Editing(false)
    else if w == "{" then Composite
    else Unknown
  }

  /**
   * The parts of `{ a | b | ... }`: the text after its first character, up
   * to the last `}`, split on `|`, each part trimmed. Every part is shorter
   * than the command, so handling the parts in turn comes to an end.
   */
  function Pieces(text: string): (r: seq<string>)
    requires text != []
    ensures forall k :: 0 <= k < |r| ==> |r[k]| < |text|
  {
    var parts := Split(SubstringBeforeLast(text[1..], '}'), '|');
    seq(|parts|, k requires 0 <= k < |parts| => Trim(parts[k]))
  }

  /**
   * `{a|b|...}<tail>`: the parts come back trimmed, in order, when they hold
   * no `|` and no `}` and nothing after the closing brace holds a `}`.
   */
  lemma CompositeParts(parts: seq<string>, tail: string)
    requires parts != []
    requires forall k :: 0 <= k < |parts| ==> '|' !in parts[k] && '}' !in parts[k]
    requires '}' !in tail
    ensures Pieces("{" + Join(parts, '|') + "}" + tail) == seq(|parts|, k requires 0 <= k < |parts| => Trim(parts[k]))
  {
    var inner := Join(parts, '|');
    var text := "{" + inner + "}" + tail;
    BracedTail(inner, tail);
    LastAfterAppend(inner, '}', tail, "");
    SplitJoin(parts, '|');
    PiecesOf(text, parts);
  }

  lemma BracedTail(inner: string, tail: string)
    ensures ("{" + inner + "}" + tail)[1..] == inner + ['}'] + tail
  {
    assert "{" + inner + "}" + tail == ['{'] + (inner + ['}'] + tail);
  }

  /** The pieces of a command are its parts trimmed. */
  lemma PiecesOf(text: string, parts: seq<string>)
    requires text != [] && Split(SubstringBeforeLast(text[1..], '}'), '|') == parts
    ensures Pieces(text) == seq(|parts|, k requires 0 <= k < |parts| => Trim(parts[k]))
  {
  }

  /**
   * `find`, `create_playlist`: the argument is the trimmed text after the
   * verb, as the verb starts the command.
   */
  lemma ArgumentAfterVerb(verb: string, rest: string)
    ensures TextAfter(verb + rest, verb) == Trim(rest)
    ensures FindKey(verb + rest, verb) == Lower(Trim(rest))
  {
    AfterPrefix(verb, rest);
  }

  /**
   * `file`/`move`/`rename`, `artist`, `name`: the new value is the trimmed
   * text after the index word, as no verb holds a digit or a sign.
   */
  lemma RetagValue(verb: string, w: string, tail: string)
    requires verb in {"file", "move", "rename", "artist", "name"}
    requires ParseInt(w).Some?
    ensures TextAfter(verb + " " + w + tail, w) == Trim(tail)
  {
    AfterNumberWord(verb, w, tail);
  }

  // ---------------------------------------------------------------------
  // processCommand as a relation on the store's values

  /** The four persisted values of the store: tracks, playlists and both counters. */
  datatype Catalogue = Catalogue(musicList: set<MusicFile>, playlists: map<int, Playlist>, nextIndex: int, nextPLIndex: int)

  function Snapshot(db: MusicDB): Catalogue
    reads db
  {
    Catalogue(db.musicList, db.playlists, db.nextIndex, db.nextPLIndex)
  }

  /**
   * `remove <i>` from `s` to `t`: the track with index `i` goes through
   * `removeFile` and `i` leaves every playlist; a missing or non-numeric
   * word crashes, and an index no track has changes nothing.
   */
  ghost predicate RemoveStep(s: Catalogue, words: seq<string>, crashed: bool, t: Catalogue) {
    var i := IntArg(words, 1);
    && (crashed <==> i.None?)
    && (crashed || i.value !in Indices(s.musicList) ==> t == s)
    && (!crashed && i.value in Indices(s.musicList) ==>
          && (exists f :: f in s.musicList && f.index == i.value
                && (t.musicList, t.nextIndex) == RemoveSpec(s.musicList, s.nextIndex, f))
          && t.playlists == Cascade(s.playlists, i.value)
          && t.nextPLIndex == s.nextPLIndex)
  }

  /**
   * `file`/`move`/`rename`, `artist`, `name` from `s` to `t`: the record with
   * index `words[1]` is replaced by one with the same index and the text
   * after that word in the named field; nothing else changes.
   */
  ghost predicate RetagStep(s: Catalogue, text: string, words: seq<string>, field: Field, crashed: bool, t: Catalogue) {
    var i := IntArg(words, 1);
    && (crashed <==> i.None?)
    && t.playlists == s.playlists && t.nextIndex == s.nextIndex && t.nextPLIndex == s.nextPLIndex
    && (crashed || i.value !in Indices(s.musicList) ==> t == s)
    && (!crashed && i.value in Indices(s.musicList) ==>
          exists f :: f in s.musicList && f.index == i.value
            && t.musicList == s.musicList - {f} + {Retagged(f, field, TextAfter(text, words[1]))})
  }

  /**
   * `create_playlist <name>` from `s` to `t`: a name in use is refused;
   * otherwise a new empty playlist takes the counter's value and the counter
   * moves on.
   */
  ghost predicate CreateStep(s: Catalogue, name: string, reply: string, t: Catalogue) {
    && t.musicList == s.musicList && t.nextIndex == s.nextIndex
    && (NameTaken(s.playlists, name) ==> reply == PLAYLIST_EXISTS && t == s)
    && (!NameTaken(s.playlists, name) ==>
          && t.playlists == s.playlists[s.nextPLIndex := NewPlaylist(s.nextPLIndex, name)]
          && t.nextPLIndex == NextAfterCreate(s.playlists, s.nextPLIndex)
          && reply == "Playlist created: " + PlaylistDisplay(NewPlaylist(s.nextPLIndex, name)))
  }

  /**
   * `playlist_add <i> <tracks>` and `playlist_remove <i> <tracks>` from `s`
   * to `t`: an index no playlist has returns before the numbers are read;
   * otherwise the playlist's tracks gain or lose the numbers given.
   */
  ghost predicate EditStep(s: Catalogue, words: seq<string>, add: bool, crashed: bool, t: Catalogue) {
    var i := IntArg(words, 1);
    && (crashed <==> (i.None? || (i.value in s.playlists && IntArgs(words[2..]).None?)))
    && t.musicList == s.musicList && t.nextIndex == s.nextIndex && t.nextPLIndex == s.nextPLIndex
    && (crashed || i.value !in s.playlists ==> t == s)
    && (!crashed && i.value in s.playlists ==>
          t.playlists == s.playlists[i.value := s.playlists[i.value].(tracks := Edited(s.playlists[i.value].tracks, IntArgs(words[2..]).value, add))])
  }

  /**
   * `loadFile` from `s` to `t`: the playlists stay as they are, and the
   * tracks either stay as they are or gain one file as `addFile` adds it.
   */
  ghost predicate LoadStep(s: Catalogue, t: Catalogue) {
    && t.playlists == s.playlists && t.nextPLIndex == s.nextPLIndex
    && (t == s || exists path :: (t.musicList, t.nextIndex) == AddSpec(s.musicList, s.nextIndex, path))
  }

  /** The link `load_youtube <video>` downloads from. */
  const YOUTUBE_FETCH: string := "http://www.youtubeinmp3.com/fetch/?video="

  /**
   * What `processCommand(text)` may do from `s`: the replies it sends, whether
   * it crashes, and the store `t` it leaves. `find`, `list` and `playlists`
   * read the hash sets in some order, so the relation admits every order.
   * `quit` ends the process, so nothing after it runs: it counts as a crash.
   * `load` and `load_youtube` crash without a link and otherwise do what
   * `loadFile` may do, whatever the network answers.
   * The playback verbs reply or throw depending on the audio player and the
   * caller's voice channel, which are not modelled: only the store is
   * promised unchanged for them.
   */
  ghost predicate Processes(s: Catalogue, text: string, replies: seq<string>, crashed: bool, t: Catalogue)
    decreases |text|, 1, 0
  {
    var words := Split(text, ' ');
    var verb := words[0];
    match VerbOf(verb)
    case Leaving => replies == [LEAVE_REPLY] && !crashed && t == s
    case Quitting => replies == [] && crashed && t == s
    case Loading => (|words| < 2 ==> crashed && t == s) && LoadStep(s, t)
    case PlaybackOnly => t == s
    case Listing =>
      && !crashed && t == s
      && exists order :: IsOrderOf(order, s.musicList) && replies == [SortedListing(order, TrackIndex, Display)]
    case Removing => replies == [] && RemoveStep(s, words, crashed, t)
    case Finding =>
      && !crashed && t == s
      && exists found :: IsOrderOf(found, MatchSet(s.musicList, FindKey(text, verb)))
           && replies == [if found == [] then NOT_FOUND_REPLY else FindReply(|found|, Shown("", Displays(found)))]
    case Retagging(field) => replies == [] && RetagStep(s, text, words, field, crashed, t)
    case Creating => !crashed && |replies| == 1 && CreateStep(s, TextAfter(text, verb), replies[0], t)
    case ListingPlaylists =>
      && !crashed && t == s
      && exists order :: IsOrderOf(order, s.playlists.Values) && replies == [SortedListing(order, PlaylistIndex, PlaylistDisplay)]
    case Editing(add) => replies == [] && EditStep(s, words, add, crashed, t)
    case Composite => text != [] && exists outs :: RanAll(s, text, outs, replies, crashed, t)
    case Unknown => replies == ["Unknown command: " + verb] && !crashed && t == s
  }

  /**
   * The verbs that leave the store alone: an unknown verb is named back, a
   * leave verb says goodbye, `quit` ends the run, and a playback verb, crash
   * or not, changes nothing in the catalogue.
   */
  lemma ReadOnlyVerbs(s: Catalogue, text: string, replies: seq<string>, crashed: bool, t: Catalogue)
    requires Processes(s, text, replies, crashed, t)
    ensures !IsKnownVerb(Split(text, ' ')[0]) ==> replies == ["Unknown command: " + Split(text, ' ')[0]] && !crashed && t == s
    ensures IsLeaveVerb(Split(text, ' ')[0]) ==> replies == [LEAVE_REPLY] && !crashed && t == s
    ensures Split(text, ' ')[0] == "quit" ==> replies == [] && crashed && t == s
    ensures IsPlaybackVerb(Split(text, ' ')[0]) ==> t == s
  {
  }

  /** What one part of a composite did: its replies, whether it crashed, and the store it left. */
  datatype Outcome = Outcome(replies: seq<string>, crashed: bool, after: Catalogue)

  /** The store the part after the first `k` outcomes starts from. */
  function StoreAt(s: Catalogue, outs: seq<Outcome>, k: nat): Catalogue
    requires k <= |outs|
  {
    if k == 0 then s else outs[k - 1].after
  }

  /** The replies of the parts, in order. */
  function AllReplies(outs: seq<Outcome>): seq<string> {
    if outs == [] then [] else AllReplies(outs[..|outs| - 1]) + outs[|outs| - 1].replies
  }

  /** The last part that ran crashed. */
  predicate EndsInCrash(outs: seq<Outcome>) {
    outs != [] && outs[|outs| - 1].crashed
  }

  /**
   * `outs` are what the first `|outs|` parts of the composite `text` did, in
   * turn from `s`, each from the store the one before it left; none but the
   * last crashed.
   */
  ghost predicate Ran(s: Catalogue, text: string, outs: seq<Outcome>)
    requires text != []
    decreases |text|, 0, |outs|
  {
    && |outs| <= |Pieces(text)|
    && (outs != [] ==>
          var k := |outs| - 1;
          && Ran(s, text, outs[..k]) && !EndsInCrash(outs[..k])
          && Processes(StoreAt(s, outs, k), Pieces(text)[k], outs[k].replies, outs[k].crashed, outs[k].after))
  }

  /** The whole composite: every part ran, unless one crashed, and the run stopped there. */
  ghost predicate RanAll(s: Catalogue, text: string, outs: seq<Outcome>, replies: seq<string>, crashed: bool, t: Catalogue)
    requires text != []
    decreases |text|, 0, |outs| + 1
  {
    && Ran(s, text, outs)
    && (|outs| < |Pieces(text)| ==> EndsInCrash(outs))
    && replies == AllReplies(outs) && crashed == EndsInCrash(outs) && t == StoreAt(s, outs, |outs|)
  }

  /**
   * Running one more part: it starts from the store the run so far left,
   * and its replies follow the run's.
   */
  lemma RanExtends(s: Catalogue, text: string, outs: seq<Outcome>, o: Outcome)
    requires text != [] && |outs| < |Pieces(text)|
    requires Ran(s, text, outs) && !EndsInCrash(outs)
    requires Processes(StoreAt(s, outs, |outs|), Pieces(text)[|outs|], o.replies, o.crashed, o.after)
    ensures Ran(s, text, outs + [o])
    ensures AllReplies(outs + [o]) == AllReplies(outs) + o.replies
    ensures StoreAt(s, outs + [o], |outs| + 1) == o.after
  {
    AppendOutcome(s, outs, o);
    var outs' := outs + [o];
    assert outs'[..|outs|] == outs && outs'[|outs|] == o;
  }

  /** One more outcome leaves the stores before it alone and adds its replies at the end. */
  lemma AppendOutcome(s: Catalogue, outs: seq<Outcome>, o: Outcome)
    ensures AllReplies(outs + [o]) == AllReplies(outs) + o.replies
    ensures StoreAt(s, outs + [o], |outs| + 1) == o.after
    ensures forall k :: 0 <= k <= |outs| ==> StoreAt(s, outs + [o], k) == StoreAt(s, outs, k)
    ensures forall k :: 0 <= k < |outs| ==> (outs + [o])[k] == outs[k]
  {
    assert (outs + [o])[..|outs|] == outs;
  }

  /** The store's invariant on its values, as `MusicDB.Valid` states it on the fields. */
  ghost predicate CatalogueOk(c: Catalogue) {
    AllocatorOk(c.musicList, c.nextIndex) && PlaylistsOk(c.playlists, c.nextPLIndex)
  }

  /**
   * Every command keeps the invariant, whatever it replies and wherever it
   * crashes: a crash never leaves the store half-updated.
   */
  lemma {:induction false} ProcessesKeepsOk(s: Catalogue, text: string, replies: seq<string>, crashed: bool, t: Catalogue)
    requires CatalogueOk(s) && Processes(s, text, replies, crashed, t)
    ensures CatalogueOk(t)
    decreases |text|, 1, 0
  {
    var words := Split(text, ' ');
    match VerbOf(words[0])
    case Removing => RemoveKeepsOk(s, words, crashed, t);
    case Retagging(field) => RetagKeepsOk(s, text, words, field, crashed, t);
    case Creating => CreateKeepsOk(s, TextAfter(text, words[0]), replies[0], t);
    case Loading => LoadKeepsOk(s, t);
    case Composite =>
      var outs := CompositeElim(s, text, replies, crashed, t);
      RanKeepsOk(s, text, outs);
    case _ =>
  }

  lemma RemoveKeepsOk(s: Catalogue, words: seq<string>, crashed: bool, t: Catalogue)
    requires CatalogueOk(s) && RemoveStep(s, words, crashed, t)
    ensures CatalogueOk(t)
  {
    var i := IntArg(words, 1);
    if !crashed && i.value in Indices(s.musicList) {
      var f :| f in s.musicList && f.index == i.value
        && (t.musicList, t.nextIndex) == RemoveSpec(s.musicList, s.nextIndex, f);
      RemoveKeepsAllocator(s.musicList, s.nextIndex, f);
    }
  }

  lemma RetagKeepsOk(s: Catalogue, text: string, words: seq<string>, field: Field, crashed: bool, t: Catalogue)
    requires CatalogueOk(s) && RetagStep(s, text, words, field, crashed, t)
    ensures CatalogueOk(t)
  {
    var i := IntArg(words, 1);
    if !crashed && i.value in Indices(s.musicList) {
      var f :| f in s.musicList && f.index == i.value
        && t.musicList == s.musicList - {f} + {Retagged(f, field, TextAfter(text, words[1]))};
      RetagKeepsAllocator(s.musicList, s.nextIndex, f, field, TextAfter(text, words[1]));
    }
  }

  lemma LoadKeepsOk(s: Catalogue, t: Catalogue)
    requires CatalogueOk(s) && LoadStep(s, t)
    ensures CatalogueOk(t)
  {
    if t != s {
      var path :| (t.musicList, t.nextIndex) == AddSpec(s.musicList, s.nextIndex, path);
      AddKeepsAllocator(s.musicList, s.nextIndex, path);
    }
  }

  lemma CreateKeepsOk(s: Catalogue, name: string, reply: string, t: Catalogue)
    requires CatalogueOk(s) && CreateStep(s, name, reply, t)
    ensures CatalogueOk(t)
  {
    if !NameTaken(s.playlists, name) {
      CreateAdvancesByOne(s.playlists, s.nextPLIndex, name);
    }
  }

  /** Each part of a composite starts from a store that keeps the invariant. */
  lemma {:induction false} RanKeepsOk(s: Catalogue, text: string, outs: seq<Outcome>)
    requires text != [] && CatalogueOk(s) && Ran(s, text, outs)
    ensures CatalogueOk(StoreAt(s, outs, |outs|))
    decreases |text|, 0, |outs|
  {
    if outs != [] {
      var k := |outs| - 1;
      var before, last := StoreAt(s, outs, k), outs[k];
      assert before == StoreAt(s, outs[..k], k) && StoreAt(s, outs, |outs|) == last.after;
      RanKeepsOk(s, text, outs[..k]);
      ProcessesKeepsOk(before, Pieces(text)[k], last.replies, last.crashed, last.after);
    }
  }

  /** A composite does what its parts ran through do. */
  lemma CompositeIntro(s: Catalogue, text: string, outs: seq<Outcome>, replies: seq<string>, crashed: bool, t: Catalogue)
    requires Split(text, ' ')[0] == "{" && text != []
    requires RanAll(s, text, outs, replies, crashed, t)
    ensures Processes(s, text, replies, crashed, t)
  {
  }

  /** What a composite does, its parts ran through. */
  lemma CompositeElim(s: Catalogue, text: string, replies: seq<string>, crashed: bool, t: Catalogue) returns (outs: seq<Outcome>)
    requires Split(text, ' ')[0] == "{" && text != []
    requires Processes(s, text, replies, crashed, t)
    ensures RanAll(s, text, outs, replies, crashed, t)
  {
    outs :| RanAll(s, text, outs, replies, crashed, t);
  }

  /** The first part alone. */
  lemma RanFirst(s: Catalogue, text: string, o: Outcome)
    requires text != [] && Pieces(text) != []
    requires Processes(s, Pieces(text)[0], o.replies, o.crashed, o.after)
    ensures Ran(s, text, [o]) && AllReplies([o]) == o.replies && StoreAt(s, [o], 1) == o.after
  {
    AppendOutcome(s, [], o);
    assert [] + [o] == [o];
    assert [o][..0] == [] && [o][0] == o && StoreAt(s, [o], 0) == s;
  }

  /** `{ a | ... }` whose first part crashes crashes with that part's replies and store. */
  lemma FirstCrashStops(s: Catalogue, text: string, replies: seq<string>, t: Catalogue)
    requires Split(text, ' ')[0] == "{" && text != [] && Pieces(text) != []
    requires Processes(s, Pieces(text)[0], replies, true, t)
    ensures Processes(s, text, replies, true, t)
  {
    RanFirst(s, text, Outcome(replies, true, t));
    CompositeIntro(s, text, [Outcome(replies, true, t)], replies, true, t);
  }

  /** `{ a }` with one part does exactly what `a` does, and nothing else. */
  lemma OnePieceComposite(s: Catalogue, text: string, replies: seq<string>, crashed: bool, t: Catalogue)
    requires Split(text, ' ')[0] == "{" && text != [] && |Pieces(text)| == 1
    ensures Processes(s, text, replies, crashed, t) <==> Processes(s, Pieces(text)[0], replies, crashed, t)
  {
    if Processes(s, Pieces(text)[0], replies, crashed, t) {
      RanFirst(s, text, Outcome(replies, crashed, t));
      CompositeIntro(s, text, [Outcome(replies, crashed, t)], replies, crashed, t);
    }
    if Processes(s, text, replies, crashed, t) {
      var outs := CompositeElim(s, text, replies, crashed, t);
      OnlyPart(s, text, outs);
    }
  }

  /** A run through a one-part composite is that part's outcome. */
  lemma OnlyPart(s: Catalogue, text: string, outs: seq<Outcome>)
    requires text != [] && |Pieces(text)| == 1
    requires Ran(s, text, outs) && |outs| == 1
    ensures Processes(s, Pieces(text)[0], outs[0].replies, outs[0].crashed, outs[0].after)
    ensures AllReplies(outs) == outs[0].replies && StoreAt(s, outs, 1) == outs[0].after
  {
    SingleOutcome(s, outs);
  }

  lemma SingleOutcome(s: Catalogue, outs: seq<Outcome>)
    requires |outs| == 1
    ensures AllReplies(outs) == outs[0].replies && StoreAt(s, outs, 0) == s && StoreAt(s, outs, 1) == outs[0].after
  {
    assert outs[..0] == [];
  }

  /**
   * `{ a | b }`: `b` runs on the store `a` leaves when `a` does not crash,
   * and the replies are `a`'s followed by `b`'s.
   */
  lemma TwoPieceComposite(s: Catalogue, text: string, r1: seq<string>, m: Catalogue, r2: seq<string>, crashed: bool, t: Catalogue)
    requires Split(text, ' ')[0] == "{" && text != [] && |Pieces(text)| == 2
    requires Processes(s, Pieces(text)[0], r1, false, m)
    requires Processes(m, Pieces(text)[1], r2, crashed, t)
    ensures Processes(s, text, r1 + r2, crashed, t)
  {
    var first, second := Outcome(r1, false, m), Outcome(r2, crashed, t);
    RanFirst(s, text, first);
    RanExtends(s, text, [first], second);
    CompositeIntro(s, text, [first] + [second], r1 + r2, crashed, t);
  }

  /**
   * What opening a link gives: the connection's answer, the names already in
   * the music folder, and whether the audio system can read the file.
   */
  datatype Fetched = Fetched(answer: Download.Answer, existing: set<string>, decodable: bool)

  class DiscordPlayer {
    /** The catalogue: `musicList`, `playlists` and the two counters. */
    const db: MusicDB

    constructor (db: MusicDB)
      ensures this.db == db
    {
      this.db := db;
    }

    ghost predicate Valid()
      reads db
    {
      db.Valid()
    }

    /**
     * `remove <i>`: the track with index `i` goes through `removeFile`, and
     * `i` leaves every playlist. An index no track has changes nothing.
     */
    method Remove(words: seq<string>) returns (crashed: bool)
      modifies db
      ensures RemoveStep(old(Snapshot(db)), words, crashed, Snapshot(db))
      ensures old(db.Valid()) ==> db.Valid()
      ensures old(db.Valid()) && !crashed ==> IntArg(words, 1).value !in Indices(db.musicList)
    {
      var i := IntArg(words, 1);
      if i.None? {
        return true;
      }
      crashed := false;
      var found := db.FindIndex(i.value);
      if found.Some? {
        ghost var before := db.musicList;
        db.RemoveFile(found.value);
        if old(db.Valid()) {
          assert Indices(db.musicList) == Indices(before) - {i.value};
        }
        RemoveFromPlaylists(i.value);
      }
    }

    /** The loop over the playlists that takes `index` out of each. */
    method RemoveFromPlaylists(index: int)
      modifies db
      ensures db.playlists == Cascade(old(db.playlists), index)
      ensures db.musicList == old(db.musicList) && db.nextIndex == old(db.nextIndex) && db.nextPLIndex == old(db.nextPLIndex)
      ensures old(db.Valid()) ==> db.Valid()
    {
      var keys := db.playlists.Keys;
      var rest := keys;
      while rest != {}
        invariant rest <= keys && db.playlists.Keys == keys
        invariant forall k :: k in keys - rest ==> db.playlists[k] == Cascade(old(db.playlists), index)[k]
        invariant forall k :: k in rest ==> db.playlists[k] == old(db.playlists)[k]
        invariant db.musicList == old(db.musicList) && db.nextIndex == old(db.nextIndex) && db.nextPLIndex == old(db.nextPLIndex)
        decreases |rest|
      {
        ghost var someKey := Pick(rest);
        var k :| k in rest;
        var p := db.playlists[k];
        db.playlists := db.playlists[k := p.(tracks := p.tracks - {index})];
        rest := rest - {k};
      }
      assert db.playlists.Keys == Cascade(old(db.playlists), index).Keys;
      assert forall k :: k in db.playlists ==> db.playlists[k] == Cascade(old(db.playlists), index)[k];
    }

    /**
     * `file`/`move`/`rename`, `artist` and `name`: the record with index
     * `words[1]` is replaced by one with the same index and the text after
     * that word in the named field. An index no track has changes nothing.
     */
    method Retag(text: string, words: seq<string>, field: Field) returns (crashed: bool)
      modifies db
      ensures RetagStep(old(Snapshot(db)), text, words, field, crashed, Snapshot(db))
      ensures old(db.Valid()) ==> db.Valid() && Indices(db.musicList) == Indices(old(db.musicList))
    {
      if |words| < 2 {
        return true;
      }
      var value := TextAfter(text, words[1]);
      var i := ParseInt(words[1]);
      if i.None? {
        return true;
      }
      crashed := false;
      var found := db.FindIndex(i.value);
      if found.Some? {
        if old(db.Valid()) {
          RetagKeepsAllocator(db.musicList, db.nextIndex, found.value, field, value);
        }
        db.musicList := db.musicList - {found.value} + {Retagged(found.value, field, value)};
      }
    }

    /**
     * `create_playlist <name>`: a name in use is refused; otherwise a new
     * empty playlist takes the counter's value and the counter moves on.
     */
    method CreatePlaylist(name: string) returns (reply: string)
      modifies db
      ensures CreateStep(old(Snapshot(db)), name, reply, Snapshot(db))
      ensures old(db.Valid()) ==> db.Valid()
      ensures old(db.Valid()) && !NameTaken(old(db.playlists), name) ==> db.nextPLIndex == old(db.nextPLIndex) + 1
    {
      var lists := db.playlists;
      if NameTaken(lists, name) {
        return PLAYLIST_EXISTS;
      }
      var created := NewPlaylist(db.nextPLIndex, name);
      db.playlists := db.playlists[db.nextPLIndex := created];
      reply := "Playlist created: " + PlaylistDisplay(created);
      if old(db.Valid()) {
        CreateAdvancesByOne(lists, db.nextPLIndex, name);
      }
      if |lists| == db.nextPLIndex {
        db.nextPLIndex := db.nextPLIndex + 1;
      } else {
        db.nextPLIndex := Scan(PlaylistIndices(lists), db.nextPLIndex + 1);
      }
    }

    /**
     * `playlist_add <i> <tracks>` and `playlist_remove <i> <tracks>`: the
     * playlist's tracks gain or lose the numbers given. An index no playlist
     * has returns before the numbers are read.
     */
    method EditPlaylist(words: seq<string>, add: bool) returns (crashed: bool)
      modifies db
      ensures EditStep(old(Snapshot(db)), words, add, crashed, Snapshot(db))
      ensures old(db.Valid()) ==> db.Valid()
    {
      var i := IntArg(words, 1);
      if i.None? {
        return true;
      }
      if i.value !in db.playlists {
        return false;
      }
      var args := IntArgs(words[2..]);
      if args.None? {
        return true;
      }
      crashed := false;
      var p := db.playlists[i.value];
      db.playlists := db.playlists[i.value := p.(tracks := Edited(p.tracks, args.value, add))];
    }

    /**
     * `find <text>`: every track whose lower-cased display contains the
     * lower-cased, trimmed text, counted in full and shown up to the limit.
     */
    method Find(text: string, verb: string) returns (reply: string, found: seq<MusicFile>)
      ensures IsOrderOf(found, MatchSet(db.musicList, FindKey(text, verb)))
      ensures found == [] ==> reply == NOT_FOUND_REPLY
      ensures found != [] ==> reply == FindReply(|found|, Shown("", Displays(found)))
    {
      var key := FindKey(text, verb);
      var order := Enumerate(db.musicList);
      found := Filter(order, key);
      FilterIsOrder(order, db.musicList, key);
      if found == [] {
        return NOT_FOUND_REPLY, found;
      }
      var result, extra := ShowMatches(Displays(found));
      reply := FindReply(|found|, (result, extra == TOO_MANY));
    }

    /** `list`: the tracks in ascending index order, whatever order the set gives. */
    method List() returns (reply: string, order: seq<MusicFile>)
      ensures IsOrderOf(order, db.musicList)
      ensures reply == SortedListing(order, TrackIndex, Display)
      ensures Valid() ==> reply == SortedListing(SomeOrder(db.musicList), TrackIndex, Display)
    {
      order := Enumerate(db.musicList);
      reply := SortedListing(order, TrackIndex, Display);
      if Valid() {
        SortedListingDeterministic(order, SomeOrder(db.musicList), db.musicList, TrackIndex, Display);
      }
    }

    /** `playlists`: the playlists in ascending index order. */
    method Playlists() returns (reply: string, order: seq<Playlist>)
      ensures IsOrderOf(order, db.playlists.Values)
      ensures reply == SortedListing(order, PlaylistIndex, PlaylistDisplay)
      ensures Valid() ==> reply == SortedListing(SomeOrder(db.playlists.Values), PlaylistIndex, PlaylistDisplay)
    {
      order := Enumerate(db.playlists.Values);
      reply := SortedListing(order, PlaylistIndex, PlaylistDisplay);
      if Valid() {
        PlaylistValuesUnique(db.playlists, db.nextPLIndex);
        SortedListingDeterministic(order, SomeOrder(db.playlists.Values), db.playlists.Values, PlaylistIndex, PlaylistDisplay);
      }
    }

    /**
     * `processCommand`: the verb is the first word, and the command does
     * what `Processes` allows from the store as it was. The playback verbs act
     * on the audio player only and are not modelled here; `{ a | b }` runs
     * its parts in turn and stops at the first that crashes. `net` is what
     * the network and the music folder give for a link `load` opens.
     */
    method ProcessCommand(text: string, net: string -> Fetched) returns (replies: seq<string>, crashed: bool)
      modifies db
      ensures Processes(old(Snapshot(db)), text, replies, crashed, Snapshot(db))
      ensures old(db.Valid()) ==> db.Valid()
      decreases |text|, 1
    {
      ghost var start := Snapshot(db);
      var words := Split(text, ' ');
      var verb := words[0];
      replies := [];
      crashed := false;
      match VerbOf(verb)
      case Leaving =>
        replies := [LEAVE_REPLY];
      case Quitting =>
        crashed := true;
      case Loading =>
        replies, crashed := Load(words, net);
      case PlaybackOnly =>
      case Listing =>
        var reply, order := List();
        replies := [reply];
        assert IsOrderOf(order, start.musicList) && replies == [SortedListing(order, TrackIndex, Display)];
      case Removing =>
        crashed := Remove(words);
      case Finding =>
        var reply, found := Find(text, verb);
        replies := [reply];
        assert IsOrderOf(found, MatchSet(start.musicList, FindKey(text, verb)))
          && replies == [if found == [] then NOT_FOUND_REPLY else FindReply(|found|, Shown("", Displays(found)))];
      case Retagging(field) =>
        crashed := Retag(text, words, field);
      case Creating =>
        var reply := CreatePlaylist(TextAfter(text, verb));
        replies := [reply];
      case ListingPlaylists =>
        var reply, order := Playlists();
        replies := [reply];
        assert IsOrderOf(order, start.playlists.Values) && replies == [SortedListing(order, PlaylistIndex, PlaylistDisplay)];
      case Editing(add) =>
        crashed := EditPlaylist(words, add);
      case Composite =>
        ghost var outs: seq<Outcome>;
        replies, crashed, outs := RunParts(text, net);
        if old(db.Valid()) {
          RanKeepsOk(start, text, outs);
        }
      case Unknown =>
        replies := ["Unknown command: " + verb];
    }

    /**
     * `{ a | b | ... }`: `forEach { processCommand(it.trim()) }` over the
     * parts; an exception in one part ends the loop.
     */
    method RunParts(text: string, net: string -> Fetched) returns (replies: seq<string>, crashed: bool, ghost outs: seq<Outcome>)
      requires text != []
      modifies db
      ensures RanAll(old(Snapshot(db)), text, outs, replies, crashed, Snapshot(db))
      decreases |text|, 0
    {
      ghost var start := Snapshot(db);
      replies, crashed, outs := [], false, [];
      var parts := Pieces(text);
      var j := 0;
      while j < |parts| && !crashed
        invariant 0 <= j <= |parts| && |outs| == j
        invariant Ran(start, text, outs)
        invariant replies == AllReplies(outs) && crashed == EndsInCrash(outs) && Snapshot(db) == StoreAt(start, outs, j)
      {
        var more, failed := ProcessCommand(parts[j], net);
        ghost var o := Outcome(more, failed, Snapshot(db));
        RanExtends(start, text, outs, o);
        outs := outs + [o];
        replies := replies + more;
        crashed := failed;
        j := j + 1;
      }
    }

    /**
     * `load <link>` and `load_youtube <video>`: a missing argument crashes;
     * otherwise `loadFile` runs on the link with what `net` gives for it.
     */
    method Load(words: seq<string>, net: string -> Fetched) returns (replies: seq<string>, crashed: bool)
      requires words != []
      modifies db
      ensures |words| < 2 ==> crashed && replies == [] && unchanged(db)
      ensures LoadStep(old(Snapshot(db)), Snapshot(db))
      ensures old(db.Valid()) ==> db.Valid()
    {
      replies, crashed := [], false;
      if |words| < 2 {
        crashed := true;
        return;
      }
      var link := if words[0] == "load_youtube" then YOUTUBE_FETCH + words[1] else words[1];
      var fetched := net(link);
      ghost var before := Snapshot(db);
      var file, saved;
      ghost var tried;
      replies, crashed, file, tried, saved := LoadFile(link, fetched.answer, fetched.existing, fetched.decodable);
      if Passes(fetched.answer) && fetched.decodable {
        assert (Snapshot(db).musicList, Snapshot(db).nextIndex) == AddSpec(before.musicList, before.nextIndex, file);
      }
    }

    /**
     * `loadFile` once the connection has answered. `existing` is the set of
     * names already in the music folder, and `decodable` whether the audio
     * system can read the downloaded file. Past the gates the reply is the
     * progress text, then the outcome; `file` is the name written to.
     */
    method LoadFile(link: string, answer: Download.Answer, existing: set<string>, decodable: bool)
      returns (replies: seq<string>, crashed: bool, file: string, ghost tried: seq<string>, saved: Option<MusicFile>)
      modifies db
      ensures Download.Refused(answer) ==>
        replies == [Download.RefusedReply(answer)] && !crashed && saved == None && unchanged(db)
      ensures !Download.Refused(answer) && answer.contentType.None? ==> crashed && saved == None && unchanged(db)
      ensures !Download.Refused(answer) && Download.IsAudio(answer) == Some(false) ==>
        replies == [Download.NOT_AUDIO_REPLY] && !crashed && saved == None && unchanged(db)
      ensures !Download.Refused(answer) && Download.IsAudio(answer) == Some(true) && Download.TooLarge(answer.length, Download.MAX_LENGTH) ==>
        replies == [Download.TOO_LARGE_REPLY] && !crashed && saved == None && unchanged(db)
      ensures Passes(answer) ==>
        && !crashed && |replies| == 2
        && Some(replies[0]) == Download.Response(if answer.length > 0 then 0 else -1)
        && file !in existing
        && |tried| >= 1 && tried[0] == Download.ChooseName(link, answer.disposition) && file == tried[|tried| - 1]
        && Download.RetryTrace(tried, existing, Download.Suffix(tried[0]))
      ensures Passes(answer) && decodable ==>
        && saved == Some(NewTrack(old(db.nextIndex), file))
        && replies[1] == "Saved as (" + Display(saved.value) + ")"
        && (db.musicList, db.nextIndex) == AddSpec(old(db.musicList), old(db.nextIndex), file)
        && db.playlists == old(db.playlists) && db.nextPLIndex == old(db.nextPLIndex)
      ensures Passes(answer) && !decodable ==> saved == None && replies[1] == UNSUPPORTED_REPLY && unchanged(db)
      ensures old(db.Valid()) ==> db.Valid()
      ensures old(db.Valid()) && saved.Some? ==> saved.value.index !in Indices(old(db.musicList))
    {
      replies, crashed, file, tried, saved := [], false, "", [], None;
      if Download.Refused(answer) {
        replies := [Download.RefusedReply(answer)];
        return;
      }
      var audio := Download.IsAudio(answer);
      if audio.None? {
        crashed := true;
        return;
      }
      if !audio.value {
        replies := [Download.NOT_AUDIO_REPLY];
        return;
      }
      var name := Download.ChooseName(link, answer.disposition);
      if Download.TooLarge(answer.length, Download.MAX_LENGTH) {
        replies := [Download.TOO_LARGE_REPLY];
        return;
      }
      var progress := Download.Response(if answer.length > 0 then 0 else -1);
      var outcome;
      outcome, file, tried, saved := SaveFile(name, existing, decodable);
      replies := [progress.value, outcome];
    }

    /**
     * The end of `loadFile`: the download goes to the first free name, and a
     * file the audio system can read is added as `addFile` does; `outcome`
     * is the second reply.
     */
    method SaveFile(name: string, existing: set<string>, decodable: bool)
      returns (outcome: string, file: string, ghost tried: seq<string>, saved: Option<MusicFile>)
      modifies db
      ensures file !in existing
      ensures |tried| >= 1 && tried[0] == name && file == tried[|tried| - 1]
      ensures Download.RetryTrace(tried, existing, Download.Suffix(name))
      ensures decodable ==>
        && saved == Some(NewTrack(old(db.nextIndex), file))
        && outcome == "Saved as (" + Display(saved.value) + ")"
        && (db.musicList, db.nextIndex) == AddSpec(old(db.musicList), old(db.nextIndex), file)
        && db.playlists == old(db.playlists) && db.nextPLIndex == old(db.nextPLIndex)
      ensures !decodable ==> saved == None && outcome == UNSUPPORTED_REPLY && unchanged(db)
      ensures old(db.Valid()) ==> db.Valid()
      ensures old(db.Valid()) && saved.Some? ==> saved.value.index !in Indices(old(db.musicList))
    {
      file, tried := Download.FreeName(name, existing);
      if decodable {
        var added := db.AddFile(file);
        saved := Some(added);
        outcome := "Saved as (" + Display(added) + ")";
      } else {
        saved := None;
        outcome := UNSUPPORTED_REPLY;
      }
    }
  }
}
