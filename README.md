# Discord music bot catalogue, modelled in Dafny

This project models the catalogue of a Discord music bot written in Kotlin.
It leaves out the Discord connection, the audio player, the network and the
MapDB storage engine, and keeps the logic that decides what the catalogue
holds and what the bot answers:

- **Records** (`records.dfy`, module `Records`). The `MusicFile` and
  `Playlist` data classes. The track display cleans the path: each run of
  non-printable characters becomes `#`, then a trailing `.mp3` goes, then
  every `[SaveFrom.online]` goes. The playlist display uses a plural.
  Playlist equality ignores the track set.
- **Serializers** (`codec.dfy`, module `Codec`). The MapDB `Serializer`
  pairs of both records, written as methods over `DataOutput`/`DataInput`
  classes holding a byte sequence. Each method is proved against an
  encoding function, and the encodings are proved to round-trip.
- **Library store** (`library.dfy`, module `Library`). The `MusicDB` class
  holds the track set, the playlists and the two index counters. It has
  `addFile` (with its upward scan loop), `removeFile`, `populateDB` and
  `findIndex`. Its invariant: track indices are unique and positive, and the
  counter is the smallest positive index no track uses. `addFile` and
  `removeFile` keep it. From the empty store, no sequence of additions and
  removals ever hands out an index in use.
- **Commands** (`commands.dfy`, module `Commands`). The catalogue verbs of
  `processCommand`: `list`, `remove` (with the playlist cascade), `find`
  (with the truncation loop at 1800 UTF-16 code units), `file`/`move`/`rename`,
  `artist`, `name`, `create_playlist`, `playlists`,
  `playlist_add`/`playlist_remove`, the composite `{ a | b }` form, the
  leave verbs and unknown verbs. The class `DiscordPlayer` holds the store.
  The ghost predicate `Processes` says, on the store's values, what one
  command may reply and leave behind; `ProcessCommand` is proved to do
  one of those things. A composite is described by a list of outcomes, one
  per part that ran (`Ran`, `RanAll`): the parts run in order, each from
  the store the one before it left, every part runs unless one crashes,
  the run stops at that part, and the replies are the parts' replies in
  order.
  The module also has the composition of `loadFile` once the connection has
  answered, which `load` and `load_youtube` reach through a `net` parameter
  standing for the network.
- **Download** (`download.dfy`, module `Download`). The pure parts of
  `loadFile`: the HTTP status, content-type and size gates; the file name
  taken from `Content-Disposition` or the link; the collision-renaming loop
  against a set of existing names; and the progress text.
- **The older copy in Main.kt** (`stalemain.dfy`, module `StaleMain`). Only
  what differs from the current version: the track display, `find` with
  alphanumeric normalisation and no length limit, the 15 MiB size gate, the
  progress glyph U+25A0, and `list` in that display.
- `text.dfy` (modules `Options` and `Text`) and `collections.dfy` (module
  `Collections`). They model the Kotlin standard library functions the code
  relies on: `split` keeps empty pieces, `trim`, ASCII `toLowerCase`,
  `substringAfter`, `toInt` with its 32-bit range, `sortedBy` and set
  iteration orders.

Integers are unbounded in the model. The serializer writes the low 32 bits,
and `toInt` refuses numbers outside the 32-bit range. A JVM exception
(`toInt` on a non-number, a missing `words[1]`, a missing `Content-Type`
header, `repeat` of a negative count) becomes an explicit `crashed` flag or
`None`. A crash in one part of a composite command stops the parts after
it. The order in which a hash set is iterated is unspecified. Operations
that depend on it take or return that order. The results that should not
depend on it (`list`, `playlists`, the `find` count) are proved the same for
every order.

One place where the code's behaviour is easy to misread: `removeFile` lowers
the track counter to the removed index whenever that is smaller, and
`addFile` scans upward past used indices. Together they keep the counter
at the least positive index not in use, not merely at some unused index.
`Library.AddKeepsAllocator` and `Library.RemoveKeepsAllocator` prove it.

## Model

| member | source | states |
|---|---|---|
| Records.NewPlaylist | src/main/kotlin/coffee/cypher/discordplayer/Playlist.kt:6-7 | a new playlist has the given index and name and an empty track set |
| Records.EqualsIgnoresTracks | src/main/kotlin/coffee/cypher/discordplayer/Playlist.kt:6-7 | two playlists that differ only in their tracks are equal, so equality is on index and name |
| Records.PlaylistDisplayPlural | src/main/kotlin/coffee/cypher/discordplayer/Playlist.kt:9-11 | the display ends in `tracks)` exactly when the playlist does not hold exactly one track |
| Records.CollapseUnprintable | src/main/kotlin/coffee/cypher/discordplayer/MusicFile.kt:9 | after collapsing, the text is printable ASCII and no longer than before |
| Records.CollapseKeepsPlainChars | src/main/kotlin/coffee/cypher/discordplayer/MusicFile.kt:9 | collapsing keeps every printable character other than `#`, in order, and adds none |
| Records.CollapseRun | src/main/kotlin/coffee/cypher/discordplayer/MusicFile.kt:9 | the collapse keeps a printable prefix as it is and turns the maximal run of non-printable characters after it into exactly one `#`, then collapses the rest |
| Records.RunOfBlock | src/main/kotlin/coffee/cypher/discordplayer/MusicFile.kt:9 | a block of non-printable characters followed by a printable one, or by nothing, is one maximal run |
| Records.CollapsePrintable | src/main/kotlin/coffee/cypher/discordplayer/MusicFile.kt:9 | a path that is already printable comes through unchanged |
| Records.RemoveAllAbsent | src/main/kotlin/coffee/cypher/discordplayer/MusicFile.kt:11 | removing `[SaveFrom.online]` from text that does not contain it changes nothing |
| Records.RemoveMarkerAtEnd | src/main/kotlin/coffee/cypher/discordplayer/MusicFile.kt:11 | for any name with no `[`, the marker after it is removed and the name is kept |
| Records.FileName | src/main/kotlin/coffee/cypher/discordplayer/MusicFile.kt:8-11 | the cleaned file name holds only printable ASCII |
| Records.MarkerStripped | src/main/kotlin/coffee/cypher/discordplayer/MusicFile.kt:8-11 | any printable name with no `[` followed by the marker displays as the name: no `mp3` suffix is stripped first, so `x.mp3[SaveFrom.online]` displays as `x.mp3` |
| Records.Mp3Stripped | src/main/kotlin/coffee/cypher/discordplayer/MusicFile.kt:10 | a printable name with no `[` that ends in any one character followed by `mp3` shows without those four characters, the unescaped dot matching any character |
| Records.DisplayStartsWithIndex | src/main/kotlin/coffee/cypher/discordplayer/MusicFile.kt:12 | the text of a track display before the first `:` parses back to the track's index |
| Codec.IntRoundTrip | src/main/kotlin/coffee/cypher/discordplayer/MusicFile.kt:22 | an int written in four bytes is read back, whatever surrounds it |
| Codec.BoolRoundTrip | src/main/kotlin/coffee/cypher/discordplayer/MusicFile.kt:24-28 | a presence flag written as one byte is read back |
| Codec.UtfRoundTrip | src/main/kotlin/coffee/cypher/discordplayer/MusicFile.kt:26 | a string that `writeUTF` accepts is read back with its length |
| Codec.EncodeMusicFile | src/main/kotlin/coffee/cypher/discordplayer/MusicFile.kt:16-39 | a track can be written exactly when all of its strings fit `writeUTF` |
| Codec.MusicFileLayout | src/main/kotlin/coffee/cypher/discordplayer/MusicFile.kt:16-39 | the bytes are the index, the artist flag (set exactly when there is an artist) and string, the name flag and string, then the path |
| Codec.MusicFileRoundTrip | src/main/kotlin/coffee/cypher/discordplayer/MusicFile.kt:16-59 | reading back a written track gives the same track and stops right after its bytes |
| Codec.SerializeMusicFile | src/main/kotlin/coffee/cypher/discordplayer/MusicFile.kt:16-39 | the method appends exactly the encoding of the track, and fails exactly when a string does not fit |
| Codec.DeserializeMusicFile | src/main/kotlin/coffee/cypher/discordplayer/MusicFile.kt:41-59 | the method reads exactly what the decoding function reads and moves past it |
| Codec.WriteOptional | src/main/kotlin/coffee/cypher/discordplayer/MusicFile.kt:24-36 | a flag is written, followed by the string only when there is one |
| Codec.EncodePlaylist | src/main/kotlin/coffee/cypher/discordplayer/Playlist.kt:25-32 | a playlist can be written exactly when its name fits `writeUTF` |
| Codec.PlaylistRoundTrip | src/main/kotlin/coffee/cypher/discordplayer/Playlist.kt:14-32 | reading back a written playlist gives the same index, name and track set, in whatever order the set was written |
| Codec.ZeroCountIsEmpty | src/main/kotlin/coffee/cypher/discordplayer/Playlist.kt:19-21 | a count of zero or less reads back an empty track set |
| Codec.SerializePlaylist | src/main/kotlin/coffee/cypher/discordplayer/Playlist.kt:25-32 | the method appends the index, the name, the count and one int per track, in some order of the set |
| Codec.DeserializePlaylist | src/main/kotlin/coffee/cypher/discordplayer/Playlist.kt:14-23 | the method reads the index, the name, a count and then that many ints into the track set |
| Codec.ReadIntsFails | src/main/kotlin/coffee/cypher/discordplayer/Playlist.kt:19-21 | if one of the counted ints cannot be read, the whole read fails |
| Library.PlaylistsDistinct | src/main/kotlin/coffee/cypher/discordplayer/Playlist.kt:6 | under the playlist invariant no two stored playlists are `equals`, and the playlist `create` makes at the counter equals none of them |
| Library.FreshStoreOk | src/main/kotlin/coffee/cypher/discordplayer/MusicDB.kt:23 | the empty store with the counter at 1 satisfies the allocator invariant |
| Library.NewTrack | src/main/kotlin/coffee/cypher/discordplayer/MusicDB.kt:48 | an added track takes the counter's value as index and has no artist and no name |
| Library.ScanFrom | src/main/kotlin/coffee/cypher/discordplayer/MusicDB.kt:53-57 | the scan ends at the first unused index at or above its start |
| Library.Scan | src/main/kotlin/coffee/cypher/discordplayer/MusicDB.kt:53-59 | the loop ends, and it ends where the scan function does |
| Library.AddKeepsAllocator | src/main/kotlin/coffee/cypher/discordplayer/MusicDB.kt:47-65 | `addFile` hands out an unused index, keeps the invariant in both branches, and moves the counter above the index it handed out |
| Library.RemoveKeepsAllocator | src/main/kotlin/coffee/cypher/discordplayer/MusicDB.kt:67-75 | `removeFile` keeps the invariant |
| Library.AllocatorNeverReuses | src/main/kotlin/coffee/cypher/discordplayer/MusicDB.kt:47-75 | from any state meeting the invariant, no sequence of additions and removals hands out an index in use |
| Library.FreshStoreNeverReuses | src/main/kotlin/coffee/cypher/discordplayer/MusicDB.kt:23 | the same from the empty store with the counter at 1 |
| Library.NewPaths | src/main/kotlin/coffee/cypher/discordplayer/MusicDB.kt:37-42 | every path `populateDB` adds is a listed path that no track has, and it adds no more paths than are listed |
| Library.NewPathsComplete | src/main/kotlin/coffee/cypher/discordplayer/MusicDB.kt:37-42 | every listed path that no track has is added, so the added paths are exactly the new ones |
| Library.AddAllAddsOnePerPath | src/main/kotlin/coffee/cypher/discordplayer/MusicDB.kt:36-45 | adding the new paths keeps the invariant and the old tracks, adds exactly one untagged track per path, and gives every path a track |
| Library.MusicDB.constructor | src/main/kotlin/coffee/cypher/discordplayer/MusicDB.kt:18-26 | opening the store runs `populateDB` on the listing; a consistent stored state gives a valid store |
| Library.MusicDB.AddFile | src/main/kotlin/coffee/cypher/discordplayer/MusicDB.kt:47-65 | the new track has the old counter as index and goes into the set, the counter advances as `addFile` does, and validity is kept |
| Library.MusicDB.RemoveFile | src/main/kotlin/coffee/cypher/discordplayer/MusicDB.kt:67-75 | an absent track changes nothing; a present one is removed and the counter becomes the smaller of its index and the counter |
| Library.MusicDB.PopulateDB | src/main/kotlin/coffee/cypher/discordplayer/MusicDB.kt:36-45 | the loop adds the new paths of the listing one by one, as the specification function does, and keeps validity |
| Library.MusicDB.FindIndex | src/main/kotlin/coffee/cypher/discordplayer/DiscordPlayer.kt:430 | the track with the given index, or nothing exactly when no track has it |
| Commands.IntArgs | src/main/kotlin/coffee/cypher/discordplayer/DiscordPlayer.kt:386 | converting the numbers succeeds exactly when every word parses, and then gives each word's value |
| Commands.Filter | src/main/kotlin/coffee/cypher/discordplayer/DiscordPlayer.kt:186 | a track is kept exactly when its lowercased display contains the key |
| Commands.FilterIsOrder | src/main/kotlin/coffee/cypher/discordplayer/DiscordPlayer.kt:186 | filtering a set's iteration order lists each match exactly once, so the count is the number of matches |
| Commands.EmptyKeyMatchesAll | src/main/kotlin/coffee/cypher/discordplayer/DiscordPlayer.kt:181-186 | with the blank check commented out, an empty key matches every track |
| Commands.ArgumentAfterVerb | src/main/kotlin/coffee/cypher/discordplayer/DiscordPlayer.kt:181 | the `find` key and the `create_playlist` name are the trimmed text after the verb, and the key is also lowercased |
| Commands.ShownBounded | src/main/kotlin/coffee/cypher/discordplayer/DiscordPlayer.kt:193-199 | the text shown never exceeds 1800 UTF-16 code units, as `String.length` counts them, and so never 1800 characters |
| Commands.WideLineLeftOut | src/main/kotlin/coffee/cypher/discordplayer/DiscordPlayer.kt:194 | a line of 900 or more characters above U+FFFF counts at least 1800 code units and is left out |
| Text.Utf16LengthAppend | src/main/kotlin/coffee/cypher/discordplayer/DiscordPlayer.kt:194 | the UTF-16 length of a concatenation is the sum of the lengths |
| Text.Utf16LengthBasic | src/main/kotlin/coffee/cypher/discordplayer/DiscordPlayer.kt:194 | below U+10000 the UTF-16 length is the number of characters |
| Commands.ShownAllUnlessSkipped | src/main/kotlin/coffee/cypher/discordplayer/DiscordPlayer.kt:193-199 | a match is left out exactly when the text shown is not all the matches, each followed by a newline |
| Commands.SkipThenShow | src/main/kotlin/coffee/cypher/discordplayer/DiscordPlayer.kt:194-198 | after a line that does not fit is skipped, a later shorter line is still shown |
| Commands.ShowMatches | src/main/kotlin/coffee/cypher/discordplayer/DiscordPlayer.kt:191-199 | the loop builds the text and the warning that the truncation function describes |
| Commands.FindReplyShape | src/main/kotlin/coffee/cypher/discordplayer/DiscordPlayer.kt:200 | the reply starts with the full count, says `matches` exactly when there is more than one, and ends with the warning exactly when a match was left out |
| Commands.SortedListingDeterministic | src/main/kotlin/coffee/cypher/discordplayer/DiscordPlayer.kt:143-148 | when indices are unique, the listing sorted by index does not depend on the set's iteration order |
| Commands.ListEmpty | src/main/kotlin/coffee/cypher/discordplayer/DiscordPlayer.kt:143-148 | `list` replies `No playlists available` exactly when there are no tracks |
| Commands.PlaylistsEmpty | src/main/kotlin/coffee/cypher/discordplayer/DiscordPlayer.kt:376-382 | `playlists` replies `No playlists available` exactly when there are none |
| Commands.PlaylistValuesUnique | src/main/kotlin/coffee/cypher/discordplayer/DiscordPlayer.kt:376 | in a consistent playlist map, no two playlists share an index, so sorting by index is deterministic |
| Commands.RetagValue | src/main/kotlin/coffee/cypher/discordplayer/DiscordPlayer.kt:302 | the new value is the trimmed text after the index word |
| Commands.RetagKeepsAllocator | src/main/kotlin/coffee/cypher/discordplayer/DiscordPlayer.kt:301-347 | replacing a record keeps the invariant and the set of indices; exactly one record keeps that index, and only the named field differs |
| Commands.Cascade | src/main/kotlin/coffee/cypher/discordplayer/DiscordPlayer.kt:173 | every playlist keeps its index, its name and every other track, and loses the removed index |
| Commands.Edited | src/main/kotlin/coffee/cypher/discordplayer/DiscordPlayer.kt:386-394 | adding gives the union of the tracks and the numbers; removing gives the difference |
| Commands.AddThenRemove | src/main/kotlin/coffee/cypher/discordplayer/DiscordPlayer.kt:384-398 | adding and then removing the same numbers leaves the tracks minus those numbers |
| Commands.CreateAdvancesByOne | src/main/kotlin/coffee/cypher/discordplayer/DiscordPlayer.kt:360-370 | with the playlists at indices 1 to counter − 1, the size test never holds, the scan moves the counter on by one, and the invariant is kept |
| Commands.Pieces | src/main/kotlin/coffee/cypher/discordplayer/DiscordPlayer.kt:424 | every part of a composite command is shorter than the command, so the recursion ends |
| Commands.CompositeParts | src/main/kotlin/coffee/cypher/discordplayer/DiscordPlayer.kt:424 | an opening brace, parts joined by bars, a closing brace and text without braces yields exactly the trimmed parts, in order |
| Commands.DiscordPlayer.Remove | src/main/kotlin/coffee/cypher/discordplayer/DiscordPlayer.kt:170-178 | a non-number crashes; an absent index changes nothing; otherwise the track goes through `removeFile`, its index leaves every playlist, and validity is kept |
| Commands.DiscordPlayer.RemoveFromPlaylists | src/main/kotlin/coffee/cypher/discordplayer/DiscordPlayer.kt:173 | the loop leaves the playlists as the cascade function gives them and changes nothing else |
| Commands.DiscordPlayer.Retag | src/main/kotlin/coffee/cypher/discordplayer/DiscordPlayer.kt:301-347 | a non-number crashes; an absent index changes nothing; otherwise the record is replaced by its retagged copy, with indices and validity kept |
| Commands.DiscordPlayer.CreatePlaylist | src/main/kotlin/coffee/cypher/discordplayer/DiscordPlayer.kt:349-374 | a name in use is refused with no change; otherwise a new empty playlist takes the counter, the reply shows it, and the counter advances by one in a valid store |
| Commands.DiscordPlayer.EditPlaylist | src/main/kotlin/coffee/cypher/discordplayer/DiscordPlayer.kt:384-398 | an unknown playlist changes nothing; a non-number crashes; otherwise the tracks become the union or difference |
| Commands.DiscordPlayer.Find | src/main/kotlin/coffee/cypher/discordplayer/DiscordPlayer.kt:180-202 | the matches are each matching track once; no match gives `No matching tracks found`; otherwise the reply counts all matches and shows the truncated list |
| Commands.DiscordPlayer.List | src/main/kotlin/coffee/cypher/discordplayer/DiscordPlayer.kt:143-148 | the reply is the tracks sorted by index, the same for every iteration order in a valid store |
| Commands.DiscordPlayer.Playlists | src/main/kotlin/coffee/cypher/discordplayer/DiscordPlayer.kt:376-382 | the reply is the playlists sorted by index, the same for every iteration order in a valid store |
| Commands.DiscordPlayer.ProcessCommand | src/main/kotlin/coffee/cypher/discordplayer/DiscordPlayer.kt:124-427 | the replies, the crash flag and the new store are ones the relation `Processes` allows from the old store: each catalogue verb does what its handler's step predicate says, a composite runs its parts in order until the first crash, `quit` ends the run, `load`/`load_youtube` with no argument crash and otherwise leave the store unchanged or add one track as `addFile` does (playlists untouched), the playback verbs leave the store unchanged; validity is kept |
| Commands.DiscordPlayer.RunParts | src/main/kotlin/coffee/cypher/discordplayer/DiscordPlayer.kt:424 | the loop over the parts of a composite command runs the parts in order, each from the store the previous one left, stops at the first crash and concatenates the replies: the outcomes it leaves behind are a run through the whole composite |
| Commands.VerbOf | src/main/kotlin/coffee/cypher/discordplayer/DiscordPlayer.kt:128-427 | an unknown verb is one `processCommand` does not know; the leave, playback and composite branches are taken for exactly their words |
| Commands.ReadOnlyVerbs | src/main/kotlin/coffee/cypher/discordplayer/DiscordPlayer.kt:129-153 | under `Processes`, an unknown verb gets exactly `Unknown command: <verb>`, the leave verbs get `bb`, `quit` replies nothing and ends the run, and none of these nor any playback verb changes the store (`load` and `load_youtube` are not playback verbs: see `LoadKeepsOk`) |
| Commands.ProcessesKeepsOk | src/main/kotlin/coffee/cypher/discordplayer/DiscordPlayer.kt:124-427 | every command, composite or not, keeps the store's invariant, whether or not it crashes, including the track `load`/`load_youtube` may add |
| Commands.LoadKeepsOk | src/main/kotlin/coffee/cypher/discordplayer/DiscordPlayer.kt:311-317 | a `load` step (nothing changed, or one `addFile` with the playlists untouched) keeps the store's invariant |
| Commands.DiscordPlayer.Load | src/main/kotlin/coffee/cypher/discordplayer/DiscordPlayer.kt:311-317 | a missing argument crashes with no reply and the store unchanged; otherwise the store either stays or gains one track as `addFile` gives it, with the playlists untouched; validity is kept |
| Commands.RanKeepsOk | src/main/kotlin/coffee/cypher/discordplayer/DiscordPlayer.kt:424 | every part of a composite starts from, and leaves, a store that keeps the invariant |
| Commands.CompositeIntro | src/main/kotlin/coffee/cypher/discordplayer/DiscordPlayer.kt:424 | a command whose first word is `{` does what a run through all its parts, stopped at the first crash, does |
| Commands.CompositeElim | src/main/kotlin/coffee/cypher/discordplayer/DiscordPlayer.kt:424 | whatever a command whose first word is `{` does is a run through its parts, in order, stopped at the first crash, with the replies concatenated |
| Commands.RanExtends | src/main/kotlin/coffee/cypher/discordplayer/DiscordPlayer.kt:424 | one more part runs from the store the earlier parts left, and its replies follow theirs |
| Commands.RanFirst | src/main/kotlin/coffee/cypher/discordplayer/DiscordPlayer.kt:424 | the first part run alone, from the starting store, is a run through the composite |
| Commands.OnlyPart | src/main/kotlin/coffee/cypher/discordplayer/DiscordPlayer.kt:424 | a run through a one-part composite is what that part's own command does |
| Commands.FirstCrashStops | src/main/kotlin/coffee/cypher/discordplayer/DiscordPlayer.kt:424 | when the first part crashes, the composite crashes with that part's replies and store |
| Commands.OnePieceComposite | src/main/kotlin/coffee/cypher/discordplayer/DiscordPlayer.kt:424 | a composite with one part does exactly what that part does, in both directions |
| Commands.TwoPieceComposite | src/main/kotlin/coffee/cypher/discordplayer/DiscordPlayer.kt:424 | in a composite with parts `a` and `b`, `b` runs from the store `a` left when `a` does not crash, and the replies are `a`'s then `b`'s |
| Commands.DiscordPlayer.LoadFile | src/main/kotlin/coffee/cypher/discordplayer/DiscordPlayer.kt:475-537 | the gates apply in order (status, missing content type, not audio, over 64 MiB) and change nothing; past them the file name is free, and a decodable file is added as `addFile` does and reported |
| Commands.DiscordPlayer.SaveFile | src/main/kotlin/coffee/cypher/discordplayer/DiscordPlayer.kt:496-535 | the download goes to a free name reached by the retry chain from the chosen name; a decodable file becomes a new untagged track with the old counter as index, as `addFile` gives it, and is reported as `Saved as (<display>)`; otherwise the store is unchanged and the format reply is given |
| Download.IsAudio | src/main/kotlin/coffee/cypher/discordplayer/DiscordPlayer.kt:481-484 | a missing header is the crash; otherwise the answer is whether the header contains `audio` |
| Download.UnknownLengthPasses | src/main/kotlin/coffee/cypher/discordplayer/DiscordPlayer.kt:488-492 | an unknown length (−1) passes the size gate |
| Download.CaptureIsTheMatch | src/main/kotlin/coffee/cypher/discordplayer/DiscordPlayer.kt:38 | the regex matches at a position exactly when the capture function finds a name there, and the group is that name |
| Download.FindFrom | src/main/kotlin/coffee/cypher/discordplayer/DiscordPlayer.kt:486 | the leftmost match is returned, or nothing when there is no match |
| Download.LinkName | src/main/kotlin/coffee/cypher/discordplayer/DiscordPlayer.kt:487 | the name from the link has no `?`, and no `/` when the link has one |
| Download.ChooseName | src/main/kotlin/coffee/cypher/discordplayer/DiscordPlayer.kt:485-487 | the header's capture when there is one, otherwise the name from the link |
| Download.NameWithoutExtension | src/main/kotlin/coffee/cypher/discordplayer/DiscordPlayer.kt:502 | a name with a dot is its stem, a dot and its extension; a name without one is its own stem |
| Download.Suffix | src/main/kotlin/coffee/cypher/discordplayer/DiscordPlayer.kt:498 | empty, or a dot followed by the extension |
| Download.RetryKeepsExtension | src/main/kotlin/coffee/cypher/discordplayer/DiscordPlayer.kt:502 | every retry keeps the original extension |
| Download.RetryProgress | src/main/kotlin/coffee/cypher/discordplayer/DiscordPlayer.kt:501-503 | each retry of a taken name moves closer to a free name, so the loop ends |
| Download.TraceExtends | src/main/kotlin/coffee/cypher/discordplayer/DiscordPlayer.kt:501-503 | each round of the loop extends the trace of names tried by the next retry |
| Download.FreeName | src/main/kotlin/coffee/cypher/discordplayer/DiscordPlayer.kt:496-506 | the result is not taken, is the name itself when that is free, and is the end of the chain of retries |
| Download.RetryOfPlainName | src/main/kotlin/coffee/cypher/discordplayer/DiscordPlayer.kt:502 | the first retry of `a.mp3` is `a(1).mp3` |
| Download.RetriesStack | src/main/kotlin/coffee/cypher/discordplayer/DiscordPlayer.kt:501-503 | later retries stack their counters, as in `a(1)(2).mp3` |
| Download.Progress | src/main/kotlin/coffee/cypher/discordplayer/DiscordPlayer.kt:470-473 | a negative value gives `progress unknown`, and a value above 5 crashes |
| Download.ResponseLength | src/main/kotlin/coffee/cypher/discordplayer/DiscordPlayer.kt:470-473 | the bar is the frame, p glyphs and 5 − p spaces |
| Download.ResponsesDiffer | src/main/kotlin/coffee/cypher/discordplayer/DiscordPlayer.kt:470-473 | different progress values give different texts |
| StaleMain.StaleDisplayShape | src/main/kotlin/coffee/cypher/discordplayer/Main.kt:535-537 | the display starts with the index and `: `, ends with the raw path in parentheses, and shows placeholders for missing tags |
| StaleMain.StaleDisplayHead | src/main/kotlin/coffee/cypher/discordplayer/Main.kt:535-537 | the display never starts with `N` |
| StaleMain.KeepAlnum | src/main/kotlin/coffee/cypher/discordplayer/Main.kt:182 | the result holds exactly the characters of the input that are ASCII letters or digits |
| StaleMain.KeepAlnumOfAlnum | src/main/kotlin/coffee/cypher/discordplayer/Main.kt:187 | text that is already alphanumeric is left as it is |
| StaleMain.LowerKeepAlnumCommute | src/main/kotlin/coffee/cypher/discordplayer/Main.kt:182-187 | lowercasing before or after dropping punctuation gives the same text |
| StaleMain.StaleFindKeyShape | src/main/kotlin/coffee/cypher/discordplayer/Main.kt:182-186 | the key holds only digits and lowercase letters, and it is blank exactly when it is empty |
| StaleMain.StaleFilter | src/main/kotlin/coffee/cypher/discordplayer/Main.kt:187 | a track is kept exactly when its normalised display contains the key |
| StaleMain.StaleFindReplies | src/main/kotlin/coffee/cypher/discordplayer/Main.kt:181-196 | `No search query provided` exactly when the key is empty; `No matching tracks found` exactly when no track matches; otherwise every match appears in the reply |
| StaleMain.StaleMatchListed | src/main/kotlin/coffee/cypher/discordplayer/Main.kt:193 | every found track's display appears in the reply |
| StaleMain.StaleFindReplyShape | src/main/kotlin/coffee/cypher/discordplayer/Main.kt:192-194 | the reply starts with the count, says `matches` exactly when there are several, and ends with the closing fence |
| StaleMain.StaleSizeGateBounds | src/main/kotlin/coffee/cypher/discordplayer/Main.kt:482-486 | exactly the lengths above 15 MiB are refused, an unknown length passes, and whatever the 64 MiB gate refuses is refused here too |
| StaleMain.StaleResponseBar | src/main/kotlin/coffee/cypher/discordplayer/Main.kt:469-472 | every bar has 23 characters, and position i of the bar is filled exactly when i < p |
| StaleMain.StaleResponsesDiffer | src/main/kotlin/coffee/cypher/discordplayer/Main.kt:469-472 | different progress values give different texts |
| StaleMain.StaleListEmpty | src/main/kotlin/coffee/cypher/discordplayer/Main.kt:146-151 | `No playlists available` exactly when there are no tracks |
| StaleMain.StaleListDeterministic | src/main/kotlin/coffee/cypher/discordplayer/Main.kt:146-151 | with unique indices, the listing does not depend on the iteration order |
| Text.JoinSplit | src/main/kotlin/coffee/cypher/discordplayer/DiscordPlayer.kt:125 | splitting the command on spaces loses nothing: joining the words gives the text back |
| Text.ParseIntToString | src/main/kotlin/coffee/cypher/discordplayer/DiscordPlayer.kt:171 | `toInt` reads back every 32-bit number written in decimal |

## Left out

- Discord wiring: logging in, the event listeners, mention and marker parsing, and `respond`/`edit`. They are calls into a foreign library. `respond` puts a space before every message, and the replies here leave it out.
- The playback verbs (`next`/`skip`, `pause`, `resume`, `stop`, `volume`, `current`, the `queue` verbs, `shuffle`, `loop`/`no-loop`, `leave_channel`, `after_this`). They only call the audio player or the voice channel. `Processes` promises only that they leave the catalogue unchanged; their replies and whether they throw are left free.
- Commands.DiscordPlayer.ProcessCommand: for a playback verb the method replies nothing and does not crash, which is one of the outcomes `Processes` allows. The source may reply (`volume` with no argument) or throw (`queue abc` from a user in a voice channel, `volume +` with no amount, `queue_now`/`queue_playlist` on a bad number or a missing track), and a throw inside `{ … }` stops the later parts; these depend on the audio player and the caller's voice channel, which are not part of this model. `quit` is modelled as ending the run (a crash) with no reply and no change to the catalogue; the shutdown itself (`db.close`, `logout`, `exitProcess`) is not.
- `load` and `load_youtube` need the network. `ProcessCommand` takes it as a parameter `net` that gives, for a link, the connection's answer, the existing file names and whether the file decodes; `Commands.DiscordPlayer.LoadFile` runs on that. `Processes` promises for these verbs only that a missing argument crashes, that the playlists stay, and that the music list either stays or gains one track as `addFile` gives it; which of these happens and the replies depend on the network and are left free.
- Commands.DiscordPlayer.Load: its contract states the store step only; the replies for a given network answer are stated by `Commands.DiscordPlayer.LoadFile`, which it calls on the link (with the `youtubeinmp3` prefix for `load_youtube`).
- The download itself: the stream copy, the progress thread with its floating-point rounding and sleeps, the audio decode check, and deleting an unsupported file.
- File-system effects: `Files.move` in `file`/`move`/`rename`, the delete in `remove`, and the directory listing of `populateDB`. The listing is a parameter, and the paths are taken as already relative to the music folder, with no path normalisation. In particular an empty file name (a link ending in `/` with no usable `Content-Disposition`) names the music folder itself in the source, which exists, so the source retries with `<folder name>(1)`; `Download.FreeName` checks the empty name against the file names only.
- MapDB persistence: transactions, `commit`, `close` and the atomic counters, which are plain fields here. MapDB hands out copies of stored objects. Because of that, the in-place cascade of `remove` over the playlists would not be stored. The model keeps the cascade's in-memory intent.
- The store holds playlists as a map from index to playlist. The source uses a hash set whose equality is on index and name. Indices stay unique, so this loses nothing: `Library.PlaylistsDistinct` proves that no two stored playlists are `equals`.
- Codec.DataOutput.WriteUTF: the two-byte length prefix counts characters and each character takes three bytes. Real modified UTF-8 uses one to three bytes per character. The refusal of more than 65535 encoded bytes is the rule of `java.io.DataOutputStream.writeUTF`; MapDB's `DataOutput2` is not part of this model, and the model assumes it refuses the same strings.
- Text.Lower: case mapping is ASCII only; `toLowerCase` also maps non-ASCII letters.
- Text.ParseInt: only the ASCII digits `0`-`9` are digits. Kotlin's `toInt` takes any Unicode decimal digit (`Character.digit`), so `remove １` with U+FF11 removes track 1 in the source and crashes in the model.
- Commands.DiscordPlayer.Retag: for `file`/`move`/`rename` the source removes the record before `Files.move`, so a move that throws drops the track from the catalogue and crashes; the model takes every move as succeeding. The stored path is also the new name as typed, where the source stores `File(musicFolder, newName).relativeTo(musicFolder).path`, which normalises separators and resolves against the folder.
- Other string operations (`drop`, `substringAfter`, `split`, `trim`) work on characters here and on UTF-16 code units in the source. They give the same results because they never split a character above U+FFFF; only the `find` limit counts length, and `Commands.Shown` counts it in code units.
- The older copy in Main.kt duplicates `addFile`, `removeFile`, `remove` and the retag verbs. That code is the same as the current version and is modelled once. `Main.kt` also has no content-type gate, and its `loadFile` differs only in the size limit, which `StaleMain.StaleSizeGate` models.
- `Utils.kt` (stream reading) and `DiscordClient.kt` (configuration loading) are I/O only.
