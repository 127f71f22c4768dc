/**
 * The two catalogue records, `MusicFile` and `Playlist`, and their display
 * strings (`toString`).
 */
module Records {
  import opened Options
  import Text

  /** A catalogued track; `artist` and `name` are Kotlin `String?`. */
  datatype MusicFile = MusicFile(index: int, artist: Option<string>, name: Option<string>, path: string)

  /**
   * A playlist. The Kotlin data class has only `index` and `name` in its
   * constructor; `tracks` is declared in the class body, so `equals` and
   * `hashCode` ignore it (see `Equals`).
   */
  datatype Playlist = Playlist(index: int, name: string, tracks: set<int>) {
    /** The data-class `equals`: index and name only. */
    predicate Equals(other: Playlist) {
      index == other.index && name == other.name
    }
  }

  /** `Playlist(index, name)`: the track set starts empty. */
  function NewPlaylist(index: int, name: string): (p: Playlist)
    ensures p.index == index && p.name == name && p.tracks == {}
  {
    Playlist(index, name, {})
  }

  /** Two playlists that differ only in their tracks are equal. */
  lemma EqualsIgnoresTracks(p: Playlist, tracks: set<int>)
    ensures p.Equals(p.(tracks := tracks)) && p.(tracks := tracks).Equals(p)
    ensures p.Equals(NewPlaylist(p.index, p.name))
  {
  }

  // ---------------------------------------------------------------------
  // MusicFile.toString: the file name shown for a track

  /** `\p{Print}` in a Java regex without the Unicode flag: 0x20 to 0x7E. */
  predicate IsPrintable(c: char) { ' ' <= c <= '~' }

  predicate AllPrintable(s: string) {
    forall i :: 0 <= i < |s| ==> IsPrintable(s[i])
  }

  /** The length of the run of non-printable characters that starts `s`. */
  function UnprintableRun(s: string): (n: nat)
    ensures n <= |s|
    ensures forall i :: 0 <= i < n ==> !IsPrintable(s[i])
    ensures n < |s| ==> IsPrintable(s[n])
  {
    if s == [] || IsPrintable(s[0]) then 0 else 1 + UnprintableRun(s[1..])
  }

  /** `replace("[^\\p{Print}]+".toRegex(), "#")`: each maximal run becomes one `#`. */
  function CollapseUnprintable(s: string): (r: string)
    ensures AllPrintable(r)
    ensures |r| <= |s|
    decreases |s|
  {
    if s == [] then []
    else if IsPrintable(s[0]) then [s[0]] + CollapseUnprintable(s[1..])
    else "#" + CollapseUnprintable(s[UnprintableRun(s)..])
  }

  /** A block of non-printable characters followed by a printable one (or nothing) is one run. */
  lemma {:induction false} RunOfBlock(u: string, q: string)
    requires forall i :: 0 <= i < |u| ==> !IsPrintable(u[i])
    requires q == [] || IsPrintable(q[0])
    ensures UnprintableRun(u + q) == |u|
  {
    if u != [] {
      assert (u + q)[1..] == u[1..] + q;
      RunOfBlock(u[1..], q);
    } else {
      assert u + q == q;
    }
  }

  /**
   * The collapse, run by run: a printable prefix is kept as it is, and a
   * maximal run `u` of non-printable characters after it becomes exactly one
   * `#`, with the rest collapsed in turn.
   */
  lemma {:induction false} CollapseRun(p: string, u: string, q: string)
    requires AllPrintable(p)
    requires u != [] && forall i :: 0 <= i < |u| ==> !IsPrintable(u[i])
    requires q == [] || IsPrintable(q[0])
    ensures CollapseUnprintable(p + u + q) == p + "#" + CollapseUnprintable(q)
    decreases |p|
  {
    if p != [] {
      assert (p + u + q)[0] == p[0] && (p + u + q)[1..] == p[1..] + u + q;
      CollapseRun(p[1..], u, q);
      assert p == [p[0]] + p[1..];
    } else {
      assert p + u + q == u + q;
      RunOfBlock(u, q);
      assert (u + q)[|u|..] == q;
    }
  }

  /** The characters of `s` that are printable and not `#`, in order. */
  function PlainChars(s: string): string {
    if s == [] then []
    else (if IsPrintable(s[0]) && s[0] != '#' then [s[0]] else []) + PlainChars(s[1..])
  }

  lemma {:induction false} PlainCharsAppend(a: string, b: string)
    ensures PlainChars(a + b) == PlainChars(a) + PlainChars(b)
  {
    if a != [] {
      assert (a + b)[0] == a[0] && (a + b)[1..] == a[1..] + b;
      PlainCharsAppend(a[1..], b);
      var head := if IsPrintable(a[0]) && a[0] != '#' then [a[0]] else [];
      assert PlainChars(a + b) == head + PlainChars(a[1..] + b);
      assert PlainChars(a) == head + PlainChars(a[1..]);
      assert head + (PlainChars(a[1..]) + PlainChars(b)) == (head + PlainChars(a[1..])) + PlainChars(b);
    } else {
      assert a + b == b;
    }
  }

  lemma {:induction false} PlainCharsOfRun(s: string, n: nat)
    requires n <= |s|
    requires forall i :: 0 <= i < n ==> !IsPrintable(s[i])
    ensures PlainChars(s) == PlainChars(s[n..])
  {
    if n > 0 {
      PlainCharsOfRun(s[1..], n - 1);
      assert s[1..][n - 1..] == s[n..];
    }
  }

  /**
   * Collapsing only inserts `#`: every printable character other than `#`
   * survives, in order, and nothing else does.
   */
  lemma {:induction false} CollapseKeepsPlainChars(s: string)
    ensures PlainChars(CollapseUnprintable(s)) == PlainChars(s)
    decreases |s|
  {
    if s != [] {
      if IsPrintable(s[0]) {
        CollapseKeepsPlainChars(s[1..]);
        PlainCharsAppend([s[0]], CollapseUnprintable(s[1..]));
      } else {
        var n := UnprintableRun(s);
        CollapseKeepsPlainChars(s[n..]);
        PlainCharsAppend("#", CollapseUnprintable(s[n..]));
        PlainCharsOfRun(s, n);
      }
    }
  }

  /** A path that is already printable is left as it is. */
  lemma {:induction false} CollapsePrintable(s: string)
    requires AllPrintable(s)
    ensures CollapseUnprintable(s) == s
  {
    if s != [] {
      CollapsePrintable(s[1..]);
    }
  }

  /**
   * `replace(".mp3$".toRegex(), "")` on a printable string: the dot is not
   * escaped, so any character followed by `mp3` at the very end is removed.
   * (The input has no line terminators, so `.` matches every character and
   * `$` is the end of the text.)
   */
  function StripMp3(s: string): (r: string)
    requires AllPrintable(s)
  {
    if |s| >= 4 && s[|s| - 3..] == "mp3" then s[..|s| - 4] else s
  }

  const SAVE_FROM: string := "[SaveFrom.online]"

  /** `replace(Regex.escape(pat), "")`: every non-overlapping occurrence, left to right. */
  function RemoveAll(s: string, pat: string): (r: string)
    requires pat != []
    ensures |r| <= |s|
    ensures forall i :: 0 <= i < |r| ==> r[i] in s
    decreases |s|
  {
    if |s| < |pat| then s
    else if s[..|pat|] == pat then RemoveAll(s[|pat|..], pat)
    else [s[0]] + RemoveAll(s[1..], pat)
  }

  /** When `pat` does not occur, nothing is removed. */
  lemma {:induction false} RemoveAllAbsent(s: string, pat: string)
    requires pat != [] && !Text.Contains(s, pat)
    ensures RemoveAll(s, pat) == s
    decreases |s|
  {
    if |s| >= |pat| {
      assert !Text.OccursAt(s, pat, 0);
      if !Text.Contains(s[1..], pat) {
        RemoveAllAbsent(s[1..], pat);
      } else {
        var i: nat :| i <= |s[1..]| && Text.OccursAt(s[1..], pat, i);
        assert s[1 + i..1 + i + |pat|] == s[1..][i..i + |pat|];
        assert Text.OccursAt(s, pat, 1 + i);
        assert false;
      }
    }
  }

  /** The `fileName` computed in `MusicFile.toString`. */
  function FileName(path: string): (r: string)
    ensures AllPrintable(r)
  {
    var collapsed := CollapseUnprintable(path);
    RemoveAll(StripMp3(collapsed), SAVE_FROM)
  }

  /** `MusicFile.toString()` */
  function Display(m: MusicFile): string {
    Text.IntToString(m.index) + ": "
    + if m.artist.None? && m.name.None? then FileName(m.path)
      else m.artist.GetOr("") + " " + m.name.GetOr("") + " (" + FileName(m.path) + ")"
  }

  /** Characters that cannot start the pattern are kept as they are. */
  lemma {:induction false} RemoveAllKeeps(x: string, t: string, pat: string)
    requires pat != [] && pat[0] !in x
    ensures RemoveAll(x + t, pat) == x + RemoveAll(t, pat)
  {
    if x != [] {
      var s := x + t;
      assert s[0] == x[0] && s[1..] == x[1..] + t;
      RemoveAllStep(s, pat);
      RemoveAllKeeps(x[1..], t, pat);
      ConsAppend(x, RemoveAll(t, pat));
    } else {
      assert x + t == t;
    }
  }

  lemma ConsAppend(x: string, r: string)
    requires x != []
    ensures x + r == [x[0]] + (x[1..] + r)
  {
    assert x == [x[0]] + x[1..];
  }

  /** A first character that cannot start the pattern is kept. */
  lemma RemoveAllStep(s: string, pat: string)
    requires pat != [] && s != [] && s[0] != pat[0]
    ensures RemoveAll(s, pat) == [s[0]] + RemoveAll(s[1..], pat)
  {
    if |s| < |pat| {
      assert RemoveAll(s[1..], pat) == s[1..];
      assert s == [s[0]] + s[1..];
    } else {
      assert s[..|pat|][0] == s[0];
    }
  }

  /** The marker at the end of a name with no `[` is removed, and nothing else is. */
  lemma RemoveMarkerAtEnd(x: string)
    requires '[' !in x
    ensures RemoveAll(x + SAVE_FROM, SAVE_FROM) == x
  {
    assert SAVE_FROM[..|SAVE_FROM|] == SAVE_FROM;
    assert RemoveAll(SAVE_FROM, SAVE_FROM) == RemoveAll([], SAVE_FROM) == [];
    RemoveAllKeeps(x, SAVE_FROM, SAVE_FROM);
    assert x + [] == x;
  }

  /**
   * A printable name with no `[` that ends in one character and `mp3` shows
   * without those four characters: `.mp3`, but also `xmp3`, since the dot
   * of the pattern is not escaped.
   */
  lemma Mp3Stripped(x: string, c: char)
    requires AllPrintable(x) && IsPrintable(c) && '[' !in x
    ensures FileName(x + [c] + "mp3") == x
  {
    var s := x + [c] + "mp3";
    assert AllPrintable(s) by {
      forall i | 0 <= i < |s|
        ensures IsPrintable(s[i])
      {
        if i > |x| {
          assert s[i] == "mp3"[i - |x| - 1];
        }
      }
    }
    CollapsePrintable(s);
    assert s[|s| - 3..] == "mp3" && s[..|s| - 4] == x;
    NoMarkerIn(x);
    RemoveAllAbsent(x, SAVE_FROM);
  }

  /** A string with no `[` does not hold the marker, which starts with one. */
  lemma NoMarkerIn(x: string)
    requires '[' !in x
    ensures !Text.Contains(x, SAVE_FROM)
  {
    forall i: nat | i <= |x|
      ensures !Text.OccursAt(x, SAVE_FROM, i)
    {
      if i + |SAVE_FROM| <= |x| {
        assert x[i..i + |SAVE_FROM|][0] == x[i] != '[';
      }
    }
  }

  /**
   * A printable name with no `[` followed by the marker shows as the name:
   * the marker ends in `]`, so no `mp3` suffix is stripped first, and the
   * marker is then removed. An `.mp3` before the marker survives.
   */
  lemma MarkerStripped(x: string)
    requires AllPrintable(x) && '[' !in x
    ensures FileName(x + SAVE_FROM) == x
  {
    var s := x + SAVE_FROM;
    assert AllPrintable(s) by {
      forall i | 0 <= i < |s|
        ensures IsPrintable(s[i])
      {
        if i >= |x| {
          assert s[i] == SAVE_FROM[i - |x|];
        }
      }
    }
    CollapsePrintable(s);
    assert s[|s| - 3..] == SAVE_FROM[|SAVE_FROM| - 3..] == "ne]";
    assert StripMp3(s) == s;
    RemoveMarkerAtEnd(x);
  }

  /**
   * The display starts with the index and a colon, so the index can be read
   * back from it; this is how users find the number to give `remove`.
   */
  lemma DisplayStartsWithIndex(m: MusicFile)
    requires Text.IsInt32(m.index)
    ensures Text.ParseInt(Text.SubstringBefore(Display(m), ':')) == Some(m.index)
  {
    var prefix := Text.IntToString(m.index);
    var rest := DisplayAfterIndex(m);
    NoColonInNumber(m.index);
    SubstringBeforeAppend(prefix, rest, ':');
    Text.ParseIntToString(m.index);
  }

  /** What `toString` writes after the index opens with the colon. */
  lemma DisplayAfterIndex(m: MusicFile) returns (rest: string)
    ensures Display(m) == Text.IntToString(m.index) + rest && rest != [] && rest[0] == ':'
  {
    var shown := if m.artist.None? && m.name.None? then FileName(m.path)
      else m.artist.GetOr("") + " " + m.name.GetOr("") + " (" + FileName(m.path) + ")";
    rest := ": " + shown;
  }

  lemma NoColonInNumber(x: int)
    ensures ':' !in Text.IntToString(x)
  {
    var r := Text.IntToString(x);
    forall i | 0 <= i < |r|
      ensures r[i] != ':'
    {
      if x < 0 && i > 0 {
        assert r[i] == Text.NatToString(-x)[i - 1];
      }
    }
  }

  lemma {:induction false} SubstringBeforeAppend(a: string, b: string, c: char)
    requires c !in a && b != [] && b[0] == c
    ensures Text.SubstringBefore(a + b, c) == a
  {
    if a != [] {
      assert (a + b)[1..] == a[1..] + b;
      SubstringBeforeAppend(a[1..], b, c);
    }
  }

  /** `Playlist.toString()` */
  function PlaylistDisplay(p: Playlist): string {
    Text.IntToString(p.index) + ": " + p.name + " (" + Text.IntToString(|p.tracks|)
    + " track" + (if |p.tracks| != 1 then "s" else "") + ")"
  }

  /** The plural `s` is there exactly when the playlist does not hold one track. */
  lemma PlaylistDisplayPlural(p: Playlist)
    ensures var d := PlaylistDisplay(p); |d| >= 2 && (d[|d| - 2] == 's' <==> |p.tracks| != 1)
  {
    var d := PlaylistDisplay(p);
    var n := Text.IntToString(|p.tracks|);
    assert d == Text.IntToString(p.index) + ": " + p.name + " (" + n + " track" + (if |p.tracks| != 1 then "s" else "") + ")";
    if |p.tracks| == 1 {
      assert d[|d| - 2] == 'k';
    }
  }
}
