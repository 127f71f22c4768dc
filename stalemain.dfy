// The older copy of the player kept in Main.kt. It redeclares the same
// classes; only the behaviour that differs from the current version is
// modelled here, next to the current definitions it replaces.

module StaleMain {
  import opened Options
  import opened Text
  import opened Records
  import opened Collections
  import Commands
  import Download

  // ---------------------------------------------------------------------
  // The display

  /** `MusicFile.toString()` of this version: no sanitising, placeholders for missing tags. */
  function StaleDisplay(m: MusicFile): string {
    IntToString(m.index) + ": " + m.artist.GetOr("Unknown Artist") + " - "
    + m.name.GetOr("Unknown Track") + " (" + m.path + ")"
  }

  /**
   * The display starts with the index and ends with the whole path in
   * parentheses, and a missing tag shows as its placeholder.
   */
  lemma StaleDisplayShape(m: MusicFile)
    ensures var r := StaleDisplay(m);
      var digits := IntToString(m.index);
      && r[..|digits|] == digits
      && r[|digits|..|digits| + 2] == ": "
      && r[|r| - |m.path| - 3..] == " (" + m.path + ")"
    ensures m.artist.None? ==> Contains(StaleDisplay(m), "Unknown Artist")
    ensures m.name.None? ==> Contains(StaleDisplay(m), "Unknown Track")
  {
    StaleDisplayEnds(m);
    if m.artist.None? {
      UnknownArtistShown(m);
    }
    if m.name.None? {
      UnknownTrackShown(m);
    }
  }

  lemma StaleDisplayEnds(m: MusicFile)
    ensures var r := StaleDisplay(m);
      var digits := IntToString(m.index);
      && r[..|digits|] == digits
      && r[|digits|..|digits| + 2] == ": "
      && r[|r| - |m.path| - 3..] == " (" + m.path + ")"
  {
    var digits := IntToString(m.index);
    var r := StaleDisplay(m);
    var front := digits + ": " + m.artist.GetOr("Unknown Artist") + " - " + m.name.GetOr("Unknown Track");
    assert r == front + (" (" + m.path + ")");
    assert r[..|digits|] == digits;
    assert r[|digits|..|digits| + 2] == ": ";
  }

  lemma UnknownArtistShown(m: MusicFile)
    requires m.artist.None?
    ensures Contains(StaleDisplay(m), "Unknown Artist")
  {
    var digits := IntToString(m.index);
    var r := StaleDisplay(m);
    var back := " - " + m.name.GetOr("Unknown Track") + " (" + m.path + ")";
    assert r == digits + ": " + "Unknown Artist" + back;
    assert OccursAt(r, "Unknown Artist", |digits| + 2);
  }

  lemma UnknownTrackShown(m: MusicFile)
    requires m.name.None?
    ensures Contains(StaleDisplay(m), "Unknown Track")
  {
    var r := StaleDisplay(m);
    var before := IntToString(m.index) + ": " + m.artist.GetOr("Unknown Artist") + " - ";
    assert r == before + "Unknown Track" + (" (" + m.path + ")");
    assert r[|before|..|before| + 13] == "Unknown Track";
    assert OccursAt(r, "Unknown Track", |before|);
  }

  /** Like the current display, this one never starts with `N`. */
  lemma StaleDisplayHead(m: MusicFile)
    ensures StaleDisplay(m) != [] && StaleDisplay(m)[0] != 'N'
  {
    var digits := IntToString(m.index);
    assert StaleDisplay(m)[0] == digits[0];
    if m.index < 0 {
      assert digits[0] == '-';
    } else {
      assert IsAsciiDigit(digits[0]);
    }
  }

  // ---------------------------------------------------------------------
  // find

  /** `replace("[^A-Za-z0-9]".toRegex(), "")` */
  function KeepAlnum(s: string): (r: string)
    ensures |r| <= |s|
    ensures forall i :: 0 <= i < |r| ==> IsAsciiAlnum(r[i])
    ensures forall c :: c in r <==> c in s && IsAsciiAlnum(c)
  {
    if s == [] then []
    else (if IsAsciiAlnum(s[0]) then [s[0]] else []) + KeepAlnum(s[1..])
  }

  /** Text that is already alphanumeric is left as it is. */
  lemma {:induction false} KeepAlnumOfAlnum(s: string)
    requires forall i :: 0 <= i < |s| ==> IsAsciiAlnum(s[i])
    ensures KeepAlnum(s) == s
  {
    if s != [] {
      KeepAlnumOfAlnum(s[1..]);
    }
  }

  /**
   * The key is lowercased before the punctuation is removed, the display
   * after; with ASCII case mapping the two orders give the same text.
   */
  lemma {:induction false} LowerKeepAlnumCommute(s: string)
    ensures Lower(KeepAlnum(s)) == KeepAlnum(Lower(s))
  {
    if s != [] {
      LowerKeepAlnumCommute(s[1..]);
      assert Lower(s)[1..] == Lower(s[1..]);
      assert IsAsciiAlnum(s[0]) <==> IsAsciiAlnum(LowerChar(s[0]));
    }
  }

  /** The key: the text after the verb, trimmed, lowercased, with only `[a-z0-9]` left. */
  function StaleFindKey(text: string, verb: string): string {
    KeepAlnum(Lower(Commands.TextAfter(text, verb)))
  }

  /** The key holds only digits and lowercase letters, and it is blank exactly when it is empty. */
  lemma StaleFindKeyShape(text: string, verb: string)
    ensures var key := StaleFindKey(text, verb);
      && (forall i :: 0 <= i < |key| ==> IsAsciiDigit(key[i]) || IsAsciiLower(key[i]))
      && (IsBlank(key) <==> key == [])
  {
    var lowered := Lower(Commands.TextAfter(text, verb));
    var key := KeepAlnum(lowered);
    LowerHasNoUpper(Commands.TextAfter(text, verb));
    forall i | 0 <= i < |key|
      ensures IsAsciiDigit(key[i]) || IsAsciiLower(key[i])
    {
      assert key[i] in lowered;
    }
    AlnumBlank(key);
  }

  /** After lower-casing no ASCII capital is left. */
  lemma LowerHasNoUpper(s: string)
    ensures forall c :: c in Lower(s) ==> !IsAsciiUpper(c)
  {
    var lowered := Lower(s);
    forall c | c in lowered
      ensures !IsAsciiUpper(c)
    {
      var j :| 0 <= j < |lowered| && lowered[j] == c;
      assert c == LowerChar(s[j]);
    }
  }

  /** Letters and digits are not whitespace, so such a string is blank only when empty. */
  lemma AlnumBlank(key: string)
    requires forall i :: 0 <= i < |key| ==> IsAsciiAlnum(key[i])
    ensures IsBlank(key) <==> key == []
  {
    if key != [] {
      assert IsAsciiAlnum(key[0]) && !IsWhitespace(key[0]);
    }
  }

  /** `key in it.toString().replace(...).toLowerCase()` */
  predicate StaleMatches(m: MusicFile, key: string) {
    Contains(Lower(KeepAlnum(StaleDisplay(m))), key)
  }

  /** `musicList.filter { ... }`, over the order the set is iterated in. */
  function StaleFilter(order: seq<MusicFile>, key: string): (r: seq<MusicFile>)
    ensures forall m :: m in r <==> m in order && StaleMatches(m, key)
    ensures |r| <= |order|
  {
    if order == [] then []
    else (if StaleMatches(order[0], key) then [order[0]] else []) + StaleFilter(order[1..], key)
  }

  /** `joinToString(separator = sep)` */
  function JoinWith(pieces: seq<string>, sep: string): string {
    if pieces == [] then []
    else if |pieces| == 1 then pieces[0]
    else pieces[0] + sep + JoinWith(pieces[1..], sep)
  }

  /** Every piece shows up in the joined text. */
  lemma {:induction false} JoinWithContains(pieces: seq<string>, sep: string, k: nat)
    requires k < |pieces|
    ensures Contains(JoinWith(pieces, sep), pieces[k])
    decreases k
  {
    var joined := JoinWith(pieces, sep);
    if k == 0 {
      assert OccursAt(joined, pieces[0], 0);
    } else {
      var rest := JoinWith(pieces[1..], sep);
      JoinWithContains(pieces[1..], sep, k - 1);
      ContainsInMiddle(pieces[0] + sep, rest, [], pieces[k]);
      assert joined == pieces[0] + sep + rest + [];
    }
  }

  function StaleDisplays(ms: seq<MusicFile>): (r: seq<string>)
    ensures |r| == |ms| && forall k :: 0 <= k < |ms| ==> r[k] == StaleDisplay(ms[k])
  {
    seq(|ms|, k requires 0 <= k < |ms| => StaleDisplay(ms[k]))
  }

  const NO_QUERY_REPLY: string := "No search query provided"

  /** The reply to the matches found: no length limit in this version. */
  function StaleFindReply(found: seq<MusicFile>): string {
    if found == [] then Commands.NOT_FOUND_REPLY
    else
      NatToString(|found|) + " match" + (if |found| > 1 then "es" else "") + " found:"
      + "```\n  " + JoinWith(StaleDisplays(found), "\n  ") + "\n```"
  }

  /** The whole `find` reply, given the order the tracks are iterated in. */
  function StaleFind(text: string, verb: string, order: seq<MusicFile>): string {
    var key := StaleFindKey(text, verb);
    if IsBlank(key) then NO_QUERY_REPLY else StaleFindReply(StaleFilter(order, key))
  }

  /**
   * The three kinds of reply: no query exactly when the key is empty, no
   * match exactly when the key is given and no track matches it, and
   * otherwise a listing that names every match.
   */
  lemma StaleFindReplies(text: string, verb: string, order: seq<MusicFile>)
    ensures var key := StaleFindKey(text, verb);
      var reply := StaleFind(text, verb, order);
      && (reply == NO_QUERY_REPLY <==> key == [])
      && (reply == Commands.NOT_FOUND_REPLY <==> key != [] && forall m :: m in order ==> !StaleMatches(m, key))
      && (key != [] ==> forall m :: m in order && StaleMatches(m, key) ==> Contains(reply, StaleDisplay(m)))
  {
    var key := StaleFindKey(text, verb);
    var reply := StaleFind(text, verb, order);
    StaleFindKeyShape(text, verb);
    FixedRepliesDiffer();
    if key != [] {
      var found := StaleFilter(order, key);
      assert reply == StaleFindReply(found);
      if found != [] {
        FoundReplyHead(found);
        assert found[0] in order && StaleMatches(found[0], key);
        StaleMatchesListed(order, key);
      } else {
        assert reply == Commands.NOT_FOUND_REPLY;
      }
    } else {
      assert reply == NO_QUERY_REPLY;
    }
  }

  lemma FixedRepliesDiffer()
    ensures NO_QUERY_REPLY != Commands.NOT_FOUND_REPLY
  {
    assert NO_QUERY_REPLY[3] != Commands.NOT_FOUND_REPLY[3];
  }

  /** A reply that lists matches opens with their count, so it is neither fixed reply. */
  lemma FoundReplyHead(found: seq<MusicFile>)
    requires found != []
    ensures StaleFindReply(found) != NO_QUERY_REPLY && StaleFindReply(found) != Commands.NOT_FOUND_REPLY
  {
    var digits := NatToString(|found|);
    var reply := StaleFindReply(found);
    assert reply[0] == digits[0] && IsAsciiDigit(digits[0]);
    assert reply[0] != NO_QUERY_REPLY[0] && reply[0] != Commands.NOT_FOUND_REPLY[0];
  }

  lemma StaleMatchesListed(order: seq<MusicFile>, key: string)
    ensures forall m :: m in order && StaleMatches(m, key) ==> Contains(StaleFindReply(StaleFilter(order, key)), StaleDisplay(m))
  {
    var found := StaleFilter(order, key);
    forall m | m in order && StaleMatches(m, key)
      ensures Contains(StaleFindReply(found), StaleDisplay(m))
    {
      StaleMatchListed(found, m);
    }
  }

  /** An occurrence inside `mid` is an occurrence inside `front + mid + back`. */
  lemma ContainsInMiddle(front: string, mid: string, back: string, pat: string)
    requires Contains(mid, pat)
    ensures Contains(front + mid + back, pat)
  {
    var i: nat :| i <= |mid| && OccursAt(mid, pat, i);
    var whole := front + mid + back;
    assert whole[|front| + i..|front| + i + |pat|] == mid[i..i + |pat|];
    assert OccursAt(whole, pat, |front| + i);
  }

  /** A track of a non-empty result shows up in the reply. */
  lemma StaleMatchListed(found: seq<MusicFile>, m: MusicFile)
    requires m in found
    ensures Contains(StaleFindReply(found), StaleDisplay(m))
  {
    var k :| 0 <= k < |found| && found[k] == m;
    var lines := StaleDisplays(found);
    JoinWithContains(lines, "\n  ", k);
    var front := NatToString(|found|) + " match" + (if |found| > 1 then "es" else "") + " found:" + "```\n  ";
    ContainsInMiddle(front, JoinWith(lines, "\n  "), "\n```", lines[k]);
  }

  /** The reply starts with the count and says "matches" exactly when there are several. */
  lemma StaleFindReplyShape(found: seq<MusicFile>)
    requires found != []
    ensures var reply := StaleFindReply(found);
      var n := |NatToString(|found|)|;
      && reply[..n] == NatToString(|found|)
      && (reply[n + 6] == 'e' <==> |found| > 1)
      && reply[|reply| - 4..] == "\n```"
  {
    var digits := NatToString(|found|);
    var plural := if |found| > 1 then "es" else "";
    var front := digits + " match" + plural + " found:" + "```\n  ";
    var list := JoinWith(StaleDisplays(found), "\n  ");
    var reply := StaleFindReply(found);
    assert reply == front + list + "\n```";
    HeaderShape(digits, plural);
    Around(front, list, "\n```");
    assert reply[..|digits|] == front[..|digits|];
  }

  /** The header of a listing: the count, then " match", then the plural ending. */
  lemma HeaderShape(digits: string, plural: string)
    requires plural == "es" || plural == ""
    ensures var front := digits + " match" + plural + " found:" + "```\n  ";
      && |front| > |digits| + 6
      && front[..|digits|] == digits
      && front[|digits| + 6] == (if plural == "es" then 'e' else ' ')
  {
  }

  /** The first part and the last part of a three-part concatenation. */
  lemma Around(a: string, b: string, c: string)
    ensures (a + b + c)[..|a|] == a && (a + b + c)[|a| + |b|..] == c
    ensures forall i :: 0 <= i < |a| ==> (a + b + c)[i] == a[i]
  {
  }

  // ---------------------------------------------------------------------
  // The size gate

  /** The size limit of this version: 15 MiB. */
  const STALE_MAX_LENGTH: int := 15 * Download.MIB

  const STALE_TOO_LARGE_REPLY: string := "File is larger than 15 MB, try different format or reduce bitrate"

  /**
   * The refusal of the size gate, checked after the name is taken from the
   * `Content-Disposition` header or the link, and before the free file name
   * is chosen;
   * `None` lets the download go on.
   */
  function StaleSizeGate(length: int): (r: Option<string>)
    ensures r.Some? ==> r.value == STALE_TOO_LARGE_REPLY
  {
    if Download.TooLarge(length, STALE_MAX_LENGTH) then Some(STALE_TOO_LARGE_REPLY) else None
  }

  /**
   * Exactly the lengths above 15728640 bytes are refused, an unknown length
   * passes, and everything the current 64 MiB gate refuses is refused here too.
   */
  lemma StaleSizeGateBounds(length: int)
    ensures StaleSizeGate(length).Some? <==> length > 15728640
    ensures StaleSizeGate(-1).None?
    ensures Download.TooLarge(length, Download.MAX_LENGTH) ==> StaleSizeGate(length).Some?
  {
  }

  // ---------------------------------------------------------------------
  // response

  /** `response(progress)` of this version, drawn with U+25A0. */
  function StaleResponse(progress: int): Option<string> {
    Download.Progress("\U{25A0}", progress)
  }

  /**
   * Every bar has the same length, and position `i` of the bar is filled
   * exactly when `i < p`.
   */
  lemma StaleResponseBar(p: int)
    requires 0 <= p <= 5
    ensures var r := StaleResponse(p);
      && r.Some? && |r.value| == 23
      && var bar := r.value[16..21];
      forall i :: 0 <= i < 5 ==> (bar[i] == '\U{25A0}' <==> i < p)
  {
    var filled := Download.Repeat("\U{25A0}", p);
    var blank := Download.Repeat(" ", 5 - p);
    RepeatChar('\U{25A0}', p);
    RepeatChar(' ', 5 - p);
    var r := StaleResponse(p).value;
    assert r == "Loading file: `[" + (filled + blank) + "]`";
    assert r[16..21] == filled + blank;
  }

  lemma {:induction false} RepeatChar(c: char, n: nat)
    ensures forall i :: 0 <= i < n ==> Download.Repeat([c], n)[i] == c
  {
    if n > 0 {
      RepeatChar(c, n - 1);
      assert Download.Repeat([c], n) == [c] + Download.Repeat([c], n - 1);
    }
  }

  /** Different progress values give different texts. */
  lemma StaleResponsesDiffer(p: int, q: int)
    requires 0 <= p <= 5 && 0 <= q <= 5 && p != q
    ensures StaleResponse(p) != StaleResponse(q)
  {
    StaleResponseBar(p);
    StaleResponseBar(q);
    var i := if p < q then p else q;
    assert StaleResponse(p).value[16..21][i] != StaleResponse(q).value[16..21][i];
  }

  // ---------------------------------------------------------------------
  // list

  /** `list` of this version: the tracks by index, in this version's display. */
  function StaleList(order: seq<MusicFile>): string {
    Commands.SortedListing(order, Commands.TrackIndex, StaleDisplay)
  }

  /** "No playlists available" exactly when there are no tracks. */
  lemma StaleListEmpty(order: seq<MusicFile>)
    ensures StaleList(order) == Commands.NO_PLAYLISTS <==> order == []
  {
    forall m: MusicFile
      ensures StaleDisplay(m) != [] && StaleDisplay(m)[0] != 'N'
    {
      StaleDisplayHead(m);
    }
    Commands.SortedListingEmpty(order, Commands.TrackIndex, StaleDisplay);
  }

  /** With unique indices the listing does not depend on the iteration order. */
  lemma StaleListDeterministic(a: seq<MusicFile>, b: seq<MusicFile>, files: set<MusicFile>)
    requires IsOrderOf(a, files) && IsOrderOf(b, files)
    requires forall x, y | x in files && y in files && x.index == y.index :: x == y
    ensures StaleList(a) == StaleList(b)
  {
    Commands.SortedListingDeterministic(a, b, files, Commands.TrackIndex, StaleDisplay);
  }
}
