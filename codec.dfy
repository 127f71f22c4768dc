/**
 * The MapDB serializers of `MusicFile` and `Playlist` (the `Serializer`
 * objects in MusicFile.kt and Playlist.kt), over a byte stream.
 *
 * `writeInt` and `writeBoolean` are modelled byte for byte. `writeUTF` keeps
 * its rule for which strings it refuses (more than 65535 bytes of modified
 * UTF-8) and its two-byte length prefix, but the prefix counts characters and
 * each character is stored as three bytes of its code point.
 */
module Codec {
  import opened Options
  import opened Records
  import opened Collections
  import Text

  type byte = x: int | 0 <= x < 256

  const TWO_32: int := 0x1_0000_0000
  const TWO_31: int := 0x8000_0000

  // ---------------------------------------------------------------------
  // Primitive encodings and their readers

  /** `writeInt`: the low 32 bits, big-endian. */
  function IntBytes(x: int): (r: seq<byte>)
    ensures |r| == 4
  {
    var u := x % TWO_32;
    var q1 := u / 256;
    var q2 := q1 / 256;
    assert q1 < 0x100_0000 && q2 < 0x1_0000;
    [q2 / 256, q2 % 256, q1 % 256, u % 256]
  }

  /** `readInt`: `None` is the end-of-stream exception. */
  function ReadIntAt(bs: seq<byte>, pos: nat): (r: Option<(int, nat)>)
    ensures r.Some? ==> Text.IsInt32(r.value.0) && r.value.1 == pos + 4 <= |bs|
  {
    if pos + 4 > |bs| then None
    else
      var u := ((bs[pos] as int * 256 + bs[pos + 1] as int) * 256 + bs[pos + 2] as int) * 256 + bs[pos + 3] as int;
      Some((if u >= TWO_31 then u - TWO_32 else u, pos + 4))
  }

  lemma IntRoundTrip(x: int, pre: seq<byte>, post: seq<byte>)
    requires Text.IsInt32(x)
    ensures ReadIntAt(pre + IntBytes(x) + post, |pre|) == Some((x, |pre| + 4))
  {
    var bs := pre + IntBytes(x) + post;
    var u := x % TWO_32;
    var q1 := u / 256;
    var q2 := q1 / 256;
    assert bs[|pre|] == q2 / 256 && bs[|pre| + 1] == q2 % 256;
    assert bs[|pre| + 2] == q1 % 256 && bs[|pre| + 3] == u % 256;
    assert (q2 / 256) * 256 + q2 % 256 == q2;
    assert q2 * 256 + q1 % 256 == q1;
    assert q1 * 256 + u % 256 == u;
  }

  /** `writeBoolean` */
  function BoolBytes(b: bool): seq<byte> {
    [if b then 1 else 0]
  }

  /** `readBoolean`: any non-zero byte is `true`. */
  function ReadBoolAt(bs: seq<byte>, pos: nat): (r: Option<(bool, nat)>)
    ensures r.Some? ==> r.value.1 == pos + 1 <= |bs|
  {
    if pos + 1 > |bs| then None else Some((bs[pos] != 0, pos + 1))
  }

  lemma BoolRoundTrip(b: bool, pre: seq<byte>, post: seq<byte>)
    ensures ReadBoolAt(pre + BoolBytes(b) + post, |pre|) == Some((b, |pre| + 1))
  {
    assert (pre + BoolBytes(b) + post)[|pre|] == BoolBytes(b)[0];
  }

  /** The bytes `writeUTF` produces for one character in modified UTF-8. */
  function UtfCharLength(c: char): nat {
    if c == 0 as char then 2
    else if c as int <= 0x7F then 1
    else if c as int <= 0x7FF then 2
    else if c as int <= 0xFFFF then 3
    else 6 // a surrogate pair, three bytes for each half
  }

  /** The modified UTF-8 length that `writeUTF` checks against 65535. */
  function UtfLength(s: string): (n: nat)
    ensures n >= |s|
  {
    if s == [] then 0 else UtfCharLength(s[0]) + UtfLength(s[1..])
  }

  /**
   * The modified-UTF-8 length cap of `java.io.DataOutputStream.writeUTF`,
   * which throws `UTFDataFormatException` unless this holds. The store's
   * `DataOutput2` is taken to refuse the same strings.
   */
  predicate UtfFits(s: string) {
    UtfLength(s) <= 65535
  }

  function CharBytes(c: char): (r: seq<byte>)
    ensures |r| == 3
  {
    var v := c as int;
    [v / 0x1_0000, (v / 256) % 256, v % 256]
  }

  function CharsBytes(s: string): (r: seq<byte>)
    ensures |r| == 3 * |s|
  {
    if s == [] then [] else CharBytes(s[0]) + CharsBytes(s[1..])
  }

  /** `writeUTF` of a string it accepts. */
  function UtfBytes(s: string): (r: seq<byte>)
    requires UtfFits(s)
    ensures |r| == 2 + 3 * |s|
  {
    [|s| / 256, |s| % 256] + CharsBytes(s)
  }

  function ReadCharAt(bs: seq<byte>, pos: nat): (r: Option<(char, nat)>)
    ensures r.Some? ==> r.value.1 == pos + 3 <= |bs|
  {
    if pos + 3 > |bs| then None
    else
      var v := (bs[pos] as int * 256 + bs[pos + 1] as int) * 256 + bs[pos + 2] as int;
      if v < 0xD800 || 0xE000 <= v < 0x11_0000 then Some((v as char, pos + 3)) else None
  }

  function ReadCharsAt(bs: seq<byte>, pos: nat, n: nat): (r: Option<(string, nat)>)
    requires pos <= |bs|
    ensures r.Some? ==> |r.value.0| == n && r.value.1 == pos + 3 * n <= |bs|
    decreases n
  {
    if n == 0 then Some(([], pos))
    else
      var (c, p) :- ReadCharAt(bs, pos);
      var (rest, q) :- ReadCharsAt(bs, p, n - 1);
      Some(([c] + rest, q))
  }

  /** `readUTF` */
  function ReadUtfAt(bs: seq<byte>, pos: nat): (r: Option<(string, nat)>)
    ensures r.Some? ==> r.value.1 == pos + 2 + 3 * |r.value.0| <= |bs|
  {
    if pos + 2 > |bs| then None
    else ReadCharsAt(bs, pos + 2, bs[pos] as int * 256 + bs[pos + 1] as int)
  }

  lemma CharRoundTrip(c: char, pre: seq<byte>, post: seq<byte>)
    ensures ReadCharAt(pre + CharBytes(c) + post, |pre|) == Some((c, |pre| + 3))
  {
    var bs := pre + CharBytes(c) + post;
    var v := c as int;
    assert bs[|pre|] == v / 0x1_0000 && bs[|pre| + 1] == (v / 256) % 256 && bs[|pre| + 2] == v % 256;
    assert (v / 0x1_0000) * 256 + (v / 256) % 256 == v / 256;
    assert (v / 256) * 256 + v % 256 == v;
  }

  lemma {:induction false} CharsRoundTrip(s: string, pre: seq<byte>, post: seq<byte>)
    ensures ReadCharsAt(pre + CharsBytes(s) + post, |pre|, |s|) == Some((s, |pre| + 3 * |s|))
    decreases |s|
  {
    if s != [] {
      var a, rest := CharBytes(s[0]), CharsBytes(s[1..]);
      var bs := pre + CharsBytes(s) + post;
      Regroup2(bs, pre, a, rest, post);
      CharRoundTripIn(bs, pre, s[0], rest + post, |pre|, |pre| + 3);
      CharsRoundTrip(s[1..], pre + a, post);
      CharsStep(bs, |pre|, s, |pre| + 3, |pre| + 3 * |s|);
    }
  }

  lemma CharRoundTripIn(bs: seq<byte>, pre: seq<byte>, c: char, post: seq<byte>, from: nat, to: nat)
    requires bs == pre + CharBytes(c) + post
    requires from == |pre| && to == from + 3
    ensures ReadCharAt(bs, from) == Some((c, to))
  {
    CharRoundTrip(c, pre, post);
  }

  /** One character followed by the rest of the run reads the whole run. */
  lemma CharsStep(bs: seq<byte>, pos: nat, s: string, p: nat, q: nat)
    requires s != [] && pos <= |bs|
    requires ReadCharAt(bs, pos) == Some((s[0], p))
    requires ReadCharsAt(bs, p, |s| - 1) == Some((s[1..], q))
    ensures ReadCharsAt(bs, pos, |s|) == Some((s, q))
  {
    assert [s[0]] + s[1..] == s;
  }

  lemma UtfRoundTrip(s: string, pre: seq<byte>, post: seq<byte>)
    requires UtfFits(s)
    ensures ReadUtfAt(pre + UtfBytes(s) + post, |pre|) == Some((s, |pre| + |UtfBytes(s)|))
  {
    var bs := pre + UtfBytes(s) + post;
    assert bs[|pre|] == |s| / 256 && bs[|pre| + 1] == |s| % 256;
    assert bs == (pre + [|s| / 256, |s| % 256]) + CharsBytes(s) + post;
    CharsRoundTrip(s, pre + [|s| / 256, |s| % 256], post);
  }

  // ---------------------------------------------------------------------
  // MusicFile

  /** Every string of the record is one that `writeUTF` accepts. */
  predicate StringsFit(m: MusicFile) {
    (m.artist.Some? ==> UtfFits(m.artist.value))
    && (m.name.Some? ==> UtfFits(m.name.value))
    && UtfFits(m.path)
  }

  /** A presence flag, then the string only when there is one. */
  function OptionalBytes(s: Option<string>): seq<byte>
    requires s.Some? ==> UtfFits(s.value)
  {
    if s.Some? then BoolBytes(true) + UtfBytes(s.value) else BoolBytes(false)
  }

  /** What `MusicFile.Serializer.serialize` writes; `None` when `writeUTF` throws. */
  function EncodeMusicFile(m: MusicFile): (r: Option<seq<byte>>)
    ensures r.Some? <==> StringsFit(m)
  {
    if !StringsFit(m) then None
    else Some(IntBytes(m.index) + OptionalBytes(m.artist) + OptionalBytes(m.name) + UtfBytes(m.path))
  }

  function ReadOptionalAt(bs: seq<byte>, pos: nat): (r: Option<(Option<string>, nat)>)
    ensures r.Some? ==> pos < r.value.1 <= |bs|
  {
    var (present, p) :- ReadBoolAt(bs, pos);
    if present then
      var (s, q) :- ReadUtfAt(bs, p);
      Some((Some(s), q))
    else Some((None, p))
  }

  /** What `MusicFile.Serializer.deserialize` reads, and where it stops. */
  function DecodeMusicFile(bs: seq<byte>, pos: nat): (r: Option<(MusicFile, nat)>)
    ensures r.Some? ==> pos < r.value.1 <= |bs| && Text.IsInt32(r.value.0.index)
  {
    var (index, p1) :- ReadIntAt(bs, pos);
    var (artist, p2) :- ReadOptionalAt(bs, p1);
    var (name, p3) :- ReadOptionalAt(bs, p2);
    var (path, p4) :- ReadUtfAt(bs, p3);
    Some((MusicFile(index, artist, name, path), p4))
  }

  lemma Assoc(x: seq<byte>, y: seq<byte>, z: seq<byte>)
    ensures (x + y) + z == x + (y + z)
  {
  }

  lemma OptionalRoundTrip(s: Option<string>, pre: seq<byte>, post: seq<byte>)
    requires s.Some? ==> UtfFits(s.value)
    ensures ReadOptionalAt(pre + OptionalBytes(s) + post, |pre|) == Some((s, |pre| + |OptionalBytes(s)|))
  {
    if s.Some? {
      var t, u := BoolBytes(true), UtfBytes(s.value);
      Assoc(pre, t, u);
      Assoc(pre + t, u, post);
      BoolRoundTrip(true, pre, u + post);
      UtfRoundTrip(s.value, pre + t, post);
    } else {
      BoolRoundTrip(false, pre, post);
    }
  }

  /**
   * Reading back what `serialize` wrote gives the same record, wherever the
   * record sits in the stream.
   */
  lemma MusicFileRoundTrip(m: MusicFile, pre: seq<byte>, post: seq<byte>)
    requires StringsFit(m) && Text.IsInt32(m.index)
    ensures var enc := EncodeMusicFile(m).value;
      DecodeMusicFile(pre + enc + post, |pre|) == Some((m, |pre| + |enc|))
  {
    var a := IntBytes(m.index);
    var b := OptionalBytes(m.artist);
    var c := OptionalBytes(m.name);
    var d := UtfBytes(m.path);
    var bs := pre + EncodeMusicFile(m).value + post;
    assert bs == pre + (a + b + c + d) + post;
    Regroup4(bs, pre, a, b, c, d, post);
    var p1, p2, p3 := |pre| + |a|, |pre| + |a| + |b|, |pre| + |a| + |b| + |c|;
    IntRoundTripIn(bs, pre, m.index, b + c + d + post, |pre|, p1);
    OptionalRoundTripIn(bs, pre + a, m.artist, c + d + post, p1, p2);
    OptionalRoundTripIn(bs, pre + a + b, m.name, d + post, p2, p3);
    UtfRoundTripIn(bs, pre + a + b + c, m.path, post, p3, p3 + |d|);
    DecodeSteps(bs, |pre|, m, p1, p2, p3, p3 + |d|);
  }

  /** The ways `MusicFileRoundTrip` groups a serialized record in its stream. */
  lemma Regroup4(bs: seq<byte>, pre: seq<byte>, a: seq<byte>, b: seq<byte>, c: seq<byte>, d: seq<byte>, post: seq<byte>)
    requires bs == pre + (a + b + c + d) + post
    ensures bs == pre + a + (b + c + d + post)
    ensures bs == pre + a + b + (c + d + post)
    ensures bs == pre + a + b + c + (d + post)
    ensures bs == pre + a + b + c + d + post
  {
  }

  lemma IntRoundTripIn(bs: seq<byte>, pre: seq<byte>, x: int, post: seq<byte>, from: nat, to: nat)
    requires Text.IsInt32(x) && bs == pre + IntBytes(x) + post
    requires from == |pre| && to == from + |IntBytes(x)|
    ensures ReadIntAt(bs, from) == Some((x, to))
  {
    IntRoundTrip(x, pre, post);
  }

  lemma OptionalRoundTripIn(bs: seq<byte>, pre: seq<byte>, s: Option<string>, post: seq<byte>, from: nat, to: nat)
    requires s.Some? ==> UtfFits(s.value)
    requires bs == pre + OptionalBytes(s) + post
    requires from == |pre| && to == from + |OptionalBytes(s)|
    ensures ReadOptionalAt(bs, from) == Some((s, to))
  {
    OptionalRoundTrip(s, pre, post);
  }

  lemma UtfRoundTripIn(bs: seq<byte>, pre: seq<byte>, s: string, post: seq<byte>, from: nat, to: nat)
    requires UtfFits(s) && bs == pre + UtfBytes(s) + post
    requires from == |pre| && to == from + |UtfBytes(s)|
    ensures ReadUtfAt(bs, from) == Some((s, to))
  {
    UtfRoundTrip(s, pre, post);
  }

  /** Four successful reads in a row make a successful decode. */
  lemma DecodeSteps(bs: seq<byte>, pos: nat, m: MusicFile, p1: nat, p2: nat, p3: nat, p4: nat)
    requires ReadIntAt(bs, pos) == Some((m.index, p1))
    requires ReadOptionalAt(bs, p1) == Some((m.artist, p2))
    requires ReadOptionalAt(bs, p2) == Some((m.name, p3))
    requires ReadUtfAt(bs, p3) == Some((m.path, p4))
    ensures DecodeMusicFile(bs, pos) == Some((m, p4))
  {
  }

  /**
   * The layout of a serialized record: the index first, a presence flag that
   * is 1 exactly when the artist is set, the artist's string only in that
   * case, then the same for the name, and the path always last.
   */
  lemma MusicFileLayout(m: MusicFile)
    requires StringsFit(m)
    ensures var enc := EncodeMusicFile(m).value;
      var artistLen := if m.artist.Some? then |UtfBytes(m.artist.value)| else 0;
      var nameLen := if m.name.Some? then |UtfBytes(m.name.value)| else 0;
      var pathBytes := UtfBytes(m.path);
      && |enc| == 4 + 1 + artistLen + 1 + nameLen + |pathBytes|
      && enc[..4] == IntBytes(m.index)
      && enc[4] == (if m.artist.Some? then 1 else 0)
      && enc[5 + artistLen] == (if m.name.Some? then 1 else 0)
      && enc[|enc| - |pathBytes|..] == pathBytes
  {
    var enc := EncodeMusicFile(m).value;
    var a := IntBytes(m.index);
    var b := OptionalBytes(m.artist);
    var c := OptionalBytes(m.name);
    var d := UtfBytes(m.path);
    assert enc == a + b + c + d;
    assert enc[4] == b[0];
    assert enc[4 + |b|] == c[0];
    assert enc[|enc| - |d|..] == d;
    assert enc[..4] == a;
  }

  // ---------------------------------------------------------------------
  // Playlist

  function IntsBytes(xs: seq<int>): (r: seq<byte>)
    ensures |r| == 4 * |xs|
  {
    if xs == [] then [] else IntBytes(xs[0]) + IntsBytes(xs[1..])
  }

  /**
   * What `Playlist.Serializer.serialize` writes when it visits the tracks in
   * `order`; `None` when `writeUTF` refuses the name.
   */
  function EncodePlaylist(p: Playlist, order: seq<int>): (r: Option<seq<byte>>)
    requires IsOrderOf(order, p.tracks)
    ensures r.Some? <==> UtfFits(p.name)
  {
    if !UtfFits(p.name) then None
    else Some(IntBytes(p.index) + UtfBytes(p.name) + IntBytes(|p.tracks|) + IntsBytes(order))
  }

  function ReadIntsAt(bs: seq<byte>, pos: nat, n: nat): (r: Option<(seq<int>, nat)>)
    requires pos <= |bs|
    ensures r.Some? ==> |r.value.0| == n && r.value.1 == pos + 4 * n <= |bs|
    decreases n
  {
    if n == 0 then Some(([], pos))
    else
      var (x, p) :- ReadIntAt(bs, pos);
      var (rest, q) :- ReadIntsAt(bs, p, n - 1);
      Some(([x] + rest, q))
  }

  /** A count of zero or less reads no tracks: `(1..count)` is then empty. */
  function Count(x: int): nat {
    if x <= 0 then 0 else x
  }

  /** What `Playlist.Serializer.deserialize` reads, and where it stops. */
  function DecodePlaylist(bs: seq<byte>, pos: nat): (r: Option<(Playlist, nat)>)
    ensures r.Some? ==> pos < r.value.1 <= |bs|
  {
    var (index, p1) :- ReadIntAt(bs, pos);
    var (name, p2) :- ReadUtfAt(bs, p1);
    var (count, p3) :- ReadIntAt(bs, p2);
    var (tracks, p4) :- ReadIntsAt(bs, p3, Count(count));
    Some((Playlist(index, name, Elements(tracks)), p4))
  }

  lemma {:induction false} IntsRoundTrip(xs: seq<int>, pre: seq<byte>, post: seq<byte>)
    requires forall i :: 0 <= i < |xs| ==> Text.IsInt32(xs[i])
    ensures ReadIntsAt(pre + IntsBytes(xs) + post, |pre|, |xs|) == Some((xs, |pre| + 4 * |xs|))
    decreases |xs|
  {
    if xs != [] {
      var a, rest := IntBytes(xs[0]), IntsBytes(xs[1..]);
      var bs := pre + IntsBytes(xs) + post;
      Regroup2(bs, pre, a, rest, post);
      IntRoundTripIn(bs, pre, xs[0], rest + post, |pre|, |pre| + 4);
      IntsRoundTrip(xs[1..], pre + a, post);
      IntsStep(bs, |pre|, xs, |pre| + 4, |pre| + 4 * |xs|);
    }
  }

  lemma Regroup2(bs: seq<byte>, pre: seq<byte>, a: seq<byte>, b: seq<byte>, post: seq<byte>)
    requires bs == pre + (a + b) + post
    ensures bs == pre + a + (b + post)
    ensures bs == pre + a + b + post
  {
  }

  /** One integer followed by the rest of the run reads the whole run. */
  lemma IntsStep(bs: seq<byte>, pos: nat, xs: seq<int>, p: nat, q: nat)
    requires xs != [] && pos <= |bs|
    requires ReadIntAt(bs, pos) == Some((xs[0], p))
    requires ReadIntsAt(bs, p, |xs| - 1) == Some((xs[1..], q))
    ensures ReadIntsAt(bs, pos, |xs|) == Some((xs, q))
  {
    assert [xs[0]] + xs[1..] == xs;
  }

  /** The playlist can be written by `serialize` and read back whole. */
  predicate PlaylistFits(p: Playlist) {
    Text.IsInt32(p.index) && UtfFits(p.name) && |p.tracks| <= Text.INT_MAX
    && forall t :: t in p.tracks ==> Text.IsInt32(t)
  }

  /**
   * Reading back a serialized playlist gives the same index, the same name
   * and the same track set, whatever order the set was written in.
   */
  lemma PlaylistRoundTrip(p: Playlist, order: seq<int>, pre: seq<byte>, post: seq<byte>)
    requires PlaylistFits(p) && IsOrderOf(order, p.tracks)
    ensures var enc := EncodePlaylist(p, order).value;
      DecodePlaylist(pre + enc + post, |pre|) == Some((p, |pre| + |enc|))
  {
    var enc := EncodePlaylist(p, order).value;
    var bs := pre + enc + post;
    assert enc == IntBytes(p.index) + UtfBytes(p.name) + IntBytes(|order|) + IntsBytes(order);
    assert forall i :: 0 <= i < |order| ==> Text.IsInt32(order[i]);
    OrderedSet(order, p.tracks);
    FieldsDecode(bs, pre, p.index, p.name, order, post, |pre| + |enc|);
  }

  /** The fields of a playlist, with the tracks in the order written, read back as that playlist. */
  lemma FieldsDecode(bs: seq<byte>, pre: seq<byte>, index: int, name: string, xs: seq<int>, post: seq<byte>, end: nat)
    requires Text.IsInt32(index) && UtfFits(name) && Text.IsInt32(|xs|)
    requires forall i :: 0 <= i < |xs| ==> Text.IsInt32(xs[i])
    requires bs == pre + (IntBytes(index) + UtfBytes(name) + IntBytes(|xs|) + IntsBytes(xs)) + post
    requires end == |pre| + 8 + |UtfBytes(name)| + 4 * |xs|
    ensures DecodePlaylist(bs, |pre|) == Some((Playlist(index, name, Elements(xs)), end))
  {
    var p1 := |pre| + 4;
    var p2 := p1 + |UtfBytes(name)|;
    var p3 := p2 + 4;
    PlaylistReads(bs, pre, index, name, |xs|, xs, post, p1, p2, p3, end);
    assert Count(|xs|) == |xs|;
    DecodePlaylistSteps(bs, |pre|, index, name, |xs|, xs, p1, p2, p3, end);
  }

  /** Each field of a serialized playlist reads back where the next one starts. */
  lemma PlaylistReads(bs: seq<byte>, pre: seq<byte>, index: int, name: string, count: int, xs: seq<int>, post: seq<byte>,
                      p1: nat, p2: nat, p3: nat, p4: nat)
    requires Text.IsInt32(index) && UtfFits(name) && Text.IsInt32(count)
    requires forall i :: 0 <= i < |xs| ==> Text.IsInt32(xs[i])
    requires bs == pre + (IntBytes(index) + UtfBytes(name) + IntBytes(count) + IntsBytes(xs)) + post
    requires p1 == |pre| + 4 && p2 == p1 + |UtfBytes(name)| && p3 == p2 + 4 && p4 == p3 + 4 * |xs|
    ensures ReadIntAt(bs, |pre|) == Some((index, p1))
    ensures ReadUtfAt(bs, p1) == Some((name, p2))
    ensures ReadIntAt(bs, p2) == Some((count, p3))
    ensures p3 <= |bs| && ReadIntsAt(bs, p3, |xs|) == Some((xs, p4))
  {
    var a := IntBytes(index);
    var b := UtfBytes(name);
    var c := IntBytes(count);
    var d := IntsBytes(xs);
    Regroup4(bs, pre, a, b, c, d, post);
    IntRoundTripIn(bs, pre, index, b + c + d + post, |pre|, p1);
    UtfRoundTripIn(bs, pre + a, name, c + d + post, p1, p2);
    IntRoundTripIn(bs, pre + a + b, count, d + post, p2, p3);
    IntsRoundTripIn(bs, pre + a + b + c, xs, post, p3, p4);
  }

  lemma IntsRoundTripIn(bs: seq<byte>, pre: seq<byte>, xs: seq<int>, post: seq<byte>, from: nat, to: nat)
    requires forall i :: 0 <= i < |xs| ==> Text.IsInt32(xs[i])
    requires bs == pre + IntsBytes(xs) + post
    requires from == |pre| && to == from + 4 * |xs|
    ensures from <= |bs| && ReadIntsAt(bs, from, |xs|) == Some((xs, to))
  {
    IntsRoundTrip(xs, pre, post);
  }

  /** The four reads of a playlist in a row make a successful decode. */
  lemma DecodePlaylistSteps(bs: seq<byte>, pos: nat, index: int, name: string, count: int, xs: seq<int>,
                            p1: nat, p2: nat, p3: nat, p4: nat)
    requires p3 <= |bs|
    requires ReadIntAt(bs, pos) == Some((index, p1))
    requires ReadUtfAt(bs, p1) == Some((name, p2))
    requires ReadIntAt(bs, p2) == Some((count, p3))
    requires ReadIntsAt(bs, p3, Count(count)) == Some((xs, p4))
    ensures DecodePlaylist(bs, pos) == Some((Playlist(index, name, Elements(xs)), p4))
  {
  }

  /** A stored count of zero gives a playlist with no tracks. */
  lemma ZeroCountIsEmpty(bs: seq<byte>, pos: nat)
    requires var h := ReadIntAt(bs, pos); h.Some? && var u := ReadUtfAt(bs, h.value.1);
      u.Some? && var c := ReadIntAt(bs, u.value.1); c.Some? && c.value.0 <= 0
    ensures DecodePlaylist(bs, pos).Some? && DecodePlaylist(bs, pos).value.0.tracks == {}
  {
  }

  // ---------------------------------------------------------------------
  // The streams and the serializers as the source writes them

  /** MapDB's `DataOutput2`: bytes are appended. */
  class DataOutput {
    var bytes: seq<byte>

    constructor ()
      ensures bytes == []
    {
      bytes := [];
    }

    method WriteInt(x: int)
      modifies this
      ensures bytes == old(bytes) + IntBytes(x)
    {
      bytes := bytes + IntBytes(x);
    }

    method WriteBoolean(b: bool)
      modifies this
      ensures bytes == old(bytes) + BoolBytes(b)
    {
      bytes := bytes + BoolBytes(b);
    }

    /** `ok` is false where `writeUTF` throws; nothing is written then. */
    method WriteUTF(s: string) returns (ok: bool)
      modifies this
      ensures ok == UtfFits(s)
      ensures bytes == old(bytes) + (if ok then UtfBytes(s) else [])
    {
      ok := UtfFits(s);
      if ok {
        bytes := bytes + UtfBytes(s);
      }
    }
  }

  /** MapDB's `DataInput2`: bytes are consumed from `pos`. */
  class DataInput {
    const bytes: seq<byte>
    var pos: nat

    constructor (bytes: seq<byte>)
      ensures this.bytes == bytes && pos == 0
    {
      this.bytes := bytes;
      pos := 0;
    }

    /** `None` where `readInt` throws at the end of the stream. */
    method ReadInt() returns (r: Option<int>)
      modifies this
      ensures ReadIntAt(bytes, old(pos)) == if r.Some? then Some((r.value, pos)) else None
    {
      match ReadIntAt(bytes, pos)
      case Some((x, p)) => r := Some(x); pos := p;
      case None => r := None;
    }

    method ReadBoolean() returns (r: Option<bool>)
      modifies this
      ensures ReadBoolAt(bytes, old(pos)) == if r.Some? then Some((r.value, pos)) else None
    {
      match ReadBoolAt(bytes, pos)
      case Some((b, p)) => r := Some(b); pos := p;
      case None => r := None;
    }

    method ReadUTF() returns (r: Option<string>)
      modifies this
      ensures ReadUtfAt(bytes, old(pos)) == if r.Some? then Some((r.value, pos)) else None
    {
      match ReadUtfAt(bytes, pos)
      case Some((s, p)) => r := Some(s); pos := p;
      case None => r := None;
    }
  }

  /** The flag and, when there is one, the string: how both optional fields are written. */
  method WriteOptional(out: DataOutput, s: Option<string>) returns (ok: bool)
    modifies out
    ensures ok == (s.Some? ==> UtfFits(s.value))
    ensures ok ==> out.bytes == old(out.bytes) + OptionalBytes(s)
    ensures old(out.bytes) <= out.bytes
  {
    ghost var start := out.bytes;
    if s.Some? {
      out.WriteBoolean(true);
      ghost var flagged := out.bytes;
      ok := out.WriteUTF(s.value);
      if ok {
        Extend(start, BoolBytes(true), UtfBytes(s.value));
      } else {
        assert out.bytes == flagged;
      }
    } else {
      out.WriteBoolean(false);
      ok := true;
    }
  }

  /** Appending twice extends the original sequence by the two parts together. */
  lemma Extend(x: seq<byte>, y: seq<byte>, z: seq<byte>)
    ensures (x + y) + z == x + (y + z)
    ensures x <= x + (y + z)
  {
  }

  /** `MusicFile.Serializer.serialize`; `ok` is false where it throws. */
  method SerializeMusicFile(out: DataOutput, value: MusicFile) returns (ok: bool)
    modifies out
    ensures ok == EncodeMusicFile(value).Some?
    ensures ok ==> out.bytes == old(out.bytes) + EncodeMusicFile(value).value
    ensures old(out.bytes) <= out.bytes
  {
    ghost var b0 := out.bytes;
    out.WriteInt(value.index);
    ghost var b1 := out.bytes;
    ok := WriteOptional(out, value.artist);
    if !ok {
      return;
    }
    ghost var b2 := out.bytes;
    ok := WriteOptional(out, value.name);
    if !ok {
      return;
    }
    ghost var b3 := out.bytes;
    ok := out.WriteUTF(value.path);
    if ok {
      ghost var a, b, c, d := IntBytes(value.index), OptionalBytes(value.artist), OptionalBytes(value.name), UtfBytes(value.path);
      assert b1 == b0 + a && b2 == b1 + b && b3 == b2 + c && out.bytes == b3 + d;
      Chain4(b0, a, b, c, d);
    } else {
      assert out.bytes == b3;
    }
  }

  /** Four appends in a row add the four parts together. */
  lemma Chain4(x: seq<byte>, a: seq<byte>, b: seq<byte>, c: seq<byte>, d: seq<byte>)
    ensures x + a + b + c + d == x + (a + b + c + d)
  {
  }

  /** `MusicFile.Serializer.deserialize`; `None` where it throws. */
  method DeserializeMusicFile(input: DataInput) returns (r: Option<MusicFile>)
    modifies input
    ensures DecodeMusicFile(input.bytes, old(input.pos)) == if r.Some? then Some((r.value, input.pos)) else None
  {
    var index := input.ReadInt();
    if index.None? {
      return None;
    }
    var artist: Option<string> := None;
    var hasArtist := input.ReadBoolean();
    if hasArtist.None? {
      return None;
    }
    if hasArtist.value {
      var s := input.ReadUTF();
      if s.None? {
        return None;
      }
      artist := Some(s.value);
    }
    var name: Option<string> := None;
    var hasName := input.ReadBoolean();
    if hasName.None? {
      return None;
    }
    if hasName.value {
      var s := input.ReadUTF();
      if s.None? {
        return None;
      }
      name := Some(s.value);
    }
    var path := input.ReadUTF();
    if path.None? {
      return None;
    }
    r := Some(MusicFile(index.value, artist, name, path.value));
  }

  /**
   * `Playlist.Serializer.serialize`. The tracks are written in the set's
   * iteration order, which the source leaves unspecified; `order` is the
   * order this run chose.
   */
  method SerializePlaylist(out: DataOutput, value: Playlist) returns (ok: bool, ghost order: seq<int>)
    modifies out
    ensures IsOrderOf(order, value.tracks)
    ensures ok == EncodePlaylist(value, order).Some?
    ensures ok ==> out.bytes == old(out.bytes) + EncodePlaylist(value, order).value
    ensures old(out.bytes) <= out.bytes
  {
    order := [];
    ghost var b0 := out.bytes;
    out.WriteInt(value.index);
    ghost var b1 := out.bytes;
    ok := out.WriteUTF(value.name);
    if !ok {
      order := SomeOrder(value.tracks);
      assert out.bytes == b1;
      return;
    }
    ghost var b2 := out.bytes;
    out.WriteInt(|value.tracks|);
    ghost var start := out.bytes;
    var rest := value.tracks;
    while rest != {}
      invariant rest <= value.tracks
      invariant |order| + |rest| == |value.tracks|
      invariant forall x :: x in value.tracks <==> x in rest || x in order
      invariant forall i :: 0 <= i < |order| ==> order[i] !in rest && order[i] in value.tracks
      invariant out.bytes == start + IntsBytes(order)
      decreases |rest|
    {
      ghost var someTrack := Pick(rest);
      var t :| t in rest;
      out.WriteInt(t);
      IntsBytesAppend(order, t);
      order := order + [t];
      rest := rest - {t};
    }
    ghost var a, b, c := IntBytes(value.index), UtfBytes(value.name), IntBytes(|value.tracks|);
    assert b1 == b0 + a && b2 == b1 + b && start == b2 + c;
    Chain4(b0, a, b, c, IntsBytes(order));
  }

  lemma {:induction false} IntsBytesAppend(xs: seq<int>, x: int)
    ensures IntsBytes(xs + [x]) == IntsBytes(xs) + IntBytes(x)
    decreases |xs|
  {
    if xs == [] {
      assert [] + [x] == [x];
    } else {
      assert (xs + [x])[1..] == xs[1..] + [x];
      IntsBytesAppend(xs[1..], x);
    }
  }

  /** `Playlist.Serializer.deserialize`; `None` where it throws. */
  method DeserializePlaylist(input: DataInput) returns (r: Option<Playlist>)
    modifies input
    ensures DecodePlaylist(input.bytes, old(input.pos)) == if r.Some? then Some((r.value, input.pos)) else None
  {
    ghost var p0 := input.pos;
    var id := input.ReadInt();
    if id.None? {
      return None;
    }
    ghost var p1 := input.pos;
    var name := input.ReadUTF();
    if name.None? {
      return None;
    }
    ghost var p2 := input.pos;
    var count := input.ReadInt();
    if count.None? {
      return None;
    }
    ghost var start := input.pos;
    var tracks: set<int> := {};
    ghost var read: seq<int> := [];
    var i := 1;
    while i <= count.value
      invariant 1 <= i <= Count(count.value) + 1
      invariant |read| == i - 1 && input.pos == start + 4 * |read|
      invariant ReadIntsAt(input.bytes, start, |read|) == Some((read, input.pos))
      invariant tracks == Elements(read)
      decreases count.value - i
    {
      ghost var here := input.pos;
      var t := input.ReadInt();
      if t.None? {
        assert ReadIntAt(input.bytes, here).None?;
        ReadIntsFails(input.bytes, start, |read|, Count(count.value));
        return None;
      }
      assert ReadIntAt(input.bytes, start + 4 * |read|) == Some((t.value, input.pos));
      ReadIntsExtend(input.bytes, start, read, t.value, input.pos);
      SetOfAppend(read, t.value);
      tracks := tracks + {t.value};
      read := read + [t.value];
      i := i + 1;
    }
    assert |read| == Count(count.value);
    r := Some(Playlist(id.value, name.value, tracks));
    DecodePlaylistSteps(input.bytes, p0, id.value, name.value, count.value, read, p1, p2, start, input.pos);
  }

  /** The members of a run grow by the element appended to it. */
  lemma SetOfAppend(xs: seq<int>, x: int)
    ensures Elements(xs + [x]) == Elements(xs) + {x}
  {
  }

  /** Reading one more integer extends what has been read. */
  lemma {:induction false} ReadIntsExtend(bs: seq<byte>, pos: nat, xs: seq<int>, x: int, q: nat)
    requires pos <= |bs|
    requires ReadIntsAt(bs, pos, |xs|) == Some((xs, pos + 4 * |xs|))
    requires ReadIntAt(bs, pos + 4 * |xs|) == Some((x, q))
    ensures ReadIntsAt(bs, pos, |xs| + 1) == Some((xs + [x], q))
    decreases |xs|
  {
    if xs != [] {
      var (y, p) := ReadIntAt(bs, pos).value;
      var rest := ReadIntsAt(bs, p, |xs| - 1);
      assert rest.Some? && [y] + rest.value.0 == xs;
      assert rest.value.0 == xs[1..];
      ReadIntsExtend(bs, p, xs[1..], x, q);
      assert [y] + (xs[1..] + [x]) == xs + [x];
    } else {
      assert ReadIntsAt(bs, q, 0) == Some(([], q));
      assert [x] + [] == xs + [x];
    }
  }

  /** If the k-th integer cannot be read, neither can any longer run. */
  lemma {:induction false} ReadIntsFails(bs: seq<byte>, pos: nat, k: nat, n: nat)
    requires k < n && pos <= |bs|
    requires ReadIntsAt(bs, pos, k).Some?
    requires ReadIntAt(bs, ReadIntsAt(bs, pos, k).value.1).None?
    ensures ReadIntsAt(bs, pos, n).None?
    decreases k
  {
    if k > 0 {
      var (y, p) := ReadIntAt(bs, pos).value;
      ReadIntsFails(bs, p, k - 1, n - 1);
    }
  }
}
