/**
 * The decisions `loadFile` makes from what the server answers: the status,
 * Content-Type and size gates, the choice of a file name, the renaming that
 * avoids overwriting a file, and the progress text.
 */
module Download {
  import opened Options
  import opened Text
  import Collections

  /** What the connection reports before any byte of the body is read. */
  datatype Answer = Answer(
    isHttp: bool,                  // the connection is an `HttpURLConnection`
    code: int,                     // `responseCode`
    message: Option<string>,       // `responseMessage`
    contentType: Option<string>,   // the `Content-Type` header
    disposition: Option<string>,   // the `Content-Disposition` header
    length: int)                   // `getHeaderFieldLong("Content-Length", -1)`

  // ---------------------------------------------------------------------
  // Gates

  /**
   * `connection is HttpURLConnection && responseCode / 100 != 2` with
   * Kotlin's truncating division: the quotient is 2 exactly for 200..299.
   */
  predicate Refused(a: Answer) {
    a.isHttp && !(200 <= a.code <= 299)
  }

  function RefusedReply(a: Answer): string {
    "Could not open connection: " + IntToString(a.code) + " " + a.message.GetOr("null")
  }

  /**
   * `getHeaderField("Content-Type").contains("audio")`: `None` is the
   * exception thrown on the null of a missing header.
   */
  function IsAudio(a: Answer): (r: Option<bool>)
    ensures r.None? <==> a.contentType.None?
    ensures r.Some? ==> (r.value <==> Contains(a.contentType.value, "audio"))
  {
    match a.contentType
    case None => None
    case Some(t) => Some(Contains(t, "audio"))
  }

  const NOT_AUDIO_REPLY: string := "Something went wrong.:BrokeBack:"

  const MIB: int := 0x10_0000

  /** The size limit of this version: 64 MiB. */
  const MAX_LENGTH: int := 64 * MIB

  const TOO_LARGE_REPLY: string := "File is larger than 64 MB, try different format or reduce bitrate"

  /** `size > limit`; an unknown length (-1) passes. */
  predicate TooLarge(length: int, limit: int) {
    length > limit
  }

  lemma UnknownLengthPasses(limit: int)
    requires limit >= 0
    ensures !TooLarge(-1, limit)
  {
  }

  // ---------------------------------------------------------------------
  // The file name

  const FILENAME_KEY: string := "filename=\""

  /** The length of the run of characters other than `"` starting at `p`. */
  function QuoteFreeRun(h: string, p: nat): (n: nat)
    requires p <= |h|
    ensures p + n <= |h|
    ensures forall k :: p <= k < p + n ==> h[k] != '"'
    ensures p + n < |h| ==> h[p + n] == '"'
    decreases |h| - p
  {
    if p == |h| || h[p] == '"' then 0 else 1 + QuoteFreeRun(h, p + 1)
  }

  /**
   * `(?i)filename="([^"]+)"` can match at `i`: the key in any ASCII case,
   * at least one character other than `"`, then `"`.
   */
  predicate MatchesAt(h: string, i: nat) {
    && i + |FILENAME_KEY| <= |h|
    && Lower(h[i..i + |FILENAME_KEY|]) == FILENAME_KEY
    && var p := i + |FILENAME_KEY|;
       var n := QuoteFreeRun(h, p);
       n >= 1 && p + n < |h|
  }

  /** The group a match at `i` captures. */
  function Capture(h: string, i: nat): (r: string)
    requires MatchesAt(h, i)
    ensures r != [] && '"' !in r
  {
    var p := i + |FILENAME_KEY|;
    h[p..p + QuoteFreeRun(h, p)]
  }

  /**
   * The regular expression's own reading of a match at `i` with group
   * `name`: key, then `name` of characters other than `"`, then `"`.
   */
  predicate RegexMatch(h: string, i: nat, name: string) {
    && i + |FILENAME_KEY| + |name| < |h|
    && Lower(h[i..i + |FILENAME_KEY|]) == FILENAME_KEY
    && name != [] && '"' !in name
    && h[i + |FILENAME_KEY|..i + |FILENAME_KEY| + |name|] == name
    && h[i + |FILENAME_KEY| + |name|] == '"'
  }

  /** A match at `i` exists exactly when `MatchesAt`, and its group is `Capture`. */
  lemma CaptureIsTheMatch(h: string, i: nat, name: string)
    ensures RegexMatch(h, i, name) <==> MatchesAt(h, i) && name == Capture(h, i)
  {
    var p := i + |FILENAME_KEY|;
    if RegexMatch(h, i, name) {
      var n := QuoteFreeRun(h, p);
      forall k | p <= k < p + |name|
        ensures h[k] != '"'
      {
        assert h[k] == name[k - p];
      }
      assert n == |name|;
    }
  }

  /** `i` is the first position at or after `from` where the pattern matches. */
  predicate LeftmostMatch(h: string, from: nat, i: nat) {
    from <= i && MatchesAt(h, i) && forall k :: from <= k < i ==> !MatchesAt(h, k)
  }

  /** `find` from position `from`: the leftmost match, if any. */
  function FindFrom(h: string, from: nat): (r: Option<string>)
    ensures r.Some? ==> exists i :: LeftmostMatch(h, from, i) && r.value == Capture(h, i)
    ensures r.None? ==> forall k :: from <= k ==> !MatchesAt(h, k)
    decreases |h| - from
  {
    if from + |FILENAME_KEY| > |h| then None
    else if MatchesAt(h, from) then Some(Capture(h, from))
    else FindFrom(h, from + 1)
  }

  /** `dispositionMatcher.find(header)?.groupValues?.get(1)` */
  function DispositionName(h: string): Option<string> {
    FindFrom(h, 0)
  }

  /** `link.substringAfterLast('/').substringBefore('?')` */
  function LinkName(link: string): (r: string)
    ensures '?' !in r
    ensures '/' in link ==> '/' !in r
    ensures '/' !in link ==> r == SubstringBefore(link, '?')
  {
    SubstringBefore(SubstringAfterLast(link, '/', link), '?')
  }

  /** The name asked for: the header's file name, else the tail of the link. */
  function ChooseName(link: string, disposition: Option<string>): (r: string)
    ensures disposition.Some? && DispositionName(disposition.value).Some? ==> r == DispositionName(disposition.value).value
    ensures disposition.None? || DispositionName(disposition.value).None? ==> r == LinkName(link)
  {
    match disposition
    case Some(h) => DispositionName(h).GetOr(LinkName(link))
    case None => LinkName(link)
  }

  // ---------------------------------------------------------------------
  // Avoiding an existing file

  /** `File.name`: the last path component. */
  function BaseName(c: string): (r: string)
    ensures '/' !in r
    ensures '/' !in c ==> r == c
  {
    SubstringAfterLast(c, '/', c)
  }

  /** `File.extension`: after the last dot of the name, or empty. */
  function Extension(c: string): (r: string)
    ensures '.' !in r && '/' !in r
  {
    SubstringAfterLast(BaseName(c), '.', "")
  }

  /** `File.nameWithoutExtension`: the name before its last dot. */
  function NameWithoutExtension(c: string): (r: string)
    ensures '/' !in r
    ensures '.' in BaseName(c) ==> BaseName(c) == r + ['.'] + Extension(c)
    ensures '.' !in BaseName(c) ==> r == BaseName(c)
  {
    var base := BaseName(c);
    var r := SubstringBeforeLast(base, '.');
    if '.' in base then
      SplitAtLast(base, '.', "");
      assert forall k :: 0 <= k < |r| ==> r[k] == base[k];
      r
    else r
  }

  /** `end`: the dot and the extension, or nothing. */
  function Suffix(name: string): (r: string)
    ensures r == [] || (r[0] == '.' && r[1..] == Extension(name))
    ensures '/' !in r
  {
    if Extension(name) == [] then [] else "." + Extension(name)
  }

  /** `"${current.nameWithoutExtension}(${count})$end"` */
  function Retry(current: string, count: nat, end: string): string {
    NameWithoutExtension(current) + "(" + NatToString(count) + ")" + end
  }

  function Dots(s: string): nat {
    if s == [] then 0 else (if s[0] == '.' then 1 else 0) + Dots(s[1..])
  }

  lemma {:induction false} DotsAppend(a: string, b: string)
    ensures Dots(a + b) == Dots(a) + Dots(b)
  {
    if a != [] {
      assert (a + b)[1..] == a[1..] + b;
      DotsAppend(a[1..], b);
    } else {
      assert a + b == b;
    }
  }

  lemma {:induction false} NoDots(s: string)
    requires '.' !in s
    ensures Dots(s) == 0
  {
    if s != [] {
      NoDots(s[1..]);
    }
  }

  /** The longest name in a set. */
  ghost function MaxLength(names: set<string>): (n: nat)
    ensures forall x :: x in names ==> |x| <= n
    decreases |names|
  {
    if names == {} then 0
    else
      assert exists y :: y in names by {
        var y := Collections.Pick(names);
      }
      var x :| x in names;
      var rest := MaxLength(names - {x});
      if |x| > rest then |x| else rest
  }

  /** How much longer a candidate can grow and still be an existing name. */
  ghost function Room(c: string, existing: set<string>): nat {
    if |c| > MaxLength(existing) then 0 else MaxLength(existing) + 1 - |c|
  }

  /** The `(count)` part of a retry. */
  function Counter(count: nat): (r: string)
    ensures '.' !in r && '/' !in r && |r| >= 3
  {
    var digits := NatToString(count);
    assert forall k :: 0 <= k < |digits| ==> IsAsciiDigit(digits[k]);
    "(" + digits + ")"
  }

  lemma RetryParts(cur: string, count: nat, end: string)
    ensures Retry(cur, count, end) == NameWithoutExtension(cur) + Counter(count) + end
  {
  }

  /** A retry has no directory part, and keeps the extension it is given. */
  lemma RetryKeepsExtension(cur: string, count: nat, end: string)
    requires '/' !in end
    requires end == [] || (end[0] == '.' && '.' !in end[1..])
    ensures '/' !in Retry(cur, count, end)
    ensures end != [] ==> '.' in Retry(cur, count, end) && Extension(Retry(cur, count, end)) == end[1..]
  {
    var next := Retry(cur, count, end);
    var front := NameWithoutExtension(cur) + Counter(count);
    RetryParts(cur, count, end);
    if end != [] {
      var ext := end[1..];
      assert end == ['.'] + ext;
      assert next == front + ['.'] + ext;
      LastAfterAppend(front, '.', ext, "");
      assert BaseName(next) == next;
    }
  }

  /**
   * One retry from a candidate without a directory part makes progress:
   * the dots go down, or they stay and the name grows.
   */
  lemma {:induction false} RetryGrows(cur: string, count: nat, end: string)
    requires '/' !in cur && '/' !in end
    requires end == [] || (end[0] == '.' && '.' !in end[1..] && '.' in cur && Extension(cur) == end[1..])
    ensures var next := Retry(cur, count, end);
      Dots(next) < Dots(cur) || (Dots(next) == Dots(cur) && |next| > |cur|)
  {
    var next := Retry(cur, count, end);
    var stem := NameWithoutExtension(cur);
    RetryParts(cur, count, end);
    NoDots(Counter(count));
    DotsAppend(stem, Counter(count));
    DotsAppend(stem + Counter(count), end);
    if '.' in cur {
      DotsAppend(stem + ['.'], Extension(cur));
      DotsAppend(stem, ['.']);
      NoDots(Extension(cur));
      if end != [] {
        NoDots(end[1..]);
        assert end == ['.'] + end[1..];
        DotsAppend(['.'], end[1..]);
      }
    }
  }

  /**
   * One retry makes progress: a candidate with a directory part loses it,
   * otherwise the dots go down, or they stay and the name grows, which an
   * existing name can do only a bounded number of times.
   */
  lemma RetryProgress(cur: string, count: nat, end: string, existing: set<string>)
    requires cur in existing
    requires '/' !in end
    requires end == [] || (end[0] == '.' && '.' !in end[1..] && '.' in BaseName(cur) && Extension(cur) == end[1..])
    ensures var next := Retry(cur, count, end);
      && '/' !in next
      && (end != [] ==> '.' in next && Extension(next) == end[1..])
      && ('/' in cur
        || Dots(next) < Dots(cur)
        || (Dots(next) == Dots(cur) && Room(next, existing) < Room(cur, existing)))
  {
    RetryKeepsExtension(cur, count, end);
    if '/' !in cur {
      RetryGrows(cur, count, end);
    }
  }

  /** Each candidate but the last exists, and each retry follows from the one before. */
  ghost predicate RetryTrace(tried: seq<string>, existing: set<string>, end: string) {
    forall k :: 0 <= k < |tried| - 1 ==> tried[k] in existing && tried[k + 1] == Retry(tried[k], k + 1, end)
  }

  lemma TraceExtends(tried: seq<string>, existing: set<string>, end: string)
    requires tried != [] && RetryTrace(tried, existing, end) && tried[|tried| - 1] in existing
    ensures RetryTrace(tried + [Retry(tried[|tried| - 1], |tried|, end)], existing, end)
  {
    var t := tried + [Retry(tried[|tried| - 1], |tried|, end)];
    forall k | 0 <= k < |t| - 1
      ensures t[k] in existing && t[k + 1] == Retry(t[k], k + 1, end)
    {
      assert t[k] == tried[k];
      if k < |tried| - 1 {
        assert t[k + 1] == tried[k + 1];
      }
    }
  }

  /**
   * The renaming loop of `loadFile` against the names that exist in the
   * music folder. `tried` is every candidate in order; the last is returned.
   */
  method FreeName(name: string, existing: set<string>) returns (r: string, ghost tried: seq<string>)
    ensures r !in existing
    ensures |tried| >= 1 && tried[0] == name && r == tried[|tried| - 1]
    ensures RetryTrace(tried, existing, Suffix(name))
    ensures name !in existing ==> r == name
  {
    var current := name;
    var end := Suffix(name);
    var count := 1;
    tried := [name];
    if end != [] {
      assert '.' in BaseName(name) by {
        assert Extension(name) != [];
      }
    }
    while current in existing
      invariant |tried| == count && tried[0] == name && current == tried[count - 1]
      invariant RetryTrace(tried, existing, end)
      invariant '/' !in end
      invariant end == [] || (end[0] == '.' && '.' !in end[1..] && '.' in BaseName(current) && Extension(current) == end[1..])
      decreases if '/' in current then 1 else 0, Dots(current), Room(current, existing)
    {
      RetryProgress(current, count, end, existing);
      TraceExtends(tried, existing, end);
      current := Retry(current, count, end);
      count := count + 1;
      tried := tried + [current];
    }
    r := current;
  }

  /** The stem and extension of `stem.ext`, for a plain name. */
  lemma NameParts(stem: string, ext: string)
    requires '/' !in stem && '/' !in ext && '.' !in ext
    ensures NameWithoutExtension(stem + ['.'] + ext) == stem
    ensures Extension(stem + ['.'] + ext) == ext
  {
    var c := stem + ['.'] + ext;
    assert '/' !in c;
    LastAfterAppend(stem, '.', ext, "");
  }

  /** A retry of `stem.ext` that keeps `.ext` is `stem(count).ext`. */
  lemma RetryOfPlainName(stem: string, count: nat, ext: string)
    requires '/' !in stem && '/' !in ext && '.' !in ext
    ensures Retry(stem + ['.'] + ext, count, ['.'] + ext) == stem + Counter(count) + ['.'] + ext
  {
    NameParts(stem, ext);
    RetryParts(stem + ['.'] + ext, count, ['.'] + ext);
  }

  /**
   * Retries stack: the second candidate is built from the first, so the
   * counters accumulate (`a.mp3`, `a(1).mp3`, `a(1)(2).mp3`, ...).
   */
  lemma RetriesStack(stem: string, ext: string, m: nat, n: nat)
    requires '/' !in stem && '/' !in ext && '.' !in ext
    ensures var first := Retry(stem + ['.'] + ext, m, ['.'] + ext);
      Retry(first, n, ['.'] + ext) == stem + Counter(m) + Counter(n) + ['.'] + ext
  {
    RetryOfPlainName(stem, m, ext);
    var s1 := stem + Counter(m);
    assert stem + Counter(m) + ['.'] + ext == s1 + ['.'] + ext;
    RetryOfPlainName(s1, n, ext);
  }

  // ---------------------------------------------------------------------
  // Progress text

  /** `response` of this version: the glyph is the UTF-8 bytes of U+25A0 read as Latin-1 and CP-1252. */
  const GLYPH: string := "\U{E2}\U{2013}\U{A0}"

  function Repeat(s: string, n: nat): (r: string)
    ensures |r| == n * |s|
  {
    if n == 0 then [] else s + Repeat(s, n - 1)
  }

  /**
   * `response(progress)` drawn with `glyph`. `None` is the exception
   * `" ".repeat(5 - progress)` throws when `progress` is above 5.
   */
  function Progress(glyph: string, progress: int): (r: Option<string>)
    ensures progress < 0 ==> r == Some("Loading file: progress unknown")
    ensures progress > 5 <==> r.None?
  {
    if progress >= 0 then
      if progress <= 5 then Some("Loading file: `[" + Repeat(glyph, progress) + Repeat(" ", 5 - progress) + "]`")
      else None
    else Some("Loading file: progress unknown")
  }

  function Response(progress: int): Option<string> {
    Progress(GLYPH, progress)
  }

  /**
   * A bar has the 18 characters of its frame, `p` glyphs and `5 - p` spaces,
   * so with a three-character glyph its length tells how far the bar is.
   */
  lemma ResponseLength(p: int)
    requires 0 <= p <= 5
    ensures Response(p).Some? && |Response(p).value| == 18 + 3 * p + (5 - p)
  {
  }

  lemma ResponsesDiffer(p: int, q: int)
    requires 0 <= p <= 5 && 0 <= q <= 5 && p != q
    ensures Response(p) != Response(q)
  {
    ResponseLength(p);
    ResponseLength(q);
  }
}
