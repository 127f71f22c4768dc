/** Option type shared by every module of the model. */
module Options {
  datatype Option<T> = None | Some(value: T) {
    predicate IsFailure() { None? }

    function PropagateFailure<U>(): Option<U>
      requires None?
    {
      None
    }

    function Extract(): T
      requires Some?
    {
      value
    }

    /** Kotlin's `?:` */
    function GetOr(default: T): T {
      if Some? then value else default
    }
  }
}

/**
 * The parts of the Kotlin standard library that the catalogue code calls on
 * strings: `split`, `trim`, `toLowerCase`, `substringAfter` and relatives,
 * `contains`, `Int.toString` and `String.toInt`.
 */
module Text {
  import opened Options

  /** `Char.isWhitespace()`: Java's `isWhitespace` or `isSpaceChar`. */
  predicate IsWhitespace(c: char) {
    ('\t' <= c <= '\r') || ('\U{1C}' <= c <= ' ') || c == '\U{A0}' || c == '\U{1680}'
    || ('\U{2000}' <= c <= '\U{200A}') || c == '\U{2028}' || c == '\U{2029}' || c == '\U{202F}'
    || c == '\U{205F}' || c == '\U{3000}'
  }

  predicate IsAsciiDigit(c: char) { '0' <= c <= '9' }

  predicate IsAsciiUpper(c: char) { 'A' <= c <= 'Z' }

  predicate IsAsciiLower(c: char) { 'a' <= c <= 'z' }

  /** `[A-Za-z0-9]` */
  predicate IsAsciiAlnum(c: char) { IsAsciiDigit(c) || IsAsciiUpper(c) || IsAsciiLower(c) }

  function LowerChar(c: char): (r: char)
    ensures IsAsciiUpper(c) ==> IsAsciiLower(r) && r as int == c as int + 32
    ensures !IsAsciiUpper(c) ==> r == c
  {
    if IsAsciiUpper(c) then (c as int + 32) as char else c
  }

  /** `toLowerCase()`, restricted to the ASCII letters. */
  function Lower(s: string): (r: string)
    ensures |r| == |s|
    ensures forall i :: 0 <= i < |s| ==> r[i] == LowerChar(s[i])
  {
    if s == [] then [] else [LowerChar(s[0])] + Lower(s[1..])
  }

  /** `s.substring(i)` starts with `pat` at position `i`. */
  predicate OccursAt(s: string, pat: string, i: nat) {
    i + |pat| <= |s| && s[i..i + |pat|] == pat
  }

  /** `pat in s` (`CharSequence.contains`). */
  predicate Contains(s: string, pat: string) {
    exists i: nat | i <= |s| :: OccursAt(s, pat, i)
  }

  /** `indexOf(pat, from)`: the first occurrence at or after `from`. */
  function IndexOfFrom(s: string, pat: string, from: nat): (r: Option<nat>)
    decreases |s| - from
    ensures r.Some? ==> from <= r.value && OccursAt(s, pat, r.value)
    ensures r.Some? ==> forall j: nat :: from <= j < r.value ==> !OccursAt(s, pat, j)
    ensures r.None? ==> forall j: nat :: from <= j ==> !OccursAt(s, pat, j)
  {
    if from + |pat| > |s| then None
    else if s[from..from + |pat|] == pat then Some(from)
    else IndexOfFrom(s, pat, from + 1)
  }

  function IndexOf(s: string, pat: string): (r: Option<nat>)
    ensures r.Some? <==> Contains(s, pat)
    ensures r.Some? ==> OccursAt(s, pat, r.value)
    ensures r.Some? ==> forall j: nat :: j < r.value ==> !OccursAt(s, pat, j)
  {
    IndexOfFrom(s, pat, 0)
  }

  /** `substringAfter(delimiter)`: the whole string when the delimiter is missing. */
  function SubstringAfter(s: string, delimiter: string): (r: string)
    ensures Contains(s, delimiter) ==> exists i: nat :: OccursAt(s, delimiter, i) && r == s[i + |delimiter|..]
    ensures !Contains(s, delimiter) ==> r == s
    ensures |r| <= |s|
  {
    match IndexOf(s, delimiter)
    case Some(i) => s[i + |delimiter|..]
    case None => s
  }

  /** The last position of `c` in `s`, if any. */
  function LastIndexOf(s: string, c: char): (r: Option<nat>)
    ensures r.Some? ==> r.value < |s| && s[r.value] == c
    ensures r.Some? ==> forall j :: r.value < j < |s| ==> s[j] != c
    ensures r.None? ==> c !in s
  {
    if s == [] then None
    else if s[|s| - 1] == c then Some(|s| - 1)
    else LastIndexOf(s[..|s| - 1], c)
  }

  /** `substringAfterLast(c, missing)` */
  function SubstringAfterLast(s: string, c: char, missing: string): (r: string)
    ensures c !in s ==> r == missing
    ensures c in s ==> c !in r && exists i :: 0 <= i < |s| && s[i] == c && r == s[i + 1..]
  {
    match LastIndexOf(s, c)
    case Some(i) => s[i + 1..]
    case None => missing
  }

  /** `substringBeforeLast(c)`: the whole string when `c` is missing. */
  function SubstringBeforeLast(s: string, c: char): (r: string)
    ensures c !in s ==> r == s
    ensures c in s ==> |r| < |s| && s[|r|] == c && r == s[..|r|] && c !in s[|r| + 1..]
  {
    match LastIndexOf(s, c)
    case Some(i) => s[..i]
    case None => s
  }

  /** A string that holds `c` is the part before its last `c`, `c`, and the part after. */
  lemma SplitAtLast(s: string, c: char, missing: string)
    requires c in s
    ensures s == SubstringBeforeLast(s, c) + [c] + SubstringAfterLast(s, c, missing)
  {
    var i := LastIndexOf(s, c).value;
    assert s == s[..i] + [c] + s[i + 1..];
  }

  /** The last `c` of `a + [c] + e` is the one before `e` when `e` has none. */
  lemma LastAfterAppend(a: string, c: char, e: string, missing: string)
    requires c !in e
    ensures SubstringAfterLast(a + [c] + e, c, missing) == e
    ensures SubstringBeforeLast(a + [c] + e, c) == a
  {
    var s := a + [c] + e;
    assert s[|a|] == c;
    var r := LastIndexOf(s, c);
    assert r.Some?;
    assert r.value == |a|;
    assert s[|a| + 1..] == e && s[..|a|] == a;
  }

  /** `substringBefore(c)`: the whole string when `c` is missing. */
  function SubstringBefore(s: string, c: char): (r: string)
    ensures |r| <= |s| && c !in r && r == s[..|r|]
    ensures |r| < |s| ==> s[|r|] == c
  {
    if s == [] || s[0] == c then [] else [s[0]] + SubstringBefore(s[1..], c)
  }

  /** The number of leading whitespace characters. */
  function LeadingSpace(s: string): (n: nat)
    ensures n <= |s|
    ensures forall i :: 0 <= i < n ==> IsWhitespace(s[i])
    ensures n < |s| ==> !IsWhitespace(s[n])
  {
    if s == [] || !IsWhitespace(s[0]) then 0 else 1 + LeadingSpace(s[1..])
  }

  /** The number of trailing whitespace characters. */
  function TrailingSpace(s: string): (n: nat)
    ensures n <= |s|
    ensures forall i :: |s| - n <= i < |s| ==> IsWhitespace(s[i])
    ensures n < |s| ==> !IsWhitespace(s[|s| - n - 1])
  {
    if s == [] || !IsWhitespace(s[|s| - 1]) then 0 else 1 + TrailingSpace(s[..|s| - 1])
  }

  /** Needs two UTF-16 code units: a character above U+FFFF. */
  predicate IsSupplementary(c: char) { c as int > 0xFFFF }

  /** `String.length` on the JVM: UTF-16 code units, two for each supplementary character. */
  function Utf16Length(s: string): (n: nat)
    ensures |s| <= n <= 2 * |s|
  {
    if s == [] then 0 else (if IsSupplementary(s[0]) then 2 else 1) + Utf16Length(s[1..])
  }

  lemma {:induction false} Utf16LengthAppend(a: string, b: string)
    ensures Utf16Length(a + b) == Utf16Length(a) + Utf16Length(b)
  {
    if a == [] {
      assert a + b == b;
    } else {
      assert (a + b)[0] == a[0] && (a + b)[1..] == a[1..] + b;
      Utf16LengthAppend(a[1..], b);
    }
  }

  /** Below U+10000 the length in code units is the number of characters. */
  lemma {:induction false} Utf16LengthBasic(s: string)
    requires forall i :: 0 <= i < |s| ==> !IsSupplementary(s[i])
    ensures Utf16Length(s) == |s|
  {
    if s != [] {
      Utf16LengthBasic(s[1..]);
    }
  }

  /** Every character above U+FFFF: two code units each. */
  lemma {:induction false} Utf16LengthSupplementary(s: string)
    requires forall i :: 0 <= i < |s| ==> IsSupplementary(s[i])
    ensures Utf16Length(s) == 2 * |s|
  {
    if s != [] {
      Utf16LengthSupplementary(s[1..]);
    }
  }

  /** `isBlank()` */
  predicate IsBlank(s: string) {
    forall i :: 0 <= i < |s| ==> IsWhitespace(s[i])
  }

  /** `r` sits at position `k` of `s` with only whitespace around it. */
  predicate TrimmedAt(s: string, r: string, k: nat) {
    OccursAt(s, r, k) && IsBlank(s[..k]) && IsBlank(s[k + |r|..])
  }

  /** `trim()`: drops whitespace at both ends and nothing else. */
  function Trim(s: string): (r: string)
    ensures |r| <= |s|
    ensures exists k: nat | k <= |s| :: TrimmedAt(s, r, k)
    ensures r != [] ==> !IsWhitespace(r[0]) && !IsWhitespace(r[|r| - 1])
    ensures r == [] ==> forall i :: 0 <= i < |s| ==> IsWhitespace(s[i])
  {
    var lead := LeadingSpace(s);
    var rest := s[lead..];
    var r := rest[..|rest| - TrailingSpace(rest)];
    assert TrimmedAt(s, r, lead);
    r
  }

  /** `split(d)`: Kotlin keeps the empty pieces, trailing ones included. */
  function Split(s: string, d: char): (r: seq<string>)
    ensures |r| >= 1
    ensures forall k :: 0 <= k < |r| ==> d !in r[k] && |r[k]| <= |s|
  {
    if s == [] then [[]]
    else
      var tail := Split(s[1..], d);
      if s[0] == d then [[]] + tail else [[s[0]] + tail[0]] + tail[1..]
  }

  /** `joinToString(d)` for a one-character separator. */
  function Join(pieces: seq<string>, d: char): string {
    if pieces == [] then []
    else if |pieces| == 1 then pieces[0]
    else pieces[0] + [d] + Join(pieces[1..], d)
  }

  /** Splitting loses nothing: joining the pieces again gives the text back. */
  lemma {:induction false} JoinSplit(s: string, d: char)
    ensures Join(Split(s, d), d) == s
  {
    if s != [] {
      var tail := Split(s[1..], d);
      JoinSplit(s[1..], d);
      if s[0] != d && |tail| > 1 {
        assert Split(s, d) == [[s[0]] + tail[0]] + tail[1..];
        assert Join(Split(s, d), d) == [s[0]] + tail[0] + [d] + Join(tail[1..], d);
        assert Join(tail, d) == tail[0] + [d] + Join(tail[1..], d);
      }
    }
  }

  /** A text without the delimiter is one piece. */
  lemma {:induction false} SplitNoDelimiter(a: string, d: char)
    requires d !in a
    ensures Split(a, d) == [a]
  {
    if a != [] {
      SplitNoDelimiter(a[1..], d);
      assert a == [a[0]] + a[1..];
    }
  }

  /** The text before the first delimiter is the first piece. */
  lemma {:induction false} SplitFirstPiece(a: string, b: string, d: char)
    requires d !in a
    ensures Split(a + [d] + b, d) == [a] + Split(b, d)
  {
    var s := a + [d] + b;
    if a == [] {
      assert s[1..] == b;
    } else {
      assert s[1..] == a[1..] + [d] + b;
      SplitFirstPiece(a[1..], b, d);
      assert a == [a[0]] + a[1..];
    }
  }

  /** Joining pieces that hold no delimiter and splitting again gives them back. */
  lemma {:induction false} SplitJoin(pieces: seq<string>, d: char)
    requires pieces != []
    requires forall k :: 0 <= k < |pieces| ==> d !in pieces[k]
    ensures Split(Join(pieces, d), d) == pieces
  {
    if |pieces| == 1 {
      SplitNoDelimiter(pieces[0], d);
    } else {
      SplitJoin(pieces[1..], d);
      SplitFirstPiece(pieces[0], Join(pieces[1..], d), d);
      assert pieces == [pieces[0]] + pieces[1..];
    }
  }

  /** A text that starts with `prefix` has `rest` after it. */
  lemma AfterPrefix(prefix: string, rest: string)
    ensures SubstringAfter(prefix + rest, prefix) == rest
  {
    var s := prefix + rest;
    assert OccursAt(s, prefix, 0);
    var i := IndexOf(s, prefix).value;
    assert i == 0;
  }

  /**
   * `substringAfter(number)` in `<verb> <number><tail>`: when the verb has no
   * digit and no sign, the number's first occurrence is the word itself.
   */
  lemma AfterNumberWord(verb: string, w: string, tail: string)
    requires forall k :: 0 <= k < |verb| ==> !IsAsciiDigit(verb[k]) && verb[k] != '-' && verb[k] != '+'
    requires ParseInt(w).Some?
    ensures SubstringAfter(verb + " " + w + tail, w) == tail
  {
    var s := verb + " " + w + tail;
    var p := |verb| + 1;
    assert s[p..p + |w|] == w;
    assert OccursAt(s, w, p);
    var i := IndexOf(s, w).value;
    assert IsAsciiDigit(w[0]) || w[0] == '-' || w[0] == '+';
    assert i == p;
    assert s[p + |w|..] == tail;
  }

  /** The decimal digits of a natural number, most significant first. */
  function NatToString(n: nat): (r: string)
    ensures |r| >= 1
    ensures forall i :: 0 <= i < |r| ==> IsAsciiDigit(r[i])
    decreases n
  {
    var last := [('0' as int + n % 10) as char];
    if n < 10 then last else NatToString(n / 10) + last
  }

  /** `Int.toString()` */
  function IntToString(x: int): (r: string)
    ensures |r| >= 1
    ensures x >= 0 ==> r == NatToString(x)
    ensures x < 0 ==> r == "-" + NatToString(-x)
  {
    if x < 0 then "-" + NatToString(-x) else NatToString(x)
  }

  const INT_MIN: int := -0x8000_0000
  const INT_MAX: int := 0x7FFF_FFFF

  predicate IsInt32(x: int) { INT_MIN <= x <= INT_MAX }

  /** The value of a string of ASCII digits. */
  predicate AllDigits(s: string) {
    forall i :: 0 <= i < |s| ==> IsAsciiDigit(s[i])
  }

  function DigitsValue(s: string): (v: nat)
    requires AllDigits(s)
  {
    if s == [] then 0
    else
      assert IsAsciiDigit(s[|s| - 1]);
      DigitsValue(s[..|s| - 1]) * 10 + (s[|s| - 1] as int - '0' as int)
  }

  /**
   * `String.toInt()`: an optional sign, then at least one digit, and a value
   * that fits in 32 bits. `None` is the `NumberFormatException`.
   */
  function ParseInt(s: string): (r: Option<int>)
    ensures r.Some? ==> IsInt32(r.value)
    ensures r.Some? ==> s != [] && AllDigits(if s[0] == '-' || s[0] == '+' then s[1..] else s)
  {
    if s == [] then None
    else
      var negative := s[0] == '-';
      var digits := if s[0] == '-' || s[0] == '+' then s[1..] else s;
      if digits == [] || !AllDigits(digits) then None
      else
        var n: int := DigitsValue(digits);
        var v := if negative then -n else n;
        if IsInt32(v) then Some(v) else None
  }

  lemma {:induction false} DigitsOfNat(n: nat)
    ensures AllDigits(NatToString(n)) && DigitsValue(NatToString(n)) == n
    decreases n
  {
    var last := [('0' as int + n % 10) as char];
    if n >= 10 {
      DigitsOfNat(n / 10);
      var r := NatToString(n / 10) + last;
      assert r[..|r| - 1] == NatToString(n / 10);
    }
  }

  /** `toInt` reads back what `toString` prints, for every 32-bit value. */
  lemma ParseIntToString(x: int)
    requires IsInt32(x)
    ensures ParseInt(IntToString(x)) == Some(x)
  {
    var s := IntToString(x);
    if x < 0 {
      DigitsOfNat(-x);
      assert s[0] == '-' && s[1..] == NatToString(-x);
    } else {
      DigitsOfNat(x);
      assert IsAsciiDigit(s[0]);
    }
  }
}
