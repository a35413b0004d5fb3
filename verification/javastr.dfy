/** The handful of `java.lang.String` / `java.util.regex` behaviours the rest of
    the model relies on, written out over `seq<char>`.  Case mapping is the
    ASCII part of Java's mapping; everything else follows the JDK documentation
    of the named method. */
module JavaString {

  import opened Wrappers

  // ---------------------------------------------------------------------------
  // Character classes
  // ---------------------------------------------------------------------------

  /** `Character.isWhitespace`: the Unicode space separators other than the
      no-break spaces, plus the ASCII controls TAB..CR and FS..US. */
  predicate IsWhitespace(c: char) {
    var n := c as int;
    (9 <= n <= 13) || (28 <= n <= 32) || n == 0x1680
    || (0x2000 <= n <= 0x2006) || (0x2008 <= n <= 0x200A)
    || n == 0x2028 || n == 0x2029 || n == 0x205F || n == 0x3000
  }

  /** The regex class `\s` without UNICODE_CHARACTER_CLASS: `[ \t\n\x0B\f\r]`. */
  predicate IsRegexSpace(c: char) {
    c == ' ' || (9 <= c as int <= 13)
  }

  /** Characters removed by `String.trim()`: every code unit up to U+0020. */
  predicate IsTrimmable(c: char) {
    c as int <= 32
  }

  /** The POSIX class `\p{Punct}`: ASCII punctuation and symbols. */
  predicate IsPunct(c: char) {
    ('!' <= c <= '/') || (':' <= c <= '@') || ('[' <= c <= '`') || ('{' <= c <= '~')
  }

  predicate IsDigit(c: char) {
    '0' <= c <= '9'
  }

  predicate IsAsciiUpper(c: char) {
    'A' <= c <= 'Z'
  }

  predicate IsAsciiLower(c: char) {
    'a' <= c <= 'z'
  }

  predicate IsAsciiLetter(c: char) {
    IsAsciiUpper(c) || IsAsciiLower(c)
  }

  function ToLowerChar(c: char): char {
    if IsAsciiUpper(c) then (c as int + 32) as char else c
  }

  function ToUpperChar(c: char): char {
    if IsAsciiLower(c) then (c as int - 32) as char else c
  }

  lemma RegexSpaceIsWhitespace(c: char)
    ensures IsRegexSpace(c) ==> IsWhitespace(c) && IsTrimmable(c)
  {
  }

  // ---------------------------------------------------------------------------
  // Whole-string predicates and case mapping
  // ---------------------------------------------------------------------------

  /** `String.isBlank()`: empty, or whitespace only. */
  predicate IsBlank(s: string) {
    forall i :: 0 <= i < |s| ==> IsWhitespace(s[i])
  }

  /** Java `s == null || s.isBlank()`. */
  predicate IsNullOrBlank(s: Option<string>) {
    s.None? || IsBlank(s.value)
  }

  function ToLower(s: string): (r: string)
    ensures |r| == |s|
    ensures forall i :: 0 <= i < |s| ==> r[i] == ToLowerChar(s[i])
  {
    seq(|s|, i requires 0 <= i < |s| => ToLowerChar(s[i]))
  }

  function ToUpper(s: string): (r: string)
    ensures |r| == |s|
    ensures forall i :: 0 <= i < |s| ==> r[i] == ToUpperChar(s[i])
  {
    seq(|s|, i requires 0 <= i < |s| => ToUpperChar(s[i]))
  }

  /** `String.equalsIgnoreCase` restricted to ASCII case folding. */
  predicate EqualsIgnoreCase(a: string, b: string) {
    ToUpper(a) == ToUpper(b)
  }

  predicate StartsWith(s: string, prefix: string) {
    |prefix| <= |s| && s[..|prefix|] == prefix
  }

  predicate EndsWith(s: string, suffix: string) {
    |suffix| <= |s| && s[|s| - |suffix|..] == suffix
  }

  /** `String.contains`: `needle` occurs at some position of `s`. */
  predicate Contains(s: string, needle: string) {
    exists i :: 0 <= i <= |s| - |needle| && OccursAt(s, needle, i)
  }

  /** `needle` occurs in `s` starting at index `i`. */
  predicate OccursAt(s: string, needle: string, i: int) {
    0 <= i <= |s| - |needle| && s[i..i + |needle|] == needle
  }

  /** `String.contains` for a single character. */
  predicate HasChar(s: string, c: char) {
    exists i :: 0 <= i < |s| && s[i] == c
  }

  // ---------------------------------------------------------------------------
  // Trimming
  // ---------------------------------------------------------------------------

  /** Number of leading characters of `s` that `drop` accepts. */
  function LeadCount(s: string, drop: char -> bool): (n: nat)
    ensures n <= |s|
    decreases |s|
  {
    if |s| == 0 || !drop(s[0]) then 0 else 1 + LeadCount(s[1..], drop)
  }

  /** `LeadCount` counts exactly the leading run `drop` accepts. */
  lemma {:induction false} LeadCountFacts(s: string, drop: char -> bool)
    ensures forall k :: 0 <= k < LeadCount(s, drop) ==> drop(s[k])
    ensures LeadCount(s, drop) < |s| ==> !drop(s[LeadCount(s, drop)])
    decreases |s|
  {
    if |s| > 0 && drop(s[0]) {
      LeadCountFacts(s[1..], drop);
      forall k | 0 <= k < LeadCount(s, drop)
        ensures drop(s[k])
      {
        if k > 0 {
          assert s[k] == s[1..][k - 1];
        }
      }
    }
  }

  /** Number of trailing characters of `s` that `drop` accepts. */
  function TrailCount(s: string, drop: char -> bool): (n: nat)
    ensures n <= |s|
    decreases |s|
  {
    if |s| == 0 || !drop(s[|s| - 1]) then 0 else 1 + TrailCount(s[..|s| - 1], drop)
  }

  /** `TrailCount` counts exactly the trailing run `drop` accepts. */
  lemma {:induction false} TrailCountFacts(s: string, drop: char -> bool)
    ensures forall k :: |s| - TrailCount(s, drop) <= k < |s| ==> drop(s[k])
    ensures TrailCount(s, drop) < |s| ==> !drop(s[|s| - 1 - TrailCount(s, drop)])
    decreases |s|
  {
    if |s| > 0 && drop(s[|s| - 1]) {
      var p := s[..|s| - 1];
      TrailCountFacts(p, drop);
      forall k | |s| - TrailCount(s, drop) <= k < |s|
        ensures drop(s[k])
      {
        if k < |s| - 1 {
          assert s[k] == p[k];
        }
      }
      if TrailCount(s, drop) < |s| {
        assert s[|s| - 1 - TrailCount(s, drop)] == p[|p| - 1 - TrailCount(p, drop)];
      }
    }
  }

  /** Removes the maximal prefix and suffix made of characters `drop` accepts. */
  function StripEnds(s: string, drop: char -> bool): (r: string)
    ensures |r| > 0 ==> !drop(r[0]) && !drop(r[|r| - 1])
    ensures |r| <= |s|
  {
    var lead := LeadCount(s, drop);
    if lead == |s| then
      assert s[0..0] == [];
      []
    else
      var trail := TrailCount(s, drop);
      CountsFit(s, drop);
      s[lead..|s| - trail]
  }

  /** When something is left after the leading run, the trailing run stops
      before it, and both ends of what is left are kept. */
  lemma CountsFit(s: string, drop: char -> bool)
    requires LeadCount(s, drop) < |s|
    ensures LeadCount(s, drop) + TrailCount(s, drop) < |s|
    ensures !drop(s[LeadCount(s, drop)]) && !drop(s[|s| - 1 - TrailCount(s, drop)])
  {
    LeadCountFacts(s, drop);
    TrailCountFacts(s, drop);
  }

  /** `StripEnds` keeps a slice of `s` and drops only characters `drop`
      accepts. */
  lemma StripEndsShape(s: string, drop: char -> bool)
    ensures exists i, j ::
              && 0 <= i <= j <= |s| && StripEnds(s, drop) == s[i..j]
              && (forall k :: 0 <= k < i ==> drop(s[k]))
              && (forall k :: j <= k < |s| ==> drop(s[k]))
  {
    var lead := LeadCount(s, drop);
    LeadCountFacts(s, drop);
    TrailCountFacts(s, drop);
    if lead == |s| {
      assert StripEnds(s, drop) == s[lead..lead];
    } else {
      var trail := TrailCount(s, drop);
      CountsFit(s, drop);
      assert StripEnds(s, drop) == s[lead..|s| - trail];
    }
  }

  /** `String.trim()`. */
  function Trim(s: string): (r: string)
    ensures exists i, j :: 0 <= i <= j <= |s| && r == s[i..j]
    ensures |r| > 0 ==> !IsTrimmable(r[0]) && !IsTrimmable(r[|r| - 1])
    ensures |r| <= |s|
  {
    StripEndsShape(s, IsTrimmable);
    StripEnds(s, IsTrimmable)
  }

  /** `String.strip()`. */
  function Strip(s: string): (r: string)
    ensures exists i, j :: 0 <= i <= j <= |s| && r == s[i..j]
    ensures |r| > 0 ==> !IsWhitespace(r[0]) && !IsWhitespace(r[|r| - 1])
    ensures |r| <= |s|
  {
    StripEndsShape(s, IsWhitespace);
    StripEnds(s, IsWhitespace)
  }

  /** A slice keeps every character-wise property of the whole. */
  lemma SliceKeeps(s: string, i: int, j: int, p: char -> bool)
    requires 0 <= i <= j <= |s|
    requires forall k :: 0 <= k < |s| ==> p(s[k])
    ensures forall k :: 0 <= k < j - i ==> p(s[i..j][k])
  {
  }

  /** Trimming never introduces a character. */
  lemma TrimKeeps(s: string, p: char -> bool)
    requires forall k :: 0 <= k < |s| ==> p(s[k])
    ensures forall k :: 0 <= k < |Trim(s)| ==> p(Trim(s)[k])
  {
    var i, j :| 0 <= i <= j <= |s| && Trim(s) == s[i..j];
    SliceKeeps(s, i, j, p);
  }

  /** Text with nothing to trim at either end is its own trim. */
  lemma TrimTrimmed(s: string)
    requires |s| > 0 ==> !IsTrimmable(s[0]) && !IsTrimmable(s[|s| - 1])
    ensures Trim(s) == s
  {
    if |s| > 0 {
      assert LeadCount(s, IsTrimmable) == 0;
      assert TrailCount(s, IsTrimmable) == 0;
      assert s[0..|s|] == s;
    }
  }

  /** Trimmed text is empty exactly when every character is trimmable. */
  lemma TrimEmpty(s: string)
    ensures |Trim(s)| == 0 <==> forall k :: 0 <= k < |s| ==> IsTrimmable(s[k])
  {
    StripEndsShape(s, IsTrimmable);
    var i, j :| && 0 <= i <= j <= |s| && Trim(s) == s[i..j]
                && (forall k :: 0 <= k < i ==> IsTrimmable(s[k]))
                && (forall k :: j <= k < |s| ==> IsTrimmable(s[k]));
    if |Trim(s)| == 0 {
      assert i == j;
    } else {
      assert !IsTrimmable(s[i]);
    }
  }

  lemma {:induction false} LeadCountSnoc(s: string, c: char, drop: char -> bool)
    ensures LeadCount(s + [c], drop) == if LeadCount(s, drop) < |s| then LeadCount(s, drop)
                                       else if drop(c) then |s| + 1 else |s|
    decreases |s|
  {
    if |s| > 0 {
      assert (s + [c])[1..] == s[1..] + [c];
      LeadCountSnoc(s[1..], c, drop);
    }
  }

  /** A trimmable character at the end makes no difference to `trim`. */
  lemma TrimSnocTrimmable(s: string, c: char)
    requires IsTrimmable(c)
    ensures Trim(s + [c]) == Trim(s)
  {
    StripEndsSnoc(s, c, IsTrimmable);
  }

  lemma StripEndsSnoc(s: string, c: char, drop: char -> bool)
    requires drop(c)
    ensures StripEnds(s + [c], drop) == StripEnds(s, drop)
  {
    var t := s + [c];
    LeadCountSnoc(s, c, drop);
    TrailCountSnoc(s, c, drop);
    if LeadCount(s, drop) < |s| {
      var lead := LeadCount(s, drop);
      var trail := TrailCount(s, drop);
      CountsFit(s, drop);
      assert t[lead..|t| - (trail + 1)] == s[lead..|s| - trail];
    }
  }

  lemma TrailCountSnoc(s: string, c: char, drop: char -> bool)
    requires drop(c)
    ensures TrailCount(s + [c], drop) == TrailCount(s, drop) + 1
  {
    assert (s + [c])[..|s|] == s;
  }

  /** Appending text that ends in trimmable characters to text with nothing
      to trim at its start leaves that start alone. */
  lemma TrimAppendTrimmable(s: string, tail: string)
    requires forall k :: 0 <= k < |tail| ==> IsTrimmable(tail[k])
    ensures Trim(s + tail) == Trim(s)
  {
    StripEndsAppend(s, tail, IsTrimmable);
  }

  lemma {:induction false} StripEndsAppend(s: string, tail: string, drop: char -> bool)
    requires forall k :: 0 <= k < |tail| ==> drop(tail[k])
    ensures StripEnds(s + tail, drop) == StripEnds(s, drop)
    decreases |tail|
  {
    if |tail| > 0 {
      var n := |tail| - 1;
      assert s + tail == (s + tail[..n]) + [tail[n]];
      StripEndsSnoc(s + tail[..n], tail[n], drop);
      StripEndsAppend(s, tail[..n], drop);
    } else {
      assert s + tail == s;
    }
  }

  /** Stripping never introduces a character. */
  lemma StripKeeps(s: string, p: char -> bool)
    requires forall k :: 0 <= k < |s| ==> p(s[k])
    ensures forall k :: 0 <= k < |Strip(s)| ==> p(Strip(s)[k])
  {
    var i, j :| 0 <= i <= j <= |s| && Strip(s) == s[i..j];
    SliceKeeps(s, i, j, p);
  }

  predicate IsSpace(c: char) {
    c == ' '
  }

  /** Collapsing runs keeps a property every character and the space have. */
  lemma CollapseRunsKeeps(s: string, sep: char -> bool, p: char -> bool)
    requires forall k :: 0 <= k < |s| ==> p(s[k])
    requires p(' ')
    ensures forall k :: 0 <= k < |CollapseRuns(s, sep)| ==> p(CollapseRuns(s, sep)[k])
  {
    var c := CollapseRuns(s, sep);
    forall k | 0 <= k < |c|
      ensures p(c[k])
    {
      if c[k] != ' ' {
        var j :| 0 <= j < |s| && s[j] == c[k];
      }
    }
  }

  /** When the space is a separator, collapsing leaves no two spaces in a
      row. */
  lemma CollapseRunsNoDoubledSpace(s: string, sep: char -> bool)
    requires sep(' ')
    ensures NoDoubled(CollapseRuns(s, sep), IsSpace)
  {
    var c := CollapseRuns(s, sep);
    forall k | 0 <= k < |c| - 1
      ensures !(IsSpace(c[k]) && IsSpace(c[k + 1]))
    {
      assert !(sep(c[k]) && sep(c[k + 1]));
    }
  }

  /** No two adjacent characters satisfy `p`. */
  predicate NoDoubled(s: string, p: char -> bool) {
    forall k :: 0 <= k < |s| - 1 ==> !(p(s[k]) && p(s[k + 1]))
  }

  lemma SliceNoDoubled(s: string, i: int, j: int, p: char -> bool)
    requires 0 <= i <= j <= |s|
    requires NoDoubled(s, p)
    ensures NoDoubled(s[i..j], p)
  {
    var t := s[i..j];
    forall k | 0 <= k < |t| - 1
      ensures !(p(t[k]) && p(t[k + 1]))
    {
      assert t[k] == s[i + k] && t[k + 1] == s[i + k + 1];
    }
  }

  lemma TrimNoDoubled(s: string, p: char -> bool)
    requires NoDoubled(s, p)
    ensures NoDoubled(Trim(s), p)
  {
    var i, j :| 0 <= i <= j <= |s| && Trim(s) == s[i..j];
    SliceNoDoubled(s, i, j, p);
  }

  // ---------------------------------------------------------------------------
  // Decimal numbers
  // ---------------------------------------------------------------------------

  predicate AllDigits(s: string) {
    forall i :: 0 <= i < |s| ==> IsDigit(s[i])
  }

  function DigitChar(d: nat): char
    requires d < 10
  {
    ('0' as int + d) as char
  }

  /** Value of a decimal digit string (leading zeros allowed), as `Integer.parseInt`
      reads it when no overflow occurs. */
  function DigitsValue(s: string): nat
    requires AllDigits(s)
    decreases |s|
  {
    if |s| == 0 then 0
    else 10 * DigitsValue(s[..|s| - 1]) + (s[|s| - 1] as int - '0' as int)
  }

  /** Decimal rendering of a natural number (`String.valueOf`). */
  function NatToString(n: nat): (r: string)
    ensures |r| > 0 && AllDigits(r)
    ensures n > 0 ==> r[0] != '0'
    decreases n
  {
    if n < 10 then [DigitChar(n)] else NatToString(n / 10) + [DigitChar(n % 10)]
  }

  /** Parsing the rendering gives the number back. */
  lemma {:induction false} NatToStringRoundTrip(n: nat)
    ensures DigitsValue(NatToString(n)) == n
    decreases n
  {
    var r := NatToString(n);
    if n >= 10 {
      NatToStringRoundTrip(n / 10);
      assert r[..|r| - 1] == NatToString(n / 10);
    }
  }

  lemma NatToStringInjective(a: nat, b: nat)
    requires NatToString(a) == NatToString(b)
    ensures a == b
  {
    NatToStringRoundTrip(a);
    NatToStringRoundTrip(b);
  }

  /** `String.valueOf(long)`. */
  function IntToString(i: int): string {
    if i < 0 then "-" + NatToString(-i) else NatToString(i)
  }

  /** `"%03d"`: at least three digits, left-padded with zeros. */
  function Pad3(n: nat): (r: string)
    ensures AllDigits(r) && |r| >= 3
    ensures DigitsValue(r) == n
  {
    var d := NatToString(n);
    NatToStringRoundTrip(n);
    var pad := if |d| >= 3 then "" else seq(3 - |d|, _ => '0');
    LeadingZerosValue(pad, d);
    pad + d
  }

  lemma {:induction false} LeadingZerosValue(zeros: string, d: string)
    requires forall i :: 0 <= i < |zeros| ==> zeros[i] == '0'
    requires AllDigits(d)
    ensures AllDigits(zeros + d)
    ensures DigitsValue(zeros + d) == DigitsValue(d)
    decreases |d|
  {
    var s := zeros + d;
    if |d| == 0 {
      assert s == zeros;
      ZerosValue(zeros);
    } else {
      assert s[..|s| - 1] == zeros + d[..|d| - 1];
      LeadingZerosValue(zeros, d[..|d| - 1]);
    }
  }

  lemma {:induction false} ZerosValue(zeros: string)
    requires forall i :: 0 <= i < |zeros| ==> zeros[i] == '0'
    ensures AllDigits(zeros) && DigitsValue(zeros) == 0
    decreases |zeros|
  {
    if |zeros| > 0 {
      ZerosValue(zeros[..|zeros| - 1]);
    }
  }

  // ---------------------------------------------------------------------------
  // Joining, splitting and replacing
  // ---------------------------------------------------------------------------

  /** `String.join(sep, parts)`. */
  function Join(parts: seq<string>, sep: string): string
    decreases |parts|
  {
    if |parts| == 0 then ""
    else if |parts| == 1 then parts[0]
    else parts[0] + sep + Join(parts[1..], sep)
  }

  lemma {:induction false} JoinAppend(parts: seq<string>, last: string, sep: string)
    requires |parts| > 0
    ensures Join(parts + [last], sep) == Join(parts, sep) + sep + last
    decreases |parts|
  {
    if |parts| == 1 {
      assert parts + [last] == [parts[0], last];
    } else {
      assert (parts + [last])[1..] == parts[1..] + [last];
      JoinAppend(parts[1..], last, sep);
    }
  }

  /** Position of the first occurrence of `c` in `s`, or `|s|`. */
  function IndexOfChar(s: string, c: char): (k: nat)
    ensures k <= |s|
    ensures forall i :: 0 <= i < k ==> s[i] != c
    ensures k < |s| ==> s[k] == c
    decreases |s|
  {
    if |s| == 0 then 0 else if s[0] == c then 0 else 1 + IndexOfChar(s[1..], c)
  }

  /** The pieces of `s` between the occurrences of `c`, keeping empty pieces. */
  function PiecesOn(s: string, c: char): (r: seq<string>)
    ensures |r| >= 1
    ensures forall k :: 0 <= k < |r| ==> !HasChar(r[k], c)
    decreases |s|
  {
    var k := IndexOfChar(s, c);
    if k == |s| then [s] else [s[..k]] + PiecesOn(s[k + 1..], c)
  }

  /** Drops the empty strings at the end of a list (`split` with limit 0). */
  function DropTrailingEmpty(r: seq<string>): (t: seq<string>)
    ensures |t| <= |r| && t == r[..|t|]
    ensures |t| > 0 ==> t[|t| - 1] != ""
    ensures forall k :: |t| <= k < |r| ==> r[k] == ""
    decreases |r|
  {
    if |r| == 0 || r[|r| - 1] != "" then r else DropTrailingEmpty(r[..|r| - 1])
  }

  /** `String.split(String.valueOf(c))` for a literal, non-regex character:
      a string without `c` gives itself; otherwise the pieces, less trailing
      empty ones. */
  function SplitOn(s: string, c: char): (r: seq<string>)
    ensures !HasChar(s, c) ==> r == [s]
    ensures forall k :: 0 <= k < |r| ==> !HasChar(r[k], c)
  {
    if IndexOfChar(s, c) == |s| then
      assert !HasChar(s, c);
      [s]
    else DropTrailingEmpty(PiecesOn(s, c))
  }

  /** Position of the first character of `s` that `p` accepts, or `|s|`. */
  function IndexWhere(s: string, p: char -> bool): (k: nat)
    ensures k <= |s|
    ensures forall i :: 0 <= i < k ==> !p(s[i])
    ensures k < |s| ==> p(s[k])
    decreases |s|
  {
    if |s| == 0 then 0 else if p(s[0]) then 0 else 1 + IndexWhere(s[1..], p)
  }

  /** The pieces of `s` between the maximal runs of characters `sep` accepts,
      keeping empty pieces (a leading run gives a leading empty piece). */
  function RunPieces(s: string, sep: char -> bool): (r: seq<string>)
    ensures |r| >= 1
    ensures forall k, i :: 0 <= k < |r| && 0 <= i < |r[k]| ==> !sep(r[k][i])
    decreases |s|
  {
    var k := IndexWhere(s, sep);
    if k == |s| then [s]
    else
      var e := k + LeadCount(s[k..], sep);
      [s[..k]] + RunPieces(s[e..], sep)
  }

  /** `String.split(regex)` for a regex matching one or more characters of a
      class (`"\\s+"`): a string with no such character gives itself;
      otherwise the pieces between runs, less trailing empty ones. */
  function SplitOnRuns(s: string, sep: char -> bool): (r: seq<string>)
    ensures IndexWhere(s, sep) == |s| ==> r == [s]
    ensures forall k, i :: 0 <= k < |r| && 0 <= i < |r[k]| ==> !sep(r[k][i])
  {
    if IndexWhere(s, sep) == |s| then [s] else DropTrailingEmpty(RunPieces(s, sep))
  }

  /** `replaceAll(regex, " ")` for a regex matching one or more characters of
      a class: every maximal run becomes a single space. */
  function CollapseRuns(s: string, sep: char -> bool): (r: string)
    ensures forall i :: 0 <= i < |r| ==> r[i] == ' ' || r[i] in s
    ensures forall i :: 0 <= i < |r| && sep(r[i]) ==> r[i] == ' '
    ensures forall i :: 0 <= i < |r| - 1 ==> !(sep(r[i]) && sep(r[i + 1]))
    ensures |s| > 0 && !sep(s[0]) ==> |r| > 0 && r[0] == s[0]
    ensures |s| > 0 ==> |r| > 0
    decreases |s|
  {
    if |s| == 0 then ""
    else if sep(s[0]) then
      var rest := s[LeadCount(s, sep)..];
      var tail := CollapseRuns(rest, sep);
      LeadCountFacts(s, sep);
      assert forall c :: c in rest ==> c in s;
      " " + tail
    else
      var tail := CollapseRuns(s[1..], sep);
      assert forall c :: c in s[1..] ==> c in s;
      [s[0]] + tail
  }

  /** Collapsing runs of characters that do not occur changes nothing. */
  lemma {:induction false} CollapseRunsNoSep(s: string, sep: char -> bool)
    requires forall k :: 0 <= k < |s| ==> !sep(s[k])
    ensures CollapseRuns(s, sep) == s
    decreases |s|
  {
    if |s| > 0 {
      CollapseRunsNoSep(s[1..], sep);
    }
  }

  /** `String.replace(CharSequence, CharSequence)`: every non-overlapping
      occurrence of `target`, scanning left to right, becomes `repl`. */
  function ReplaceLiteral(s: string, target: string, repl: string): string
    requires |target| > 0
    decreases |s|
  {
    if |s| < |target| then s
    else if s[..|target|] == target then repl + ReplaceLiteral(s[|target|..], target, repl)
    else [s[0]] + ReplaceLiteral(s[1..], target, repl)
  }

  /** Replacing with text of the same length keeps the length. */
  lemma {:induction false} ReplaceLiteralLength(s: string, target: string, repl: string)
    requires |target| > 0
    requires |repl| == |target|
    ensures |ReplaceLiteral(s, target, repl)| == |s|
    decreases |s|
  {
    if |s| >= |target| {
      if s[..|target|] == target {
        ReplaceLiteralLength(s[|target|..], target, repl);
      } else {
        ReplaceLiteralLength(s[1..], target, repl);
      }
    }
  }

  // ---------------------------------------------------------------------------
  // Ordering
  // ---------------------------------------------------------------------------

  /** Lexicographic order on strings: a proper prefix comes first, otherwise
      the first differing character decides. */
  predicate StrLess(a: string, b: string)
    decreases |a|
  {
    |b| > 0 && (|a| == 0 || a[0] < b[0] || (a[0] == b[0] && StrLess(a[1..], b[1..])))
  }

  /** `String.compareTo`: the difference of the first differing characters,
      or of the lengths when one string is a prefix of the other. */
  function CompareTo(a: string, b: string): int
    decreases |a|
  {
    if |a| == 0 || |b| == 0 then |a| - |b|
    else if a[0] != b[0] then a[0] as int - b[0] as int
    else CompareTo(a[1..], b[1..])
  }

  /** The sign of `compareTo` is the lexicographic order. */
  lemma {:induction false} CompareToSign(a: string, b: string)
    ensures CompareTo(a, b) < 0 <==> StrLess(a, b)
    ensures CompareTo(a, b) == 0 <==> a == b
    ensures CompareTo(a, b) > 0 <==> StrLess(b, a)
    decreases |a|
  {
    if |a| > 0 && |b| > 0 && a[0] == b[0] {
      CompareToSign(a[1..], b[1..]);
      assert a == [a[0]] + a[1..] && b == [b[0]] + b[1..];
    }
  }

  lemma {:induction false} StrLessIrreflexive(a: string)
    ensures !StrLess(a, a)
    decreases |a|
  {
    if |a| > 0 {
      StrLessIrreflexive(a[1..]);
    }
  }

  lemma {:induction false} StrLessTransitive(a: string, b: string, c: string)
    requires StrLess(a, b) && StrLess(b, c)
    ensures StrLess(a, c)
    decreases |a|
  {
    if |a| > 0 && a[0] == b[0] && b[0] == c[0] {
      StrLessTransitive(a[1..], b[1..], c[1..]);
    }
  }

  lemma {:induction false} StrLessTotal(a: string, b: string)
    ensures a == b || StrLess(a, b) || StrLess(b, a)
    decreases |a|
  {
    if |a| > 0 && |b| > 0 && a[0] == b[0] {
      StrLessTotal(a[1..], b[1..]);
      assert a == [a[0]] + a[1..] && b == [b[0]] + b[1..];
    }
  }
}
