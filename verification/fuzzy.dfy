/** The per-request record of issues the evidence check discarded
    (service/FuzzyDiscardAccumulator.java): how each value is cleaned, the
    order entries are kept and rendered in, the single-line header value and
    the counts of the structured export. The thread-local sharing, the JSON
    and Base64 encoding and the `%.3f` formatting of the similarity are not
    modelled; the similarity's text is a parameter. */
module FuzzyDiscards {

  import opened Wrappers
  import opened JavaString

  // ---------------------------------------------------------------------------
  // Cleaning
  // ---------------------------------------------------------------------------

  predicate IsCrLf(c: char) {
    c == '\r' || c == '\n'
  }

  /** `s.replace(";", ",")`. */
  function SemicolonsToCommas(s: string): string {
    ReplaceLiteral(s, ";", ",")
  }

  /** Replacing the one-character target works character by character. */
  lemma {:induction false} SemicolonsToCommasAt(s: string)
    ensures |SemicolonsToCommas(s)| == |s|
    ensures forall k :: 0 <= k < |s| ==> SemicolonsToCommas(s)[k] == (if s[k] == ';' then ',' else s[k])
    decreases |s|
  {
    if |s| > 0 {
      SemicolonsToCommasAt(s[1..]);
      assert s[..1] == ";" <==> s[0] == ';';
    }
  }

  /** Neither a line break nor a semicolon. */
  predicate IsSafeChar(c: char) {
    c != '\r' && c != '\n' && c != ';'
  }

  /** The two replacements of `safe`, before trimming. */
  function Replaced(t: string): string {
    SemicolonsToCommas(CollapseRuns(t, IsCrLf))
  }

  /** After the two replacements no line break or semicolon is left. */
  lemma ReplacedIsSafe(t: string)
    ensures forall k :: 0 <= k < |Replaced(t)| ==> IsSafeChar(Replaced(t)[k])
  {
    var flat := CollapseRuns(t, IsCrLf);
    var commas := SemicolonsToCommas(flat);
    SemicolonsToCommasAt(flat);
    forall k | 0 <= k < |commas|
      ensures IsSafeChar(commas[k])
    {
      assert !IsCrLf(flat[k]) || flat[k] == ' ';
    }
  }

  /** `safe` (service/FuzzyDiscardAccumulator.java:103-106): every run of CR
      and LF becomes one space, `;` becomes `,`, and the result is trimmed;
      null gives "". */
  function Safe(s: Option<string>): (r: string)
    ensures s.None? ==> r == ""
    ensures forall k :: 0 <= k < |r| ==> r[k] != '\r' && r[k] != '\n' && r[k] != ';'
    ensures |r| > 0 ==> !IsTrimmable(r[0]) && !IsTrimmable(r[|r| - 1])
  {
    if s.None? then ""
    else
      var commas := Replaced(s.value);
      ReplacedIsSafe(s.value);
      TrimKeeps(commas, IsSafeChar);
      Trim(commas)
  }

  /** Cleaning clean text changes nothing. */
  lemma SafeIdempotent(s: Option<string>)
    ensures Safe(Some(Safe(s))) == Safe(s)
  {
    var r := Safe(s);
    ReplacedFixesSafe(r);
    TrimTrimmed(r);
  }

  /** Text with no line break and no semicolon survives both replacements. */
  lemma ReplacedFixesSafe(r: string)
    requires forall k :: 0 <= k < |r| ==> IsSafeChar(r[k])
    ensures Replaced(r) == r
  {
    CollapseRunsNoSep(r, IsCrLf);
    SemicolonsToCommasAt(r);
    assert SemicolonsToCommas(r) == r;
  }

  /** Code units outside printable US-ASCII become spaces. */
  function Printable(s: string): (r: string)
    ensures |r| == |s|
    ensures forall k :: 0 <= k < |s| ==> r[k] == (if 32 <= s[k] as int <= 126 then s[k] else ' ')
  {
    seq(|s|, k requires 0 <= k < |s| => if 32 <= s[k] as int <= 126 then s[k] else ' ')
  }

  predicate IsPrintableAscii(c: char) {
    32 <= c as int <= 126
  }

  /** `headerSafe` (service/FuzzyDiscardAccumulator.java:111-123). */
  function HeaderSafe(s: Option<string>): (r: string)
    ensures s.None? || IsBlank(s.value) ==> r == ""
  {
    if s.None? || IsBlank(s.value) then ""
    else Trim(CollapseRuns(Printable(s.value), IsRegexSpace))
  }

  /** Printable US-ASCII with no leading or trailing space and no two spaces
      in a row. */
  predicate HeaderShaped(r: string) {
    AllPrintable(r) && NoEdgeSpace(r) && NoDoubled(r, IsSpace)
  }

  predicate AllPrintable(r: string) {
    forall k :: 0 <= k < |r| ==> IsPrintableAscii(r[k])
  }

  predicate NoEdgeSpace(r: string) {
    |r| > 0 ==> r[0] != ' ' && r[|r| - 1] != ' '
  }

  /** Header-safe text is header-shaped. */
  lemma HeaderSafeShape(s: Option<string>)
    ensures HeaderShaped(HeaderSafe(s))
  {
    if s.Some? && !IsBlank(s.value) {
      var p := Printable(s.value);
      assert forall k :: 0 <= k < |p| ==> IsPrintableAscii(p[k]);
      CollapsedTrimShaped(p);
    }
  }

  lemma CollapsedTrimShaped(p: string)
    requires forall k :: 0 <= k < |p| ==> IsPrintableAscii(p[k])
    ensures HeaderShaped(Trim(CollapseRuns(p, IsRegexSpace)))
  {
    var c := CollapseRuns(p, IsRegexSpace);
    assert AllPrintable(Trim(c)) by {
      CollapseRunsKeeps(p, IsRegexSpace, IsPrintableAscii);
      TrimKeeps(c, IsPrintableAscii);
    }
    assert NoDoubled(Trim(c), IsSpace) by {
      CollapseRunsNoDoubledSpace(p, IsRegexSpace);
      TrimNoDoubled(c, IsSpace);
    }
    assert NoEdgeSpace(Trim(c));
  }

  // ---------------------------------------------------------------------------
  // The accumulator
  // ---------------------------------------------------------------------------

  datatype DiscardedIssue = DiscardedIssue(
    issueId: string,
    similarity: real,
    reason: string,
    quoteSnippet: string,
    quoteFull: Option<string>)

  /** One `addDiscarded` call's arguments. */
  datatype DiscardCall = DiscardCall(
    issueId: Option<string>,
    similarity: real,
    quoteSnippet: Option<string>,
    quoteFull: Option<string>,
    reason: Option<string>)

  datatype Accumulator = Accumulator(discarded: seq<DiscardedIssue>)

  /** `start`: an empty accumulator. */
  function Start(): Accumulator {
    Accumulator([])
  }

  /** The entry `addDiscarded` stores: every text cleaned, a null full quote
      kept null. */
  function Entry(c: DiscardCall): (d: DiscardedIssue)
    ensures d.similarity == c.similarity
    ensures d.quoteFull.None? <==> c.quoteFull.None?
  {
    DiscardedIssue(Safe(c.issueId), c.similarity, Safe(c.reason), Safe(c.quoteSnippet),
                   if c.quoteFull.None? then None else Some(Safe(c.quoteFull)))
  }

  /** `addDiscarded` (service/FuzzyDiscardAccumulator.java:44-52). */
  function AddDiscarded(acc: Accumulator, c: DiscardCall): (r: Accumulator)
    ensures |r.discarded| == |acc.discarded| + 1
    ensures r.discarded[..|acc.discarded|] == acc.discarded
    ensures r.discarded[|acc.discarded|] == Entry(c)
  {
    Accumulator(acc.discarded + [Entry(c)])
  }

  /** `count`. */
  function Count(acc: Accumulator): nat {
    |acc.discarded|
  }

  /** The accumulator after `start` and then the given calls. */
  function Replay(calls: seq<DiscardCall>): Accumulator
    decreases |calls|
  {
    if |calls| == 0 then Start() else AddDiscarded(Replay(calls[..|calls| - 1]), calls[|calls| - 1])
  }

  /** The count is the number of `addDiscarded` calls since `start`. */
  lemma {:induction false} ReplayCount(calls: seq<DiscardCall>)
    ensures Count(Replay(calls)) == |calls|
    decreases |calls|
  {
    if |calls| > 0 {
      ReplayCount(calls[..|calls| - 1]);
    }
  }

  /** The results of applying `f` to each call, built one call at a time. */
  function Snoc<C, D>(calls: seq<C>, f: C -> D): (r: seq<D>)
    decreases |calls|
  {
    if |calls| == 0 then [] else Snoc(calls[..|calls| - 1], f) + [f(calls[|calls| - 1])]
  }

  lemma {:induction false} SnocAt<C, D>(calls: seq<C>, f: C -> D)
    ensures |Snoc(calls, f)| == |calls|
    ensures forall k :: 0 <= k < |calls| ==> Snoc(calls, f)[k] == f(calls[k])
    decreases |calls|
  {
    if |calls| > 0 {
      var n := |calls| - 1;
      SnocAt(calls[..n], f);
      forall k | 0 <= k < n
        ensures Snoc(calls, f)[k] == f(calls[k])
      {
        assert calls[..n][k] == calls[k];
      }
    }
  }

  lemma {:induction false} ReplayIsSnoc(calls: seq<DiscardCall>)
    ensures Replay(calls).discarded == Snoc(calls, Entry)
    decreases |calls|
  {
    if |calls| > 0 {
      ReplayIsSnoc(calls[..|calls| - 1]);
    }
  }

  /** The entries are the calls' cleaned values, in call order. */
  lemma ReplayEntries(calls: seq<DiscardCall>)
    ensures |Replay(calls).discarded| == |calls|
    ensures forall k :: 0 <= k < |calls| ==> Replay(calls).discarded[k] == Entry(calls[k])
  {
    ReplayIsSnoc(calls);
    SnocAt(calls, Entry);
  }

  // ---------------------------------------------------------------------------
  // Header value
  // ---------------------------------------------------------------------------

  /** One entry as `id=..;sim=..;reason=..;quote=..`, with the similarity's
      text supplied by `simText`. */
  function Render(d: DiscardedIssue, simText: real -> string): string {
    "id=" + HeaderSafe(Some(d.issueId)) + ";sim=" + simText(d.similarity)
      + ";reason=" + HeaderSafe(Some(d.reason)) + ";quote=" + HeaderSafe(Some(d.quoteSnippet))
  }

  function Rendered(ds: seq<DiscardedIssue>, simText: real -> string): (r: seq<string>)
    ensures |r| == |ds|
    ensures forall k :: 0 <= k < |ds| ==> r[k] == Render(ds[k], simText)
    decreases |ds|
  {
    if |ds| == 0 then [] else [Render(ds[0], simText)] + Rendered(ds[1..], simText)
  }

  /** The entries joined by `" || "`, "" for none. */
  function Joined(acc: Accumulator, simText: real -> string): string {
    Join(Rendered(acc.discarded, simText), " || ")
  }

  lemma RenderedSnoc(ds: seq<DiscardedIssue>, d: DiscardedIssue, simText: real -> string)
    ensures Rendered(ds + [d], simText) == Rendered(ds, simText) + [Render(d, simText)]
  {
    var a := Rendered(ds + [d], simText);
    var b := Rendered(ds, simText) + [Render(d, simText)];
    assert |a| == |b|;
    forall k | 0 <= k < |a|
      ensures a[k] == b[k]
    {
      if k < |ds| {
        assert (ds + [d])[k] == ds[k];
        assert b[k] == Rendered(ds, simText)[k];
      } else {
        assert (ds + [d])[k] == d;
      }
    }
  }

  /** Rendering follows insertion order: a new entry is appended after the
      text of all earlier ones. */
  lemma JoinedAfterAdd(acc: Accumulator, c: DiscardCall, simText: real -> string)
    ensures Joined(AddDiscarded(acc, c), simText) ==
              if |acc.discarded| == 0 then Render(Entry(c), simText)
              else Joined(acc, simText) + " || " + Render(Entry(c), simText)
  {
    var before := Rendered(acc.discarded, simText);
    var after := Rendered(AddDiscarded(acc, c).discarded, simText);
    assert AddDiscarded(acc, c).discarded == acc.discarded + [Entry(c)];
    RenderedSnoc(acc.discarded, Entry(c), simText);
    if |acc.discarded| > 0 {
      JoinAppend(before, Render(Entry(c), simText), " || ");
    } else {
      assert after == [Render(Entry(c), simText)];
    }
  }

  /** `asHeaderValue` (service/FuzzyDiscardAccumulator.java:62-74). */
  function AsHeaderValue(acc: Accumulator, maxChars: int, simText: real -> string): (r: string)
    ensures var joined := HeaderSafe(Some(Joined(acc, simText)));
            && (|joined| <= maxChars ==> r == joined)
            && (|joined| > maxChars ==>
                  var keep := if maxChars - 3 > 0 then maxChars - 3 else 0;
                  && |r| == keep + 3
                  && r[..keep] == joined[..keep]
                  && EndsWith(r, "..."))
    ensures maxChars >= 3 ==> |r| <= maxChars
  {
    var joined := HeaderSafe(Some(Joined(acc, simText)));
    if |joined| <= maxChars then joined
    else
      var keep := if maxChars - 3 > 0 then maxChars - 3 else 0;
      joined[..keep] + "..."
  }

  // ---------------------------------------------------------------------------
  // Structured export
  // ---------------------------------------------------------------------------

  datatype Envelope = Envelope(
    totalDiscarded: nat,
    returnedDiscarded: nat,
    truncated: bool,
    issues: seq<DiscardedIssue>)

  /** The envelope `asJsonBase64` serialises
      (service/FuzzyDiscardAccumulator.java:80-92). */
  function AsEnvelope(acc: Accumulator, maxIssues: int): (e: Envelope)
    ensures e.totalDiscarded == |acc.discarded|
    ensures var cap := if maxIssues > 0 then maxIssues else 0;
            e.returnedDiscarded == if cap < |acc.discarded| then cap else |acc.discarded|
    ensures e.truncated <==> e.totalDiscarded > e.returnedDiscarded
    ensures |e.issues| == e.returnedDiscarded
    ensures e.issues == acc.discarded[..e.returnedDiscarded]
  {
    var effectiveMax := if maxIssues > 0 then maxIssues else 0;
    var end := if effectiveMax < |acc.discarded| then effectiveMax else |acc.discarded|;
    var snapshot := acc.discarded[..end];
    Envelope(|acc.discarded|, |snapshot|, |acc.discarded| > |snapshot|, snapshot)
  }
}
