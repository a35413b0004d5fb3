/** The deterministic text handling of the LaTeX report
    (service/LatexReportService.java): escaping, the use-case references an
    issue mentions, prompt truncation, and the grouping and counts behind the
    requirements and traceability sections. The section text itself is not
    modelled. */
module LatexReport {

  import opened Wrappers
  import opened JavaString
  import opened Issues
  import opened OrderedMap

  // ---------------------------------------------------------------------------
  // Escaping
  // ---------------------------------------------------------------------------

  /** The replacement `escapeSpecialChars` appends for one character. */
  function EscapeChar(c: char): string {
    match c
    case '\\' => "\\textbackslash{}"
    case '&' => "\\&"
    case '%' => "\\%"
    case '$' => "\\$"
    case '#' => "\\#"
    case '_' => "\\_"
    case '{' => "\\{"
    case '}' => "\\}"
    case '~' => "\\textasciitilde{}"
    case '^' => "\\textasciicircum{}"
    case _ => [c]
  }

  /** `escapeSpecialChars` (service/LatexReportService.java:1005-1023). */
  function EscapeSpecialChars(s: string): string
    decreases |s|
  {
    if |s| == 0 then "" else EscapeChar(s[0]) + EscapeSpecialChars(s[1..])
  }

  /** Escaping works character by character, so it distributes over
      concatenation. */
  lemma {:induction false} EscapeDistributes(a: string, b: string)
    ensures EscapeSpecialChars(a + b) == EscapeSpecialChars(a) + EscapeSpecialChars(b)
    decreases |a|
  {
    if |a| == 0 {
      assert a + b == b;
    } else {
      assert (a + b)[0] == a[0];
      assert (a + b)[1..] == a[1..] + b;
      EscapeDistributes(a[1..], b);
    }
  }

  /** Reads escaped text back: each replacement becomes its character again. */
  function Unescape(t: string): string
    decreases |t|
  {
    if |t| == 0 then ""
    else if StartsWith(t, "\\textbackslash{}") then "\\" + Unescape(t[|"\\textbackslash{}"|..])
    else if StartsWith(t, "\\textasciitilde{}") then "~" + Unescape(t[|"\\textasciitilde{}"|..])
    else if StartsWith(t, "\\textasciicircum{}") then "^" + Unescape(t[|"\\textasciicircum{}"|..])
    else if |t| >= 2 && t[0] == '\\' && t[1] in "&%$#_{}" then [t[1]] + Unescape(t[2..])
    else [t[0]] + Unescape(t[1..])
  }

  /** A word followed by anything starts with that word. */
  lemma StartsWithWord(word: string, rest: string)
    ensures StartsWith(word + rest, word)
    ensures (word + rest)[|word|..] == rest
  {
    assert (word + rest)[..|word|] == word;
  }

  lemma UnescapeBackslash(rest: string)
    ensures Unescape("\\textbackslash{}" + rest) == "\\" + Unescape(rest)
  {
    StartsWithWord("\\textbackslash{}", rest);
  }

  lemma UnescapeTilde(rest: string)
    ensures Unescape("\\textasciitilde{}" + rest) == "~" + Unescape(rest)
  {
    var t := "\\textasciitilde{}" + rest;
    assert t[5] == 'a';
    DiffersAt(t, "\\textbackslash{}", 5);
    StartsWithWord("\\textasciitilde{}", rest);
  }

  lemma UnescapeCircum(rest: string)
    ensures Unescape("\\textasciicircum{}" + rest) == "^" + Unescape(rest)
  {
    var t := "\\textasciicircum{}" + rest;
    assert t[5] == 'a' && t[10] == 'c';
    DiffersAt(t, "\\textbackslash{}", 5);
    DiffersAt(t, "\\textasciitilde{}", 10);
    StartsWithWord("\\textasciicircum{}", rest);
  }

  /** A text that differs from `w` at position `k` does not start with `w`. */
  lemma DiffersAt(t: string, w: string, k: nat)
    requires k < |w| && k < |t| && t[k] != w[k]
    ensures !StartsWith(t, w)
  {
    if |w| <= |t| {
      assert t[..|w|][k] != w[k];
    }
  }

  lemma UnescapeShort(c: char, rest: string)
    requires c in "&%$#_{}"
    ensures Unescape(['\\', c] + rest) == [c] + Unescape(rest)
  {
    var t := ['\\', c] + rest;
    assert t[1] == c;
    DiffersAt(t, "\\textbackslash{}", 1);
    DiffersAt(t, "\\textasciitilde{}", 1);
    DiffersAt(t, "\\textasciicircum{}", 1);
    assert t[2..] == rest;
  }

  lemma UnescapePlain(c: char, rest: string)
    requires c != '\\'
    ensures Unescape([c] + rest) == [c] + Unescape(rest)
  {
    var t := [c] + rest;
    assert t[0] == c;
    DiffersAt(t, "\\textbackslash{}", 0);
    DiffersAt(t, "\\textasciitilde{}", 0);
    DiffersAt(t, "\\textasciicircum{}", 0);
    assert t[1..] == rest;
  }

  lemma UnescapeChar(c: char, rest: string)
    ensures Unescape(EscapeChar(c) + rest) == [c] + Unescape(rest)
  {
    if c == '\\' {
      assert EscapeChar(c) == "\\textbackslash{}";
      UnescapeBackslash(rest);
    } else if c == '~' {
      assert EscapeChar(c) == "\\textasciitilde{}";
      UnescapeTilde(rest);
    } else if c == '^' {
      assert EscapeChar(c) == "\\textasciicircum{}";
      UnescapeCircum(rest);
    } else if c in "&%$#_{}" {
      assert EscapeChar(c) == ['\\', c];
      UnescapeShort(c, rest);
    } else {
      assert EscapeChar(c) == [c];
      UnescapePlain(c, rest);
    }
  }

  /** Escaping loses nothing: unescaping gives the text back. */
  lemma {:induction false} UnescapeEscape(s: string)
    ensures Unescape(EscapeSpecialChars(s)) == s
    decreases |s|
  {
    if |s| > 0 {
      UnescapeChar(s[0], EscapeSpecialChars(s[1..]));
      UnescapeEscape(s[1..]);
      assert s == [s[0]] + s[1..];
    }
  }

  /** Escaping adds no line break that was not there. */
  lemma {:induction false} EscapeKeepsNewlinesOut(s: string)
    requires '\n' !in s
    ensures '\n' !in EscapeSpecialChars(s)
    decreases |s|
  {
    if |s| > 0 {
      assert s[0] != '\n' && '\n' !in s[1..];
      var e := EscapeChar(s[0]);
      var rest := EscapeSpecialChars(s[1..]);
      EscapeCharNoNewline(s[0]);
      EscapeKeepsNewlinesOut(s[1..]);
      assert EscapeSpecialChars(s) == e + rest;
      assert forall k :: 0 <= k < |e + rest| ==> (e + rest)[k] != '\n' by {
        forall k | 0 <= k < |e + rest| ensures (e + rest)[k] != '\n' {
          if k < |e| {
            assert (e + rest)[k] == e[k];
          } else {
            assert (e + rest)[k] == rest[k - |e|];
          }
        }
      }
    }
  }

  lemma EscapeCharNoNewline(c: char)
    requires c != '\n'
    ensures '\n' !in EscapeChar(c)
  {
  }

  predicate IsNewline(c: char) {
    c == '\n'
  }

  /** `escapeLatex`: `\r\n` becomes `\n`, every run of line breaks becomes
      one space (the `\n{2,}` and then the `\n` replacement together do
      exactly that), and the result is escaped; null gives ""
      (service/LatexReportService.java:997-1003). */
  function EscapeLatex(text: Option<string>): (r: string)
    ensures text.None? ==> r == ""
    ensures '\n' !in r
    ensures text.Some? ==>
              Unescape(r) == CollapseRuns(ReplaceLiteral(text.value, "\r\n", "\n"), IsNewline)
  {
    if text.None? then ""
    else
      var flat := CollapseRuns(ReplaceLiteral(text.value, "\r\n", "\n"), IsNewline);
      assert forall i :: 0 <= i < |flat| ==> flat[i] != '\n';
      EscapeKeepsNewlinesOut(flat);
      UnescapeEscape(flat);
      EscapeSpecialChars(flat)
  }

  // ---------------------------------------------------------------------------
  // Use-case references
  // ---------------------------------------------------------------------------

  predicate IsU(c: char) {
    c == 'u' || c == 'U'
  }

  predicate IsC(c: char) {
    c == 'c' || c == 'C'
  }

  /** The end of the run of digits starting at `j`. */
  function DigitRunEnd(s: string, j: nat): (e: nat)
    requires j <= |s|
    ensures j <= e <= |s|
    ensures forall k :: j <= k < e ==> IsDigit(s[k])
    ensures e < |s| ==> !IsDigit(s[e])
    decreases |s| - j
  {
    if j < |s| && IsDigit(s[j]) then DigitRunEnd(s, j + 1) else j
  }

  lemma {:induction false} DigitRunEndIs(s: string, j: nat, e: nat)
    requires j <= e <= |s|
    requires forall k :: j <= k < e ==> IsDigit(s[k])
    requires e < |s| ==> !IsDigit(s[e])
    ensures DigitRunEnd(s, j) == e
    decreases e - j
  {
    if j < e {
      DigitRunEndIs(s, j + 1, e);
    }
  }

  /** A match of `(?i)UC[- ]?(\d+)` starting at `i`, as the start and end of
      its digits: `U` and `C` in either case, an optional `-` or space, and
      the longest run of digits. */
  function MatchAt(s: string, i: nat): (r: Option<(nat, nat)>)
    requires i <= |s|
    ensures r.Some? ==> i + 2 <= r.value.0 < r.value.1 <= |s|
    ensures r.Some? ==> AllDigits(s[r.value.0..r.value.1])
  {
    if i + 2 < |s| && IsU(s[i]) && IsC(s[i + 1]) then
      if (s[i + 2] == '-' || s[i + 2] == ' ') && i + 3 < |s| && IsDigit(s[i + 3]) then
        Some((i + 3, DigitRunEnd(s, i + 3)))
      else if IsDigit(s[i + 2]) then Some((i + 2, DigitRunEnd(s, i + 2)))
      else None
    else None
  }

  /** A use-case ID as the report writes it: `UC-` and digits. */
  predicate IsUcId(x: string) {
    |x| > 3 && x[..3] == "UC-" && AllDigits(x[3..])
  }

  /** `"UC-" + matcher.group(1)` for every `matcher.find()` from `from` on. */
  function UcMatches(s: string, from: nat): (r: seq<string>)
    requires from <= |s|
    ensures forall k :: 0 <= k < |r| ==> IsUcId(r[k])
    decreases |s| - from
  {
    if from == |s| then []
    else
      match MatchAt(s, from)
      case Some((start, end)) =>
        var x := "UC-" + s[start..end];
        assert x[3..] == s[start..end];
        [x] + UcMatches(s, end)
      case None => UcMatches(s, from + 1)
  }

  /** The text `extractAllUCs` searches: description, quote and
      recommendation, null as "", joined by spaces. */
  function CombinedText(i: AuditIssue): string {
    i.description.GetOr("") + " " + i.quote.GetOr("") + " " + i.recommendation.GetOr("")
  }

  /** `extractAllUCs` (service/LatexReportService.java:953-965): the matches,
      each once, in the order of their first occurrence. */
  function ExtractAllUCs(i: AuditIssue): (r: seq<string>)
    ensures Distinct(r)
    ensures forall k :: 0 <= k < |r| ==> IsUcId(r[k])
    ensures forall k :: 0 <= k < |r| ==> r[k] in UcMatches(CombinedText(i), 0)
    ensures forall x :: x in UcMatches(CombinedText(i), 0) ==> x in r
  {
    var all := UcMatches(CombinedText(i), 0);
    var r := Dedup(all);
    assert forall x :: x in all ==> x in r by {
      forall x | x in all
        ensures x in r
      {
        var k :| 0 <= k < |all| && all[k] == x;
      }
    }
    r
  }

  /** IDs come out in the order they are first mentioned. */
  lemma ExtractAllUCsOrder(i: AuditIssue)
    ensures var all := UcMatches(CombinedText(i), 0);
            var r := ExtractAllUCs(i);
            forall a, b :: 0 <= a < b < |r| ==> FirstIndex(all, r[a]) < FirstIndex(all, r[b])
  {
    DedupFirstOccurrence(UcMatches(CombinedText(i), 0));
  }

  /** No match starts in a tail that holds no `U`. */
  lemma {:induction false} NoMatchWithoutU(s: string, from: nat)
    requires from <= |s|
    requires forall k :: from <= k < |s| ==> !IsU(s[k])
    ensures UcMatches(s, from) == []
    decreases |s| - from
  {
    if from < |s| {
      NoMatchWithoutU(s, from + 1);
    }
  }

  /** An issue whose description is exactly an ID the report writes yields
      that ID and nothing else. */
  lemma ExtractWrittenId(i: AuditIssue, digits: string)
    requires |digits| > 0 && AllDigits(digits)
    requires i.description == Some("UC-" + digits)
    requires i.quote.None? && i.recommendation.None?
    ensures ExtractAllUCs(i) == ["UC-" + digits]
  {
    var s := CombinedText(i);
    var n := 3 + |digits|;
    assert s == "UC-" + digits + "  ";
    assert |s| == n + 2;
    assert IsDigit(s[3]) by {
      assert s[3] == digits[0];
    }
    forall k | 3 <= k < n
      ensures IsDigit(s[k])
    {
      assert s[k] == digits[k - 3];
    }
    DigitRunEndIs(s, 3, n);
    assert MatchAt(s, 0) == Some((3, n));
    assert s[3..n] == digits;
    NoMatchWithoutU(s, n);
    assert UcMatches(s, 0) == ["UC-" + digits];
    assert Dedup(["UC-" + digits]) == ["UC-" + digits] by {
      assert ["UC-" + digits][..0] == [];
    }
  }

  // ---------------------------------------------------------------------------
  // Prompt truncation
  // ---------------------------------------------------------------------------

  const TruncationMarker: string := "\n\n[... text truncated ...]"

  /** `truncateForPrompt` (service/LatexReportService.java:987-991). */
  function TruncateForPrompt(text: string, maxChars: nat): (r: string)
    ensures |text| <= maxChars ==> r == text
    ensures |text| > maxChars ==>
              && |r| == maxChars + |TruncationMarker|
              && r[..maxChars] == text[..maxChars]
              && EndsWith(r, TruncationMarker)
  {
    if |text| <= maxChars then text else text[..maxChars] + TruncationMarker
  }

  /** Truncating truncated text again changes nothing. */
  lemma TruncateIdempotent(text: string, maxChars: nat)
    ensures TruncateForPrompt(TruncateForPrompt(text, maxChars), maxChars) == TruncateForPrompt(text, maxChars)
  {
    var r := TruncateForPrompt(text, maxChars);
    if |text| > maxChars {
      assert r[..maxChars] + TruncationMarker == r;
    }
  }

  // ---------------------------------------------------------------------------
  // Requirements and their use cases
  // ---------------------------------------------------------------------------

  /** `x != null && !x.isBlank()`. */
  predicate NonBlank(x: Option<string>) {
    x.Some? && !IsBlank(x.value)
  }

  /** A matrix row that links a requirement to a use case. */
  predicate IsLink(e: TraceabilityEntry) {
    NonBlank(e.requirementId) && NonBlank(e.useCaseId)
  }

  /** The (requirement, use case) pairs of the linking rows, in order. */
  function LinkPairs(entries: seq<TraceabilityEntry>): (r: seq<(string, string)>)
    ensures forall k :: 0 <= k < |r| ==> !IsBlank(r[k].0) && !IsBlank(r[k].1)
    decreases |entries|
  {
    if |entries| == 0 then []
    else
      var n := |entries| - 1;
      var e := entries[n];
      LinkPairs(entries[..n]) + (if IsLink(e) then [(e.requirementId.value, e.useCaseId.value)] else [])
  }

  /** `reqToUCs` (service/LatexReportService.java:437-447). */
  function ReqToUCs(matrix: Option<seq<TraceabilityEntry>>): OMap<string, seq<string>> {
    GroupPairs(LinkPairs(matrix.GetOr([])))
  }

  /** Some row links requirement `id` to a use case. */
  predicate HasLink(entries: seq<TraceabilityEntry>, id: Option<string>) {
    exists j :: 0 <= j < |entries| && IsLink(entries[j]) && entries[j].requirementId == id
  }

  /** The use cases the rows link to requirement `id`, in row order. */
  function LinkedUCs(entries: seq<TraceabilityEntry>, id: string): (r: seq<string>)
    ensures r == [] <==> !HasLink(entries, Some(id))
    decreases |entries|
  {
    if |entries| == 0 then []
    else
      var n := |entries| - 1;
      var e := entries[n];
      var r := LinkedUCs(entries[..n], id) + (if IsLink(e) && e.requirementId == Some(id) then [e.useCaseId.value] else []);
      assert HasLink(entries, Some(id)) <==> HasLink(entries[..n], Some(id)) || (IsLink(e) && e.requirementId == Some(id)) by {
        if HasLink(entries, Some(id)) {
          var j :| 0 <= j < |entries| && IsLink(entries[j]) && entries[j].requirementId == Some(id);
          if j < n {
            assert entries[..n][j] == entries[j];
          }
        }
        if HasLink(entries[..n], Some(id)) {
          var j :| 0 <= j < n && IsLink(entries[..n][j]) && entries[..n][j].requirementId == Some(id);
          assert entries[j] == entries[..n][j];
        }
      }
      r
  }

  lemma {:induction false} LinkPairsValues(entries: seq<TraceabilityEntry>, id: string)
    ensures ValuesFor(LinkPairs(entries), id) == LinkedUCs(entries, id)
    decreases |entries|
  {
    if |entries| > 0 {
      var n := |entries| - 1;
      var p := LinkPairs(entries[..n]);
      LinkPairsValues(entries[..n], id);
      var e := entries[n];
      var tail := if IsLink(e) && e.requirementId == Some(id) then [e.useCaseId.value] else [];
      assert LinkedUCs(entries, id) == LinkedUCs(entries[..n], id) + tail;
      if IsLink(e) {
        var pair := (e.requirementId.value, e.useCaseId.value);
        var q := p + [pair];
        assert LinkPairs(entries) == q;
        assert q[..|q| - 1] == p && q[|q| - 1] == pair;
        assert ValuesFor(q, id) == ValuesFor(p, id) + (if pair.0 == id then [pair.1] else []);
      } else {
        assert LinkPairs(entries) == p;
      }
    }
  }

  /** The requirements map holds one list per linked requirement, in the
      order requirements first appear, under non-blank keys; each list is
      that requirement's linked use cases in row order. */
  lemma ReqToUCsSpec(matrix: Option<seq<TraceabilityEntry>>, id: string)
    ensures UniqueKeys(ReqToUCs(matrix))
    ensures forall k :: 0 <= k < |ReqToUCs(matrix)| ==> !IsBlank(ReqToUCs(matrix)[k].0)
    ensures Get(ReqToUCs(matrix), id).GetOr([]) == LinkedUCs(matrix.GetOr([]), id)
  {
    var pairs := LinkPairs(matrix.GetOr([]));
    var m := ReqToUCs(matrix);
    GroupPairsKeys(pairs);
    GroupPairsGet(pairs, id);
    LinkPairsValues(matrix.GetOr([]), id);
    ValuesForEmpty(pairs, id);
    forall k | 0 <= k < |m|
      ensures !IsBlank(m[k].0)
    {
      assert Keys(m)[k] in Keys(pairs);
      var j :| 0 <= j < |pairs| && Keys(pairs)[j] == m[k].0;
    }
  }

  /** `reqToUCs.getOrDefault(req.requirementId(), List.of())`. */
  function UCsOf(m: OMap<string, seq<string>>, id: Option<string>): seq<string> {
    if id.None? then [] else Get(m, id.value).GetOr([])
  }

  /** `reqsWithoutUC`: the IDs of the requirements with no linked use case,
      in list order (service/LatexReportService.java:460-482). */
  function RequirementsWithoutUC(requirements: seq<RequirementEntry>, m: OMap<string, seq<string>>): (r: seq<Option<string>>)
    ensures forall x :: x in r ==> exists k :: 0 <= k < |requirements| && requirements[k].requirementId == x && UCsOf(m, x) == []
    ensures forall k :: 0 <= k < |requirements| && UCsOf(m, requirements[k].requirementId) == [] ==> requirements[k].requirementId in r
    decreases |requirements|
  {
    if |requirements| == 0 then []
    else
      var id := requirements[0].requirementId;
      var rest := RequirementsWithoutUC(requirements[1..], m);
      assert forall k :: 1 <= k < |requirements| ==> requirements[k] == requirements[1..][k - 1];
      if UCsOf(m, id) == [] then [id] + rest else rest
  }

  /** The list is built requirement by requirement, so it distributes over concatenation. */
  lemma {:induction false} RequirementsWithoutUCAppend(a: seq<RequirementEntry>, b: seq<RequirementEntry>, m: OMap<string, seq<string>>)
    ensures RequirementsWithoutUC(a + b, m) == RequirementsWithoutUC(a, m) + RequirementsWithoutUC(b, m)
    decreases |a|
  {
    if |a| == 0 {
      assert a + b == b;
    } else {
      assert (a + b)[0] == a[0];
      assert (a + b)[1..] == a[1..] + b;
      RequirementsWithoutUCAppend(a[1..], b, m);
    }
  }

  /** Each requirement with no linked use case contributes its ID in its place, once: list order and repeated IDs are kept. */
  lemma RequirementsWithoutUCKeeps(a: seq<RequirementEntry>, req: RequirementEntry, b: seq<RequirementEntry>, m: OMap<string, seq<string>>)
    ensures RequirementsWithoutUC(a + [req] + b, m) == RequirementsWithoutUC(a, m) + (if UCsOf(m, req.requirementId) == [] then [req.requirementId] else []) + RequirementsWithoutUC(b, m)
  {
    assert RequirementsWithoutUC([req], m) == (if UCsOf(m, req.requirementId) == [] then [req.requirementId] else []) by {
      assert [req][1..] == [];
    }
    assert RequirementsWithoutUC(a + [req] + b, m) == RequirementsWithoutUC(a + [req], m) + RequirementsWithoutUC(b, m) by {
      RequirementsWithoutUCAppend(a + [req], b, m);
    }
    assert RequirementsWithoutUC(a + [req], m) == RequirementsWithoutUC(a, m) + RequirementsWithoutUC([req], m) by {
      RequirementsWithoutUCAppend(a, [req], m);
    }
  }

  /** A requirement is listed as without use case exactly when no row links
      it to one. */
  lemma WithoutUCIffUnlinked(requirements: seq<RequirementEntry>, matrix: Option<seq<TraceabilityEntry>>, k: nat)
    requires k < |requirements|
    ensures var id := requirements[k].requirementId;
            id in RequirementsWithoutUC(requirements, ReqToUCs(matrix)) <==> !HasLink(matrix.GetOr([]), id)
  {
    var id := requirements[k].requirementId;
    var m := ReqToUCs(matrix);
    var entries := matrix.GetOr([]);
    if id.Some? {
      ReqToUCsSpec(matrix, id.value);
    }
    if id in RequirementsWithoutUC(requirements, m) {
      var k' :| 0 <= k' < |requirements| && requirements[k'].requirementId == id && UCsOf(m, id) == [];
    }
  }

  // ---------------------------------------------------------------------------
  // Traceability grouping
  // ---------------------------------------------------------------------------

  /** The rows with a non-blank requirement, keyed by it, in order. */
  function RequirementPairs(entries: seq<TraceabilityEntry>): (r: seq<(string, TraceabilityEntry)>)
    ensures |r| <= |entries|
    ensures forall k :: 0 <= k < |r| ==> Some(r[k].0) == r[k].1.requirementId && !IsBlank(r[k].0)
    decreases |entries|
  {
    if |entries| == 0 then []
    else
      var n := |entries| - 1;
      var e := entries[n];
      RequirementPairs(entries[..n]) + (if NonBlank(e.requirementId) then [(e.requirementId.value, e)] else [])
  }

  /** `byReq` (service/LatexReportService.java:712-721). */
  function ByRequirement(entries: seq<TraceabilityEntry>): OMap<string, seq<TraceabilityEntry>> {
    GroupPairs(RequirementPairs(entries))
  }

  /** `orphanUCEntries`: the rows with a missing or blank requirement. */
  function Orphans(entries: seq<TraceabilityEntry>): (r: seq<TraceabilityEntry>)
    ensures |r| + |RequirementPairs(entries)| == |entries|
    ensures forall e :: e in r <==> e in entries && !NonBlank(e.requirementId)
    decreases |entries|
  {
    if |entries| == 0 then []
    else
      var n := |entries| - 1;
      var e := entries[n];
      assert entries == entries[..n] + [e];
      Orphans(entries[..n]) + (if NonBlank(e.requirementId) then [] else [e])
  }

  /** Collecting orphan rows works row by row, so it distributes over
      concatenation. */
  lemma {:induction false} OrphansAppend(a: seq<TraceabilityEntry>, b: seq<TraceabilityEntry>)
    ensures Orphans(a + b) == Orphans(a) + Orphans(b)
    decreases |b|
  {
    if |b| == 0 {
      assert a + b == a;
    } else {
      var n := |b| - 1;
      var p := b[..n];
      var e := b[n];
      assert Orphans(b) == Orphans(p) + OrphanOf(e) by {
        assert b == p + [e];
        OrphansSnoc(p, e);
      }
      assert Orphans(a + b) == Orphans(a + p) + OrphanOf(e) by {
        assert a + b == (a + p) + [e];
        OrphansSnoc(a + p, e);
      }
      OrphansAppend(a, p);
      SnocRegroup(Orphans(a + b), Orphans(a + p), OrphanOf(e), Orphans(a), Orphans(p), Orphans(b));
    }
  }

  /** Regrouping one step of a concatenation. */
  lemma SnocRegroup<T>(ab: seq<T>, ap: seq<T>, x: seq<T>, a: seq<T>, p: seq<T>, b: seq<T>)
    requires ab == ap + x && ap == a + p && b == p + x
    ensures ab == a + b
  {
  }

  /** What one row contributes to the orphans. */
  function OrphanOf(e: TraceabilityEntry): seq<TraceabilityEntry> {
    if NonBlank(e.requirementId) then [] else [e]
  }

  lemma OrphansSnoc(s: seq<TraceabilityEntry>, e: TraceabilityEntry)
    ensures Orphans(s + [e]) == Orphans(s) + OrphanOf(e)
  {
    assert (s + [e])[..|s|] == s;
  }

  /** Each row stays in its place, once, exactly when its requirement is
      missing or blank: row order and repeats are kept. */
  lemma OrphansKeeps(a: seq<TraceabilityEntry>, e: TraceabilityEntry, b: seq<TraceabilityEntry>)
    ensures Orphans(a + [e] + b) == Orphans(a) + (if NonBlank(e.requirementId) then [] else [e]) + Orphans(b)
  {
    assert Orphans([e]) == (if NonBlank(e.requirementId) then [] else [e]) by {
      assert [e][..0] == [];
    }
    assert Orphans(a + [e] + b) == Orphans(a + [e]) + Orphans(b) by {
      OrphansAppend(a + [e], b);
    }
    assert Orphans(a + [e]) == Orphans(a) + Orphans([e]) by {
      OrphansAppend(a, [e]);
    }
  }

  /** The non-blank requirement IDs of the rows, in row order. */
  function RequirementIds(entries: seq<TraceabilityEntry>): (r: seq<string>)
    decreases |entries|
  {
    if |entries| == 0 then []
    else
      var n := |entries| - 1;
      var e := entries[n];
      RequirementIds(entries[..n]) + (if NonBlank(e.requirementId) then [e.requirementId.value] else [])
  }

  /** The rows for requirement `id`, in row order. */
  function RowsFor(entries: seq<TraceabilityEntry>, id: string): (r: seq<TraceabilityEntry>)
    ensures forall e :: e in r <==> e in entries && NonBlank(e.requirementId) && e.requirementId == Some(id)
    decreases |entries|
  {
    if |entries| == 0 then []
    else
      var n := |entries| - 1;
      var e := entries[n];
      assert entries == entries[..n] + [e];
      RowsFor(entries[..n], id) + (if NonBlank(e.requirementId) && e.requirementId == Some(id) then [e] else [])
  }

  lemma {:induction false} RequirementPairsKeys(entries: seq<TraceabilityEntry>)
    ensures Keys(RequirementPairs(entries)) == RequirementIds(entries)
    decreases |entries|
  {
    if |entries| > 0 {
      var n := |entries| - 1;
      var p := RequirementPairs(entries[..n]);
      RequirementPairsKeys(entries[..n]);
      var e := entries[n];
      if NonBlank(e.requirementId) {
        var q := p + [(e.requirementId.value, e)];
        assert q[..|q| - 1] == p;
        KeysSnoc(q);
      } else {
        assert RequirementPairs(entries) == p;
      }
    }
  }

  lemma RequirementPairsSnoc(entries: seq<TraceabilityEntry>)
    requires |entries| > 0
    ensures var e := entries[|entries| - 1];
            RequirementPairs(entries) ==
              RequirementPairs(entries[..|entries| - 1]) + (if NonBlank(e.requirementId) then [(e.requirementId.value, e)] else [])
  {
  }

  lemma RowsForSnoc(entries: seq<TraceabilityEntry>, id: string)
    requires |entries| > 0
    ensures var e := entries[|entries| - 1];
            RowsFor(entries, id) ==
              RowsFor(entries[..|entries| - 1], id) + (if NonBlank(e.requirementId) && e.requirementId == Some(id) then [e] else [])
  {
  }

  lemma {:induction false} RequirementPairsValues(entries: seq<TraceabilityEntry>, id: string)
    ensures ValuesFor(RequirementPairs(entries), id) == RowsFor(entries, id)
    decreases |entries|
  {
    if |entries| > 0 {
      var n := |entries| - 1;
      var p := RequirementPairs(entries[..n]);
      RequirementPairsValues(entries[..n], id);
      var e := entries[n];
      var rows := RowsFor(entries[..n], id);
      RowsForSnoc(entries, id);
      RequirementPairsSnoc(entries);
      if NonBlank(e.requirementId) {
        ValuesForSnoc(p, (e.requirementId.value, e), id);
        assert (e.requirementId.value == id) == (e.requirementId == Some(id));
      } else {
        assert RequirementPairs(entries) == p + [];
        assert RowsFor(entries, id) == rows + [];
        assert p + [] == p && rows + [] == rows;
      }
    }
  }

  /** Grouping: one group per non-blank requirement, in the order they first
      appear, holding exactly that requirement's rows in order; every other
      row is an orphan, so each row lands in exactly one place. */
  lemma ByRequirementSpec(entries: seq<TraceabilityEntry>, id: string)
    ensures UniqueKeys(ByRequirement(entries))
    ensures Keys(ByRequirement(entries)) == Dedup(RequirementIds(entries))
    ensures Get(ByRequirement(entries), id).GetOr([]) == RowsFor(entries, id)
    ensures TotalLength(ByRequirement(entries)) + |Orphans(entries)| == |entries|
  {
    var pairs := RequirementPairs(entries);
    RequirementPairsKeys(entries);
    RequirementPairsValues(entries, id);
    GroupPairsKeys(pairs);
    GroupPairsGet(pairs, id);
    ValuesForEmpty(pairs, id);
    GroupPairsTotal(pairs);
  }

  /** `ucsInMatrix`: the non-blank use-case IDs of the rows. */
  function UCsInMatrix(entries: seq<TraceabilityEntry>): (r: set<string>)
    ensures forall x :: x in r <==> exists j :: 0 <= j < |entries| && NonBlank(entries[j].useCaseId) && entries[j].useCaseId == Some(x)
    decreases |entries|
  {
    if |entries| == 0 then {}
    else
      var n := |entries| - 1;
      var e := entries[n];
      var r := UCsInMatrix(entries[..n]) + (if NonBlank(e.useCaseId) then {e.useCaseId.value} else {});
      assert forall x :: x in r <==> exists j :: 0 <= j < |entries| && NonBlank(entries[j].useCaseId) && entries[j].useCaseId == Some(x) by {
        forall x
          ensures x in r <==> exists j :: 0 <= j < |entries| && NonBlank(entries[j].useCaseId) && entries[j].useCaseId == Some(x)
        {
          if exists j :: 0 <= j < |entries| && NonBlank(entries[j].useCaseId) && entries[j].useCaseId == Some(x) {
            var j :| 0 <= j < |entries| && NonBlank(entries[j].useCaseId) && entries[j].useCaseId == Some(x);
            if j < n {
              assert entries[..n][j] == entries[j];
            }
          }
          if x in UCsInMatrix(entries[..n]) {
            var j :| 0 <= j < n && NonBlank(entries[..n][j].useCaseId) && entries[..n][j].useCaseId == Some(x);
            assert entries[j] == entries[..n][j];
          }
        }
      }
      r
  }

  /** `missingUCs`: the extracted use cases whose ID no row names
      (service/LatexReportService.java:723-732). */
  function MissingUCs(extracted: seq<UseCaseEntry>, entries: seq<TraceabilityEntry>): (r: seq<UseCaseEntry>)
    ensures forall uc :: uc in r <==> uc in extracted && (uc.useCaseId.None? || uc.useCaseId.value !in UCsInMatrix(entries))
    decreases |extracted|
  {
    if |extracted| == 0 then []
    else
      var uc := extracted[0];
      var rest := MissingUCs(extracted[1..], entries);
      assert extracted == [uc] + extracted[1..];
      if uc.useCaseId.None? || uc.useCaseId.value !in UCsInMatrix(entries) then [uc] + rest else rest
  }

  /** The filter works use case by use case, so it distributes over concatenation of the extracted list. */
  lemma {:induction false} MissingUCsAppend(a: seq<UseCaseEntry>, b: seq<UseCaseEntry>, entries: seq<TraceabilityEntry>)
    ensures MissingUCs(a + b, entries) == MissingUCs(a, entries) + MissingUCs(b, entries)
    decreases |a|
  {
    if |a| == 0 {
      assert a + b == b;
    } else {
      assert (a + b)[0] == a[0];
      assert (a + b)[1..] == a[1..] + b;
      MissingUCsAppend(a[1..], b, entries);
    }
  }

  /** Each extracted use case stays in its place, once, exactly when no row names it: order and repeats are kept. */
  lemma MissingUCsKeeps(a: seq<UseCaseEntry>, uc: UseCaseEntry, b: seq<UseCaseEntry>, entries: seq<TraceabilityEntry>)
    ensures MissingUCs(a + [uc] + b, entries) == MissingUCs(a, entries) + (if uc.useCaseId.None? || uc.useCaseId.value !in UCsInMatrix(entries) then [uc] else []) + MissingUCs(b, entries)
  {
    assert MissingUCs([uc], entries) == (if uc.useCaseId.None? || uc.useCaseId.value !in UCsInMatrix(entries) then [uc] else []) by {
      assert [uc][1..] == [];
    }
    assert MissingUCs(a + [uc] + b, entries) == MissingUCs(a + [uc], entries) + MissingUCs(b, entries) by {
      MissingUCsAppend(a + [uc], b, entries);
    }
    assert MissingUCs(a + [uc], entries) == MissingUCs(a, entries) + MissingUCs([uc], entries) by {
      MissingUCsAppend(a, [uc], entries);
    }
  }

  /** No missing use case is named by a row, and every extracted use case
      that is not missing is. */
  lemma MissingUCsSpec(extracted: seq<UseCaseEntry>, entries: seq<TraceabilityEntry>, uc: UseCaseEntry)
    requires uc in extracted
    ensures uc in MissingUCs(extracted, entries) <==>
              forall j :: 0 <= j < |entries| && NonBlank(entries[j].useCaseId) ==> entries[j].useCaseId != uc.useCaseId
  {
    if uc !in MissingUCs(extracted, entries) {
      var j :| 0 <= j < |entries| && NonBlank(entries[j].useCaseId) && entries[j].useCaseId == Some(uc.useCaseId.value);
    }
  }

  // ---------------------------------------------------------------------------
  // Traceability statistics
  // ---------------------------------------------------------------------------

  /** How many elements of `s` satisfy `p`. */
  function CountIf<T>(s: seq<T>, p: T -> bool): (n: nat)
    ensures n <= |s|
    decreases |s|
  {
    if |s| == 0 then 0 else (if p(s[0]) then 1 else 0) + CountIf(s[1..], p)
  }

  /** Counting with a stronger condition never gives more. */
  lemma {:induction false} CountIfMono<T>(s: seq<T>, p: T -> bool, q: T -> bool)
    requires forall k :: 0 <= k < |s| && p(s[k]) ==> q(s[k])
    ensures CountIf(s, p) <= CountIf(s, q)
    decreases |s|
  {
    if |s| > 0 {
      CountIfMono(s[1..], p, q);
    }
  }

  /** Two disjoint conditions count at most what their union counts. */
  lemma {:induction false} CountIfDisjoint<T>(s: seq<T>, p: T -> bool, q: T -> bool, u: T -> bool)
    requires forall k :: 0 <= k < |s| ==> !(p(s[k]) && q(s[k]))
    requires forall k :: 0 <= k < |s| && (p(s[k]) || q(s[k])) ==> u(s[k])
    ensures CountIf(s, p) + CountIf(s, q) <= CountIf(s, u)
    decreases |s|
  {
    if |s| > 0 {
      CountIfDisjoint(s[1..], p, q, u);
    }
  }

  predicate HasUC(e: TraceabilityEntry) {
    NonBlank(e.useCaseId)
  }

  predicate FullyCovered(e: TraceabilityEntry) {
    HasUC(e) && e.hasDesign && e.hasTest
  }

  predicate MissingTest(e: TraceabilityEntry) {
    HasUC(e) && !e.hasTest
  }

  /** Some row of the group names a use case. */
  predicate GroupHasUC(rows: seq<TraceabilityEntry>) {
    exists k :: 0 <= k < |rows| && HasUC(rows[k])
  }

  datatype TraceabilityStats = TraceabilityStats(
    totalReqs: nat,
    reqsWithUC: nat,
    totalUCsInMatrix: nat,
    totalUCsOrphan: nat,
    fullyCovered: nat,
    missingTest: nat)

  /** The summary counts of the traceability section
      (service/LatexReportService.java:793-809). */
  function Stats(entries: seq<TraceabilityEntry>, extracted: seq<UseCaseEntry>): (st: TraceabilityStats)
    ensures st.reqsWithUC <= st.totalReqs
    ensures st.fullyCovered + st.missingTest <= CountIf(entries, HasUC)
    ensures st.totalUCsInMatrix <= CountIf(entries, HasUC)
    ensures st.totalReqs == |Dedup(RequirementIds(entries))|
  {
    var byReq := ByRequirement(entries);
    ByRequirementSpec(entries, "");
    CountIfDisjoint(entries, FullyCovered, MissingTest, HasUC);
    UCsInMatrixBound(entries);
    TraceabilityStats(
      |byReq|,
      CountIf(Values(byReq), GroupHasUC),
      |UCsInMatrix(entries)|,
      CountIf(Orphans(entries), HasUC) + |MissingUCs(extracted, entries)|,
      CountIf(entries, FullyCovered),
      CountIf(entries, MissingTest))
  }

  /** The groups of a map, in key order. */
  function Values<K, V>(m: OMap<K, V>): (vs: seq<V>)
    ensures |vs| == |m|
  {
    seq(|m|, i requires 0 <= i < |m| => m[i].1)
  }

  /** There are no more distinct use-case IDs than rows that name one. */
  lemma {:induction false} UCsInMatrixBound(entries: seq<TraceabilityEntry>)
    ensures |UCsInMatrix(entries)| <= CountIf(entries, HasUC)
    decreases |entries|
  {
    if |entries| > 0 {
      var n := |entries| - 1;
      var e := entries[n];
      var prev := UCsInMatrix(entries[..n]);
      var added: set<string> := if HasUC(e) then {e.useCaseId.value} else {};
      assert |prev| <= CountIf(entries[..n], HasUC) by {
        UCsInMatrixBound(entries[..n]);
      }
      assert CountIf(entries, HasUC) == CountIf(entries[..n], HasUC) + |added| by {
        CountIfSnoc(entries[..n], e, HasUC);
        assert entries == entries[..n] + [e];
      }
      assert UCsInMatrix(entries) == prev + added;
      assert |prev + added| <= |prev| + |added|;
    }
  }

  lemma {:induction false} CountIfSnoc<T>(s: seq<T>, x: T, p: T -> bool)
    ensures CountIf(s + [x], p) == CountIf(s, p) + (if p(x) then 1 else 0)
    decreases |s|
  {
    if |s| == 0 {
      assert s + [x] == [x];
    } else {
      assert (s + [x])[1..] == s[1..] + [x];
      CountIfSnoc(s[1..], x, p);
    }
  }
}
