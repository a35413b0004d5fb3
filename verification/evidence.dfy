/** The string algorithms behind evidence anchoring
    (service/EvidenceAnchoringService.java): edit distance, word-level longest
    common subsequence, trigram overlap, text normalisation, and the decision
    to keep, penalise or drop an issue according to how well its quote is
    found in the document. The sliding-window search is an input
    (`windowSearch`); its exact-match shortcut is modelled. */
module Evidence {

  import opened Wrappers
  import opened JavaString
  import opened Issues

  // ---------------------------------------------------------------------------
  // Edit distance
  // ---------------------------------------------------------------------------

  function Min3(x: int, y: int, z: int): int {
    var m := if x < y then x else y;
    if m < z then m else z
  }

  lemma Min3Facts(x: int, y: int, z: int)
    ensures Min3(x, y, z) <= x && Min3(x, y, z) <= y && Min3(x, y, z) <= z
    ensures Min3(x, y, z) == x || Min3(x, y, z) == y || Min3(x, y, z) == z
  {
  }

  lemma Min3Swap(x: int, y: int, z: int)
    ensures Min3(x, y, z) == Min3(y, x, z)
  {
  }

  /** Unit-cost edit distance between `a[..i]` and `b[..j]`. */
  function Dist(a: string, b: string, i: nat, j: nat): nat
    requires i <= |a| && j <= |b|
    decreases i + j
  {
    if i == 0 then j
    else if j == 0 then i
    else Min3(Dist(a, b, i - 1, j) + 1, Dist(a, b, i, j - 1) + 1,
              Dist(a, b, i - 1, j - 1) + (if a[i - 1] == b[j - 1] then 0 else 1))
  }

  function EditDistance(a: string, b: string): nat {
    Dist(a, b, |a|, |b|)
  }

  lemma {:induction false} DistSymmetric(a: string, b: string, i: nat, j: nat)
    requires i <= |a| && j <= |b|
    ensures SymmetricAt(a, b, i, j)
    decreases i + j
  {
    if i == 0 || j == 0 {
      DistEdge(a, b, i, j);
    } else {
      DistSymmetric(a, b, i - 1, j);
      DistSymmetric(a, b, i, j - 1);
      DistSymmetric(a, b, i - 1, j - 1);
      DistSymmetricStep(a, b, i, j);
    }
  }

  /** The distance from `a[..i]` to `b[..j]` is that from `b[..j]` to `a[..i]`. */
  predicate SymmetricAt(a: string, b: string, i: nat, j: nat)
    requires i <= |a| && j <= |b|
  {
    Dist(a, b, i, j) == Dist(b, a, j, i)
  }

  /** Against an empty prefix the distance is the other prefix's length. */
  lemma DistEdge(a: string, b: string, i: nat, j: nat)
    requires i <= |a| && j <= |b| && (i == 0 || j == 0)
    ensures Dist(a, b, i, j) == Dist(b, a, j, i) == i + j
  {
  }

  /** One step of symmetry: the recurrence is symmetric in its first two
      arguments. */
  lemma DistSymmetricStep(a: string, b: string, i: nat, j: nat)
    requires 0 < i <= |a| && 0 < j <= |b|
    ensures SymmetricAt(a, b, i - 1, j) && SymmetricAt(a, b, i, j - 1) && SymmetricAt(a, b, i - 1, j - 1)
            ==> SymmetricAt(a, b, i, j)
  {
    var x, y := Dist(a, b, i - 1, j) + 1, Dist(a, b, i, j - 1) + 1;
    var z := Dist(a, b, i - 1, j - 1) + (if a[i - 1] == b[j - 1] then 0 else 1);
    DistStep(a, b, i, j);
    DistStep(b, a, j, i);
    Min3Swap(x, y, z);
  }

  lemma {:induction false} DistSelf(a: string, i: nat)
    requires i <= |a|
    ensures Dist(a, a, i, i) == 0
    decreases i
  {
    if i > 0 {
      DistSelf(a, i - 1);
    }
  }

  /** The distance lies between the difference and the larger of the lengths. */
  lemma {:induction false} DistBounds(a: string, b: string, i: nat, j: nat)
    requires i <= |a| && j <= |b|
    ensures Within(Dist(a, b, i, j), i, j)
    decreases i + j
  {
    if i > 0 && j > 0 {
      DistBounds(a, b, i - 1, j);
      DistBounds(a, b, i, j - 1);
      DistBounds(a, b, i - 1, j - 1);
      DistBoundsStep(a, b, i, j);
    }
  }

  /** `Within(d, i, j)`: `d` lies between `|i - j|` and `max(i, j)`. */
  predicate Within(d: int, i: int, j: int) {
    (if i < j then j - i else i - j) <= d <= (if i < j then j else i)
  }

  /** One step of the bounds: each candidate of the recurrence is within the
      bounds when its predecessor is. */
  lemma DistBoundsStep(a: string, b: string, i: nat, j: nat)
    requires 0 < i <= |a| && 0 < j <= |b|
    ensures && Within(Dist(a, b, i - 1, j), i - 1, j)
            && Within(Dist(a, b, i, j - 1), i, j - 1)
            && Within(Dist(a, b, i - 1, j - 1), i - 1, j - 1)
            ==> Within(Dist(a, b, i, j), i, j)
  {
    var x, y := Dist(a, b, i - 1, j) + 1, Dist(a, b, i, j - 1) + 1;
    var z := Dist(a, b, i - 1, j - 1) + (if a[i - 1] == b[j - 1] then 0 else 1);
    DistStep(a, b, i, j);
    Min3Facts(x, y, z);
  }

  /** The edit distance is symmetric, zero exactly on equal strings' diagonal,
      and at most the longer length. */
  lemma EditDistanceFacts(a: string, b: string)
    ensures EditDistance(a, b) == EditDistance(b, a)
    ensures a == b ==> EditDistance(a, b) == 0
    ensures EditDistance(a, b) <= (if |a| < |b| then |b| else |a|)
  {
    DistSymmetric(a, b, |a|, |b|);
    DistBounds(a, b, |a|, |b|);
    if a == b {
      DistSelf(a, |a|);
    }
  }

  /** One cell of the programme: the recurrence `Dist` unfolds to. */
  lemma DistStep(a: string, b: string, i: nat, j: nat)
    requires 0 < i <= |a| && 0 < j <= |b|
    ensures Dist(a, b, i, j) == Min3(Dist(a, b, i - 1, j) + 1, Dist(a, b, i, j - 1) + 1,
                                     Dist(a, b, i - 1, j - 1) + (if a[i - 1] == b[j - 1] then 0 else 1))
  {
  }

  /** Appending the next cell keeps a row prefix. */
  lemma RowSnoc(a: string, b: string, j: nat, curr: seq<int>, v: int)
    requires |curr| <= |a| && j <= |b|
    requires forall k :: 0 <= k < |curr| ==> curr[k] == Dist(a, b, k, j)
    requires v == Dist(a, b, |curr|, j)
    ensures forall k :: 0 <= k < |curr| + 1 ==> (curr + [v])[k] == Dist(a, b, k, j)
  {
    forall k | 0 <= k < |curr| + 1
      ensures (curr + [v])[k] == Dist(a, b, k, j)
    {
      if k < |curr| {
        assert (curr + [v])[k] == curr[k];
      }
    }
  }

  /** The row for `b[..j]` from the row for `b[..j - 1]`. */
  method NextRow(a: string, b: string, j: nat, prev: seq<int>) returns (curr: seq<int>)
    requires 0 < j <= |b| && |prev| == |a| + 1
    requires forall k :: 0 <= k <= |a| ==> prev[k] == Dist(a, b, k, j - 1)
    ensures |curr| == |a| + 1
    ensures forall k :: 0 <= k <= |a| ==> curr[k] == Dist(a, b, k, j)
  {
    curr := [j];
    var i := 1;
    while i <= |a|
      invariant 1 <= i <= |a| + 1 && |curr| == i
      invariant forall k :: 0 <= k < i ==> curr[k] == Dist(a, b, k, j)
    {
      var cost := if a[i - 1] == b[j - 1] then 0 else 1;
      DistStep(a, b, i, j);
      var v := Min3(curr[i - 1] + 1, prev[i] + 1, prev[i - 1] + cost);
      RowSnoc(a, b, j, curr, v);
      curr := curr + [v];
      i := i + 1;
    }
  }

  /** The two-row programme over `a` as the row and `b` as the columns. */
  method DistRows(a: string, b: string) returns (d: int)
    ensures d == Dist(a, b, |a|, |b|)
  {
    var prev: seq<int> := [];
    var i := 0;
    while i <= |a|
      invariant 0 <= i <= |a| + 1 && |prev| == i
      invariant forall k :: 0 <= k < i ==> prev[k] == Dist(a, b, k, 0)
    {
      prev := prev + [i];
      i := i + 1;
    }
    var j := 1;
    while j <= |b|
      invariant 1 <= j <= |b| + 1 && |prev| == |a| + 1
      invariant forall k :: 0 <= k <= |a| ==> prev[k] == Dist(a, b, k, j - 1)
    {
      prev := NextRow(a, b, j, prev);
      j := j + 1;
    }
    d := prev[|a|];
  }

  /** `levenshteinDistance` (service/EvidenceAnchoringService.java:169-187):
      the two-row dynamic programme over the shorter string. */
  method LevenshteinDistance(a0: string, b0: string) returns (d: int)
    ensures d == EditDistance(a0, b0)
  {
    if |a0| > |b0| {
      d := DistRows(b0, a0);
      DistSymmetric(a0, b0, |a0|, |b0|);
    } else {
      d := DistRows(a0, b0);
    }
  }

  // ---------------------------------------------------------------------------
  // Word-level longest common subsequence
  // ---------------------------------------------------------------------------

  /** At most this many words of each side are compared. */
  const MaxWords: nat := 200

  /** Length of a longest common subsequence of `wa[..i]` and `wb[..j]`. */
  function Lcs(wa: seq<string>, wb: seq<string>, i: nat, j: nat): nat
    requires i <= |wa| && j <= |wb|
    decreases i + j
  {
    if i == 0 || j == 0 then 0
    else if wa[i - 1] == wb[j - 1] then Lcs(wa, wb, i - 1, j - 1) + 1
    else
      var up := Lcs(wa, wb, i - 1, j);
      var left := Lcs(wa, wb, i, j - 1);
      if up < left then left else up
  }

  /** A common subsequence is no longer than either side. */
  lemma {:induction false} LcsBound(wa: seq<string>, wb: seq<string>, i: nat, j: nat)
    requires i <= |wa| && j <= |wb|
    ensures Lcs(wa, wb, i, j) <= i && Lcs(wa, wb, i, j) <= j
    decreases i + j
  {
    if i > 0 && j > 0 {
      LcsBound(wa, wb, i - 1, j - 1);
      LcsBound(wa, wb, i - 1, j);
      LcsBound(wa, wb, i, j - 1);
    }
  }

  /** Appending the next cell keeps a row prefix. */
  lemma LcsRowSnoc(wa: seq<string>, wb: seq<string>, i: nat, curr: seq<int>, v: int)
    requires i <= |wa| && |curr| <= |wb|
    requires forall k :: 0 <= k < |curr| ==> curr[k] == Lcs(wa, wb, i, k)
    requires v == Lcs(wa, wb, i, |curr|)
    ensures forall k :: 0 <= k < |curr| + 1 ==> (curr + [v])[k] == Lcs(wa, wb, i, k)
  {
    forall k | 0 <= k < |curr| + 1
      ensures (curr + [v])[k] == Lcs(wa, wb, i, k)
    {
      if k < |curr| {
        assert (curr + [v])[k] == curr[k];
      }
    }
  }

  /** The row for `wa[..i]` from the row for `wa[..i - 1]`. */
  method LcsNextRow(wa: seq<string>, wb: seq<string>, i: nat, prev: seq<int>) returns (curr: seq<int>)
    requires 0 < i <= |wa| && |prev| == |wb| + 1
    requires forall k :: 0 <= k <= |wb| ==> prev[k] == Lcs(wa, wb, i - 1, k)
    ensures |curr| == |wb| + 1
    ensures forall k :: 0 <= k <= |wb| ==> curr[k] == Lcs(wa, wb, i, k)
  {
    curr := [0];
    var j := 1;
    while j <= |wb|
      invariant 1 <= j <= |wb| + 1 && |curr| == j
      invariant forall k :: 0 <= k < j ==> curr[k] == Lcs(wa, wb, i, k)
    {
      var v := if wa[i - 1] == wb[j - 1] then prev[j - 1] + 1
               else if prev[j] < curr[j - 1] then curr[j - 1] else prev[j];
      LcsRowSnoc(wa, wb, i, curr, v);
      curr := curr + [v];
      j := j + 1;
    }
  }

  /** The two-row programme of `longestCommonSubsequenceRatio`
      (service/EvidenceAnchoringService.java:204-217). */
  method WordLcs(wa: seq<string>, wb: seq<string>) returns (count: int)
    ensures count == Lcs(wa, wb, |wa|, |wb|)
  {
    var prev: seq<int> := seq(|wb| + 1, _ => 0);
    var i := 1;
    while i <= |wa|
      invariant 1 <= i <= |wa| + 1 && |prev| == |wb| + 1
      invariant forall k :: 0 <= k <= |wb| ==> prev[k] == Lcs(wa, wb, i - 1, k)
    {
      prev := LcsNextRow(wa, wb, i, prev);
      i := i + 1;
    }
    count := prev[|wb|];
  }

  /** The words of `s`: `s.split("\\s+")`. */
  function Words(s: string): seq<string> {
    SplitOnRuns(s, IsRegexSpace)
  }

  /** The first `MaxWords` words. */
  function Capped(ws: seq<string>): (r: seq<string>)
    ensures |r| <= |ws| && |r| <= MaxWords && r == ws[..|r|]
    ensures |ws| <= MaxWords ==> r == ws
  {
    if |ws| > MaxWords then ws[..MaxWords] else ws
  }

  /** The word ratio: 0 when either side has no words, otherwise the
      common-subsequence length of the first 200 words of each side over the
      larger capped word count. */
  function WordRatio(a: string, b: string): real {
    var wa := Capped(Words(a));
    var wb := Capped(Words(b));
    if Words(a) == [] || Words(b) == [] then 0.0
    else Lcs(wa, wb, |wa|, |wb|) as real / (if |wa| < |wb| then |wb| else |wa|) as real
  }

  /** `longestCommonSubsequenceRatio` (service/EvidenceAnchoringService.java:192-220),
      over exact reals. */
  method LcsRatio(a: string, b: string) returns (r: real)
    ensures Words(a) == [] || Words(b) == [] ==> r == 0.0
    ensures Words(a) != [] && Words(b) != [] ==>
              var wa := Capped(Words(a));
              var wb := Capped(Words(b));
              r == Lcs(wa, wb, |wa|, |wb|) as real / (if |wa| < |wb| then |wb| else |wa|) as real
    ensures r == WordRatio(a, b)
    ensures 0.0 <= r <= 1.0
  {
    var wordsA := Words(a);
    var wordsB := Words(b);
    if |wordsA| == 0 || |wordsB| == 0 {
      return 0.0;
    }
    wordsA := Capped(wordsA);
    wordsB := Capped(wordsB);
    var count := WordLcs(wordsA, wordsB);
    LcsBound(wordsA, wordsB, |wordsA|, |wordsB|);
    var longer := if |wordsA| < |wordsB| then |wordsB| else |wordsA|;
    RatioAtMostOne(count, longer);
    r := count as real / longer as real;
  }

  lemma RatioAtMostOne(x: nat, y: nat)
    requires 0 < y && x <= y
    ensures 0.0 <= x as real / y as real <= 1.0
  {
    assert x as real / y as real * y as real == x as real;
  }

  /** Above this length either side is compared word by word. */
  const LongText: nat := 500

  /** `normalizedLevenshteinSimilarity` (service/EvidenceAnchoringService.java:152-164):
      1 for equal strings, the word ratio for long ones, otherwise one minus
      the edit distance over the longer length. The source's separate check
      for two empty strings is covered by the equality check before it. */
  method NormalizedSimilarity(a: string, b: string) returns (r: real)
    ensures a == b ==> r == 1.0
    ensures a != b && |a| <= LongText && |b| <= LongText ==>
              r == 1.0 - EditDistance(a, b) as real / (if |a| < |b| then |b| else |a|) as real
    ensures a != b && (|a| > LongText || |b| > LongText) ==> r == WordRatio(a, b)
    ensures 0.0 <= r <= 1.0
  {
    if a == b {
      return 1.0;
    }
    var maxLen := if |a| < |b| then |b| else |a|;
    if |a| > LongText || |b| > LongText {
      r := LcsRatio(a, b);
      return;
    }
    var distance := LevenshteinDistance(a, b);
    EditDistanceFacts(a, b);
    RatioAtMostOne(distance, maxLen);
    r := 1.0 - distance as real / maxLen as real;
  }

  // ---------------------------------------------------------------------------
  // Trigram overlap
  // ---------------------------------------------------------------------------

  /** The three characters of `a` from position `i`. */
  function TrigramAt(a: string, i: nat): string
    requires i + 3 <= |a|
  {
    a[i..i + 3]
  }

  /** The three-character substrings of `a`. */
  function Trigrams(a: string): set<string> {
    set i | 0 <= i <= |a| - 3 :: TrigramAt(a, i)
  }

  /** How many of the first `n` trigram positions of `b` hold a trigram in `tri`. */
  function MatchCount(b: string, tri: set<string>, n: nat): (c: nat)
    requires n <= |b| - 2
    ensures c <= n
  {
    if n == 0 then 0 else MatchCount(b, tri, n - 1) + (if TrigramAt(b, n - 1) in tri then 1 else 0)
  }

  /** The counts of `trigramOverlap` (service/EvidenceAnchoringService.java:225-239):
      of the trigram positions of `b`, how many hold a trigram of `a`; both
      are 0 when either string is shorter than 3. */
  method TrigramCounts(a: string, b: string) returns (matches: nat, total: nat)
    ensures |a| < 3 || |b| < 3 ==> matches == 0 && total == 0
    ensures |a| >= 3 && |b| >= 3 ==> total == |b| - 2 && matches == MatchCount(b, Trigrams(a), |b| - 2)
    ensures matches <= total
  {
    if |a| < 3 || |b| < 3 {
      return 0, 0;
    }
    var trigramsA: set<string> := {};
    var i := 0;
    while i <= |a| - 3
      invariant 0 <= i <= |a| - 2
      invariant trigramsA == set k | 0 <= k < i :: TrigramAt(a, k)
    {
      trigramsA := trigramsA + {TrigramAt(a, i)};
      i := i + 1;
    }
    assert trigramsA == Trigrams(a);
    matches, total := 0, 0;
    i := 0;
    while i <= |b| - 3
      invariant 0 <= i <= |b| - 2
      invariant total == i && matches == MatchCount(b, trigramsA, i)
    {
      if TrigramAt(b, i) in trigramsA {
        matches := matches + 1;
      }
      total := total + 1;
      i := i + 1;
    }
  }

  // ---------------------------------------------------------------------------
  // Normalisation
  // ---------------------------------------------------------------------------

  /** `replaceAll("[\\p{Punct}]", " ")`. */
  function BlankPunctuation(s: string): (r: string)
    ensures |r| == |s|
    ensures forall i :: 0 <= i < |s| ==> r[i] == (if IsPunct(s[i]) then ' ' else s[i])
  {
    seq(|s|, i requires 0 <= i < |s| => if IsPunct(s[i]) then ' ' else s[i])
  }

  /** `normalize` (service/EvidenceAnchoringService.java:244-250). */
  function Normalize(text: Option<string>): string {
    match text
    case None => ""
    case Some(t) => Strip(Collapsed(t))
  }

  /** Neither an upper-case letter nor punctuation. */
  predicate IsClean(c: char) {
    !IsAsciiUpper(c) && !IsPunct(c)
  }

  /** The text before stripping. */
  function Collapsed(t: string): string {
    CollapseRuns(BlankPunctuation(ToLower(t)), IsRegexSpace)
  }

  lemma CollapsedClean(t: string)
    ensures forall i :: 0 <= i < |Collapsed(t)| ==> IsClean(Collapsed(t)[i])
  {
    var p := BlankPunctuation(ToLower(t));
    assert forall i :: 0 <= i < |p| ==> IsClean(p[i]);
    CollapseRunsKeeps(p, IsRegexSpace, IsClean);
  }

  lemma CollapsedNoDoubled(t: string)
    ensures NoDoubled(Collapsed(t), IsSpace)
  {
    CollapseRunsNoDoubledSpace(BlankPunctuation(ToLower(t)), IsRegexSpace);
  }

  /** Normalised text has no upper-case letter, no punctuation, no leading or
      trailing whitespace and no two spaces in a row; null gives "". */
  lemma NormalizeShape(text: Option<string>)
    ensures text.None? ==> Normalize(text) == ""
    ensures var r := Normalize(text);
            && (forall i :: 0 <= i < |r| ==> IsClean(r[i]))
            && (|r| > 0 ==> !IsWhitespace(r[0]) && !IsWhitespace(r[|r| - 1]))
            && NoDoubled(r, IsSpace)
  {
    if text.Some? {
      var c := Collapsed(text.value);
      assert Normalize(text) == Strip(c);
      CollapsedClean(text.value);
      CollapsedNoDoubled(text.value);
      StripKeeps(c, IsClean);
      var i, j :| 0 <= i <= j <= |c| && Strip(c) == c[i..j];
      SliceNoDoubled(c, i, j, IsSpace);
    }
  }

  // ---------------------------------------------------------------------------
  // Anchoring
  // ---------------------------------------------------------------------------

  /** Below this similarity a quote counts as not found. */
  const MinSimilarity: real := 0.45
  /** From this similarity up, confidence is raised. */
  const BoostThreshold: real := 0.70
  /** Normalised quotes shorter than this are accepted without search. */
  const MinQuoteLength: nat := 15

  /** `bestSlidingWindowSimilarity` (service/EvidenceAnchoringService.java:101-145):
      0 for an empty query, 1 when the query occurs in the text, and
      otherwise whatever the window search finds. */
  function BestSimilarity(text: string, query: string, windowSearch: (string, string) -> real): real {
    if |query| == 0 then 0.0
    else if Contains(text, query) then 1.0
    else windowSearch(text, query)
  }

  /** The confidence after a match of the given similarity
      (service/EvidenceAnchoringService.java:72-80). */
  function AdjustedConfidence(confidence: real, similarity: real): real {
    if similarity >= BoostThreshold then
      var boosted := confidence * (1.0 + (similarity - BoostThreshold) * 0.5);
      if boosted < 1.0 then boosted else 1.0
    else
      confidence * (1.0 - ((BoostThreshold - similarity) / (BoostThreshold - MinSimilarity)) * 0.3)
  }

  /** What happens to one issue: `None` when its quote is not found. */
  function AnchorOne(normalizedDoc: string, issue: AuditIssue, windowSearch: (string, string) -> real): (r: Option<AuditIssue>)
    ensures r.Some? ==> r.value.(confidence := issue.confidence) == issue
  {
    if IsNullOrBlank(issue.quote) then Some(WithConfidence(issue, issue.confidence * 0.5))
    else
      var normalizedQuote := Normalize(issue.quote);
      if |normalizedQuote| < MinQuoteLength then Some(WithConfidence(issue, issue.confidence * 0.7))
      else
        var similarity := BestSimilarity(normalizedDoc, normalizedQuote, windowSearch);
        if similarity < MinSimilarity then None
        else Some(WithConfidence(issue, AdjustedConfidence(issue.confidence, similarity)))
  }

  /** An issue is kept unless it has a quote, the quote normalises to at
      least 15 characters, the normalised quote does not occur in the
      normalised document, and the window search scores it below 0.45. */
  lemma AnchorOneDrops(normalizedDoc: string, issue: AuditIssue, windowSearch: (string, string) -> real)
    ensures AnchorOne(normalizedDoc, issue, windowSearch).None? <==>
              && !IsNullOrBlank(issue.quote)
              && |Normalize(issue.quote)| >= MinQuoteLength
              && !Contains(normalizedDoc, Normalize(issue.quote))
              && windowSearch(normalizedDoc, Normalize(issue.quote)) < MinSimilarity
  {
  }

  /** A missing or blank quote halves the confidence, and a short normalised
      quote takes 70% of it. */
  lemma AnchorOnePenalties(normalizedDoc: string, issue: AuditIssue, windowSearch: (string, string) -> real)
    ensures IsNullOrBlank(issue.quote) ==>
              AnchorOne(normalizedDoc, issue, windowSearch) == Some(issue.(confidence := issue.confidence * 0.5))
    ensures !IsNullOrBlank(issue.quote) && |Normalize(issue.quote)| < MinQuoteLength ==>
              AnchorOne(normalizedDoc, issue, windowSearch) == Some(issue.(confidence := issue.confidence * 0.7))
  {
    if IsNullOrBlank(issue.quote) {
      var c := issue.confidence * 0.5;
      WithPositiveConfidence(issue, c);
      assert AnchorOne(normalizedDoc, issue, windowSearch) == Some(WithConfidence(issue, c));
    } else if |Normalize(issue.quote)| < MinQuoteLength {
      var c := issue.confidence * 0.7;
      WithPositiveConfidence(issue, c);
      assert AnchorOne(normalizedDoc, issue, windowSearch) == Some(WithConfidence(issue, c));
    }
  }

  function AnchorAll(normalizedDoc: string, issues: seq<AuditIssue>, windowSearch: (string, string) -> real): (r: seq<AuditIssue>)
    ensures |r| <= |issues|
    decreases |issues|
  {
    if |issues| == 0 then []
    else
      var rest := AnchorAll(normalizedDoc, issues[1..], windowSearch);
      match AnchorOne(normalizedDoc, issues[0], windowSearch)
      case None => rest
      case Some(x) => [x] + rest
  }

  /** `anchorEvidence` (service/EvidenceAnchoringService.java:43-92). */
  function AnchorEvidence(documentText: Option<string>, issues: seq<AuditIssue>,
                          windowSearch: (string, string) -> real): seq<AuditIssue> {
    if |issues| == 0 then issues else AnchorAll(Normalize(documentText), issues, windowSearch)
  }

  /** `r` is `s` with some issues removed and the others differing at most in
      their confidence, in the same order. */
  predicate SubsequenceUpToConfidence(r: seq<AuditIssue>, s: seq<AuditIssue>)
    decreases |s|
  {
    if |r| == 0 then true
    else if |s| == 0 then false
    else if r[0].(confidence := s[0].confidence) == s[0] then SubsequenceUpToConfidence(r[1..], s[1..])
    else SubsequenceUpToConfidence(r, s[1..])
  }

  lemma {:induction false} SubsequenceSkip(r: seq<AuditIssue>, s: seq<AuditIssue>)
    requires |s| > 0
    requires SubsequenceUpToConfidence(r, s[1..])
    ensures SubsequenceUpToConfidence(r, s)
    decreases |s|, |r|
  {
    if |r| > 0 && r[0].(confidence := s[0].confidence) == s[0] {
      SubsequenceTail(r, s[1..]);
    }
  }

  lemma {:induction false} SubsequenceTail(r: seq<AuditIssue>, s: seq<AuditIssue>)
    requires |r| > 0
    requires SubsequenceUpToConfidence(r, s)
    ensures SubsequenceUpToConfidence(r[1..], s)
    decreases |s|, |r|
  {
    if |s| > 0 {
      if r[0].(confidence := s[0].confidence) == s[0] {
        SubsequenceSkip(r[1..], s);
      } else {
        SubsequenceTail(r, s[1..]);
        SubsequenceSkip(r[1..], s);
      }
    }
  }

  /** Anchoring keeps an order-preserving selection of the issues in which
      only confidences change. */
  lemma {:induction false} AnchorAllSubsequence(normalizedDoc: string, issues: seq<AuditIssue>,
                                                windowSearch: (string, string) -> real)
    ensures SubsequenceUpToConfidence(AnchorAll(normalizedDoc, issues, windowSearch), issues)
    decreases |issues|
  {
    if |issues| > 0 {
      AnchorAllSubsequence(normalizedDoc, issues[1..], windowSearch);
      var rest := AnchorAll(normalizedDoc, issues[1..], windowSearch);
      match AnchorOne(normalizedDoc, issues[0], windowSearch)
      case None =>
        SubsequenceSkip(rest, issues);
      case Some(x) =>
        assert ([x] + rest)[1..] == rest;
    }
  }

  /** An issue is dropped only for a quote that is long enough and not found
      verbatim: when no issue is like that, every issue is kept. */
  lemma {:induction false} AnchorAllKeepsFound(normalizedDoc: string, issues: seq<AuditIssue>,
                                               windowSearch: (string, string) -> real)
    requires forall i :: 0 <= i < |issues| ==>
               IsNullOrBlank(issues[i].quote) || |Normalize(issues[i].quote)| < MinQuoteLength
               || Contains(normalizedDoc, Normalize(issues[i].quote))
    ensures |AnchorAll(normalizedDoc, issues, windowSearch)| == |issues|
    decreases |issues|
  {
    if |issues| > 0 {
      AnchorOneDrops(normalizedDoc, issues[0], windowSearch);
      AnchorAllKeepsFound(normalizedDoc, issues[1..], windowSearch);
    }
  }

  /** Empty input is returned as it is; otherwise the result is an
      order-preserving selection differing only in confidences. */
  lemma AnchorEvidenceShape(documentText: Option<string>, issues: seq<AuditIssue>,
                            windowSearch: (string, string) -> real)
    ensures |issues| == 0 ==> AnchorEvidence(documentText, issues, windowSearch) == issues
    ensures SubsequenceUpToConfidence(AnchorEvidence(documentText, issues, windowSearch), issues)
  {
    if |issues| > 0 {
      AnchorAllSubsequence(Normalize(documentText), issues, windowSearch);
    }
  }
}
