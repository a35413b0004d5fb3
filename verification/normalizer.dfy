/** The deterministic clean-up of the final report
    (service/ReportNormalizer.java): short descriptions, the quote penalty,
    the top-seven ranking of issues, the list of missing features and the
    completeness metrics. */
module Normalizer {

  import opened Wrappers
  import opened JavaString
  import opened Issues
  import opened Sorting
  import opened OrderedMap

  /** `MAX_ISSUES`. */
  const MaxIssues: nat := 7

  /** `MAX_SHORT_DESC_LENGTH`. */
  const MaxShortDescLength: nat := 120

  /** The factor applied to the confidence of an issue without a quote. */
  const QuotelessFactor: real := 0.6

  // ---------------------------------------------------------------------------
  // Short descriptions
  // ---------------------------------------------------------------------------

  /** `s.lastIndexOf(c, from)`: the largest index at most `from` holding `c`,
      or -1 when there is none. */
  function LastIndexOf(s: string, c: char, from: int): (k: int)
    ensures -1 <= k < |s|
    ensures k >= 0 ==> k <= from && s[k] == c
    ensures forall j :: k < j <= from && j < |s| ==> s[j] != c
    decreases if from < 0 then 0 else from + 1
  {
    if from < 0 || |s| == 0 then -1
    else if from >= |s| then LastIndexOf(s, c, |s| - 1)
    else if s[from] == c then from
    else LastIndexOf(s, c, from - 1)
  }

  /** `s.substring(0, 117) + "..."`. */
  function Ellipsized(s: string): (r: string)
    requires |s| > MaxShortDescLength
    ensures |r| == MaxShortDescLength
    ensures r[..MaxShortDescLength - 3] == s[..MaxShortDescLength - 3]
    ensures EndsWith(r, "...")
  {
    s[..MaxShortDescLength - 3] + "..."
  }

  /** An ellipsized text is never blank: it ends in a period. */
  lemma EllipsizedNotBlank(s: string)
    requires |s| > MaxShortDescLength
    ensures !IsBlank(Ellipsized(s))
  {
    var r := Ellipsized(s);
    assert r[|r| - 1] == '.';
  }

  /** The short description derived from the description. A description
      over the limit is cut just after the last period at or before index
      `searchFrom`, when that period lies past the middle of the limit, and
      is otherwise ellipsized; a shorter or missing description is copied. */
  function DerivedShort(description: Option<string>, searchFrom: int): (r: Option<string>)
    ensures description.None? || |description.value| <= MaxShortDescLength ==> r == description
    ensures description.Some? && |description.value| > MaxShortDescLength ==>
      && r.Some?
      && (|| r.value == Ellipsized(description.value)
          || (&& MaxShortDescLength / 2 + 1 < |r.value| <= searchFrom + 1
              && |r.value| <= |description.value|
              && r.value == description.value[..|r.value|]
              && r.value[|r.value| - 1] == '.'))
  {
    if description.Some? && |description.value| > MaxShortDescLength then
      var d := description.value;
      var lastPeriod := LastIndexOf(d, '.', searchFrom);
      if lastPeriod > MaxShortDescLength / 2 then Some(d[..lastPeriod + 1])
      else Some(Ellipsized(d))
    else description
  }

  /** The derivation as written: the period is searched from index 120
      itself (service/ReportNormalizer.java:176). */
  function DerivedShortAsWritten(description: Option<string>): (r: Option<string>)
    ensures description.None? || |description.value| <= MaxShortDescLength ==> r == description
  {
    DerivedShort(description, MaxShortDescLength)
  }

  /** A description of 122 characters with its only period at index 120. */
  function PeriodAtLimit(): (d: string)
    ensures |d| == MaxShortDescLength + 2
  {
    seq(MaxShortDescLength, _ => 'a') + ".b"
  }

  /** As written, the derived short description can be one character longer
      than the maximum: the cut keeps the period at index 120. */
  lemma AsWrittenExceedsLimit()
    ensures DerivedShortAsWritten(Some(PeriodAtLimit())).Some?
    ensures |DerivedShortAsWritten(Some(PeriodAtLimit())).value| == MaxShortDescLength + 1
  {
    var d := PeriodAtLimit();
    assert d[MaxShortDescLength] == '.';
    assert LastIndexOf(d, '.', MaxShortDescLength) == MaxShortDescLength;
  }

  /** The derivation with the period searched at most at index 119, so the
      cut text, period included, fits in the maximum. */
  function DerivedShortCorrected(description: Option<string>): (r: Option<string>)
    ensures description.None? || |description.value| <= MaxShortDescLength ==> r == description
    ensures r.Some? ==> |r.value| <= MaxShortDescLength
    ensures description.Some? && |description.value| > MaxShortDescLength ==> r.Some? && !IsBlank(r.value)
  {
    DerivedShortNotBlank(description, MaxShortDescLength - 1);
    DerivedShort(description, MaxShortDescLength - 1)
  }

  /** A derived short description of a long description is never blank: it
      ends in a period either way. */
  lemma DerivedShortNotBlank(description: Option<string>, searchFrom: int)
    ensures description.Some? && |description.value| > MaxShortDescLength ==>
              !IsBlank(DerivedShort(description, searchFrom).value)
  {
    var r := DerivedShort(description, searchFrom);
    if description.None? || |description.value| <= MaxShortDescLength {
    } else if r.value == Ellipsized(description.value) {
      EllipsizedNotBlank(description.value);
    } else {
      assert !IsWhitespace(r.value[|r.value| - 1]);
    }
  }

  /** `ensureShortDescription` with the corrected cut. A non-blank short
      description is kept when it fits and otherwise ellipsized to exactly
      the maximum; a missing or blank one is derived from the description.
      Nothing else changes (service/ReportNormalizer.java:160-187). */
  function EnsureShortDescription(i: AuditIssue): (r: AuditIssue)
    ensures r.(shortDescription := i.shortDescription) == i
    ensures !IsNullOrBlank(i.shortDescription) && |i.shortDescription.value| <= MaxShortDescLength ==> r == i
    ensures !IsNullOrBlank(i.shortDescription) && |i.shortDescription.value| > MaxShortDescLength ==>
      && r.shortDescription.Some?
      && |r.shortDescription.value| == MaxShortDescLength
      && r.shortDescription.value[..MaxShortDescLength - 3] == i.shortDescription.value[..MaxShortDescLength - 3]
      && EndsWith(r.shortDescription.value, "...")
    ensures IsNullOrBlank(i.shortDescription) ==> r.shortDescription == DerivedShortCorrected(i.description)
    ensures r.shortDescription.Some? ==> |r.shortDescription.value| <= MaxShortDescLength
    ensures r.shortDescription.None? <==> IsNullOrBlank(i.shortDescription) && i.description.None?
  {
    if !IsNullOrBlank(i.shortDescription) then
      if |i.shortDescription.value| > MaxShortDescLength then
        i.(shortDescription := Some(Ellipsized(i.shortDescription.value)))
      else i
    else i.(shortDescription := DerivedShortCorrected(i.description))
  }

  /** Applying the rule twice changes nothing more. */
  lemma EnsureShortDescriptionIdempotent(i: AuditIssue)
    ensures EnsureShortDescription(EnsureShortDescription(i)) == EnsureShortDescription(i)
  {
    var r := EnsureShortDescription(i);
    if !IsNullOrBlank(i.shortDescription) && |i.shortDescription.value| > MaxShortDescLength {
      EllipsizedNotBlank(i.shortDescription.value);
    }
  }

  /** As written, the rule is not idempotent: a second pass ellipsizes the
      121-character cut. */
  lemma AsWrittenNotIdempotent()
    ensures var first := DerivedShortAsWritten(Some(PeriodAtLimit()));
            && first.Some?
            && !IsBlank(first.value)
            && |first.value| > MaxShortDescLength
  {
    AsWrittenExceedsLimit();
    var first := DerivedShortAsWritten(Some(PeriodAtLimit()));
    assert first.value[0] == 'a';
  }

  // ---------------------------------------------------------------------------
  // Quote check
  // ---------------------------------------------------------------------------

  /** `validateQuote`: an issue without a quote keeps 60% of its confidence;
      one with a non-blank quote is unchanged
      (service/ReportNormalizer.java:189-196). */
  function ValidateQuote(i: AuditIssue): (r: AuditIssue)
    ensures !IsNullOrBlank(i.quote) ==> r == i
    ensures IsNullOrBlank(i.quote) ==> r.confidence == i.confidence * QuotelessFactor
    ensures r.(confidence := i.confidence) == i
    ensures r.confidence <= i.confidence
  {
    if IsNullOrBlank(i.quote) then
      ScaledConfidence(i, QuotelessFactor);
      WithConfidence(i, i.confidence * QuotelessFactor)
    else i
  }

  // ---------------------------------------------------------------------------
  // Ranking
  // ---------------------------------------------------------------------------

  /** `Double.compare` on confidences, which are never NaN or -0.0. */
  function RealCompare(a: real, b: real): int {
    if a < b then -1 else if a == b then 0 else 1
  }

  /** The comparator of `normalizeIssues`: confidence reversed, then severity
      ordinal (service/ReportNormalizer.java:67-69). */
  function RankCompare(x: AuditIssue, y: AuditIssue): int {
    var byConfidence := RealCompare(y.confidence, x.confidence);
    if byConfidence != 0 then byConfidence
    else if Ordinal(x.severity) < Ordinal(y.severity) then -1
    else if Ordinal(x.severity) == Ordinal(y.severity) then 0
    else 1
  }

  predicate RankLess(x: AuditIssue, y: AuditIssue) {
    RankCompare(x, y) < 0
  }

  /** An issue ranks first when it is more confident, or equally confident
      and more severe; equally ranked issues share confidence and severity. */
  lemma RankCompareSpec(x: AuditIssue, y: AuditIssue)
    ensures RankLess(x, y) <==>
              (x.confidence > y.confidence
               || (x.confidence == y.confidence && Ordinal(x.severity) < Ordinal(y.severity)))
    ensures RankCompare(x, y) == 0 <==> x.confidence == y.confidence && x.severity == y.severity
  {
    OrdinalInjective(x.severity, y.severity);
  }

  /** The comparator is consistent, so the stable sort is well defined. */
  lemma RankOrderIsStrictWeak()
    ensures IsStrictWeakOrder(RankLess)
  {
    forall a, b, c | RankLess(a, b) && RankLess(b, c)
      ensures RankLess(a, c)
    {
      RankCompareSpec(a, b);
      RankCompareSpec(b, c);
      RankCompareSpec(a, c);
    }
    forall a, b, c | RankLess(a, c) && !RankLess(a, b)
      ensures RankLess(b, c)
    {
      RankCompareSpec(a, b);
      RankCompareSpec(a, c);
      RankCompareSpec(b, c);
    }
  }

  /** Steps 1 and 2 of `normalizeIssues`, applied to every issue. */
  function Prepared(issues: seq<AuditIssue>): (r: seq<AuditIssue>)
    ensures |r| == |issues|
    ensures forall k :: 0 <= k < |issues| ==> r[k] == ValidateQuote(EnsureShortDescription(issues[k]))
    decreases |issues|
  {
    if |issues| == 0 then []
    else [ValidateQuote(EnsureShortDescription(issues[0]))] + Prepared(issues[1..])
  }

  /** `normalizeIssues`: the prepared issues, stably sorted by rank, of which
      the first seven are kept (service/ReportNormalizer.java:52-88). */
  function NormalizeIssues(issues: seq<AuditIssue>): (r: seq<AuditIssue>)
  {
    var sorted := Sort(Prepared(issues), RankLess);
    if |sorted| > MaxIssues then sorted[..MaxIssues] else sorted
  }

  /** What `normalizeIssues` returns: at most seven issues, in rank order,
      drawn from the prepared issues; none left out outranks one kept; and
      equally ranked issues keep their input order. */
  lemma NormalizeIssuesSpec(issues: seq<AuditIssue>, x: AuditIssue)
    ensures var r := NormalizeIssues(issues);
            var p := Prepared(issues);
            && |r| == (if |issues| <= MaxIssues then |issues| else MaxIssues)
            && Sorted(r, RankLess)
            && multiset(r) <= multiset(p)
            && (forall a, b :: a in r && b in multiset(p) - multiset(r) ==> !RankLess(b, a))
            && Class(r, RankLess, x) <= Class(p, RankLess, x)
  {
    var p := Prepared(issues);
    var s := Sort(p, RankLess);
    var r := NormalizeIssues(issues);
    var n := |r|;
    RankOrderIsStrictWeak();
    assert r == s[..n];
    SortTruncated(p, n, RankLess, x);
  }

  /** Empty input stays empty. */
  lemma NormalizeIssuesEmpty()
    ensures NormalizeIssues([]) == []
  {
  }

  // ---------------------------------------------------------------------------
  // Missing features
  // ---------------------------------------------------------------------------

  /** The features whose status is not PRESENT, in input order. */
  function NotPresent(features: seq<FeatureCoverage>): (r: seq<FeatureCoverage>)
    ensures forall f :: f in r <==> f in features && f.status != Present
    ensures multiset(r) <= multiset(features)
    decreases |features|
  {
    if |features| == 0 then []
    else
      var rest := NotPresent(features[1..]);
      assert features == [features[0]] + features[1..];
      if features[0].status != Present then [features[0]] + rest else rest
  }

  /** The filter works feature by feature, so it distributes over concatenation. */
  lemma {:induction false} NotPresentAppend(a: seq<FeatureCoverage>, b: seq<FeatureCoverage>)
    ensures NotPresent(a + b) == NotPresent(a) + NotPresent(b)
    decreases |a|
  {
    if |a| == 0 {
      assert a + b == b;
    } else {
      assert (a + b)[0] == a[0];
      assert (a + b)[1..] == a[1..] + b;
      NotPresentAppend(a[1..], b);
    }
  }

  /** Each feature stays in its place, once, exactly when it is not PRESENT: order and repeats are kept. */
  lemma NotPresentKeeps(a: seq<FeatureCoverage>, f: FeatureCoverage, b: seq<FeatureCoverage>)
    ensures NotPresent(a + [f] + b) == NotPresent(a) + (if f.status != Present then [f] else []) + NotPresent(b)
  {
    assert NotPresent([f]) == (if f.status != Present then [f] else []) by {
      assert [f][1..] == [];
    }
    assert NotPresent(a + [f] + b) == NotPresent(a + [f]) + NotPresent(b) by {
      NotPresentAppend(a + [f], b);
    }
    assert NotPresent(a + [f]) == NotPresent(a) + NotPresent([f]) by {
      NotPresentAppend(a, [f]);
    }
  }

  predicate CoverageLess(a: FeatureCoverage, b: FeatureCoverage) {
    a.coverageScore < b.coverageScore
  }

  lemma CoverageOrderIsStrictWeak()
    ensures IsStrictWeakOrder(CoverageLess)
  {
  }

  /** `filterMissingFeatures` (service/ReportNormalizer.java:97-109). */
  function FilterMissingFeatures(features: Option<seq<FeatureCoverage>>): (r: seq<FeatureCoverage>)
  {
    if features.None? || |features.value| == 0 then []
    else Sort(NotPresent(features.value), CoverageLess)
  }

  /** The result holds exactly the features that are not PRESENT, each as
      often as in the input, ascending by coverage score, and features of
      equal score keep their input order; a missing list gives none. */
  lemma FilterMissingFeaturesSpec(features: Option<seq<FeatureCoverage>>, x: FeatureCoverage)
    ensures var r := FilterMissingFeatures(features);
            var all := features.GetOr([]);
            && (features.None? ==> r == [])
            && (forall f :: f in r <==> f in all && f.status != Present)
            && multiset(r) == multiset(NotPresent(all))
            && multiset(r) <= multiset(all)
            && Sorted(r, CoverageLess)
            && Class(r, CoverageLess, x) == Class(NotPresent(all), CoverageLess, x)
  {
    var all := features.GetOr([]);
    CoverageOrderIsStrictWeak();
    SortPermutes(NotPresent(all), CoverageLess);
    SortSorted(NotPresent(all), CoverageLess);
    SortStable(NotPresent(all), CoverageLess, x);
    var r := FilterMissingFeatures(features);
    forall f
      ensures f in r <==> f in NotPresent(all)
    {
      assert f in r <==> f in multiset(r);
    }
  }

  // ---------------------------------------------------------------------------
  // Completeness metrics
  // ---------------------------------------------------------------------------

  /** `name.equalsIgnoreCase(i.category())`, false for a missing category. */
  predicate InCategory(i: AuditIssue, name: string) {
    i.category.Some? && EqualsIgnoreCase(name, i.category.value)
  }

  /** The number of issues in category `name`. */
  function CountInCategory(issues: seq<AuditIssue>, name: string): (n: nat)
    ensures n <= |issues|
    decreases |issues|
  {
    if |issues| == 0 then 0
    else (if InCategory(issues[0], name) then 1 else 0) + CountInCategory(issues[1..], name)
  }

  /** The count is zero exactly when no issue is in the category. */
  lemma {:induction false} CountZeroIffNone(issues: seq<AuditIssue>, name: string)
    ensures CountInCategory(issues, name) == 0 <==> forall i :: i in issues ==> !InCategory(i, name)
    decreases |issues|
  {
    if |issues| > 0 {
      CountZeroIffNone(issues[1..], name);
      assert issues == [issues[0]] + issues[1..];
    }
  }

  /** Counting distributes over concatenation. */
  lemma {:induction false} CountInCategoryAppend(a: seq<AuditIssue>, b: seq<AuditIssue>, name: string)
    ensures CountInCategory(a + b, name) == CountInCategory(a, name) + CountInCategory(b, name)
    decreases |a|
  {
    if |a| > 0 {
      assert (a + b)[0] == a[0];
      assert (a + b)[1..] == a[1..] + b;
      CountInCategoryAppend(a[1..], b, name);
    } else {
      assert a + b == b;
    }
  }

  /** The text reported for a category with `n` issues. */
  function CategoryStatus(n: nat): (r: string) {
    if n == 0 then "COMPLETE" else NatToString(n) + " issue(s) found"
  }

  /** The status is `COMPLETE` for no issues, and otherwise names the count,
      which reads back from its leading digits. */
  lemma CategoryStatusReadsBack(n: nat)
    ensures CategoryStatus(n) == "COMPLETE" <==> n == 0
    ensures n > 0 ==> var r := CategoryStatus(n);
                      && |r| > 15
                      && EndsWith(r, " issue(s) found")
                      && AllDigits(r[..|r| - 15])
                      && DigitsValue(r[..|r| - 15]) == n
  {
    if n > 0 {
      var r := CategoryStatus(n);
      NatToStringRoundTrip(n);
      assert r[..|r| - 15] == NatToString(n);
      assert r[0] != 'C';
    }
  }

  function CountPresent(features: seq<FeatureCoverage>): (n: nat)
    ensures n <= |features|
    decreases |features|
  {
    if |features| == 0 then 0
    else (if features[0].status == Present then 1 else 0) + CountPresent(features[1..])
  }

  function SumScores(features: seq<FeatureCoverage>): int
    decreases |features|
  {
    if |features| == 0 then 0 else features[0].coverageScore + SumScores(features[1..])
  }

  /** Division truncating toward zero, as the `(int)` cast of the average
      does. */
  function TruncatedDiv(a: int, n: nat): (q: int)
    requires n > 0
    ensures a >= 0 ==> 0 <= q * n <= a < (q + 1) * n
    ensures a < 0 ==> (q - 1) * n < a <= q * n <= 0
  {
    if a >= 0 then
      DivBounds(a, n);
      a / n
    else
      var b := -a;
      DivBounds(b, n);
      assert -(b / n) * n == -((b / n) * n);
      assert (-(b / n) - 1) * n == -((b / n + 1) * n);
      -(b / n)
  }

  /** Euclidean division of a natural number brackets it between two
      consecutive multiples. */
  lemma DivBounds(a: nat, n: nat)
    requires n > 0
    ensures 0 <= (a / n) * n <= a < (a / n + 1) * n
  {
    assert a == (a / n) * n + a % n;
    assert (a / n + 1) * n == (a / n) * n + n;
  }

  /** `"%d/%d present (%d%% avg)"`. */
  function FeatureCoverageStatus(features: seq<FeatureCoverage>): string
    requires |features| > 0
  {
    NatToString(CountPresent(features)) + "/" + NatToString(|features|) + " present ("
      + IntToString(TruncatedDiv(SumScores(features), |features|)) + "% avg)"
  }

  /** Each of the three categories is `COMPLETE` exactly when no issue
      belongs to it. */
  lemma CategoriesComplete(issues: seq<AuditIssue>)
    ensures forall k :: 0 <= k < 3 ==>
      (CategoryStatus(CountInCategory(issues, MetricCategories[k])) == "COMPLETE"
       <==> forall i :: i in issues ==> !InCategory(i, MetricCategories[k]))
  {
    forall k | 0 <= k < 3
      ensures CategoryStatus(CountInCategory(issues, MetricCategories[k])) == "COMPLETE"
              <==> forall i :: i in issues ==> !InCategory(i, MetricCategories[k])
    {
      CountZeroIffNone(issues, MetricCategories[k]);
      CategoryStatusReadsBack(CountInCategory(issues, MetricCategories[k]));
    }
  }

  /** The three categories the metrics report, in order. */
  const MetricCategories: seq<string> := ["Requirements", "Architecture", "Testing"]

  /** `computeExtractionCompleteness`, as the ordered map it builds
      (service/ReportNormalizer.java:118-154). */
  function ComputeExtractionCompleteness(issues: seq<AuditIssue>, features: Option<seq<FeatureCoverage>>): (m: OMap<string, string>)
    ensures UniqueKeys(m)
    ensures Keys(m) == MetricCategories
                       + (if features.Some? && |features.value| > 0 then ["Feature Coverage"] else [])
    ensures forall k :: 0 <= k < 3 ==>
      (m[k].1 == "COMPLETE" <==> forall i :: i in issues ==> !InCategory(i, MetricCategories[k]))
    ensures forall k :: 0 <= k < 3 ==> m[k].1 == CategoryStatus(CountInCategory(issues, MetricCategories[k]))
    ensures features.Some? && |features.value| > 0 ==> |m| == 4 && m[3].1 == FeatureCoverageStatus(features.value)
  {
    var categories := seq(3, k requires 0 <= k < 3 =>
      (MetricCategories[k], CategoryStatus(CountInCategory(issues, MetricCategories[k]))));
    CategoriesComplete(issues);
    if features.Some? && |features.value| > 0 then
      categories + [("Feature Coverage", FeatureCoverageStatus(features.value))]
    else categories
  }
}
