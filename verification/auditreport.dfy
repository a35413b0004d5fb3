/** The aggregated report record and its factory (model/AuditReport.java):
    a copy of the issues with their count and severity distribution, and
    the other lists with a missing list read as empty. The timestamp comes
    from the clock and is a parameter here. */
module AuditReports {

  import opened Wrappers
  import opened Issues

  datatype AuditReport = AuditReport(
    documentName: Option<string>,
    timestamp: string,
    issues: seq<AuditIssue>,
    totalIssues: nat,
    severityDistribution: map<Severity, nat>,
    featureCoverage: seq<FeatureCoverage>,
    traceabilityMatrix: seq<TraceabilityEntry>,
    glossaryIssues: seq<GlossaryIssue>,
    useCases: seq<UseCaseEntry>,
    requirements: seq<RequirementEntry>)

  /** Number of issues with severity `s`. */
  function CountSeverity(issues: seq<AuditIssue>, s: Severity): (n: nat)
    ensures n <= |issues|
    decreases |issues|
  {
    if |issues| == 0 then 0
    else CountSeverity(issues[..|issues| - 1], s) + (if issues[|issues| - 1].severity == s then 1 else 0)
  }

  /** Some issue has severity `s` exactly when the count is positive. */
  lemma {:induction false} CountSeverityPositive(issues: seq<AuditIssue>, s: Severity)
    ensures CountSeverity(issues, s) > 0 <==> exists k :: 0 <= k < |issues| && issues[k].severity == s
    decreases |issues|
  {
    if |issues| > 0 {
      var n := |issues| - 1;
      CountSeverityPositive(issues[..n], s);
      if exists k :: 0 <= k < n && issues[..n][k].severity == s {
        var k :| 0 <= k < n && issues[..n][k].severity == s;
        assert issues[k].severity == s;
      }
      if exists k :: 0 <= k < |issues| && issues[k].severity == s {
        var k :| 0 <= k < |issues| && issues[k].severity == s;
        if k < n {
          assert issues[..n][k].severity == s;
        }
      }
    }
  }

  /** Every issue has exactly one severity, so the three counts add up to the
      number of issues. */
  lemma {:induction false} CountSeveritySum(issues: seq<AuditIssue>)
    ensures CountSeverity(issues, High) + CountSeverity(issues, Medium) + CountSeverity(issues, Low) == |issues|
    decreases |issues|
  {
    if |issues| > 0 {
      CountSeveritySum(issues[..|issues| - 1]);
    }
  }

  /** `groupingBy(severity, counting())`: a key for each severity that
      occurs, mapped to its number of issues. */
  function Distribution(issues: seq<AuditIssue>): (m: map<Severity, nat>)
    ensures forall s :: s in m <==> exists k :: 0 <= k < |issues| && issues[k].severity == s
    ensures forall s :: s in m ==> m[s] == CountSeverity(issues, s)
  {
    CountSeverityPositive(issues, High);
    CountSeverityPositive(issues, Medium);
    CountSeverityPositive(issues, Low);
    map s | s in {High, Medium, Low} && CountSeverity(issues, s) > 0 :: CountSeverity(issues, s)
  }

  /** The value a severity has in the distribution, 0 when it is absent. */
  function CountOf(m: map<Severity, nat>, s: Severity): nat {
    if s in m then m[s] else 0
  }

  /** The distribution's values add up to the number of issues. */
  lemma DistributionSums(issues: seq<AuditIssue>)
    ensures var m := Distribution(issues);
            CountOf(m, High) + CountOf(m, Medium) + CountOf(m, Low) == |issues|
  {
    var m := Distribution(issues);
    CountSeveritySum(issues);
    forall s
      ensures CountOf(m, s) == CountSeverity(issues, s)
    {
      CountSeverityPositive(issues, s);
    }
  }

  /** A list the caller may pass as null: null reads as empty. */
  function OrEmpty<T>(xs: Option<seq<T>>): seq<T> {
    if xs.None? then [] else xs.value
  }

  /** `AuditReport.from` (model/AuditReport.java:25-45). */
  function From(documentName: Option<string>, timestamp: string, issues: seq<AuditIssue>,
                featureCoverage: Option<seq<FeatureCoverage>>,
                traceability: Option<seq<TraceabilityEntry>>,
                glossary: Option<seq<GlossaryIssue>>,
                useCases: Option<seq<UseCaseEntry>>,
                requirements: Option<seq<RequirementEntry>>): (r: AuditReport)
    ensures r.issues == issues && r.totalIssues == |issues|
    ensures forall s :: s in r.severityDistribution <==> exists k :: 0 <= k < |issues| && issues[k].severity == s
    ensures forall s :: s in r.severityDistribution ==> r.severityDistribution[s] == CountSeverity(issues, s)
    ensures featureCoverage.None? ==> r.featureCoverage == []
    ensures featureCoverage.Some? ==> r.featureCoverage == featureCoverage.value
    ensures traceability.None? ==> r.traceabilityMatrix == []
    ensures traceability.Some? ==> r.traceabilityMatrix == traceability.value
    ensures glossary.None? ==> r.glossaryIssues == []
    ensures glossary.Some? ==> r.glossaryIssues == glossary.value
    ensures useCases.None? ==> r.useCases == []
    ensures useCases.Some? ==> r.useCases == useCases.value
    ensures requirements.None? ==> r.requirements == []
    ensures requirements.Some? ==> r.requirements == requirements.value
  {
    AuditReport(documentName, timestamp, issues, |issues|, Distribution(issues),
                OrEmpty(featureCoverage), OrEmpty(traceability), OrEmpty(glossary),
                OrEmpty(useCases), OrEmpty(requirements))
  }

  /** The report's distribution accounts for every issue it holds. */
  lemma FromDistributionTotal(documentName: Option<string>, timestamp: string, issues: seq<AuditIssue>,
                              featureCoverage: Option<seq<FeatureCoverage>>,
                              traceability: Option<seq<TraceabilityEntry>>,
                              glossary: Option<seq<GlossaryIssue>>,
                              useCases: Option<seq<UseCaseEntry>>,
                              requirements: Option<seq<RequirementEntry>>)
    ensures var r := From(documentName, timestamp, issues, featureCoverage, traceability, glossary, useCases, requirements);
            CountOf(r.severityDistribution, High) + CountOf(r.severityDistribution, Medium)
              + CountOf(r.severityDistribution, Low) == r.totalIssues
  {
    DistributionSums(issues);
  }
}
