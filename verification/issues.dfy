/** The records the audit pipeline passes between its stages: issues with
    their severity and confidence, verified issues, feature coverage, and the
    rows of the traceability matrix, use-case and requirement lists. A Java
    `String` that may be null is an `Option<string>`. */
module Issues {

  import opened Wrappers

  /** Issue severity, in declaration order. */
  datatype Severity = High | Medium | Low

  /** `Severity.ordinal()`. */
  function Ordinal(s: Severity): (r: nat)
    ensures r < 3
  {
    match s
    case High => 0
    case Medium => 1
    case Low => 2
  }

  /** Distinct severities have distinct ordinals, so ordering by ordinal is
      a total order on severities. */
  lemma OrdinalInjective(a: Severity, b: Severity)
    ensures Ordinal(a) == Ordinal(b) <==> a == b
  {
  }

  /** The confidence an issue gets when the model returned none. */
  const DefaultConfidence: real := 0.8

  /** A confidence as the record keeps it: never zero or negative. */
  type Confidence = r: real | r > 0.0 witness DefaultConfidence

  /** The compact constructor's rule: a non-positive confidence becomes the
      default (model/AuditIssue.java:26-28). */
  function ToConfidence(raw: real): (c: Confidence)
    ensures raw > 0.0 ==> c == raw
    ensures raw <= 0.0 ==> c == DefaultConfidence
  {
    if raw <= 0.0 then DefaultConfidence else raw
  }

  datatype AuditIssue = AuditIssue(
    id: Option<string>,
    severity: Severity,
    shortDescription: Option<string>,
    description: Option<string>,
    pageReference: int,
    quote: Option<string>,
    category: Option<string>,
    recommendation: Option<string>,
    confidence: Confidence)

  /** The canonical constructor: every field is kept except a non-positive
      confidence, which is replaced by the default. */
  function NewIssue(id: Option<string>, severity: Severity, shortDescription: Option<string>,
                    description: Option<string>, pageReference: int, quote: Option<string>,
                    category: Option<string>, recommendation: Option<string>, rawConfidence: real): (r: AuditIssue)
    ensures r.id == id && r.severity == severity && r.shortDescription == shortDescription
    ensures r.description == description && r.pageReference == pageReference && r.quote == quote
    ensures r.category == category && r.recommendation == recommendation
    ensures rawConfidence > 0.0 ==> r.confidence == rawConfidence
    ensures rawConfidence <= 0.0 ==> r.confidence == DefaultConfidence
  {
    AuditIssue(id, severity, shortDescription, description, pageReference, quote,
               category, recommendation, ToConfidence(rawConfidence))
  }

  /** `withId`: a copy that differs at most in its id. */
  function WithId(i: AuditIssue, newId: Option<string>): (r: AuditIssue)
    ensures r.id == newId
    ensures r.(id := i.id) == i
  {
    i.(id := newId)
  }

  /** `withConfidence`: a copy that differs at most in its confidence, which
      goes through the constructor's default rule again. */
  function WithConfidence(i: AuditIssue, raw: real): (r: AuditIssue)
    ensures r.(confidence := i.confidence) == i
    ensures raw > 0.0 ==> r.confidence == raw
    ensures raw <= 0.0 ==> r.confidence == DefaultConfidence
  {
    i.(confidence := ToConfidence(raw))
  }

  /** With a positive confidence, `withConfidence` is a plain field update. */
  lemma WithPositiveConfidence(i: AuditIssue, raw: real)
    requires raw > 0.0
    ensures WithConfidence(i, raw) == i.(confidence := raw)
  {
  }

  /** Scaling a confidence by a positive factor never triggers the default. */
  lemma ScaledConfidence(i: AuditIssue, factor: real)
    requires factor > 0.0
    ensures WithConfidence(i, i.confidence * factor).confidence == i.confidence * factor
  {
    assert i.confidence * factor > 0.0;
  }

  /** An issue after the verification pass, with the verifier's flag and note;
      it carries no short description. */
  datatype VerifiedIssue = VerifiedIssue(
    id: Option<string>,
    severity: Severity,
    description: Option<string>,
    pageReference: int,
    quote: Option<string>,
    category: Option<string>,
    recommendation: Option<string>,
    confidence: real,
    verified: bool,
    verificationNote: Option<string>)

  /** `toAuditIssue`: drops the verification fields (model/VerifiedIssue.java:23-25). */
  function ToAuditIssue(v: VerifiedIssue): (r: AuditIssue)
    ensures r.id == v.id && r.severity == v.severity && r.description == v.description
    ensures r.pageReference == v.pageReference && r.quote == v.quote
    ensures r.category == v.category && r.recommendation == v.recommendation
    ensures r.shortDescription == None
    ensures v.confidence > 0.0 ==> r.confidence == v.confidence
    ensures v.confidence <= 0.0 ==> r.confidence == DefaultConfidence
  {
    NewIssue(v.id, v.severity, None, v.description, v.pageReference, v.quote,
             v.category, v.recommendation, v.confidence)
  }

  datatype FeatureStatus = Present | Partial | Absent

  datatype FeatureCoverage = FeatureCoverage(
    featureName: string,
    category: string,
    status: FeatureStatus,
    coverageScore: int,
    evidence: string,
    matchedItems: int,
    totalItems: int)

  datatype TraceabilityEntry = TraceabilityEntry(
    useCaseId: Option<string>,
    useCaseName: Option<string>,
    requirementId: Option<string>,
    requirementName: Option<string>,
    hasDesign: bool,
    hasTest: bool,
    designRef: Option<string>,
    testRef: Option<string>,
    gap: Option<string>)

  datatype UseCaseEntry = UseCaseEntry(
    useCaseId: Option<string>,
    useCaseName: Option<string>,
    actor: Option<string>,
    preconditions: Option<string>,
    mainFlow: Option<string>,
    postconditions: Option<string>,
    alternativeFlows: Option<string>,
    hasTemplate: bool)

  datatype RequirementEntry = RequirementEntry(requirementId: Option<string>, requirementName: Option<string>)

  datatype GlossaryIssue = GlossaryIssue(
    termGroup: Option<string>,
    variants: Option<string>,
    occurrences: int,
    suggestion: Option<string>,
    severity: Option<string>)
}
