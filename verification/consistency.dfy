/** The deterministic part of the consistency pass
    (agent/ConsistencyManager.java): the category prefix, the issue order,
    sequential renumbering per prefix, and what `verify` returns for each
    outcome of the verification call, which is given as an input. */
module Consistency {

  import opened Wrappers
  import opened JavaString
  import opened Issues
  import opened Sorting

  // ---------------------------------------------------------------------------
  // Category prefix
  // ---------------------------------------------------------------------------

  /** `prefixForCategory` (agent/ConsistencyManager.java:199-207). */
  function PrefixForCategory(category: Option<string>): string {
    if category.None? || IsBlank(category.value) then "ISS"
    else
      var lower := ToLower(category.value);
      if lower == "requisiti" then "REQ"
      else if lower == "testing" then "TST"
      else if lower == "architettura" then "ARCH"
      else "ISS"
  }

  /** The three named categories, matched ignoring case, get their own
      prefix; a missing, blank or other category gets `ISS`. */
  lemma PrefixCases(category: Option<string>)
    ensures PrefixForCategory(category) in {"ISS", "REQ", "TST", "ARCH"}
    ensures PrefixForCategory(category) == "REQ" <==> category.Some? && ToLower(category.value) == "requisiti"
    ensures PrefixForCategory(category) == "TST" <==> category.Some? && ToLower(category.value) == "testing"
    ensures PrefixForCategory(category) == "ARCH" <==> category.Some? && ToLower(category.value) == "architettura"
  {
    if category.Some? && IsBlank(category.value) {
      var lower := ToLower(category.value);
      assert lower != "requisiti" && lower != "testing" && lower != "architettura" by {
        if |lower| > 0 {
          assert IsWhitespace(category.value[0]);
          assert lower[0] == ToLowerChar(category.value[0]);
        }
      }
    }
  }

  /** The four prefixes start with four different letters. */
  lemma PrefixHeadsDiffer(a: Option<string>, b: Option<string>)
    requires PrefixForCategory(a) != PrefixForCategory(b)
    ensures PrefixForCategory(a)[0] != PrefixForCategory(b)[0]
  {
    PrefixCases(a);
    PrefixCases(b);
  }

  // ---------------------------------------------------------------------------
  // Issue order
  // ---------------------------------------------------------------------------

  function CategoryKey(i: AuditIssue): string {
    i.category.GetOr("ZZZ")
  }

  function DescriptionKey(i: AuditIssue): string {
    i.description.GetOr("")
  }

  /** `Integer.compare`. */
  function IntCompare(a: int, b: int): int {
    if a < b then -1 else if a == b then 0 else 1
  }

  /** The comparator of `renumber`: category (a missing one as "ZZZ"), then
      severity ordinal, then page, then description (a missing one as "")
      (agent/ConsistencyManager.java:171-177). */
  function IssueCompare(x: AuditIssue, y: AuditIssue): int {
    var byCategory := CompareTo(CategoryKey(x), CategoryKey(y));
    if byCategory != 0 then byCategory
    else
      var bySeverity := IntCompare(Ordinal(x.severity), Ordinal(y.severity));
      if bySeverity != 0 then bySeverity
      else
        var byPage := IntCompare(x.pageReference, y.pageReference);
        if byPage != 0 then byPage
        else CompareTo(DescriptionKey(x), DescriptionKey(y))
  }

  predicate IssueLess(x: AuditIssue, y: AuditIssue) {
    IssueCompare(x, y) < 0
  }

  /** The four keys, compared one after the other. */
  predicate KeyLess(x: AuditIssue, y: AuditIssue) {
    || StrLess(CategoryKey(x), CategoryKey(y))
    || (CategoryKey(x) == CategoryKey(y) && Ordinal(x.severity) < Ordinal(y.severity))
    || (CategoryKey(x) == CategoryKey(y) && x.severity == y.severity && x.pageReference < y.pageReference)
    || (CategoryKey(x) == CategoryKey(y) && x.severity == y.severity && x.pageReference == y.pageReference
        && StrLess(DescriptionKey(x), DescriptionKey(y)))
  }

  predicate SameKeys(x: AuditIssue, y: AuditIssue) {
    && CategoryKey(x) == CategoryKey(y)
    && x.severity == y.severity
    && x.pageReference == y.pageReference
    && DescriptionKey(x) == DescriptionKey(y)
  }

  /** The comparator orders issues lexicographically by their four keys, and
      calls two issues equal exactly when all four keys agree. */
  lemma IssueCompareSpec(x: AuditIssue, y: AuditIssue)
    ensures IssueLess(x, y) <==> KeyLess(x, y)
    ensures IssueCompare(x, y) == 0 <==> SameKeys(x, y)
  {
    CompareToSign(CategoryKey(x), CategoryKey(y));
    CompareToSign(DescriptionKey(x), DescriptionKey(y));
    OrdinalInjective(x.severity, y.severity);
  }

  lemma KeyLessIrreflexive(x: AuditIssue)
    ensures !KeyLess(x, x)
  {
    StrLessIrreflexive(CategoryKey(x));
    StrLessIrreflexive(DescriptionKey(x));
  }

  lemma KeyLessTransitive(x: AuditIssue, y: AuditIssue, z: AuditIssue)
    requires KeyLess(x, y) && KeyLess(y, z)
    ensures KeyLess(x, z)
  {
    if StrLess(CategoryKey(x), CategoryKey(y)) && StrLess(CategoryKey(y), CategoryKey(z)) {
      StrLessTransitive(CategoryKey(x), CategoryKey(y), CategoryKey(z));
    }
    if StrLess(DescriptionKey(x), DescriptionKey(y)) && StrLess(DescriptionKey(y), DescriptionKey(z)) {
      StrLessTransitive(DescriptionKey(x), DescriptionKey(y), DescriptionKey(z));
    }
    OrdinalInjective(x.severity, y.severity);
    OrdinalInjective(y.severity, z.severity);
    OrdinalInjective(x.severity, z.severity);
  }

  lemma KeyLessTotal(x: AuditIssue, y: AuditIssue)
    ensures KeyLess(x, y) || KeyLess(y, x) || SameKeys(x, y)
  {
    StrLessTotal(CategoryKey(x), CategoryKey(y));
    StrLessTotal(DescriptionKey(x), DescriptionKey(y));
    OrdinalInjective(x.severity, y.severity);
  }

  /** The comparator is consistent, so the sort is well defined. */
  lemma IssueOrderIsStrictWeak()
    ensures IsStrictWeakOrder(IssueLess)
  {
    forall a
      ensures !IssueLess(a, a)
    {
      IssueCompareSpec(a, a);
      KeyLessIrreflexive(a);
    }
    forall a, b, c | IssueLess(a, b) && IssueLess(b, c)
      ensures IssueLess(a, c)
    {
      IssueCompareSpec(a, b);
      IssueCompareSpec(b, c);
      IssueCompareSpec(a, c);
      KeyLessTransitive(a, b, c);
    }
    forall a, b, c | IssueLess(a, c) && !IssueLess(a, b)
      ensures IssueLess(b, c)
    {
      IssueCompareSpec(a, b);
      IssueCompareSpec(b, a);
      IssueCompareSpec(a, c);
      IssueCompareSpec(b, c);
      KeyLessTotal(a, b);
      if KeyLess(b, a) {
        KeyLessTransitive(b, a, c);
      }
    }
  }

  /** The sorted issues: a permutation of the input, in comparator order,
      with issues of equal keys in input order. */
  lemma SortedIssues(issues: seq<AuditIssue>, x: AuditIssue)
    ensures multiset(Sort(issues, IssueLess)) == multiset(issues)
    ensures Sorted(Sort(issues, IssueLess), IssueLess)
    ensures Class(Sort(issues, IssueLess), IssueLess, x) == Class(issues, IssueLess, x)
  {
    IssueOrderIsStrictWeak();
    SortPermutes(issues, IssueLess);
    SortSorted(issues, IssueLess);
    SortStable(issues, IssueLess, x);
  }

  // ---------------------------------------------------------------------------
  // Renumbering
  // ---------------------------------------------------------------------------

  function Prefix(i: AuditIssue): string {
    PrefixForCategory(i.category)
  }

  /** How many of the first `n` issues have prefix `p`. */
  function CountPrefix(s: seq<AuditIssue>, n: nat, p: string): nat
    requires n <= |s|
  {
    if n == 0 then 0 else CountPrefix(s, n - 1, p) + (if Prefix(s[n - 1]) == p then 1 else 0)
  }

  /** Issue `i`'s sequence number within its prefix, counting from 1. */
  function SeqNumber(s: seq<AuditIssue>, i: nat): nat
    requires i < |s|
  {
    CountPrefix(s, i, Prefix(s[i])) + 1
  }

  /** `"%s-%03d".formatted(prefix, seq)`. */
  function FormatId(prefix: string, n: nat): string {
    prefix + "-" + Pad3(n)
  }

  function NewId(s: seq<AuditIssue>, i: nat): string
    requires i < |s|
  {
    FormatId(Prefix(s[i]), SeqNumber(s, i))
  }

  /** Each sorted issue with its new ID. */
  function RenumberedSorted(s: seq<AuditIssue>): (r: seq<AuditIssue>)
    ensures |r| == |s|
  {
    seq(|s|, i requires 0 <= i < |s| => WithId(s[i], Some(NewId(s, i))))
  }

  /** The reference result of `renumber`. */
  function Renumbered(issues: seq<AuditIssue>): (r: seq<AuditIssue>)
    ensures |r| == |issues|
  {
    RenumberedSorted(Sort(issues, IssueLess))
  }

  /** The loop's output so far: the first `|r|` issues with their new IDs. */
  ghost predicate RenumberedUpTo(s: seq<AuditIssue>, r: seq<AuditIssue>) {
    |r| <= |s| && forall k {:trigger r[k]} :: 0 <= k < |r| ==> r[k] == WithId(s[k], Some(NewId(s, k)))
  }

  lemma RenumberedComplete(s: seq<AuditIssue>, r: seq<AuditIssue>)
    requires RenumberedUpTo(s, r) && |r| == |s|
    ensures r == RenumberedSorted(s)
  {
    forall k | 0 <= k < |s|
      ensures r[k] == RenumberedSorted(s)[k]
    {
    }
  }

  lemma RenumberedSnoc(s: seq<AuditIssue>, r: seq<AuditIssue>)
    requires RenumberedUpTo(s, r) && |r| < |s|
    ensures RenumberedUpTo(s, r + [WithId(s[|r|], Some(NewId(s, |r|)))])
  {
    var x := WithId(s[|r|], Some(NewId(s, |r|)));
    forall k | 0 <= k < |r| + 1
      ensures (r + [x])[k] == WithId(s[k], Some(NewId(s, k)))
    {
      if k < |r| {
        assert (r + [x])[k] == r[k];
      }
    }
  }

  /** `counters` holds, for every prefix, how many of the first `i` issues
      have it. */
  ghost predicate CountersAt(s: seq<AuditIssue>, i: nat, counters: map<string, nat>)
    requires i <= |s|
  {
    forall p :: CountPrefix(s, i, p) == (if p in counters then counters[p] else 0)
  }

  /** Bumping the counter of issue `i`'s prefix gives its sequence number and
      keeps the counters exact. */
  lemma CountersNext(s: seq<AuditIssue>, i: nat, counters: map<string, nat>)
    requires i < |s| && CountersAt(s, i, counters)
    ensures SeqNumber(s, i) == (if Prefix(s[i]) in counters then counters[Prefix(s[i])] else 0) + 1
    ensures CountersAt(s, i + 1, counters[Prefix(s[i]) := SeqNumber(s, i)])
  {
    CountPrefixStep(s, i);
  }

  /** `renumber` (agent/ConsistencyManager.java:167-194): sort, then give each
      issue the next number of its prefix's counter. */
  method Renumber(issues: seq<AuditIssue>) returns (renumbered: seq<AuditIssue>)
    ensures renumbered == Renumbered(issues)
  {
    var sorted := Sort(issues, IssueLess);
    var counters: map<string, nat> := map[];
    renumbered := [];
    var i := 0;
    while i < |sorted|
      invariant 0 <= i <= |sorted|
      invariant |renumbered| == i && RenumberedUpTo(sorted, renumbered)
      invariant CountersAt(sorted, i, counters)
    {
      var prefix := Prefix(sorted[i]);
      var n := (if prefix in counters then counters[prefix] else 0) + 1;
      CountersNext(sorted, i, counters);
      RenumberedSnoc(sorted, renumbered);
      counters := counters[prefix := n];
      renumbered := renumbered + [WithId(sorted[i], Some(FormatId(prefix, n)))];
      i := i + 1;
    }
    RenumberedComplete(sorted, renumbered);
  }

  /** Renumbering changes nothing but the IDs, and keeps every issue: the
      output with its IDs put back is the sorted input. */
  lemma RenumberedOnlyIds(issues: seq<AuditIssue>, i: nat)
    requires i < |issues|
    ensures var sorted := Sort(issues, IssueLess);
            Renumbered(issues)[i].(id := sorted[i].id) == sorted[i]
    ensures Renumbered(issues)[i].id == Some(NewId(Sort(issues, IssueLess), i))
  {
    var sorted := Sort(issues, IssueLess);
    assert Renumbered(issues)[i] == WithId(sorted[i], Some(NewId(sorted, i)));
  }

  /** One more issue adds one to its own prefix's count and nothing else. */
  lemma CountPrefixStep(s: seq<AuditIssue>, i: nat)
    requires i < |s|
    ensures forall p :: CountPrefix(s, i + 1, p) == CountPrefix(s, i, p) + (if Prefix(s[i]) == p then 1 else 0)
  {
  }

  lemma {:induction false} CountPrefixGrows(s: seq<AuditIssue>, i: nat, j: nat)
    requires i < j <= |s|
    ensures CountPrefix(s, j, Prefix(s[i])) >= CountPrefix(s, i, Prefix(s[i])) + 1
    decreases j
  {
    assert CountPrefix(s, j, Prefix(s[i])) >= CountPrefix(s, j - 1, Prefix(s[i]));
    if i < j - 1 {
      CountPrefixGrows(s, i, j - 1);
    }
  }

  lemma {:induction false} CountPrefixSteady(s: seq<AuditIssue>, i: nat, j: nat, p: string)
    requires i <= j <= |s|
    requires forall k :: i <= k < j ==> Prefix(s[k]) != p
    ensures CountPrefix(s, j, p) == CountPrefix(s, i, p)
    decreases j
  {
    if i < j {
      CountPrefixSteady(s, i, j - 1, p);
    }
  }

  lemma FormatIdInjective(p: string, a: nat, q: string, b: nat)
    requires |p| == |q|
    requires FormatId(p, a) == FormatId(q, b)
    ensures p == q && a == b
  {
    var x := FormatId(p, a);
    assert x[..|p|] == p;
    assert FormatId(q, b)[..|q|] == q;
    assert x[|p| + 1..] == Pad3(a);
    assert FormatId(q, b)[|q| + 1..] == Pad3(b);
  }

  /** New IDs are pairwise distinct (agent/ConsistencyManager.java:180-186). */
  lemma NewIdsDistinct(s: seq<AuditIssue>, i: nat, j: nat)
    requires i < j < |s|
    ensures NewId(s, i) != NewId(s, j)
  {
    var p := Prefix(s[i]);
    var q := Prefix(s[j]);
    if p != q {
      PrefixHeadsDiffer(s[i].category, s[j].category);
      assert NewId(s, i)[0] == p[0];
      assert NewId(s, j)[0] == q[0];
    } else {
      CountPrefixGrows(s, i, j);
      PrefixCases(s[i].category);
      if NewId(s, i) == NewId(s, j) {
        FormatIdInjective(p, SeqNumber(s, i), q, SeqNumber(s, j));
      }
    }
  }

  /** Within a prefix the numbers run 1, 2, 3, … in output order: the first
      issue with a prefix gets `P-001`, and the next issue with the same
      prefix gets the next number. */
  lemma SeqNumbersConsecutive(s: seq<AuditIssue>, i: nat, j: nat)
    requires i < j < |s|
    requires Prefix(s[i]) == Prefix(s[j])
    requires forall k :: i < k < j ==> Prefix(s[k]) != Prefix(s[i])
    ensures SeqNumber(s, j) == SeqNumber(s, i) + 1
  {
    CountPrefixSteady(s, i + 1, j, Prefix(s[i]));
  }

  lemma FirstOfPrefix(s: seq<AuditIssue>, i: nat)
    requires i < |s|
    requires forall k :: 0 <= k < i ==> Prefix(s[k]) != Prefix(s[i])
    ensures NewId(s, i) == Prefix(s[i]) + "-001"
  {
    CountPrefixSteady(s, 0, i, Prefix(s[i]));
    assert NatToString(1) == "1";
    assert Pad3(1) == "001";
  }

  // ---------------------------------------------------------------------------
  // Verification outcome
  // ---------------------------------------------------------------------------

  /** How the verification call ended: it threw (including a serialisation
      failure), it returned null, or it returned a response whose list may be
      null. */
  datatype VerificationReply = CallFailed | NullResponse | Response(verifiedIssues: Option<seq<VerifiedIssue>>)

  /** The issues the verifier confirmed, converted back, in order. */
  function Confirmed(vs: seq<VerifiedIssue>): (r: seq<AuditIssue>)
    ensures |r| <= |vs|
    ensures forall x :: x in r <==> exists v :: v in vs && v.verified && ToAuditIssue(v) == x
    decreases |vs|
  {
    if |vs| == 0 then []
    else
      var rest := Confirmed(vs[1..]);
      assert forall v :: v in vs <==> v == vs[0] || v in vs[1..];
      if vs[0].verified then [ToAuditIssue(vs[0])] + rest else rest
  }

  /** Keeping the confirmed issues works issue by issue, so it distributes over concatenation. */
  lemma {:induction false} ConfirmedAppend(a: seq<VerifiedIssue>, b: seq<VerifiedIssue>)
    ensures Confirmed(a + b) == Confirmed(a) + Confirmed(b)
    decreases |a|
  {
    if |a| == 0 {
      assert a + b == b;
    } else {
      assert (a + b)[0] == a[0];
      assert (a + b)[1..] == a[1..] + b;
      ConfirmedAppend(a[1..], b);
    }
  }

  /** Each verified issue is converted in its place, once; the others are dropped: order and repeats are kept. */
  lemma ConfirmedKeeps(a: seq<VerifiedIssue>, v: VerifiedIssue, b: seq<VerifiedIssue>)
    ensures Confirmed(a + [v] + b) == Confirmed(a) + (if v.verified then [ToAuditIssue(v)] else []) + Confirmed(b)
  {
    assert Confirmed([v]) == (if v.verified then [ToAuditIssue(v)] else []) by {
      assert [v][1..] == [];
    }
    assert Confirmed(a + [v] + b) == Confirmed(a + [v]) + Confirmed(b) by {
      ConfirmedAppend(a + [v], b);
    }
    assert Confirmed(a + [v]) == Confirmed(a) + Confirmed([v]) by {
      ConfirmedAppend(a, [v]);
    }
  }

  /** `verify` after the verification call (agent/ConsistencyManager.java:90-161):
      no candidates give nothing; a failed call, a null response or a null
      list renumber all candidates; otherwise only the confirmed issues are
      renumbered. */
  method Verify(candidates: seq<AuditIssue>, reply: VerificationReply) returns (r: seq<AuditIssue>)
    ensures |candidates| == 0 ==> r == []
    ensures |candidates| > 0 && !(reply.Response? && reply.verifiedIssues.Some?) ==> r == Renumbered(candidates)
    ensures |candidates| > 0 && reply.Response? && reply.verifiedIssues.Some? ==>
              r == Renumbered(Confirmed(reply.verifiedIssues.value))
  {
    if |candidates| == 0 {
      return [];
    }
    match reply
    case CallFailed =>
      r := Renumber(candidates);
    case NullResponse =>
      r := Renumber(candidates);
    case Response(None) =>
      r := Renumber(candidates);
    case Response(Some(vs)) =>
      r := Renumber(Confirmed(vs));
  }
}
