/** The deterministic part of the requirement extractor
    (agent/RequirementExtractorAgent.java): dropping technical requirements
    and normalising requirement IDs so that they are unique and progressive.
    The language-model call is replaced by its outcome, an `ExtractorReply`. */
module Requirements {

  import opened Wrappers
  import opened JavaString
  import opened Issues

  // ---------------------------------------------------------------------------
  // ID syntax
  // ---------------------------------------------------------------------------

  /** `Integer.MAX_VALUE`: `Integer.parseInt` rejects anything larger. */
  const IntMax: nat := 0x7FFF_FFFF

  /** The prefix of every generated requirement ID. */
  const GeneratedPrefix: string := "REQ-"

  /** Line terminators, which the regex `.` does not match. */
  predicate IsLineTerminator(c: char) {
    c == '\n' || c == '\r' || c as int == 0x85 || c as int == 0x2028 || c as int == 0x2029
  }

  /** `(?i)^UC[- ].*` matches the whole of `id`: a use-case ID. */
  predicate IsUseCaseId(id: string) {
    && |id| >= 3
    && ToUpperChar(id[0]) == 'U' && ToUpperChar(id[1]) == 'C'
    && (id[2] == '-' || id[2] == ' ')
    && forall k :: 3 <= k < |id| ==> !IsLineTerminator(id[k])
  }

  /** The digits after the letters and the optional dash of `u`. */
  function IdDigits(u: string): string {
    var rest := u[LeadCount(u, IsAsciiUpper)..];
    if |rest| > 0 && rest[0] == '-' then rest[1..] else rest
  }

  /** `(?i)^([A-Z]+-?)(\d+)$` matches the whole of the upper-cased `u`:
      letters, at most one dash, then decimal digits. The three parts use
      disjoint characters, so the split is unique. */
  predicate IdShape(u: string) {
    LeadCount(u, IsAsciiUpper) >= 1 && |IdDigits(u)| > 0 && AllDigits(IdDigits(u))
  }

  /** `Integer.parseInt(matcher.group(2))`, before the overflow check. */
  function IdNumber(u: string): nat
    requires IdShape(u)
  {
    DigitsValue(IdDigits(u))
  }

  /** `isValidExistingId` (agent/RequirementExtractorAgent.java:163-167). */
  predicate IsValidExistingId(id: string) {
    !IsBlank(id) && !IsUseCaseId(id) && IdShape(ToUpper(id))
  }

  /** `extractTrailingNumber`: the ID's number, or 0 when it has no ID shape. */
  function TrailingNumber(id: string): nat {
    var u := ToUpper(id);
    if IdShape(u) then IdNumber(u) else 0
  }

  /** `"REQ-" + n`. */
  function GeneratedId(n: nat): string {
    GeneratedPrefix + NatToString(n)
  }

  /** A generated ID is already upper case, is itself a valid existing ID, and
      reads back its own number. */
  lemma GeneratedIdFacts(n: nat)
    ensures ToUpper(GeneratedId(n)) == GeneratedId(n)
    ensures IdShape(GeneratedId(n)) && IdNumber(GeneratedId(n)) == n
    ensures IsValidExistingId(GeneratedId(n))
    ensures TrailingNumber(GeneratedId(n)) == n
  {
    var g := GeneratedId(n);
    var d := NatToString(n);
    assert g[0] == 'R' && g[1] == 'E' && g[2] == 'Q' && g[3] == '-';
    assert forall k :: 4 <= k < |g| ==> g[k] == d[k - 4];
    assert ToUpper(g) == g;
    var lead := LeadCount(g, IsAsciiUpper);
    LeadCountFacts(g, IsAsciiUpper);
    assert lead == 3;
    assert g[3..][1..] == d;
    assert IdDigits(g) == d;
    NatToStringRoundTrip(n);
    assert !IsBlank(g) by {
      assert !IsWhitespace(g[0]);
    }
  }

  /** `extractTrailingNumber("REQ-" + n)` is `n`. */
  lemma GeneratedReadsBack(n: nat)
    ensures TrailingNumber(GeneratedId(n)) == n
  {
    GeneratedIdFacts(n);
  }

  /** `sanitize`: null becomes the empty string, anything else is trimmed. */
  function Sanitize(s: Option<string>): string {
    match s
    case None => ""
    case Some(t) => Trim(t)
  }

  // ---------------------------------------------------------------------------
  // Technical-requirement filter
  // ---------------------------------------------------------------------------

  const TechnicalMarkers: seq<string> :=
    ["session", "validazione", "validation", "regex", "dao", "jdbc", "database connection", "persistence"]

  /** `isLikelyTechnicalRequirement` (agent/RequirementExtractorAgent.java:181-192). */
  predicate IsLikelyTechnical(name: Option<string>) {
    var lower := ToLower(Sanitize(name));
    !IsBlank(lower) && exists m :: m in TechnicalMarkers && Contains(lower, m)
  }

  /** The functional requirements: the technical ones removed, order kept
      (agent/RequirementExtractorAgent.java:81-83). */
  function FunctionalOnly(reqs: seq<RequirementEntry>): (r: seq<RequirementEntry>)
    ensures |r| <= |reqs|
    ensures forall x :: x in r <==> x in reqs && !IsLikelyTechnical(x.requirementName)
    ensures (forall i :: 0 <= i < |reqs| ==> !IsLikelyTechnical(reqs[i].requirementName)) ==> r == reqs
    decreases |reqs|
  {
    if |reqs| == 0 then []
    else
      var rest := FunctionalOnly(reqs[1..]);
      ConsParts(reqs);
      if IsLikelyTechnical(reqs[0].requirementName) then rest else [reqs[0]] + rest
  }

  /** Dropping technical requirements works entry by entry, so it distributes over concatenation. */
  lemma {:induction false} FunctionalOnlyAppend(a: seq<RequirementEntry>, b: seq<RequirementEntry>)
    ensures FunctionalOnly(a + b) == FunctionalOnly(a) + FunctionalOnly(b)
    decreases |a|
  {
    if |a| == 0 {
      assert a + b == b;
    } else {
      assert (a + b)[0] == a[0];
      assert (a + b)[1..] == a[1..] + b;
      FunctionalOnlyAppend(a[1..], b);
    }
  }

  /** Each entry stays in its place, once, exactly when it is not technical: the filter keeps order and repeats. */
  lemma FunctionalOnlyKeeps(a: seq<RequirementEntry>, x: RequirementEntry, b: seq<RequirementEntry>)
    ensures FunctionalOnly(a + [x] + b) == FunctionalOnly(a) + (if !IsLikelyTechnical(x.requirementName) then [x] else []) + FunctionalOnly(b)
  {
    assert FunctionalOnly([x]) == (if !IsLikelyTechnical(x.requirementName) then [x] else []) by {
      assert [x][1..] == [];
    }
    assert FunctionalOnly(a + [x] + b) == FunctionalOnly(a + [x]) + FunctionalOnly(b) by {
      FunctionalOnlyAppend(a + [x], b);
    }
    assert FunctionalOnly(a + [x]) == FunctionalOnly(a) + FunctionalOnly([x]) by {
      FunctionalOnlyAppend(a, [x]);
    }
  }

  /** A non-empty list is its head followed by its tail, member for member. */
  lemma ConsParts(reqs: seq<RequirementEntry>)
    requires |reqs| > 0
    ensures reqs == [reqs[0]] + reqs[1..]
    ensures forall x :: x in reqs <==> x == reqs[0] || x in reqs[1..]
    ensures (forall i :: 0 <= i < |reqs| ==> !IsLikelyTechnical(reqs[i].requirementName)) ==>
              forall i :: 0 <= i < |reqs[1..]| ==> !IsLikelyTechnical(reqs[1..][i].requirementName)
  {
    assert reqs == [reqs[0]] + reqs[1..];
  }

  // ---------------------------------------------------------------------------
  // Reference definition of the normalised IDs
  // ---------------------------------------------------------------------------

  /** What the normalisation reads from one entry's trimmed ID. */
  datatype IdInfo = IdInfo(valid: bool, upper: string, number: nat)

  function InfoOf(e: RequirementEntry): IdInfo {
    var id := Sanitize(e.requirementId);
    IdInfo(IsValidExistingId(id), ToUpper(id), TrailingNumber(id))
  }

  function Infos(reqs: seq<RequirementEntry>): (r: seq<IdInfo>)
    ensures |r| == |reqs|
    decreases |reqs|
  {
    if |reqs| == 0 then [] else [InfoOf(reqs[0])] + Infos(reqs[1..])
  }

  lemma {:induction false} InfoAt(reqs: seq<RequirementEntry>, i: nat)
    requires i < |reqs|
    ensures Infos(reqs)[i] == InfoOf(reqs[i])
    decreases i
  {
    if i > 0 {
      InfoAt(reqs[1..], i - 1);
    }
  }

  /** The first valid ID with this upper-case spelling: it is kept. */
  predicate FirstValid(infos: seq<IdInfo>, i: nat)
    requires i < |infos|
  {
    infos[i].valid && forall k :: 0 <= k < i ==> !(infos[k].valid && infos[k].upper == infos[i].upper)
  }

  /** The largest number carried by a valid ID among the first `n` entries, or 0. */
  function MaxReserved(infos: seq<IdInfo>, n: nat): nat
    requires n <= |infos|
  {
    if n == 0 then 0
    else
      var here := if infos[n - 1].valid then infos[n - 1].number else 0;
      var before := MaxReserved(infos, n - 1);
      if here > before then here else before
  }

  /** How many of the first `n` entries get a generated ID. */
  function GenBefore(infos: seq<IdInfo>, n: nat): nat
    requires n <= |infos|
  {
    if n == 0 then 0
    else GenBefore(infos, n - 1) + (if FirstValid(infos, n - 1) then 0 else 1)
  }

  /** The first generated number: one past every reserved number. */
  function Start(infos: seq<IdInfo>): nat {
    MaxReserved(infos, |infos|) + 1
  }

  function IdOf(reqs: seq<RequirementEntry>, i: nat): string
    requires i < |reqs|
  {
    Sanitize(reqs[i].requirementId)
  }

  /** Entry `i`'s final ID given every entry's ID facts: its own, if it is
      the first valid spelling of it; otherwise the next progressive `REQ-N`. */
  function IdWith(infos: seq<IdInfo>, reqs: seq<RequirementEntry>, i: nat): string
    requires |infos| == |reqs| && i < |reqs|
  {
    if FirstValid(infos, i) then IdOf(reqs, i) else GeneratedId(GeneratedNumber(infos, i))
  }

  /** The final name: the trimmed name, or "Requirement N" for the final ID's
      number when the name is blank. */
  function FinalName(name: string, finalId: string): string {
    if IsBlank(name) then "Requirement " + NatToString(TrailingNumber(finalId)) else name
  }

  function EntryWith(infos: seq<IdInfo>, reqs: seq<RequirementEntry>, i: nat): RequirementEntry
    requires |infos| == |reqs| && i < |reqs|
  {
    var id := IdWith(infos, reqs, i);
    RequirementEntry(Some(id), Some(FinalName(Sanitize(reqs[i].requirementName), id)))
  }

  /** The first `n` final entries. */
  function EntriesWith(infos: seq<IdInfo>, reqs: seq<RequirementEntry>, n: nat): (r: seq<RequirementEntry>)
    requires |infos| == |reqs| && n <= |reqs|
    ensures |r| == n
  {
    seq(n, k requires 0 <= k < n => EntryWith(infos, reqs, k))
  }

  /** Appending the next element of `full` to a prefix of it gives the next
      prefix. */
  lemma PrefixSnoc<T>(full: seq<T>, r: seq<T>, e: T)
    requires |r| < |full| && r == full[..|r|] && e == full[|r|]
    ensures r + [e] == full[..|r| + 1]
  {
  }

  /** The reference for entry `i`'s final ID. */
  function RefId(reqs: seq<RequirementEntry>, i: nat): string
    requires i < |reqs|
  {
    IdWith(Infos(reqs), reqs, i)
  }

  function RefName(reqs: seq<RequirementEntry>, i: nat): string
    requires i < |reqs|
  {
    FinalName(Sanitize(reqs[i].requirementName), RefId(reqs, i))
  }

  /** The reference for entry `i` after normalisation. */
  function RefEntry(reqs: seq<RequirementEntry>, i: nat): RequirementEntry
    requires i < |reqs|
  {
    EntryWith(Infos(reqs), reqs, i)
  }

  /** Some valid ID carries a number `Integer.parseInt` cannot hold. */
  predicate Overflows(infos: seq<IdInfo>) {
    exists k :: 0 <= k < |infos| && infos[k].valid && infos[k].number > IntMax
  }

  // ---------------------------------------------------------------------------
  // Properties of the reference
  // ---------------------------------------------------------------------------

  lemma {:induction false} MaxReservedBound(infos: seq<IdInfo>, n: nat, k: nat)
    requires k < n <= |infos|
    requires infos[k].valid
    ensures infos[k].number <= MaxReserved(infos, n)
    decreases n
  {
    if k < n - 1 {
      MaxReservedBound(infos, n - 1, k);
    }
  }

  /** Entries needing a generated ID get strictly increasing counts. */
  lemma {:induction false} GenBeforeIncreases(infos: seq<IdInfo>, i: nat, j: nat)
    requires i < j <= |infos|
    requires !FirstValid(infos, i)
    ensures GenBefore(infos, i) < GenBefore(infos, j)
    decreases j
  {
    if i < j - 1 {
      GenBeforeIncreases(infos, i, j - 1);
    }
  }

  /** Entry `i`'s trimmed ID is valid and no earlier entry has a valid ID
      spelled the same up to case. */
  predicate IsFirstValidId(reqs: seq<RequirementEntry>, i: nat)
    requires i < |reqs|
  {
    && IsValidExistingId(IdOf(reqs, i))
    && forall k :: 0 <= k < i ==> !(IsValidExistingId(IdOf(reqs, k)) && ToUpper(IdOf(reqs, k)) == ToUpper(IdOf(reqs, i)))
  }

  /** The first occurrence of a valid ID is kept as it is (trimmed); every
      other entry (a later duplicate up to case, a blank, pattern-failing or
      use-case ID) gets a generated `REQ-N`
      (agent/RequirementExtractorAgent.java:136-152). */
  lemma RefIdKeptOrGenerated(reqs: seq<RequirementEntry>, i: nat)
    requires i < |reqs|
    ensures IsFirstValidId(reqs, i) ==> RefId(reqs, i) == IdOf(reqs, i)
    ensures !IsFirstValidId(reqs, i) ==> RefId(reqs, i) == GeneratedId(GeneratedNumber(Infos(reqs), i))
  {
    FirstValidIsFirstValidId(reqs, i);
  }

  lemma FirstValidIsFirstValidId(reqs: seq<RequirementEntry>, i: nat)
    requires i < |reqs|
    ensures FirstValid(Infos(reqs), i) <==> IsFirstValidId(reqs, i)
  {
    var infos := Infos(reqs);
    InfoFields(reqs, i);
    forall k | 0 <= k < i
      ensures (infos[k].valid && infos[k].upper == infos[i].upper)
              <==> (IsValidExistingId(IdOf(reqs, k)) && ToUpper(IdOf(reqs, k)) == ToUpper(IdOf(reqs, i)))
    {
      InfoFields(reqs, k);
    }
  }

  lemma InfoFields(reqs: seq<RequirementEntry>, k: nat)
    requires k < |reqs|
    ensures Infos(reqs)[k].valid == IsValidExistingId(IdOf(reqs, k))
    ensures Infos(reqs)[k].upper == ToUpper(IdOf(reqs, k))
  {
    InfoAt(reqs, k);
  }

  /** Every final ID is a valid requirement ID: never blank and never a
      use-case ID (agent/RequirementExtractorAgent.java:136-152). */
  lemma RefIdValid(reqs: seq<RequirementEntry>, i: nat)
    requires i < |reqs|
    ensures IsValidExistingId(RefId(reqs, i))
  {
    var infos := Infos(reqs);
    InfoAt(reqs, i);
    if !FirstValid(infos, i) {
      GeneratedIdFacts(GeneratedNumber(infos, i));
    }
  }

  /** The number of the generated ID entry `i` gets, when it gets one. */
  function GeneratedNumber(infos: seq<IdInfo>, i: nat): nat
    requires i < |infos|
  {
    Start(infos) + GenBefore(infos, i)
  }

  /** Generated numbers lie above every number an existing valid ID carries. */
  lemma GeneratedAboveReserved(infos: seq<IdInfo>, i: nat, k: nat)
    requires i < |infos| && k < |infos|
    requires infos[k].valid
    ensures GeneratedNumber(infos, i) > infos[k].number
  {
    MaxReservedBound(infos, |infos|, k);
  }

  /** Generated numbers grow with the position of the entry. */
  lemma GeneratedProgressive(infos: seq<IdInfo>, i: nat, j: nat)
    requires i < j < |infos|
    requires !FirstValid(infos, i)
    ensures GeneratedNumber(infos, i) < GeneratedNumber(infos, j)
  {
    GenBeforeIncreases(infos, i, j);
  }

  /** An ID spelled like `REQ-n` up to case carries the number `n`. */
  lemma SpelledAsGenerated(id: string, n: nat)
    requires ToUpper(id) == GeneratedId(n)
    ensures TrailingNumber(id) == n
  {
    GeneratedIdFacts(n);
  }

  /** No two final IDs coincide, not even up to case
      (agent/RequirementExtractorAgent.java:104-161). */
  lemma RefIdsDistinct(reqs: seq<RequirementEntry>, i: nat, j: nat)
    requires i < j < |reqs|
    ensures ToUpper(RefId(reqs, i)) != ToUpper(RefId(reqs, j))
  {
    var infos := Infos(reqs);
    InfoAt(reqs, i);
    InfoAt(reqs, j);
    if FirstValid(infos, i) && FirstValid(infos, j) {
      assert !(infos[i].valid && infos[i].upper == infos[j].upper);
    } else if FirstValid(infos, i) {
      var n := GeneratedNumber(infos, j);
      GeneratedIdFacts(n);
      GeneratedAboveReserved(infos, j, i);
      if ToUpper(IdOf(reqs, i)) == GeneratedId(n) {
        SpelledAsGenerated(IdOf(reqs, i), n);
      }
    } else if FirstValid(infos, j) {
      var n := GeneratedNumber(infos, i);
      GeneratedIdFacts(n);
      GeneratedAboveReserved(infos, i, j);
      if ToUpper(IdOf(reqs, j)) == GeneratedId(n) {
        SpelledAsGenerated(IdOf(reqs, j), n);
      }
    } else {
      GeneratedProgressive(infos, i, j);
      GeneratedIdFacts(GeneratedNumber(infos, i));
      GeneratedIdFacts(GeneratedNumber(infos, j));
    }
  }

  /** Every final name is non-blank, and a non-blank name is kept (trimmed). */
  lemma RefNameNonBlank(reqs: seq<RequirementEntry>, i: nat)
    requires i < |reqs|
    ensures !IsBlank(RefName(reqs, i))
    ensures !IsBlank(Sanitize(reqs[i].requirementName)) ==> RefName(reqs, i) == Sanitize(reqs[i].requirementName)
  {
    var name := Sanitize(reqs[i].requirementName);
    if IsBlank(name) {
      assert !IsWhitespace(RefName(reqs, i)[0]);
    }
  }

  // ---------------------------------------------------------------------------
  // The normalisation as the source runs it
  // ---------------------------------------------------------------------------

  /** The upper-case spellings of the valid IDs among the first `n` entries. */
  function SeenSet(infos: seq<IdInfo>, n: nat): set<string>
    requires n <= |infos|
  {
    if n == 0 then {}
    else SeenSet(infos, n - 1) + (if infos[n - 1].valid then {infos[n - 1].upper} else {})
  }

  lemma {:induction false} SeenSetSpec(infos: seq<IdInfo>, n: nat, x: string)
    requires n <= |infos|
    ensures x in SeenSet(infos, n) <==> exists k :: 0 <= k < n && infos[k].valid && infos[k].upper == x
    decreases n
  {
    if n > 0 {
      SeenSetSpec(infos, n - 1, x);
    }
  }

  /** `while (usedNumbers.contains(nextNumber)) nextNumber++`. */
  function NextFree(used: set<nat>, n: nat): (r: nat)
    ensures r >= n && r !in used
    ensures forall k :: n <= k < r ==> k in used
    decreases used
  {
    if n in used then NextFree(used - {n}, n + 1) else n
  }

  /** The generating branch: skip to the first unused number, spell it as
      an ID, and record the number read back from that ID. When every used
      number is below the counter, the counter itself is taken. */
  method GenerateId(usedNumbers: set<nat>, nextNumber: nat)
    returns (finalId: string, used': set<nat>, next': nat)
    requires forall u :: u in usedNumbers ==> u < nextNumber
    ensures finalId == GeneratedId(nextNumber)
    ensures next' == nextNumber + 1
    ensures used' == usedNumbers + {nextNumber}
    ensures forall u :: u in used' ==> u < next'
  {
    var n := NextFree(usedNumbers, nextNumber);
    assert n == nextNumber;
    finalId := GeneratedId(n);
    assert TrailingNumber(finalId) == n by {
      GeneratedReadsBack(n);
    }
    next' := n + 1;
    used' := usedNumbers + {TrailingNumber(finalId)};
  }

  /** The loop's set of seen spellings decides exactly what the reference
      calls a first valid ID. */
  lemma FirstValidSeen(infos: seq<IdInfo>, i: nat)
    requires i < |infos|
    ensures FirstValid(infos, i) <==> infos[i].valid && infos[i].upper !in SeenSet(infos, i)
  {
    SeenSetSpec(infos, i, infos[i].upper);
  }

  lemma SeenSetStep(infos: seq<IdInfo>, i: nat)
    requires i < |infos|
    ensures SeenSet(infos, i + 1) == if infos[i].valid then SeenSet(infos, i) + {infos[i].upper} else SeenSet(infos, i)
  {
  }

  /** Entry `i`'s final ID in terms of the state the second pass keeps. */
  lemma IdWithStep(infos: seq<IdInfo>, reqs: seq<RequirementEntry>, i: nat)
    requires |infos| == |reqs| && i < |reqs|
    ensures IdWith(infos, reqs, i) == if infos[i].valid && infos[i].upper !in SeenSet(infos, i)
                                      then IdOf(reqs, i) else GeneratedId(Start(infos) + GenBefore(infos, i))
  {
    FirstValidSeen(infos, i);
  }

  /** The first pass over the entries' ID facts: the maximum number of a
      valid existing ID, with the set of reserved numbers, or `None` when
      `Integer.parseInt` throws on one of them
      (agent/RequirementExtractorAgent.java:111-126). */
  method ReserveNumbers(infos: seq<IdInfo>) returns (r: Option<(set<nat>, nat)>)
    ensures r.None? <==> Overflows(infos)
    ensures r.Some? ==> r.value.1 == MaxReserved(infos, |infos|)
    ensures r.Some? ==> forall u :: u in r.value.0 ==> u <= r.value.1
  {
    var usedNumbers: set<nat> := {};
    var usedIds: set<string> := {};
    var maxUsed: nat := 0;
    var i := 0;
    while i < |infos|
      invariant 0 <= i <= |infos|
      invariant forall k :: 0 <= k < i && infos[k].valid ==> infos[k].number <= IntMax
      invariant maxUsed == MaxReserved(infos, i)
      invariant forall u :: u in usedNumbers ==> u <= maxUsed
    {
      var info := infos[i];
      if info.valid {
        var number := info.number;
        if number > IntMax {
          return None;
        }
        if info.upper !in usedIds {
          usedIds := usedIds + {info.upper};
          usedNumbers := usedNumbers + {number};
        }
        if number > maxUsed {
          maxUsed := number;
        }
      }
      i := i + 1;
    }
    return Some((usedNumbers, maxUsed));
  }

  /** One step of the second pass: entry `i` keeps its ID if it is the first
      valid spelling of it, and otherwise takes the next free `REQ-N`
      (agent/RequirementExtractorAgent.java:136-152; the source's two
      generating branches do the same thing). The set of generated upper-case
      IDs the source also collects is never read, so it is left out. */
  method NextId(reqs: seq<RequirementEntry>, infos: seq<IdInfo>, i: nat,
                seenInOrder: set<string>, usedNumbers: set<nat>, nextNumber: nat)
    returns (finalId: string, seen': set<string>, used': set<nat>, next': nat)
    requires |infos| == |reqs| && i < |reqs|
    requires seenInOrder == SeenSet(infos, i)
    requires nextNumber == Start(infos) + GenBefore(infos, i)
    requires forall u :: u in usedNumbers ==> u < nextNumber
    ensures finalId == IdWith(infos, reqs, i)
    ensures seen' == SeenSet(infos, i + 1)
    ensures next' == Start(infos) + GenBefore(infos, i + 1)
    ensures forall u :: u in used' ==> u < next'
  {
    var originalId := Sanitize(reqs[i].requirementId);
    // infos[i] is isValidExistingId(originalId) and originalId.toUpperCase()
    var keep := infos[i].valid && infos[i].upper !in seenInOrder;
    assert keep == FirstValid(infos, i) by {
      FirstValidSeen(infos, i);
    }
    assert IdWith(infos, reqs, i) == if keep then originalId else GeneratedId(nextNumber) by {
      IdWithStep(infos, reqs, i);
    }
    assert SeenSet(infos, i + 1) == if infos[i].valid then seenInOrder + {infos[i].upper} else seenInOrder by {
      SeenSetStep(infos, i);
    }
    used' := usedNumbers;
    next' := nextNumber;
    seen' := seenInOrder;
    if keep {
      finalId := originalId;
      seen' := seenInOrder + {infos[i].upper};
    } else {
      finalId, used', next' := GenerateId(usedNumbers, nextNumber);
      if infos[i].valid {
        assert seenInOrder + {infos[i].upper} == seenInOrder;
      }
    }
  }

  /** The second pass: every entry gets its final ID and a non-blank name
      (agent/RequirementExtractorAgent.java:126-158). */
  method AssignIds(reqs: seq<RequirementEntry>, infos: seq<IdInfo>, used: set<nat>, next: nat)
    returns (normalized: seq<RequirementEntry>)
    requires |infos| == |reqs|
    requires next == Start(infos)
    requires forall u :: u in used ==> u < next
    ensures |normalized| == |reqs|
    ensures normalized == EntriesWith(infos, reqs, |reqs|)
  {
    var usedNumbers := used;
    var nextNumber := next;
    normalized := [];
    var seenInOrder: set<string> := {};
    var i := 0;
    while i < |reqs|
      invariant 0 <= i <= |reqs|
      invariant normalized == EntriesWith(infos, reqs, |reqs|)[..i]
      invariant seenInOrder == SeenSet(infos, i)
      invariant nextNumber == Start(infos) + GenBefore(infos, i)
      invariant forall u :: u in usedNumbers ==> u < nextNumber
    {
      var finalId;
      finalId, seenInOrder, usedNumbers, nextNumber := NextId(reqs, infos, i, seenInOrder, usedNumbers, nextNumber);
      var finalName := FinalName(Sanitize(reqs[i].requirementName), finalId);
      assert RequirementEntry(Some(finalId), Some(finalName)) == EntriesWith(infos, reqs, |reqs|)[i];
      PrefixSnoc(EntriesWith(infos, reqs, |reqs|), normalized, RequirementEntry(Some(finalId), Some(finalName)));
      normalized := normalized + [RequirementEntry(Some(finalId), Some(finalName))];
      i := i + 1;
    }
    assert EntriesWith(infos, reqs, |reqs|)[..|reqs|] == EntriesWith(infos, reqs, |reqs|);
  }

  /** `normalizeRequirementIds`, with `None` for the NumberFormatException an
      over-large ID number raises (agent/RequirementExtractorAgent.java:108-161). */
  method NormalizeRequirementIds(reqs: seq<RequirementEntry>) returns (r: Option<seq<RequirementEntry>>)
    ensures r.None? <==> Overflows(Infos(reqs))
    ensures r.Some? ==> |r.value| == |reqs|
    ensures r.Some? ==> forall i :: 0 <= i < |reqs| ==> r.value[i] == RefEntry(reqs, i)
  {
    if |reqs| == 0 {
      r := Some([]);
    } else {
      var infos := Infos(reqs);
      var reserved := ReserveNumbers(infos);
      match reserved
      case None =>
        r := None;
      case Some((usedNumbers, maxUsed)) =>
        var normalized := AssignIds(reqs, infos, usedNumbers, maxUsed + 1);
        assert forall k :: 0 <= k < |reqs| ==> normalized[k] == EntryWith(infos, reqs, k);
        r := Some(normalized);
    }
  }

  // ---------------------------------------------------------------------------
  // Extraction
  // ---------------------------------------------------------------------------

  /** What the language-model call produced: an exception, a null response,
      or a response whose requirement list may itself be null. */
  datatype ExtractorReply = CallFailed | NullReply | Reply(requirements: Option<seq<RequirementEntry>>)

  /** `extract` after the model call (agent/RequirementExtractorAgent.java:62-98):
      no list, or an ID number too large to parse, gives an empty result;
      otherwise the functional requirements, renamed as the reference says,
      with IDs distinct up to case and none of them a use-case ID. */
  method Extract(reply: ExtractorReply) returns (r: seq<RequirementEntry>)
    ensures !(reply.Reply? && reply.requirements.Some?) ==> r == []
    ensures reply.Reply? && reply.requirements.Some? && Overflows(Infos(FunctionalOnly(reply.requirements.value))) ==> r == []
    ensures reply.Reply? && reply.requirements.Some? && !Overflows(Infos(FunctionalOnly(reply.requirements.value))) ==>
              var f := FunctionalOnly(reply.requirements.value);
              |r| == |f| && forall i :: 0 <= i < |f| ==> r[i] == RefEntry(f, i)
    ensures forall i :: 0 <= i < |r| ==> r[i].requirementId.Some? && IsValidExistingId(r[i].requirementId.value)
    ensures forall i, j :: 0 <= i < j < |r| ==>
              ToUpper(r[i].requirementId.value) != ToUpper(r[j].requirementId.value)
  {
    if !(reply.Reply? && reply.requirements.Some?) {
      return [];
    }
    var f := FunctionalOnly(reply.requirements.value);
    var normalized := NormalizeRequirementIds(f);
    match normalized
    case None =>
      r := [];
    case Some(out) =>
      forall i | 0 <= i < |out|
        ensures IsValidExistingId(out[i].requirementId.value)
      {
        RefIdValid(f, i);
      }
      forall i, j | 0 <= i < j < |out|
        ensures ToUpper(out[i].requirementId.value) != ToUpper(out[j].requirementId.value)
      {
        RefIdsDistinct(f, i, j);
      }
      r := out;
  }
}
