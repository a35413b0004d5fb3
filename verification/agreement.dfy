/** Inter-annotator agreement (eval/agreement.py): loading one annotator's
    workbook into per-team `qid -> score` maps, pairing two annotators' scores
    on the (team, qid) cells both evaluated, grouping the pairs by qid, and
    handing the series to Cohen's kappa, which stays an uninterpreted
    function. */
module Agreement {

  import opened Wrappers
  import opened JavaString
  import opened OrderedMap

  // ---------------------------------------------------------------------------
  // Data model
  // ---------------------------------------------------------------------------

  /** A spreadsheet cell as the reader yields it. */
  datatype Cell = Empty | Text(text: string) | Num(num: int)

  type Row = seq<Cell>

  datatype Sheet = Sheet(name: string, rows: seq<Row>)

  type Workbook = seq<Sheet>

  /** qid -> score for one team, in first-insertion order. */
  type TeamScores = OMap<Cell, int>

  /** team (sheet name) -> TeamScores, in first-insertion order. */
  type AnnotatorScores = OMap<string, TeamScores>

  /** The exceptions the loader can raise on a malformed row: a row shorter than
      the cells it reads, or `int()` of a text that is not an integer. */
  datatype LoadError = IndexError | ValueError

  /** What one data row contributes: nothing, or one score for its qid. */
  datatype Resolution = Skip | Scored(qid: Cell, score: int)

  const TeamPrefix: string := "Team"
  const PassMarker: string := "Pass (1)"
  const FailMarker: string := "Fail (0)"

  /** Column positions: qid, pass indicator, fail indicator, numeric score. */
  const QidCol: nat := 0
  const PassCol: nat := 3
  const FailCol: nat := 4
  const ScoreCol: nat := 5

  // ---------------------------------------------------------------------------
  // Row resolution
  // ---------------------------------------------------------------------------

  /** Text accepted by Python's `int()`: surrounding blanks, an optional sign,
      and at least one decimal digit. */
  predicate IsIntText(s: string) {
    var t := StripEnds(s, IsRegexSpace);
    var body := if |t| > 0 && (t[0] == '+' || t[0] == '-') then t[1..] else t;
    |body| > 0 && AllDigits(body)
  }

  /** Python `int(cell)` for a non-empty cell. */
  function PyInt(c: Cell): (r: Result<int, LoadError>)
    requires c != Empty
    ensures c.Num? ==> r == Success(c.num)
    ensures c.Text? ==> (r.Success? <==> IsIntText(c.text))
  {
    match c
    case Num(i) => Success(i)
    case Text(s) =>
      var t := StripEnds(s, IsRegexSpace);
      var neg := |t| > 0 && t[0] == '-';
      var body := if |t| > 0 && (t[0] == '+' || t[0] == '-') then t[1..] else t;
      if |body| > 0 && AllDigits(body) then
        Success(if neg then -(DigitsValue(body) as int) else DigitsValue(body) as int)
      else Failure(ValueError)
  }

  /** A row with a qid and an empty numeric cell: the indicators decide. */
  predicate IndicatorRow(row: Row) {
    |row| > ScoreCol && row[QidCol] != Empty && row[ScoreCol] == Empty
  }

  /** The score resolution of one data row (eval/agreement.py:15-27). */
  function ResolveRow(row: Row): (r: Result<Resolution, LoadError>)
    // an empty row, or one with no qid, is skipped whatever else it holds
    ensures |row| > QidCol && row[QidCol] == Empty ==> r == Success(Skip)
    // a score always belongs to the row's own, non-empty qid
    ensures r.Success? && r.value.Scored? ==> |row| > ScoreCol && row[QidCol] != Empty && r.value.qid == row[QidCol]
    // the numeric column, when filled, decides alone
    ensures |row| > ScoreCol && row[QidCol] != Empty && row[ScoreCol] != Empty ==>
              match PyInt(row[ScoreCol])
              case Success(v) => r == Success(Scored(row[QidCol], v))
              case Failure(e) => r == Failure(e)
    // otherwise an exact pass marker gives 1, whatever the fail cell holds
    ensures IndicatorRow(row) && row[PassCol] == Text(PassMarker) ==>
              r == Success(Scored(row[QidCol], 1))
    // the fail marker is read from its own cell and gives 0
    ensures IndicatorRow(row) && row[PassCol] != Text(PassMarker) && row[FailCol] == Text(FailMarker) ==>
              r == Success(Scored(row[QidCol], 0))
    // neither marker and no number: not evaluated, neither 0 nor 1
    ensures IndicatorRow(row) && row[PassCol] != Text(PassMarker) && row[FailCol] != Text(FailMarker) ==>
              r == Success(Skip)
    // reading a cell past the end of the row raises
    ensures |row| <= QidCol || (row[QidCol] != Empty && |row| <= ScoreCol) ==> r == Failure(IndexError)
  {
    if |row| <= QidCol then Failure(IndexError)
    else if row[QidCol] == Empty then Success(Skip)
    else if |row| <= ScoreCol then Failure(IndexError)
    else if row[ScoreCol] != Empty then
      match PyInt(row[ScoreCol])
      case Success(v) => Success(Scored(row[QidCol], v))
      case Failure(e) => Failure(e)
    else if row[PassCol] == Text(PassMarker) then Success(Scored(row[QidCol], 1))
    else if row[FailCol] == Text(FailMarker) then Success(Scored(row[QidCol], 0))
    else Success(Skip)
  }

  /** A filled numeric cell makes both indicator cells irrelevant. */
  lemma NumericScoreWins(row: Row, pass: Cell, fail: Cell)
    requires |row| > ScoreCol && row[ScoreCol] != Empty
    ensures ResolveRow(row[PassCol := pass][FailCol := fail]) == ResolveRow(row)
  {
  }

  /** With no number, an exact pass marker makes the fail cell irrelevant. */
  lemma PassMarkerWins(row: Row, fail: Cell)
    requires |row| > ScoreCol && row[ScoreCol] == Empty && row[PassCol] == Text(PassMarker)
    ensures ResolveRow(row[FailCol := fail]) == ResolveRow(row)
  {
  }

  /** Scores taken from the indicator cells are always 0 or 1. */
  lemma IndicatorScoresAreBinary(row: Row)
    requires |row| > ScoreCol && row[ScoreCol] == Empty
    requires ResolveRow(row).Success? && ResolveRow(row).value.Scored?
    ensures ResolveRow(row).value.score in {0, 1}
  {
  }

  // ---------------------------------------------------------------------------
  // Loading a workbook
  // ---------------------------------------------------------------------------

  predicate IsTeamSheet(s: Sheet) {
    StartsWith(s.name, TeamPrefix)
  }

  /** The rows after the header (`iter_rows(min_row=2)`). */
  function DataRows(s: Sheet): seq<Row> {
    if |s.rows| == 0 then [] else s.rows[1..]
  }

  /** `all_scores[team][qid]`, when both keys are present. */
  function GetScore(m: AnnotatorScores, team: string, qid: Cell): Option<int> {
    match Get(m, team)
    case None => None
    case Some(ts) => Get(ts, qid)
  }

  /** `all_scores.setdefault(team, {})[qid] = score`. */
  function SetScore(m: AnnotatorScores, team: string, qid: Cell, score: int): AnnotatorScores {
    Put(m, team, Put(Get(m, team).GetOr([]), qid, score))
  }

  /** Both levels of the nested map have unique keys. */
  predicate WellFormed(m: AnnotatorScores) {
    UniqueKeys(m) && forall i :: 0 <= i < |m| ==> UniqueKeys(m[i].1)
  }

  /** Scans the data rows of one team sheet into `acc`, stopping at the first
      row that raises. */
  function LoadRows(acc: AnnotatorScores, team: string, rows: seq<Row>): Result<AnnotatorScores, LoadError>
    decreases |rows|
  {
    if |rows| == 0 then Success(acc)
    else
      match ResolveRow(rows[0])
      case Failure(e) => Failure(e)
      case Success(Skip) => LoadRows(acc, team, rows[1..])
      case Success(Scored(q, s)) => LoadRows(SetScore(acc, team, q, s), team, rows[1..])
  }

  function LoadSheets(acc: AnnotatorScores, sheets: Workbook): Result<AnnotatorScores, LoadError>
    decreases |sheets|
  {
    if |sheets| == 0 then Success(acc)
    else if !IsTeamSheet(sheets[0]) then LoadSheets(acc, sheets[1..])
    else
      match LoadRows(acc, sheets[0].name, DataRows(sheets[0]))
      case Failure(e) => Failure(e)
      case Success(acc') => LoadSheets(acc', sheets[1..])
  }

  /** `load_scores(path)` on the workbook the reader returned. */
  function LoadScores(wb: Workbook): Result<AnnotatorScores, LoadError> {
    LoadSheets([], wb)
  }

  /** Reference definition of last-row-wins: the score of the last row of
      `rows` that evaluates `qid`, if any. */
  function LastScore(rows: seq<Row>, qid: Cell): Option<int>
    decreases |rows|
  {
    if |rows| == 0 then None
    else
      match LastScore(rows[1..], qid)
      case Some(s) => Some(s)
      case None =>
        match ResolveRow(rows[0])
        case Success(Scored(q, s)) => if q == qid then Some(s) else None
        case _ => None
  }

  /** Some row of `rows` is evaluated. */
  predicate AnyEvaluated(rows: seq<Row>) {
    exists i :: 0 <= i < |rows| && ResolveRow(rows[i]).Success? && ResolveRow(rows[i]).value.Scored?
  }

  lemma TeamScoresUnique(m: AnnotatorScores, team: string)
    requires WellFormed(m)
    requires Get(m, team).Some?
    ensures UniqueKeys(Get(m, team).value)
  {
    var i :| 0 <= i < |m| && m[i] == (team, Get(m, team).value);
  }

  lemma SetScoreWellFormed(m: AnnotatorScores, team: string, qid: Cell, score: int)
    requires WellFormed(m)
    ensures WellFormed(SetScore(m, team, qid, score))
  {
    var prev := Get(m, team).GetOr([]);
    if Get(m, team).Some? {
      TeamScoresUnique(m, team);
    }
    var inner := Put(prev, qid, score);
    PutKeys(prev, qid, score);
    var r := Put(m, team, inner);
    PutKeys(m, team, inner);
    forall i | 0 <= i < |r|
      ensures UniqueKeys(r[i].1)
    {
      PutEntry(m, team, inner, i);
    }
  }

  /** `setdefault(team, {})[qid] = score` changes exactly that one score. */
  lemma SetScoreReads(m: AnnotatorScores, team: string, qid: Cell, score: int, t: string, q: Cell)
    requires WellFormed(m)
    ensures GetScore(SetScore(m, team, qid, score), t, q) ==
              if t == team && q == qid then Some(score) else GetScore(m, t, q)
    ensures HasKey(SetScore(m, team, qid, score), t) <==> HasKey(m, t) || t == team
  {
    var prev := Get(m, team).GetOr([]);
    if Get(m, team).Some? {
      TeamScoresUnique(m, team);
    }
    var inner := Put(prev, qid, score);
    PutGetSame(m, team, inner);
    if t == team {
      if q == qid {
        PutGetSame(prev, qid, score);
      } else {
        PutGetOther(prev, qid, score, q);
      }
    } else {
      PutGetOther(m, team, inner, t);
    }
  }

  /** One sheet, against the reference: after the scan, `team`'s score for
      `q` is that of the last row evaluating `q` (what `acc` held when no row
      does), the team key exists exactly when it did before or some row was
      evaluated, and every other team is untouched. */
  lemma {:induction false} LoadRowsSpec(acc: AnnotatorScores, team: string, rows: seq<Row>, t: string, q: Cell)
    requires WellFormed(acc)
    requires LoadRows(acc, team, rows).Success?
    ensures WellFormed(LoadRows(acc, team, rows).value)
    ensures GetScore(LoadRows(acc, team, rows).value, t, q) ==
              if t == team then LastScore(rows, q).OrElse(GetScore(acc, t, q)) else GetScore(acc, t, q)
    ensures HasKey(LoadRows(acc, team, rows).value, t) <==>
              HasKey(acc, t) || (t == team && AnyEvaluated(rows))
    decreases |rows|
  {
    if |rows| > 0 {
      var rest := rows[1..];
      AnyEvaluatedCons(rows);
      match ResolveRow(rows[0])
      case Success(Skip) =>
        assert LoadRows(acc, team, rows) == LoadRows(acc, team, rest);
        assert LastScore(rows, q) == LastScore(rest, q);
        LoadRowsSpec(acc, team, rest, t, q);
      case Success(Scored(q0, s0)) =>
        var acc' := SetScore(acc, team, q0, s0);
        assert LoadRows(acc, team, rows) == LoadRows(acc', team, rest);
        assert LastScore(rows, q) ==
                 if LastScore(rest, q).Some? then LastScore(rest, q)
                 else if q0 == q then Some(s0) else None;
        SetScoreWellFormed(acc, team, q0, s0);
        SetScoreReads(acc, team, q0, s0, t, q);
        LoadRowsSpec(acc', team, rest, t, q);
    } else {
      assert !AnyEvaluated(rows);
    }
  }

  /** Some row is evaluated exactly when the first is or a later one is. */
  lemma AnyEvaluatedCons(rows: seq<Row>)
    requires |rows| > 0
    ensures AnyEvaluated(rows) <==>
              AnyEvaluated(rows[1..]) || (ResolveRow(rows[0]).Success? && ResolveRow(rows[0]).value.Scored?)
  {
    var rest := rows[1..];
    if AnyEvaluated(rest) {
      var i :| 0 <= i < |rest| && ResolveRow(rest[i]).Success? && ResolveRow(rest[i]).value.Scored?;
      assert rows[i + 1] == rest[i];
    }
    if AnyEvaluated(rows) {
      var i :| 0 <= i < |rows| && ResolveRow(rows[i]).Success? && ResolveRow(rows[i]).value.Scored?;
      if i > 0 {
        assert rest[i - 1] == rows[i];
      }
    }
  }

  /** Two sheets that agree on their name and data rows load the same way. */
  predicate SameData(a: Sheet, b: Sheet) {
    a.name == b.name && DataRows(a) == DataRows(b)
  }

  /** The header row is never read: rewriting it changes nothing. */
  lemma {:induction false} HeaderIgnored(acc: AnnotatorScores, wb: Workbook, wb': Workbook)
    requires |wb| == |wb'|
    requires forall i :: 0 <= i < |wb| ==> SameData(wb[i], wb'[i])
    ensures LoadSheets(acc, wb) == LoadSheets(acc, wb')
    decreases |wb|
  {
    if |wb| > 0 {
      assert SameData(wb[0], wb'[0]);
      if !IsTeamSheet(wb[0]) {
        HeaderIgnored(acc, wb[1..], wb'[1..]);
      } else {
        match LoadRows(acc, wb[0].name, DataRows(wb[0]))
        case Failure(e) =>
        case Success(acc') =>
          HeaderIgnored(acc', wb[1..], wb'[1..]);
      }
    }
  }

  function TeamSheets(wb: Workbook): (r: Workbook)
    ensures forall i :: 0 <= i < |r| ==> IsTeamSheet(r[i])
    ensures |r| <= |wb|
  {
    if |wb| == 0 then []
    else if IsTeamSheet(wb[0]) then [wb[0]] + TeamSheets(wb[1..])
    else TeamSheets(wb[1..])
  }

  /** Sheets whose name does not start with "Team" contribute nothing. */
  lemma {:induction false} OnlyTeamSheetsCount(acc: AnnotatorScores, wb: Workbook)
    ensures LoadSheets(acc, wb) == LoadSheets(acc, TeamSheets(wb))
    decreases |wb|
  {
    if |wb| > 0 {
      if IsTeamSheet(wb[0]) {
        assert TeamSheets(wb)[0] == wb[0] && TeamSheets(wb)[1..] == TeamSheets(wb[1..]);
        match LoadRows(acc, wb[0].name, DataRows(wb[0]))
        case Failure(e) =>
        case Success(acc') =>
          OnlyTeamSheetsCount(acc', wb[1..]);
      } else {
        OnlyTeamSheetsCount(acc, wb[1..]);
      }
    }
  }

  /** The data rows of the team sheet named `t`, if there is one. */
  function TeamRows(wb: Workbook, t: string): (r: Option<seq<Row>>)
    ensures r.None? <==> forall i :: 0 <= i < |wb| ==> wb[i].name != t || !IsTeamSheet(wb[i])
    decreases |wb|
  {
    if |wb| == 0 then None
    else if wb[0].name == t && IsTeamSheet(wb[0]) then Some(DataRows(wb[0]))
    else
      var r := TeamRows(wb[1..], t);
      assert r.None? <==> forall i :: 0 <= i < |wb| ==> wb[i].name != t || !IsTeamSheet(wb[i]) by {
        if r.None? {
          forall i | 1 <= i < |wb|
            ensures wb[i].name != t || !IsTeamSheet(wb[i])
          {
            assert wb[1..][i - 1] == wb[i];
          }
        } else {
          var i :| 0 <= i < |wb[1..]| && wb[1..][i].name == t && IsTeamSheet(wb[1..][i]);
          assert wb[i + 1] == wb[1..][i];
        }
      }
      r
  }

  /** Excel keeps sheet names distinct. */
  predicate DistinctNames(wb: Workbook) {
    forall i, j :: 0 <= i < j < |wb| ==> wb[i].name != wb[j].name
  }

  lemma {:induction false} LoadSheetsSpec(acc: AnnotatorScores, wb: Workbook, t: string, q: Cell)
    requires WellFormed(acc)
    requires DistinctNames(wb)
    requires forall i :: 0 <= i < |wb| ==> !HasKey(acc, wb[i].name)
    requires LoadSheets(acc, wb).Success?
    ensures WellFormed(LoadSheets(acc, wb).value)
    ensures GetScore(LoadSheets(acc, wb).value, t, q) ==
              match TeamRows(wb, t) case Some(rows) => LastScore(rows, q) case None => GetScore(acc, t, q)
    ensures HasKey(LoadSheets(acc, wb).value, t) <==>
              HasKey(acc, t) || (TeamRows(wb, t).Some? && AnyEvaluated(TeamRows(wb, t).value))
    decreases |wb|
  {
    if |wb| > 0 {
      var rest := wb[1..];
      assert DistinctNames(rest);
      assert forall i :: 0 <= i < |rest| ==> rest[i] == wb[i + 1];
      if !IsTeamSheet(wb[0]) {
        LoadSheetsSpec(acc, rest, t, q);
      } else {
        var rows0 := DataRows(wb[0]);
        var acc' := LoadRows(acc, wb[0].name, rows0).value;
        forall i | 0 <= i < |rest|
          ensures !HasKey(acc', rest[i].name)
        {
          LoadRowsSpec(acc, wb[0].name, rows0, rest[i].name, q);
        }
        LoadRowsSpec(acc, wb[0].name, rows0, t, q);
        LoadSheetsSpec(acc', rest, t, q);
        if wb[0].name == t {
          assert TeamRows(rest, t).None?;
          assert !HasKey(acc, t);
        }
      }
    }
  }

  /** `load_scores` against the reference: a team is loaded exactly when its
      team sheet has an evaluated data row, and its score for `q` is that of
      the sheet's last row evaluating `q` (eval/agreement.py:10-27). */
  lemma LoadScoresSpec(wb: Workbook, t: string, q: Cell)
    requires DistinctNames(wb)
    requires LoadScores(wb).Success?
    ensures WellFormed(LoadScores(wb).value)
    ensures GetScore(LoadScores(wb).value, t, q) ==
              match TeamRows(wb, t) case Some(rows) => LastScore(rows, q) case None => None
    ensures HasKey(LoadScores(wb).value, t) <==> TeamRows(wb, t).Some? && AnyEvaluated(TeamRows(wb, t).value)
  {
    LoadSheetsSpec([], wb, t, q);
  }

  // ---------------------------------------------------------------------------
  // Pairing and grouping
  // ---------------------------------------------------------------------------

  /** One (team, qid) cell both annotators scored, with the two scores. */
  datatype CommonCell = CommonCell(team: string, qid: Cell, s1: int, s2: int)

  /** The common cells of one team of `m1`, in `m1`'s qid order. */
  function TeamCommon(team: string, ts1: TeamScores, ts2: TeamScores): (r: seq<CommonCell>)
    ensures forall k :: 0 <= k < |r| ==> r[k].team == team
    decreases |ts1|
  {
    if |ts1| == 0 then []
    else
      var (q, s1) := ts1[0];
      var here := match Get(ts2, q) case Some(s2) => [CommonCell(team, q, s1, s2)] case None => [];
      here + TeamCommon(team, ts1[1..], ts2)
  }

  /** The loop that builds `common` (eval/agreement.py:36-42), keeping the
      team and qid beside each pair. */
  function CommonCells(m1: AnnotatorScores, m2: AnnotatorScores): seq<CommonCell>
    decreases |m1|
  {
    if |m1| == 0 then []
    else
      var here := match Get(m2, m1[0].0) case Some(ts2) => TeamCommon(m1[0].0, m1[0].1, ts2) case None => [];
      here + CommonCells(m1[1..], m2)
  }

  /** `common`: the score pairs alone. */
  function Common(m1: AnnotatorScores, m2: AnnotatorScores): (r: seq<(int, int)>)
    ensures |r| == |CommonCells(m1, m2)|
  {
    var cells := CommonCells(m1, m2);
    seq(|cells|, k requires 0 <= k < |cells| => (cells[k].s1, cells[k].s2))
  }

  predicate HasScore(m: AnnotatorScores, team: string, qid: Cell) {
    GetScore(m, team, qid).Some?
  }

  lemma {:induction false} TeamCommonSound(team: string, ts1: TeamScores, ts2: TeamScores, k: nat)
    requires UniqueKeys(ts1)
    requires k < |TeamCommon(team, ts1, ts2)|
    ensures Get(ts1, TeamCommon(team, ts1, ts2)[k].qid) == Some(TeamCommon(team, ts1, ts2)[k].s1)
    ensures Get(ts2, TeamCommon(team, ts1, ts2)[k].qid) == Some(TeamCommon(team, ts1, ts2)[k].s2)
    decreases |ts1|
  {
    var r := TeamCommon(team, ts1, ts2);
    var rest := ts1[1..];
    var tail := TeamCommon(team, rest, ts2);
    var h := |r| - |tail|;
    if k >= h {
      assert r[k] == tail[k - h];
      TeamCommonSound(team, rest, ts2, k - h);
      var j :| 0 <= j < |rest| && rest[j] == (r[k].qid, r[k].s1);
      assert ts1[j + 1] == rest[j];
    }
  }

  lemma {:induction false} TeamCommonComplete(team: string, ts1: TeamScores, ts2: TeamScores, q: Cell)
    requires Get(ts1, q).Some? && Get(ts2, q).Some?
    ensures exists k :: 0 <= k < |TeamCommon(team, ts1, ts2)| && TeamCommon(team, ts1, ts2)[k].qid == q
    decreases |ts1|
  {
    var r := TeamCommon(team, ts1, ts2);
    if ts1[0].0 == q {
      assert r[0].qid == q;
    } else {
      var tail := TeamCommon(team, ts1[1..], ts2);
      TeamCommonComplete(team, ts1[1..], ts2, q);
      var k :| 0 <= k < |tail| && tail[k].qid == q;
      assert r[|r| - |tail| + k] == tail[k];
    }
  }

  lemma {:induction false} TeamCommonDistinct(team: string, ts1: TeamScores, ts2: TeamScores, k1: nat, k2: nat)
    requires UniqueKeys(ts1)
    requires k1 < k2 < |TeamCommon(team, ts1, ts2)|
    ensures TeamCommon(team, ts1, ts2)[k1].qid != TeamCommon(team, ts1, ts2)[k2].qid
    decreases |ts1|
  {
    var r := TeamCommon(team, ts1, ts2);
    var rest := ts1[1..];
    var tail := TeamCommon(team, rest, ts2);
    var h := |r| - |tail|;
    assert r[k2] == tail[k2 - h];
    if k1 < h {
      assert r[k1].qid == ts1[0].0;
      TeamCommonSound(team, rest, ts2, k2 - h);
      var j :| 0 <= j < |rest| && rest[j] == (r[k2].qid, r[k2].s1);
      assert ts1[j + 1] == rest[j];
    } else {
      assert r[k1] == tail[k1 - h];
      TeamCommonDistinct(team, rest, ts2, k1 - h, k2 - h);
    }
  }

  lemma WellFormedTail(m: AnnotatorScores)
    requires WellFormed(m) && |m| > 0
    ensures WellFormed(m[1..])
    ensures !HasKey(m[1..], m[0].0)
  {
    assert forall i :: 0 <= i < |m[1..]| ==> m[1..][i] == m[i + 1];
  }

  /** Every pair of `common` is `(m1[t][q], m2[t][q])` for its cell (t, q). */
  lemma {:induction false} CommonSound(m1: AnnotatorScores, m2: AnnotatorScores, k: nat)
    requires WellFormed(m1) && WellFormed(m2)
    requires k < |CommonCells(m1, m2)|
    ensures GetScore(m1, CommonCells(m1, m2)[k].team, CommonCells(m1, m2)[k].qid) == Some(CommonCells(m1, m2)[k].s1)
    ensures GetScore(m2, CommonCells(m1, m2)[k].team, CommonCells(m1, m2)[k].qid) == Some(CommonCells(m1, m2)[k].s2)
    decreases |m1|
  {
    var r := CommonCells(m1, m2);
    var tail := CommonCells(m1[1..], m2);
    var h := |r| - |tail|;
    var t0 := m1[0].0;
    WellFormedTail(m1);
    if k >= h {
      assert r[k] == tail[k - h];
      CommonSound(m1[1..], m2, k - h);
      assert HasKey(m1[1..], r[k].team);
    } else {
      var ts2 := Get(m2, t0).value;
      TeamScoresUnique(m2, t0);
      assert r[k] == TeamCommon(t0, m1[0].1, ts2)[k];
      TeamCommonSound(t0, m1[0].1, ts2, k);
    }
  }

  /** Every (t, q) both annotators scored has a pair in `common`. */
  lemma {:induction false} CommonComplete(m1: AnnotatorScores, m2: AnnotatorScores, t: string, q: Cell)
    requires HasScore(m1, t, q) && HasScore(m2, t, q)
    ensures exists k :: 0 <= k < |CommonCells(m1, m2)| && CommonCells(m1, m2)[k].team == t
                          && CommonCells(m1, m2)[k].qid == q
    decreases |m1|
  {
    var r := CommonCells(m1, m2);
    if m1[0].0 == t {
      var ts2 := Get(m2, t).value;
      TeamCommonComplete(t, m1[0].1, ts2, q);
      var k :| 0 <= k < |TeamCommon(t, m1[0].1, ts2)| && TeamCommon(t, m1[0].1, ts2)[k].qid == q;
      assert r[k] == TeamCommon(t, m1[0].1, ts2)[k];
    } else {
      var tail := CommonCells(m1[1..], m2);
      CommonComplete(m1[1..], m2, t, q);
      var k :| 0 <= k < |tail| && tail[k].team == t && tail[k].qid == q;
      assert r[|r| - |tail| + k] == tail[k];
    }
  }

  /** No (t, q) appears twice in `common`. */
  lemma {:induction false} CommonDistinct(m1: AnnotatorScores, m2: AnnotatorScores, k1: nat, k2: nat)
    requires WellFormed(m1) && WellFormed(m2)
    requires k1 < k2 < |CommonCells(m1, m2)|
    ensures (CommonCells(m1, m2)[k1].team, CommonCells(m1, m2)[k1].qid)
              != (CommonCells(m1, m2)[k2].team, CommonCells(m1, m2)[k2].qid)
    decreases |m1|
  {
    var r := CommonCells(m1, m2);
    var tail := CommonCells(m1[1..], m2);
    var h := |r| - |tail|;
    var t0 := m1[0].0;
    WellFormedTail(m1);
    if k2 < h {
      var ts2 := Get(m2, t0).value;
      assert r[k1] == TeamCommon(t0, m1[0].1, ts2)[k1];
      assert r[k2] == TeamCommon(t0, m1[0].1, ts2)[k2];
      TeamCommonDistinct(t0, m1[0].1, ts2, k1, k2);
    } else if k1 < h {
      var ts2 := Get(m2, t0).value;
      assert r[k1] == TeamCommon(t0, m1[0].1, ts2)[k1];
      assert r[k2] == tail[k2 - h];
      CommonSound(m1[1..], m2, k2 - h);
      assert HasKey(m1[1..], r[k2].team);
    } else {
      assert r[k2] == tail[k2 - h];
      assert r[k1] == tail[k1 - h];
      CommonDistinct(m1[1..], m2, k1 - h, k2 - h);
    }
  }

  /** `common` is empty exactly when no (team, qid) is scored by both. */
  lemma CommonEmptyIffDisjoint(m1: AnnotatorScores, m2: AnnotatorScores)
    requires WellFormed(m1) && WellFormed(m2)
    ensures |Common(m1, m2)| == 0 <==> forall t, q :: !(HasScore(m1, t, q) && HasScore(m2, t, q))
  {
    if |Common(m1, m2)| > 0 {
      var c := CommonCells(m1, m2)[0];
      CommonSound(m1, m2, 0);
      assert HasScore(m1, c.team, c.qid) && HasScore(m2, c.team, c.qid);
    }
    forall t, q | HasScore(m1, t, q) && HasScore(m2, t, q)
      ensures |Common(m1, m2)| > 0
    {
      CommonComplete(m1, m2, t, q);
    }
  }

  /** The pairs of `cells` whose qid is `qid`, in order. */
  function PairsFor(cells: seq<CommonCell>, qid: Cell): seq<(int, int)>
    decreases |cells|
  {
    if |cells| == 0 then []
    else (if cells[0].qid == qid then [(cells[0].s1, cells[0].s2)] else []) + PairsFor(cells[1..], qid)
  }

  /** The `by_q` loop (eval/agreement.py:53-59), continuing from `acc`. */
  function GroupByQid(acc: OMap<Cell, seq<(int, int)>>, cells: seq<CommonCell>): OMap<Cell, seq<(int, int)>>
    decreases |cells|
  {
    if |cells| == 0 then acc
    else GroupByQid(AppendTo(acc, cells[0].qid, (cells[0].s1, cells[0].s2)), cells[1..])
  }

  /** `by_q`, built from the same (team, qid) iteration as `common`. */
  function ByQid(m1: AnnotatorScores, m2: AnnotatorScores): OMap<Cell, seq<(int, int)>> {
    GroupByQid([], CommonCells(m1, m2))
  }

  lemma SeqAssoc<T>(a: seq<T>, b: seq<T>, c: seq<T>)
    ensures (a + b) + c == a + (b + c)
  {
  }

  lemma {:induction false} GroupByQidUnique(acc: OMap<Cell, seq<(int, int)>>, cells: seq<CommonCell>)
    requires UniqueKeys(acc)
    ensures UniqueKeys(GroupByQid(acc, cells))
    decreases |cells|
  {
    if |cells| > 0 {
      var c := cells[0];
      AppendToIsPut(acc, c.qid, (c.s1, c.s2));
      PutKeys(acc, c.qid, Get(acc, c.qid).GetOr([]) + [(c.s1, c.s2)]);
      GroupByQidUnique(AppendTo(acc, c.qid, (c.s1, c.s2)), cells[1..]);
    }
  }

  /** The group lengths grow by exactly the number of cells. */
  lemma {:induction false} GroupByQidTotal(acc: OMap<Cell, seq<(int, int)>>, cells: seq<CommonCell>)
    ensures TotalLength(GroupByQid(acc, cells)) == TotalLength(acc) + |cells|
    decreases |cells|
  {
    if |cells| > 0 {
      var c := cells[0];
      var v := Get(acc, c.qid).GetOr([]) + [(c.s1, c.s2)];
      AppendToIsPut(acc, c.qid, (c.s1, c.s2));
      TotalLengthPut(acc, c.qid, v);
      GroupByQidTotal(AppendTo(acc, c.qid, (c.s1, c.s2)), cells[1..]);
    }
  }

  /** Each group is exactly its qid's pairs, in order, on top of what `acc`
      held. */
  lemma {:induction false} GroupByQidGet(acc: OMap<Cell, seq<(int, int)>>, cells: seq<CommonCell>, q: Cell)
    requires UniqueKeys(acc)
    ensures Get(GroupByQid(acc, cells), q).Some? <==> Get(acc, q).Some? || PairsFor(cells, q) != []
    ensures Get(GroupByQid(acc, cells), q).GetOr([]) == Get(acc, q).GetOr([]) + PairsFor(cells, q)
    decreases |cells|
  {
    if |cells| > 0 {
      var c := cells[0];
      var x := (c.s1, c.s2);
      var acc' := AppendTo(acc, c.qid, x);
      var v := Get(acc, c.qid).GetOr([]) + [x];
      AppendToIsPut(acc, c.qid, x);
      PutKeys(acc, c.qid, v);
      GroupByQidGet(acc', cells[1..], q);
      var rest := PairsFor(cells[1..], q);
      if q == c.qid {
        AppendToGet(acc, q, x, q);
        SeqAssoc(Get(acc, q).GetOr([]), [x], rest);
        assert PairsFor(cells, q) == [x] + rest;
      } else {
        PutGetOther(acc, c.qid, v, q);
        assert PairsFor(cells, q) == rest;
      }
    } else {
      assert Get(acc, q).GetOr([]) + [] == Get(acc, q).GetOr([]);
    }
  }

  /** The `by_q` groups partition `common`: group `q` holds exactly the pairs
      of the cells with qid `q`, in `common` order, there is a group exactly for
      the qids that occur, and the group lengths sum to `len(common)`
      (eval/agreement.py:53-59). */
  lemma ByQidPartitionsCommon(m1: AnnotatorScores, m2: AnnotatorScores, q: Cell)
    ensures UniqueKeys(ByQid(m1, m2))
    ensures Get(ByQid(m1, m2), q).Some? <==> PairsFor(CommonCells(m1, m2), q) != []
    ensures Get(ByQid(m1, m2), q).GetOr([]) == PairsFor(CommonCells(m1, m2), q)
    ensures TotalLength(ByQid(m1, m2)) == |Common(m1, m2)|
  {
    GroupByQidUnique([], CommonCells(m1, m2));
    GroupByQidGet([], CommonCells(m1, m2), q);
    GroupByQidTotal([], CommonCells(m1, m2));
    assert [] + PairsFor(CommonCells(m1, m2), q) == PairsFor(CommonCells(m1, m2), q);
  }

  /** The group at position `k` of `by_q` holds its qid's pairs. */
  lemma ByQidEntry(m1: AnnotatorScores, m2: AnnotatorScores, k: nat)
    requires k < |ByQid(m1, m2)|
    ensures ByQid(m1, m2)[k].1 == PairsFor(CommonCells(m1, m2), ByQid(m1, m2)[k].0)
  {
    var groups := ByQid(m1, m2);
    ByQidPartitionsCommon(m1, m2, groups[k].0);
    GetAt(groups, k);
  }

  // ---------------------------------------------------------------------------
  // The agreement report
  // ---------------------------------------------------------------------------

  /** What `main` computes: nothing when no cell is shared, otherwise the
      overall kappa and one kappa per qid group, in group order. */
  datatype AgreementReport =
    | NoOverlap
    | Kappas(overall: real, perQid: seq<(Cell, real)>)

  function Firsts(ps: seq<(int, int)>): (r: seq<int>)
    ensures |r| == |ps|
  {
    seq(|ps|, k requires 0 <= k < |ps| => ps[k].0)
  }

  function Seconds(ps: seq<(int, int)>): (r: seq<int>)
    ensures |r| == |ps|
  {
    seq(|ps|, k requires 0 <= k < |ps| => ps[k].1)
  }

  /** `main` on the two loaded maps (eval/agreement.py:36-63); `kappa` is
      `cohen_kappa_score`. */
  function Agreement(m1: AnnotatorScores, m2: AnnotatorScores, kappa: (seq<int>, seq<int>) -> real): (r: AgreementReport)
    requires WellFormed(m1) && WellFormed(m2)
    // no kappa is computed exactly when the annotators share no scored cell
    ensures r.NoOverlap? <==> forall t, q :: !(HasScore(m1, t, q) && HasScore(m2, t, q))
    // otherwise the overall kappa runs on all shared cells, first annotator first
    ensures r.Kappas? ==> r.overall == kappa(Firsts(Common(m1, m2)), Seconds(Common(m1, m2)))
    // and there is one per-qid kappa per group, over that group's pairs
    ensures r.Kappas? ==> |r.perQid| == |ByQid(m1, m2)|
    ensures r.Kappas? ==>
              forall k :: 0 <= k < |r.perQid| ==>
                && r.perQid[k].0 == ByQid(m1, m2)[k].0
                && r.perQid[k].1 == kappa(Firsts(PairsFor(CommonCells(m1, m2), r.perQid[k].0)),
                                          Seconds(PairsFor(CommonCells(m1, m2), r.perQid[k].0)))
  {
    CommonEmptyIffDisjoint(m1, m2);
    var common := Common(m1, m2);
    if |common| == 0 then
      NoOverlap
    else
      Kappas(kappa(Firsts(common), Seconds(common)), PerQid(m1, m2, kappa))
  }

  /** The per-qid kappas, one per group in first-seen qid order. */
  function PerQid(m1: AnnotatorScores, m2: AnnotatorScores, kappa: (seq<int>, seq<int>) -> real): (r: seq<(Cell, real)>)
    requires WellFormed(m1) && WellFormed(m2)
    ensures |r| == |ByQid(m1, m2)|
    ensures forall k :: 0 <= k < |r| ==>
              && r[k].0 == ByQid(m1, m2)[k].0
              && r[k].1 == kappa(Firsts(PairsFor(CommonCells(m1, m2), r[k].0)),
                                 Seconds(PairsFor(CommonCells(m1, m2), r[k].0)))
  {
    var groups := ByQid(m1, m2);
    assert forall k :: 0 <= k < |groups| ==> groups[k].1 == PairsFor(CommonCells(m1, m2), groups[k].0) by {
      forall k | 0 <= k < |groups| {
        ByQidEntry(m1, m2, k);
      }
    }
    seq(|groups|, k requires 0 <= k < |groups| =>
      (groups[k].0, kappa(Firsts(groups[k].1), Seconds(groups[k].1))))
  }
}
