/**
 * The last-batch query (`get_last_update_times`): scanning every row of the
 * history, header included, it keeps for each group with an exam id the
 * timestamp and exam text of the latest row whose exam text differs from the
 * one it has recorded so far.
 */
module Query {
  import opened Options
  import opened Registry

  type Entry = (string, string)

  /** The exam column of group `i`. */
  function ExamColumn(i: nat): nat { 2 * i + 2 }

  /** Every row has a timestamp and the exam column of every group that has an exam id. */
  predicate ExamColumnsPresent(reg: seq<Badge>, rows: seq<seq<string>>) {
    (forall j :: 0 <= j < |rows| ==> |rows[j]| > 0) &&
    (forall j, i :: 0 <= j < |rows| && 0 <= i < |reg| && Present(reg[i].examId) ==>
      ExamColumn(i) < |rows[j]|)
  }

  /** The recorded entry after seeing `row`: replaced when absent or when the exam text differs. */
  function Record(m: map<string, Entry>, name: string, row: seq<string>, col: nat): Entry
    requires col < |row|
  {
    if name !in m || m[name].1 != row[col] then (row[0], row[col]) else m[name]
  }

  /** The inner loop over the first `n` groups for one row. */
  function ScanRow(reg: seq<Badge>, m: map<string, Entry>, row: seq<string>, n: nat): map<string, Entry>
    requires n <= |reg|
    requires forall i :: 0 <= i < n && Present(reg[i].examId) ==> ExamColumn(i) < |row|
    decreases n
  {
    if n == 0 then m
    else
      var m' := ScanRow(reg, m, row, n - 1);
      var b := reg[n - 1];
      if Present(b.examId) then m'[b.name := Record(m', b.name, row, ExamColumn(n - 1))] else m'
  }

  /** The dictionary after scanning `rows` from the first. */
  function UpdateTimes(reg: seq<Badge>, rows: seq<seq<string>>): map<string, Entry>
    requires ExamColumnsPresent(reg, rows)
    decreases |rows|
  {
    if rows == [] then map[]
    else
      var pre := rows[..|rows| - 1];
      assert ExamColumnsPresent(reg, pre) by {
        forall j | 0 <= j < |pre| ensures pre[j] == rows[j] { }
      }
      ScanRow(reg, UpdateTimes(reg, pre), rows[|rows| - 1], |reg|)
  }

  /**
   * The first group from `i` on whose exam column `row` lacks, or `|reg|`:
   * where `row[2 * i + 2]` raises IndexError.
   */
  function FirstShort(reg: seq<Badge>, row: seq<string>, i: nat): (g: nat)
    requires i <= |reg|
    ensures i <= g <= |reg|
    ensures forall k :: i <= k < g && Present(reg[k].examId) ==> ExamColumn(k) < |row|
    ensures g < |reg| ==> Present(reg[g].examId) && ExamColumn(g) >= |row|
    decreases |reg| - i
  {
    if i == |reg| then i
    else if Present(reg[i].examId) && ExamColumn(i) >= |row| then i
    else FirstShort(reg, row, i + 1)
  }

  /** The dictionary so far, and whether the scan got through without an IndexError. */
  datatype Scan = Scan(times: map<string, Entry>, complete: bool)

  /**
   * One row as the loop body sees it: a blank row fails at `row[0]`, a short
   * row fails at the first missing exam column after recording the groups
   * before it.
   */
  function ScanRowChecked(reg: seq<Badge>, m: map<string, Entry>, row: seq<string>): Scan {
    if row == [] then Scan(m, false)
    else
      var g := FirstShort(reg, row, 0);
      Scan(ScanRow(reg, m, row, g), g == |reg|)
  }

  /**
   * `get_last_update_times()`: the rows in order until one raises; the
   * exception handler then returns the dictionary as it stands.
   */
  function Times(reg: seq<Badge>, rows: seq<seq<string>>): Scan
    decreases |rows|
  {
    if rows == [] then Scan(map[], true)
    else
      var s := Times(reg, rows[..|rows| - 1]);
      if !s.complete then s else ScanRowChecked(reg, s.times, rows[|rows| - 1])
  }

  /** `get_last_update_times()` over the rows of the history file. */
  method GetLastUpdateTimes(reg: seq<Badge>, rows: seq<seq<string>>) returns (m: map<string, Entry>)
    ensures m == Times(reg, rows).times
  {
    m := map[];
    for j := 0 to |rows|
      invariant Times(reg, rows[..j]) == Scan(m, true)
    {
      assert rows[..j + 1][..j] == rows[..j];
      var row := rows[j];
      if row == [] {
        RowsAfterFailureIgnored(reg, rows, j + 1);
        return;
      }
      var timestamp := row[0];
      ghost var before := m;
      for i := 0 to |reg|
        invariant forall k :: 0 <= k < i && Present(reg[k].examId) ==> ExamColumn(k) < |row|
        invariant m == ScanRow(reg, before, row, i)
      {
        var b := reg[i];
        if Present(b.examId) {
          if ExamColumn(i) >= |row| {
            assert FirstShort(reg, row, 0) == i;
            RowsAfterFailureIgnored(reg, rows, j + 1);
            return;
          }
          var examNum := row[ExamColumn(i)];
          if b.name !in m || m[b.name].1 != examNum {
            m := m[b.name := (timestamp, examNum)];
          }
        }
      }
      assert FirstShort(reg, row, 0) == |reg|;
    }
    assert rows[..|rows|] == rows;
  }

  /** Once a row raises, the rows after it are never read. */
  lemma {:induction false} RowsAfterFailureIgnored(reg: seq<Badge>, rows: seq<seq<string>>, n: nat)
    requires n <= |rows| && !Times(reg, rows[..n]).complete
    ensures Times(reg, rows) == Times(reg, rows[..n])
    decreases |rows| - n
  {
    if n < |rows| {
      assert rows[..n + 1][..n] == rows[..n];
      RowsAfterFailureIgnored(reg, rows, n + 1);
    } else {
      assert rows[..n] == rows;
    }
  }

  /** On a history whose rows all reach their exam columns, the scan completes with `UpdateTimes`. */
  lemma {:induction false} CompleteScan(reg: seq<Badge>, rows: seq<seq<string>>)
    requires ExamColumnsPresent(reg, rows)
    ensures Times(reg, rows) == Scan(UpdateTimes(reg, rows), true)
    decreases |rows|
  {
    if rows != [] {
      var pre := rows[..|rows| - 1];
      assert ExamColumnsPresent(reg, pre) by {
        forall j | 0 <= j < |pre| ensures pre[j] == rows[j] { }
      }
      CompleteScan(reg, pre);
      var row := rows[|rows| - 1];
      assert row != [];
      assert FirstShort(reg, row, 0) == |reg|;
    }
  }

  /** A blank line at the end of the file changes nothing: it only stops the scan. */
  lemma BlankLastLineIgnored(reg: seq<Badge>, rows: seq<seq<string>>)
    requires ExamColumnsPresent(reg, rows)
    ensures Times(reg, rows + [[]]) == Scan(UpdateTimes(reg, rows), false)
  {
    CompleteScan(reg, rows);
    assert (rows + [[]])[..|rows|] == rows;
  }

  // ---------------------------------------------------------------------------
  // What the scan computes, column by column.

  /** The entry one exam column ends with, scanning `rows` from the first. */
  function LastChange(rows: seq<seq<string>>, col: nat): Option<Entry>
    requires forall j :: 0 <= j < |rows| ==> col < |rows[j]|
    decreases |rows|
  {
    if rows == [] then None
    else
      var row := rows[|rows| - 1];
      var prev := LastChange(rows[..|rows| - 1], col);
      if prev.None? || prev.value.1 != row[col] then Some((row[0], row[col])) else prev
  }

  /** `k` starts the final run of rows that all show the last row's exam text. */
  predicate IsFinalRunStart(rows: seq<seq<string>>, col: nat, k: nat)
    requires forall j :: 0 <= j < |rows| ==> col < |rows[j]|
  {
    k < |rows| &&
    (forall j :: k <= j < |rows| ==> rows[j][col] == rows[|rows| - 1][col]) &&
    (k > 0 ==> rows[k - 1][col] != rows[|rows| - 1][col])
  }

  /**
   * The recorded entry is the last row's exam text, stamped with the time of
   * the first row of the final run of equal exam texts: the last time the
   * value changed, not the last row.
   */
  lemma {:induction false} LastChangeIsFinalRunStart(rows: seq<seq<string>>, col: nat)
    requires |rows| > 0
    requires forall j :: 0 <= j < |rows| ==> col < |rows[j]|
    ensures exists k: nat :: (IsFinalRunStart(rows, col, k) &&
      LastChange(rows, col) == Some((rows[k][0], rows[|rows| - 1][col])))
    decreases |rows|
  {
    var n := |rows| - 1;
    var pre := rows[..n];
    if n == 0 {
      assert pre == [];
      assert LastChange(rows, col) == Some((rows[0][0], rows[0][col]));
      assert IsFinalRunStart(rows, col, 0);
    } else {
      LastChangeIsFinalRunStart(pre, col);
      var k': nat :| IsFinalRunStart(pre, col, k') &&
        LastChange(pre, col) == Some((pre[k'][0], pre[n - 1][col]));
      if pre[n - 1][col] != rows[n][col] {
        assert IsFinalRunStart(rows, col, n);
      } else {
        forall j | k' <= j < |rows| ensures rows[j][col] == rows[n][col] {
          if j < n { assert rows[j] == pre[j]; }
        }
        assert k' > 0 ==> rows[k' - 1] == pre[k' - 1];
        assert IsFinalRunStart(rows, col, k');
      }
    }
  }

  /** What one row's scan does to each key: exam groups are updated, other keys are kept. */
  lemma {:induction false} ScanRowEffect(reg: seq<Badge>, m: map<string, Entry>, row: seq<string>, n: nat)
    requires DistinctNames(reg) && n <= |reg|
    requires forall i :: 0 <= i < n && Present(reg[i].examId) ==> ExamColumn(i) < |row|
    ensures forall i :: 0 <= i < n && Present(reg[i].examId) ==>
      reg[i].name in ScanRow(reg, m, row, n) &&
      ScanRow(reg, m, row, n)[reg[i].name] == Record(m, reg[i].name, row, ExamColumn(i))
    ensures forall key :: key !in ExamNames(reg[..n]) ==>
      (key in ScanRow(reg, m, row, n) <==> key in m) &&
      (key in m ==> ScanRow(reg, m, row, n)[key] == m[key])
    decreases n
  {
    if n > 0 {
      ScanRowEffect(reg, m, row, n - 1);
      ExamNamesGrow(reg, n);
      forall i | 0 <= i < n - 1 && Present(reg[i].examId)
        ensures reg[i].name != reg[n - 1].name
      {
      }
    }
  }

  /** Adding group `n - 1` adds its name exactly when it has an exam id, and the name is new. */
  lemma ExamNamesGrow(reg: seq<Badge>, n: nat)
    requires DistinctNames(reg) && 0 < n <= |reg|
    ensures ExamNames(reg[..n]) == ExamNames(reg[..n - 1]) + (if Present(reg[n - 1].examId) then {reg[n - 1].name} else {})
    ensures reg[n - 1].name !in ExamNames(reg[..n - 1])
  {
    var b := reg[n - 1];
    var pre := reg[..n - 1];
    assert forall i :: 0 <= i < n - 1 ==> reg[..n][i] == pre[i];
    assert reg[..n][n - 1] == b;
    assert forall i :: 0 <= i < |pre| ==> pre[i].name != b.name;
  }

  /** The names of the groups that have an exam id. */
  function ExamNames(reg: seq<Badge>): set<string> {
    set i | 0 <= i < |reg| && Present(reg[i].examId) :: reg[i].name
  }

  /**
   * Per group: the query has an entry exactly for the groups with an exam id
   * (once there is a row), and that entry is the column's last change.
   */
  lemma {:induction false} UpdateTimesPerGroup(reg: seq<Badge>, rows: seq<seq<string>>)
    requires DistinctNames(reg) && ExamColumnsPresent(reg, rows)
    ensures forall key :: key in UpdateTimes(reg, rows) ==> key in ExamNames(reg)
    ensures forall i :: 0 <= i < |reg| && Present(reg[i].examId) ==>
      (forall j :: 0 <= j < |rows| ==> ExamColumn(i) < |rows[j]|) &&
      (reg[i].name in UpdateTimes(reg, rows) <==> rows != []) &&
      (rows != [] ==> Some(UpdateTimes(reg, rows)[reg[i].name]) == LastChange(rows, ExamColumn(i)))
    decreases |rows|
  {
    if rows != [] {
      var n := |rows| - 1;
      var pre := rows[..n];
      assert ExamColumnsPresent(reg, pre) by {
        forall j | 0 <= j < |pre| ensures pre[j] == rows[j] { }
      }
      UpdateTimesPerGroup(reg, pre);
      var m := UpdateTimes(reg, pre);
      ScanRowEffect(reg, m, rows[n], |reg|);
      assert reg[..|reg|] == reg;
      forall i | 0 <= i < |reg| && Present(reg[i].examId)
        ensures Some(UpdateTimes(reg, rows)[reg[i].name]) == LastChange(rows, ExamColumn(i))
      {
        assert rows[..n] == pre;
      }
    }
  }

  /**
   * The whole query against its reference: entries exactly for the groups
   * with an exam id, each holding the last row's exam text and the timestamp
   * at which the final run of that text began.
   */
  lemma LastUpdateTimesAreFinalRunStarts(reg: seq<Badge>, rows: seq<seq<string>>, i: nat)
    requires DistinctNames(reg) && ExamColumnsPresent(reg, rows)
    requires rows != [] && i < |reg|
    ensures reg[i].name in UpdateTimes(reg, rows) <==> Present(reg[i].examId)
    ensures Present(reg[i].examId) ==> exists k: nat :: (IsFinalRunStart(rows, ExamColumn(i), k) &&
      UpdateTimes(reg, rows)[reg[i].name] == (rows[k][0], rows[|rows| - 1][ExamColumn(i)]))
  {
    UpdateTimesPerGroup(reg, rows);
    if Present(reg[i].examId) {
      LastChangeIsFinalRunStart(rows, ExamColumn(i));
    } else {
      assert forall j :: 0 <= j < |reg| && Present(reg[j].examId) ==> reg[j].name != reg[i].name;
      assert reg[i].name !in ExamNames(reg);
    }
  }

  /** Exam counts 10, 10, 15 at t1, t2, t3 report (t3, "15"). */
  lemma ChangeAtThirdSample()
    ensures LastChange([["t1", "0", "10"], ["t2", "0", "10"], ["t3", "0", "15"]], 2) == Some(("t3", "15"))
  {
    var rows := [["t1", "0", "10"], ["t2", "0", "10"], ["t3", "0", "15"]];
    assert rows[..2] == [["t1", "0", "10"], ["t2", "0", "10"]];
    assert rows[..2][..1] == [["t1", "0", "10"]];
    assert rows[..2][..1][..0] == [];
  }

  /** A repeated count keeps the time it first appeared: 10, 10 at t1, t2 report (t1, "10"). */
  lemma UnchangedKeepsFirstTime()
    ensures LastChange([["t1", "0", "10"], ["t2", "0", "10"]], 2) == Some(("t1", "10"))
  {
    var rows := [["t1", "0", "10"], ["t2", "0", "10"]];
    assert rows[..1] == [["t1", "0", "10"]];
    assert rows[..1][..0] == [];
  }

  /** The query at one exam group, from `UpdateTimesPerGroup`. */
  lemma UpdateTimesAt(reg: seq<Badge>, rows: seq<seq<string>>, i: nat)
    requires DistinctNames(reg) && ExamColumnsPresent(reg, rows)
    requires rows != [] && i < |reg| && Present(reg[i].examId)
    ensures forall j :: 0 <= j < |rows| ==> ExamColumn(i) < |rows[j]|
    ensures reg[i].name in UpdateTimes(reg, rows)
    ensures Some(UpdateTimes(reg, rows)[reg[i].name]) == LastChange(rows, ExamColumn(i))
  {
    UpdateTimesPerGroup(reg, rows);
  }

  lemma HeaderHasExamColumns(reg: seq<Badge>)
    ensures ExamColumnsPresent(reg, [ColumnNames(reg)])
  {
    var h := ColumnNames(reg);
    var rows := [h];
    forall j, k | 0 <= j < |rows| && 0 <= k < |reg| && Present(reg[k].examId)
      ensures ExamColumn(k) < |rows[j]|
    {
      assert rows[j] == h;
    }
  }

  /** On a header-only history each exam group reports ("timestamp", "<NAME>-Exam"). */
  lemma HeaderOnlyHistory(reg: seq<Badge>, i: nat)
    requires DistinctNames(reg) && i < |reg| && Present(reg[i].examId)
    ensures ExamColumnsPresent(reg, [ColumnNames(reg)])
    ensures reg[i].name in UpdateTimes(reg, [ColumnNames(reg)])
    ensures UpdateTimes(reg, [ColumnNames(reg)])[reg[i].name] == ("timestamp", reg[i].name + "-Exam")
  {
    var h := ColumnNames(reg);
    var rows := [h];
    HeaderHasExamColumns(reg);
    UpdateTimesAt(reg, rows, i);
    assert rows[..0] == [];
    assert LastChange(rows, ExamColumn(i)) == Some((h[0], h[2 * i + 2]));
  }
}
