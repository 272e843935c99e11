/**
 * The history file and the hourly cycle (`get_last_badge_numbers`,
 * `add_badge_numbers_to_csv` and the body of `send_status_message`). The
 * file is a list of rows that starts with the header; a cycle reads the last
 * row, compares it with the new sample and appends the sample when it is the
 * first one or when some count moved, producing the change message for the
 * channel when the channel is available.
 */
module History {
  import opened Options
  import opened Decimal
  import opened Registry
  import opened Fetcher
  import opened Diff
  import opened Formatter
  import Query

  /** `[0] * (len(BADGES) * 2 + 1)`, as text: only compared with "timestamp" and read by `int()`. */
  function Zeros(n: nat): (z: seq<string>)
    ensures |z| == n && forall k :: 0 <= k < n ==> z[k] == "0"
  {
    seq(n, _ => "0")
  }

  /**
   * `get_last_badge_numbers()`: the fields of the file's last line, or a row
   * of zeros when the file cannot be read (`file` is None) or has no line.
   * A line with no fields splits into one empty field.
   */
  function LastBadgeNumbers(reg: seq<Badge>, file: Option<seq<seq<string>>>): (r: seq<string>)
    ensures |r| > 0
    ensures file.Some? && file.value != [] && file.value[|file.value| - 1] != [] ==>
      r == file.value[|file.value| - 1]
    ensures file.Some? && file.value != [] && file.value[|file.value| - 1] == [] ==> r == [""]
    ensures file.None? || file.value == [] ==> r == Zeros(RowWidth(reg))
  {
    match file
    case None => Zeros(RowWidth(reg))
    case Some(rows) =>
      if rows == [] then Zeros(RowWidth(reg))
      else if rows[|rows| - 1] == [] then [""]
      else rows[|rows| - 1]
  }

  /** What one cycle does: whether it appends the sample, and the message it sends. */
  datatype Decision = Decision(append: bool, message: Option<string>)

  /** The last row is the header: the history holds no sample yet. */
  predicate HeaderOnly(last: seq<string>) { |last| > 0 && last[0] == "timestamp" }

  /** What the decision needs of its inputs, exactly where the source would raise. */
  predicate Decidable(reg: seq<Badge>, last: seq<string>, current: seq<string>, channelPresent: bool) {
    |last| > 0 &&
    (!HeaderOnly(last) ==>
      Comparable(last, current) &&
      (channelPresent && AnyChanged(Compare(last, current)) ==>
        Renderable(reg, Compare(last, current), current)))
  }

  /** The decision logic of `send_status_message`. */
  function Decide(reg: seq<Badge>, last: seq<string>, current: seq<string>, channelPresent: bool): (dec: Decision)
    requires Decidable(reg, last, current, channelPresent)
  {
    if HeaderOnly(last) then Decision(true, None)
    else
      var d := Compare(last, current);
      if AnyChanged(d) then
        Decision(true, if channelPresent then Some(UpdateMessage(reg, d, current)) else None)
      else Decision(false, None)
  }

  /**
   * The decision rule: the sample is stored when the history has no sample
   * yet or when some count moved; a message goes out only for a stored
   * sample that follows an earlier one, only to a present channel, and it
   * is the formatted change report.
   */
  lemma DecisionRule(reg: seq<Badge>, last: seq<string>, current: seq<string>, channelPresent: bool)
    requires Decidable(reg, last, current, channelPresent)
    ensures var dec := Decide(reg, last, current, channelPresent);
      (dec.append <==> HeaderOnly(last) || AnyChanged(Compare(last, current))) &&
      (dec.message.Some? <==> dec.append && !HeaderOnly(last) && channelPresent) &&
      (dec.message.Some? ==> dec.message.value == UpdateMessage(reg, Compare(last, current), current))
  {
  }

  /** A first sample is always stored silently, whatever counts it holds. */
  lemma FirstSampleIsStoredSilently(reg: seq<Badge>, current: seq<string>, channelPresent: bool)
    ensures Decidable(reg, ColumnNames(reg), current, channelPresent)
    ensures Decide(reg, ColumnNames(reg), current, channelPresent) == Decision(true, None)
  {
  }

  /** Sampling the same counts again stores nothing and sends nothing. */
  lemma RepeatedSampleIsNoOp(reg: seq<Badge>, last: seq<string>, current: seq<string>, channelPresent: bool)
    requires WellFormedRow(reg, last) && WellFormedRow(reg, current)
    requires last[0] != "timestamp" && last[1..] == current[1..]
    ensures Decidable(reg, last, current, channelPresent)
    ensures Decide(reg, last, current, channelPresent) == Decision(false, None)
  {
    SameCountsNoChange(last, current);
  }

  /**
   * A file whose last line is blank stops all later recording: the blank
   * line splits into one empty field, which is not the header, and shares no
   * counter column with any sample, so nothing ever differs.
   */
  lemma BlankLastLineStopsRecording(reg: seq<Badge>, rows: seq<seq<string>>, current: seq<string>, channelPresent: bool)
    requires rows != [] && rows[|rows| - 1] == []
    ensures LastBadgeNumbers(reg, Some(rows)) == [""]
    ensures Decidable(reg, [""], current, channelPresent)
    ensures Decide(reg, [""], current, channelPresent) == Decision(false, None)
  {
    assert Compare([""], current) == [];
  }

  /** The append-only history file. */
  class HistoryStore {
    const reg: seq<Badge>
    var rows: seq<seq<string>>

    /** The header comes first; every later row is a well-formed sample. */
    ghost predicate Valid()
      reads this
    {
      DistinctNames(reg) &&
      |rows| > 0 && rows[0] == ColumnNames(reg) &&
      forall k :: 1 <= k < |rows| ==> WellFormedRow(reg, rows[k])
    }

    /** A new history file holding only the header. */
    constructor (reg: seq<Badge>)
      requires DistinctNames(reg)
      ensures Valid() && this.reg == reg && rows == [ColumnNames(reg)]
    {
      this.reg := reg;
      rows := [ColumnNames(reg)];
    }

    /** The last row as `get_last_badge_numbers()` sees it; `readOk` is false when reading fails. */
    function Last(readOk: bool): (r: seq<string>)
      reads this
      requires Valid()
    {
      LastBadgeNumbers(reg, if readOk then Some(rows) else None)
    }

    /** `add_badge_numbers_to_csv(new_entry)`: the row goes at the end, nothing else changes. */
    method Append(entry: seq<string>)
      requires Valid() && WellFormedRow(reg, entry)
      modifies this
      ensures Valid()
      ensures rows == old(rows) + [entry]
    {
      rows := rows + [entry];
    }

    /**
     * One run of `send_status_message` after sampling `current`. `readOk` is
     * false when the file cannot be read, `channelPresent` says whether the
     * channel was found; the result is the message sent, if any.
     */
    method Cycle(current: seq<string>, readOk: bool, channelPresent: bool) returns (msg: Option<string>)
      requires Valid() && WellFormedRow(reg, current)
      modifies this
      ensures Valid()
      ensures var dec := Decide(reg, old(Last(readOk)), current, channelPresent);
        rows == (if dec.append then old(rows) + [current] else old(rows)) && msg == dec.message
    {
      var last := LastBadgeNumbers(reg, if readOk then Some(rows) else None);
      LastIsDecidable(readOk, current, channelPresent);
      if last[0] == "timestamp" {
        Append(current);
        msg := None;
      } else {
        var differences := Compare(last, current);
        if exists k :: 0 <= k < |differences| && differences[k] != 0 {
          Append(current);
          if channelPresent {
            var message := GenerateUpdateMessage(reg, differences, current);
            msg := Some(message);
          } else {
            msg := None;
          }
        } else {
          msg := None;
        }
      }
    }

    /** Whatever the store's last row, a sample of the registry's shape can be decided on. */
    lemma LastIsDecidable(readOk: bool, current: seq<string>, channelPresent: bool)
      requires Valid() && WellFormedRow(reg, current)
      ensures Decidable(reg, Last(readOk), current, channelPresent)
    {
      var last := Last(readOk);
      if !HeaderOnly(last) {
        if readOk && |rows| > 1 {
          assert last == rows[|rows| - 1];
        } else {
          assert readOk ==> rows == [ColumnNames(reg)];
          assert last == Zeros(RowWidth(reg));
          assert AllDigits("0");
        }
        var d := Compare(last, current);
        assert |d| >= 2 * |reg|;
      }
    }

    /**
     * One hourly run of `send_status_message`: read the last row, sample
     * every group through the scraper at `timestamp`, then decide. `current`
     * is the sample taken and `calls` the ids the scraper was asked for.
     */
    method Tick(timestamp: string, fetch: string -> Option<string>, readOk: bool, channelPresent: bool)
      returns (msg: Option<string>, current: seq<string>, calls: seq<string>)
      requires Valid() && DecimalFetcher(fetch)
      modifies this
      ensures Valid()
      ensures WellFormedRow(reg, current) && current[0] == timestamp
      ensures forall i :: 0 <= i < |reg| ==>
        current[2 * i + 1] == FetchBadgeNumber(fetch, reg[i].pathId) &&
        current[2 * i + 2] == FetchBadgeNumber(fetch, reg[i].examId)
      ensures calls == Queries(reg)
      ensures Decidable(reg, old(Last(readOk)), current, channelPresent)
      ensures var dec := Decide(reg, old(Last(readOk)), current, channelPresent);
        rows == (if dec.append then old(rows) + [current] else old(rows)) && msg == dec.message
    {
      current, calls := FetchCurrent(reg, timestamp, fetch);
      LastIsDecidable(readOk, current, channelPresent);
      msg := Cycle(current, readOk, channelPresent);
    }

    /** The `last_batch` command's data: `get_last_update_times()` over the stored rows. */
    method LastUpdateTimes() returns (m: map<string, Query.Entry>)
      requires Valid()
      ensures forall key :: key in m ==> key in Query.ExamNames(reg)
      ensures forall i :: 0 <= i < |reg| ==> (reg[i].name in m <==> Present(reg[i].examId))
      ensures forall i :: 0 <= i < |reg| && Present(reg[i].examId) ==>
        exists k: nat :: (Query.IsFinalRunStart(rows, Query.ExamColumn(i), k) &&
          m[reg[i].name] == (rows[k][0], rows[|rows| - 1][Query.ExamColumn(i)]))
    {
      StoredRowsScannable();
      m := Query.GetLastUpdateTimes(reg, rows);
      Query.CompleteScan(reg, rows);
      Query.UpdateTimesPerGroup(reg, rows);
      forall i | 0 <= i < |reg|
        ensures reg[i].name in m <==> Present(reg[i].examId)
        ensures Present(reg[i].examId) ==>
          exists k: nat :: (Query.IsFinalRunStart(rows, Query.ExamColumn(i), k) &&
            m[reg[i].name] == (rows[k][0], rows[|rows| - 1][Query.ExamColumn(i)]))
      {
        Query.LastUpdateTimesAreFinalRunStarts(reg, rows, i);
      }
    }

    lemma StoredRowsScannable()
      requires Valid()
      ensures Query.ExamColumnsPresent(reg, rows)
    {
      forall j | 0 <= j < |rows| ensures |rows[j]| == RowWidth(reg) {
        if j > 0 { assert WellFormedRow(reg, rows[j]); }
      }
    }
  }
}
