/**
 * The change notification (`generate_update_message`): for each group with a
 * tracked id, a heading, then the EXAM line, then the PATH line, each with a
 * `**(+d)**` annotation when its difference is non-zero; the message ends
 * with the sample's timestamp.
 */
module Formatter {
  import opened Decimal
  import opened Registry

  /** `'**(+' + str(d) + ')**' if d != 0 else ''`. */
  function Annotation(d: int): string {
    if d != 0 then "**(+" + IntToString(d) + ")**" else ""
  }

  /** One count line, e.g. `EXAM: 12 **(+2)**`; the space before the annotation is always there. */
  function CountLine(kind: string, num: string, d: int): string {
    kind + ": " + num + " " + Annotation(d) + "\n"
  }

  function Heading(b: Badge): string {
    b.symbol + " **" + b.name + "** \n"
  }

  /** The lines one group contributes; nothing when neither of its ids is present. */
  function Block(b: Badge, pathNum: string, examNum: string, pathDiff: int, examDiff: int): string {
    if Present(b.pathId) || Present(b.examId) then
      Heading(b)
      + (if Present(b.examId) then CountLine("EXAM", examNum, examDiff) else "")
      + (if Present(b.pathId) then CountLine("PATH", pathNum, pathDiff) else "")
      + "\n"
    else ""
  }

  function Footer(timestamp: string): string {
    "*Last update: " + timestamp + " UTC*"
  }

  /** The indexing `generate_update_message` performs for every group, tracked or not. */
  predicate Renderable(reg: seq<Badge>, d: seq<int>, current: seq<string>) {
    |d| >= 2 * |reg| && |current| >= RowWidth(reg)
  }

  /** Group `i`'s block: differences at 2i, 2i+1 pair with row columns 2i+1, 2i+2. */
  function GroupBlock(reg: seq<Badge>, d: seq<int>, current: seq<string>, i: nat): string
    requires Renderable(reg, d, current) && i < |reg|
  {
    Block(reg[i], current[2 * i + 1], current[2 * i + 2], d[2 * i], d[2 * i + 1])
  }

  /** Every group's block, in registry order. */
  function GroupBlocks(reg: seq<Badge>, d: seq<int>, current: seq<string>): (bs: seq<string>)
    requires Renderable(reg, d, current)
    ensures |bs| == |reg|
    ensures forall i :: 0 <= i < |reg| ==> bs[i] == GroupBlock(reg, d, current, i)
  {
    seq(|reg|, i requires 0 <= i < |reg| => GroupBlock(reg, d, current, i))
  }

  /** The parts written one after another. */
  function Concat(parts: seq<string>): string {
    if parts == [] then "" else Concat(parts[..|parts| - 1]) + parts[|parts| - 1]
  }

  function UpdateMessage(reg: seq<Badge>, d: seq<int>, current: seq<string>): string
    requires Renderable(reg, d, current)
  {
    Concat(GroupBlocks(reg, d, current)) + Footer(current[0])
  }

  /** `generate_update_message(differences, current_badges)`. */
  method GenerateUpdateMessage(reg: seq<Badge>, d: seq<int>, current: seq<string>)
    returns (message: string)
    requires Renderable(reg, d, current)
    ensures message == UpdateMessage(reg, d, current)
  {
    message := "";
    for i := 0 to |reg|
      invariant message == Concat(GroupBlocks(reg, d, current)[..i])
    {
      var b := reg[i];
      var pathDiff, examDiff := d[2 * i], d[2 * i + 1];
      var pathNum, examNum := current[2 * i + 1], current[2 * i + 2];
      var block := "";
      if Present(b.pathId) || Present(b.examId) {
        block := Heading(b);
        if Present(b.examId) {
          block := block + CountLine("EXAM", examNum, examDiff);
        }
        if Present(b.pathId) {
          block := block + CountLine("PATH", pathNum, pathDiff);
        }
        block := block + "\n";
      }
      assert block == Block(b, pathNum, examNum, pathDiff, examDiff);
      ConcatPrefix(GroupBlocks(reg, d, current), i);
      message := message + block;
    }
    assert GroupBlocks(reg, d, current)[..|reg|] == GroupBlocks(reg, d, current);
    message := message + Footer(current[0]);
  }

  /** A line carries an annotation exactly when its difference is non-zero, and
      the annotation reads back as that difference, sign included. */
  lemma AnnotationShowsDelta(d: int)
    ensures Annotation(d) == "" <==> d == 0
    ensures d != 0 ==>
      var a := Annotation(d);
      |a| > 7 && a[..4] == "**(+" && a[|a| - 3..] == ")**" &&
      IsDecimal(a[4..|a| - 3]) && ParseInt(a[4..|a| - 3]) == d
    ensures d < 0 ==> Annotation(d)[..5] == "**(+-"
  {
    if d != 0 {
      var a := Annotation(d);
      var s := IntToString(d);
      IntToStringRoundTrip(d);
      assert a[4..|a| - 3] == s;
    }
  }

  /** A group produces output exactly when one of its ids is present. */
  lemma BlockOnlyForTrackedGroups(b: Badge, pathNum: string, examNum: string, pathDiff: int, examDiff: int)
    ensures Block(b, pathNum, examNum, pathDiff, examDiff) == "" <==> !Present(b.pathId) && !Present(b.examId)
  {
    if Present(b.pathId) || Present(b.examId) {
      assert |Heading(b)| > 0;
    }
  }

  predicate OccursAt(s: string, t: string, k: int) {
    0 <= k && k + |t| <= |s| && s[k..k + |t|] == t
  }

  /** The output of the first `i + 1` parts begins the output of all of them. */
  lemma {:induction false} ConcatPrefix(parts: seq<string>, i: nat)
    requires i < |parts|
    ensures Concat(parts[..i + 1]) == Concat(parts[..i]) + parts[i]
    ensures |Concat(parts[..i + 1])| <= |Concat(parts)|
    ensures Concat(parts)[..|Concat(parts[..i + 1])|] == Concat(parts[..i + 1])
    decreases |parts|
  {
    assert parts[..i + 1][..i] == parts[..i];
    var n := |parts| - 1;
    if i < n {
      ConcatPrefix(parts[..n], i);
      assert parts[..n][..i + 1] == parts[..i + 1];
      assert parts[..n][..i] == parts[..i];
      var x, y := Concat(parts[..n]), parts[n];
      assert Concat(parts) == x + y;
      assert (x + y)[..|Concat(parts[..i + 1])|] == x[..|Concat(parts[..i + 1])|];
    } else {
      assert parts[..i + 1] == parts;
    }
  }

  /** The position in the message where group `i`'s output begins. */
  function GroupStart(reg: seq<Badge>, d: seq<int>, current: seq<string>, i: nat): nat
    requires Renderable(reg, d, current) && i <= |reg|
  {
    |Concat(GroupBlocks(reg, d, current)[..i])|
  }

  /**
   * The lines of one group's block: the heading first, then the EXAM line if
   * the exam id is present, then the PATH line if the path id is present, so
   * the EXAM line always comes before the PATH line. Nothing else is in the
   * block: its length leaves room only for the lines of present ids and the
   * closing blank line.
   */
  lemma BlockLayout(b: Badge, pathNum: string, examNum: string, pathDiff: int, examDiff: int)
    ensures var blk := Block(b, pathNum, examNum, pathDiff, examDiff);
      var exam := CountLine("EXAM", examNum, examDiff);
      var path := CountLine("PATH", pathNum, pathDiff);
      (Present(b.pathId) || Present(b.examId) ==> OccursAt(blk, Heading(b), 0)) &&
      (Present(b.examId) ==> OccursAt(blk, exam, |Heading(b)|)) &&
      (Present(b.pathId) ==>
        OccursAt(blk, path, |Heading(b)| + if Present(b.examId) then |exam| else 0)) &&
      |blk| == (if Present(b.pathId) || Present(b.examId) then
                  |Heading(b)| + (if Present(b.examId) then |exam| else 0)
                  + (if Present(b.pathId) then |path| else 0) + 1
                else 0)
  {
    var blk := Block(b, pathNum, examNum, pathDiff, examDiff);
    if Present(b.pathId) || Present(b.examId) {
      var h := Heading(b);
      var e := if Present(b.examId) then CountLine("EXAM", examNum, examDiff) else "";
      var p := if Present(b.pathId) then CountLine("PATH", pathNum, pathDiff) else "";
      assert blk == h + e + p + "\n";
      PartsAt(h, e, p, "\n");
    }
  }

  lemma PartsAt(h: string, e: string, p: string, tail: string)
    ensures OccursAt(h + e + p + tail, h, 0)
    ensures OccursAt(h + e + p + tail, e, |h|)
    ensures OccursAt(h + e + p + tail, p, |h| + |e|)
  {
    var s := h + e + p + tail;
    assert s[..|h|] == h;
    assert s[|h|..|h| + |e|] == e;
    assert s[|h| + |e|..|h| + |e| + |p|] == p;
  }

  /** Group `i`'s block sits in the message right after the blocks of the groups before it. */
  lemma GroupBlockAt(reg: seq<Badge>, d: seq<int>, current: seq<string>, i: nat)
    requires Renderable(reg, d, current) && i < |reg|
    ensures OccursAt(UpdateMessage(reg, d, current), GroupBlock(reg, d, current, i), GroupStart(reg, d, current, i))
    ensures OccursAt(UpdateMessage(reg, d, current),
      Block(reg[i], current[2 * i + 1], current[2 * i + 2], d[2 * i], d[2 * i + 1]), GroupStart(reg, d, current, i))
  {
    var bs := GroupBlocks(reg, d, current);
    ConcatPrefix(bs, i);
    SliceAfterPrefix(Concat(bs), Footer(current[0]), Concat(bs[..i]), bs[i]);
  }

  lemma SliceAfterPrefix(all: string, footer: string, pre: string, blk: string)
    requires |pre| + |blk| <= |all| && all[..|pre| + |blk|] == pre + blk
    ensures (all + footer)[|pre|..|pre| + |blk|] == blk
  {
    assert (all + footer)[|pre|..|pre| + |blk|] == all[..|pre| + |blk|][|pre|..] == (pre + blk)[|pre|..];
  }

  /** The message always closes with the sample's timestamp. */
  lemma MessageEndsWithTimestamp(reg: seq<Badge>, d: seq<int>, current: seq<string>)
    requires Renderable(reg, d, current)
    ensures var msg := UpdateMessage(reg, d, current);
      var f := "*Last update: " + current[0] + " UTC*";
      |msg| >= |f| && msg[|msg| - |f|..] == f
  {
  }

  /** One tracked group whose exam count went from 10 to 12 while its path count stayed at 5. */
  lemma ExamIncreaseExample()
    ensures Block(Badge("A", ":a:", Options.Some("p1"), Options.Some("e1")), "5", "12", 0, 2)
         == ":a: **A** \nEXAM: 12 **(+2)**\nPATH: 5 \n\n"
  {
    var b := Badge("A", ":a:", Options.Some("p1"), Options.Some("e1"));
    ExampleLines();
    TrackedBlock(b, "5", "12", 0, 2);
  }

  lemma ExampleLines()
    ensures Heading(Badge("A", ":a:", Options.Some("p1"), Options.Some("e1"))) == ":a: **A** \n"
    ensures CountLine("EXAM", "12", 2) == "EXAM: 12 **(+2)**\n"
    ensures CountLine("PATH", "5", 0) == "PATH: 5 \n"
  {
    assert IntToString(2) == "2";
  }

  /** A group tracking both ids shows its heading, its EXAM line and its PATH line. */
  lemma TrackedBlock(b: Badge, pathNum: string, examNum: string, pathDiff: int, examDiff: int)
    requires Present(b.pathId) && Present(b.examId)
    ensures Block(b, pathNum, examNum, pathDiff, examDiff)
         == Heading(b) + CountLine("EXAM", examNum, examDiff) + CountLine("PATH", pathNum, pathDiff) + "\n"
  {
  }
}
