/**
 * The badge registry (`BADGES`): six certification groups in a fixed order,
 * each with a display symbol and an optional path id and exam id read from
 * the environment. The order fixes the column layout of the history file.
 */
module Registry {
  import opened Options

  datatype Badge = Badge(name: string, symbol: string, pathId: Option<string>, examId: Option<string>)

  /** An id the bot tracks: Python's `if not badge_id` treats both None and "" as absent. */
  predicate Present(id: Option<string>) { id.Some? && id.value != "" }

  /** `os.getenv(key)` over an environment given as a map. */
  function Getenv(env: map<string, string>, key: string): Option<string> {
    if key in env then Some(env[key]) else None
  }

  function Group(env: map<string, string>, name: string, symbol: string): Badge {
    Badge(name, symbol, Getenv(env, name + "_PATH"), Getenv(env, name + "_EXAM"))
  }

  /** `BADGES`, in its declaration order. */
  function Badges(env: map<string, string>): seq<Badge> {
    [ Group(env, "CBBH", ":spider_web:"),
      Group(env, "CPTS", ":crossed_swords:"),
      Group(env, "CDSA", ":shield:"),
      Group(env, "CWEE", ":globe_with_meridians:"),
      Group(env, "CAPE", ":woman_mage:"),
      Group(env, "CJCA", ":woman_supervillain:") ]
  }

  /** Group names are dictionary keys, hence distinct. */
  predicate DistinctNames(reg: seq<Badge>) {
    forall i, j :: 0 <= i < j < |reg| ==> reg[i].name != reg[j].name
  }

  /** Width of a history row: the timestamp, then a path and an exam column per group. */
  function RowWidth(reg: seq<Badge>): nat { 2 * |reg| + 1 }

  /** The column names of the history file derived from the registry. */
  function ColumnNames(reg: seq<Badge>): (h: seq<string>)
    ensures |h| == RowWidth(reg)
    ensures h[0] == "timestamp"
    ensures forall i :: 0 <= i < |reg| ==>
      h[2 * i + 1] == reg[i].name + "-Path" && h[2 * i + 2] == reg[i].name + "-Exam"
    decreases |reg|
  {
    if reg == [] then ["timestamp"]
    else
      var b := reg[|reg| - 1];
      ColumnNames(reg[..|reg| - 1]) + [b.name + "-Path", b.name + "-Exam"]
  }

  /** The header row the bot writes literally when it creates the history file. */
  const InitialHeader: seq<string> := [
    "timestamp",
    "CBBH-Path", "CBBH-Exam",
    "CPTS-Path", "CPTS-Exam",
    "CDSA-Path", "CDSA-Exam",
    "CWEE-Path", "CWEE-Exam",
    "CAPE-Path", "CAPE-Exam",
    "CJCA-Path", "CJCA-Exam"
  ]

  /** Whatever the environment holds, the registry has distinct names and its
      column layout is exactly the header written to a new history file. */
  lemma RegistryMatchesHeader(env: map<string, string>)
    ensures |Badges(env)| == 6
    ensures DistinctNames(Badges(env))
    ensures ColumnNames(Badges(env)) == InitialHeader
  {
    var reg := Badges(env);
    var h := ColumnNames(reg);
    forall k | 0 <= k < |h| ensures h[k] == InitialHeader[k] {
      if k == 1 || k == 2 {
        assert h[k] == reg[0].name + (if k == 1 then "-Path" else "-Exam");
      } else if k == 3 || k == 4 {
        assert h[k] == reg[1].name + (if k == 3 then "-Path" else "-Exam");
      } else if k == 5 || k == 6 {
        assert h[k] == reg[2].name + (if k == 5 then "-Path" else "-Exam");
      } else if k == 7 || k == 8 {
        assert h[k] == reg[3].name + (if k == 7 then "-Path" else "-Exam");
      } else if k == 9 || k == 10 {
        assert h[k] == reg[4].name + (if k == 9 then "-Path" else "-Exam");
      } else if k == 11 || k == 12 {
        assert h[k] == reg[5].name + (if k == 11 then "-Path" else "-Exam");
      }
    }
  }
}
