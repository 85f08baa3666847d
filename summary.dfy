/** The threshold classifier and report composer of
    HealthBuddy/agents/summary_agent.py. */
module Summary {
  import opened Text
  import Parser

  datatype Threshold = Threshold(low: real, high: real, unit: string)

  /** The clinical thresholds, in insertion order; the near-duplicate keys
      "fs h" and "fsh" are both kept, "fs h" first. */
  const Thresholds: seq<(string, Threshold)> := [
    ("hemoglobin", Threshold(12.0, 18.0, "g/dL")),
    ("wbc", Threshold(4000.0, 11000.0, "cells/uL")),
    ("platelets", Threshold(150000.0, 450000.0, "cells/uL")),
    ("creatinine", Threshold(0.6, 1.3, "mg/dL")),
    ("tsh", Threshold(0.4, 4.0, "µIU/mL")),
    ("fbs", Threshold(70.0, 99.0, "mg/dL")),
    ("ppbs", Threshold(70.0, 140.0, "mg/dL")),
    ("hba1c", Threshold(4.0, 5.6, "%")),
    ("amh", Threshold(0.5, 3.5, "ng/mL")),
    ("fs h", Threshold(1.0, 15.0, "")),
    ("fsh", Threshold(1.0, 15.0, ""))
  ]

  /** The status `detect_abnormal` returns; `Unknown` is the empty string. */
  datatype Status = Unknown | Low | Normal | High
  {
    /** The status word; only an unknown status has none. */
    function Name(): (n: string)
      ensures n == "" <==> this == Unknown
    {
      match this
      case Unknown => ""
      case Low => "Low"
      case Normal => "Normal"
      case High => "High"
    }

    predicate IsAlert()
    {
      this == Low || this == High
    }
  }

  /** A stored field as `detect_abnormal` reads it: the value may be missing. */
  datatype Field = Field(value: Option<real>, unit: string, flag: Parser.Flag)

  /** The field the parser stores for an observation. */
  function FromObservation(o: Parser.Observation): Field
  {
    Field(Some(o.value), o.unit, o.flag)
  }

  /** The report's own flag read as a status ("" stays unknown). */
  function FlagStatus(f: Parser.Flag): (s: Status)
    ensures s.Name() == f.Name()
  {
    match f
    case Unset => Unknown
    case FlagLow => Low
    case FlagHigh => High
  }

  /** Below the low bound is Low, above the high bound is High, and the
      bounds themselves are Normal. */
  function Compare(v: real, t: Threshold): (s: Status)
    requires t.low <= t.high
    ensures s == Low <==> v < t.low
    ensures s == High <==> v > t.high
    ensures s == Normal <==> t.low <= v <= t.high
  {
    if v < t.low then Low
    else if v > t.high then High
    else Normal
  }

  lemma ThresholdsOrdered()
    ensures Ordered(Thresholds)
  {
  }

  lemma ThresholdKeysDistinct()
    ensures forall i, j :: 0 <= i < j < |Thresholds| ==> Thresholds[i].0 != Thresholds[j].0
  {
  }

  /** Dictionary lookup `THRESHOLDS[k]` on the ordered table. */
  function ExactThreshold(table: seq<(string, Threshold)>, k: string): (r: Option<nat>)
    ensures r.None? <==> forall i :: 0 <= i < |table| ==> table[i].0 != k
    ensures r.Some? ==> r.value < |table| && table[r.value].0 == k
                        && forall j :: 0 <= j < r.value ==> table[j].0 != k
  {
    if table == [] then None
    else if table[0].0 == k then Some(0)
    else match ExactThreshold(table[1..], k)
      case None => None
      case Some(i) => Some(i + 1)
  }

  ghost predicate IsFirstSubstring(table: seq<(string, Threshold)>, k: string, i: int)
  {
    0 <= i < |table| && Contains(k, table[i].0)
    && forall j :: 0 <= j < i ==> !Contains(k, table[j].0)
  }

  /** The partial match: the first entry in table order whose key occurs in `k`. */
  function PartialThreshold(table: seq<(string, Threshold)>, k: string): (r: Option<nat>)
    ensures r.None? <==> forall i :: 0 <= i < |table| ==> !Contains(k, table[i].0)
    ensures r.Some? ==> IsFirstSubstring(table, k, r.value)
  {
    if table == [] then None
    else if Contains(k, table[0].0) then Some(0)
    else match PartialThreshold(table[1..], k)
      case None => None
      case Some(i) =>
        assert forall j :: 1 <= j <= i + 1 ==> table[j] == table[1..][j - 1];
        Some(i + 1)
  }

  /** Every entry's lower bound is at most its upper bound. */
  predicate Ordered(table: seq<(string, Threshold)>)
  {
    forall i :: 0 <= i < |table| ==> table[i].1.low <= table[i].1.high
  }

  /** A present value judged against `table`: exact key, first partial key,
      then the report's own flag. */
  function Judge(table: seq<(string, Threshold)>, k: string, v: real, flag: Parser.Flag): Status
    requires Ordered(table)
  {
    match ExactThreshold(table, k)
    case Some(i) => Compare(v, table[i].1)
    case None =>
      match PartialThreshold(table, k)
      case Some(i) => Compare(v, table[i].1)
      case None => FlagStatus(flag)
  }

  /** `detect_abnormal`: missing value, exact key, first partial key, then
      the report's own flag. */
  function DetectAbnormal(key: string, f: Field): (s: Status)
    ensures f.value.None? ==> s == Unknown
    ensures s.IsAlert() ==> f.value.Some?
  {
    match f.value
    case None => Unknown
    case Some(v) =>
      ThresholdsOrdered();
      Judge(Thresholds, Lower(key), v, f.flag)
  }

  /** A key that is exactly a table key is judged by that entry's bounds,
      inclusively. */
  lemma ExactMatch(key: string, f: Field, i: int)
    requires 0 <= i < |Thresholds| && Lower(key) == Thresholds[i].0 && f.value.Some?
    ensures var t := Thresholds[i].1;
            var s := DetectAbnormal(key, f);
            && (s == Low <==> f.value.value < t.low)
            && (s == High <==> f.value.value > t.high)
            && (s == Normal <==> t.low <= f.value.value <= t.high)
  {
    ThresholdKeysDistinct();
    ThresholdsOrdered();
    var r := ExactThreshold(Thresholds, Lower(key));
    assert r == Some(i);
  }

  /** Without an exact key, the first table key occurring in the key decides. */
  lemma PartialMatch(key: string, f: Field, i: int)
    requires forall j :: 0 <= j < |Thresholds| ==> Thresholds[j].0 != Lower(key)
    requires IsFirstSubstring(Thresholds, Lower(key), i) && f.value.Some?
    ensures var t := Thresholds[i].1;
            var s := DetectAbnormal(key, f);
            && (s == Low <==> f.value.value < t.low)
            && (s == High <==> f.value.value > t.high)
            && (s == Normal <==> t.low <= f.value.value <= t.high)
  {
    ThresholdsOrdered();
    var r := PartialThreshold(Thresholds, Lower(key));
    assert r == Some(i);
  }

  /** When no table key occurs in the key, the report's own flag is the status. */
  lemma NoMatchUsesFlag(key: string, f: Field)
    requires forall j :: 0 <= j < |Thresholds| ==> !Contains(Lower(key), Thresholds[j].0)
    requires f.value.Some?
    ensures DetectAbnormal(key, f) == FlagStatus(f.flag)
  {
    ContainsSelf(Lower(key));
  }

  /** Whenever some table key occurs in the key, the report's flag is ignored. */
  lemma ThresholdOverridesFlag(key: string, f: Field, g: Field)
    requires exists j :: 0 <= j < |Thresholds| && Contains(Lower(key), Thresholds[j].0)
    requires f.value == g.value
    ensures DetectAbnormal(key, f) == DetectAbnormal(key, g)
  {
    if f.value.Some? {
      ThresholdsOrdered();
      JudgeIgnoresFlag(Thresholds, Lower(key), f.value.value, f.flag, g.flag);
    }
  }

  lemma JudgeIgnoresFlag(table: seq<(string, Threshold)>, k: string, v: real, a: Parser.Flag, b: Parser.Flag)
    requires Ordered(table) && exists j :: 0 <= j < |table| && Contains(k, table[j].0)
    ensures Judge(table, k, v, a) == Judge(table, k, v, b)
  {
    assert PartialThreshold(table, k).Some?;
  }

  /** A field read by the parser always carries a value, so its status is
      unknown exactly when no table key occurs in its name and the report
      line carried no flag. */
  lemma ParsedFieldStatus(key: string, o: Parser.Observation)
    ensures DetectAbnormal(key, FromObservation(o)) == Unknown <==>
              (forall j :: 0 <= j < |Thresholds| ==> !Contains(Lower(key), Thresholds[j].0))
              && o.flag == Parser.Unset
  {
    var k := Lower(key);
    ThresholdsOrdered();
    match ExactThreshold(Thresholds, k)
    case Some(i) =>
      ContainsSelf(k);
      assert Contains(k, Thresholds[i].0);
    case None =>
      match PartialThreshold(Thresholds, k)
      case Some(i) =>
      case None =>
  }

  /** Hemoglobin 11.2 is below 12.0 and so Low, whatever the report's flag
      and however the key is capitalised. */
  lemma HemoglobinExample(key: string, unit: string, flag: Parser.Flag)
    requires Lower(key) == "hemoglobin"
    ensures DetectAbnormal(key, Field(Some(11.2), unit, flag)) == Low
  {
    ExactMatch(key, Field(Some(11.2), unit, flag), 0);
  }

  /** The bounds are inclusive: TSH 4.0, the upper bound, is Normal. */
  lemma TshBoundExample(key: string, unit: string, flag: Parser.Flag)
    requires Lower(key) == "tsh"
    ensures DetectAbnormal(key, Field(Some(4.0), unit, flag)) == Normal
  {
    ExactMatch(key, Field(Some(4.0), unit, flag), 4);
  }

  // ---------------------------------------------------------------------
  // Report strings

  function HeaderEnglish(stamp: string): string
  {
    "Medical Report Summary — " + stamp + "\n"
  }

  function HeaderHindi(stamp: string): string
  {
    "मेडिकल रिपोर्ट सारांश — " + stamp + "\n"
  }

  const StatusSeparator := "  |  Status: "
  const NoAlertsNote := "No immediate abnormal alerts detected."
  const AlertsHeading := "ALERTS FOR DOCTOR:\n"
  const EnhancePrompt := "Please convert the following doctor note into concise clinical bullet points:\n"

  /** A field together with the status `detect_abnormal` gives it. */
  datatype Row = Row(key: string, field: Field, status: Status)

  /** Every field of the loaded data, in order, with its status. */
  function Classify(data: seq<(string, Field)>): (rows: seq<Row>)
    ensures |rows| == |data|
    ensures forall i :: 0 <= i < |data| ==>
              rows[i] == Row(data[i].0, data[i].1, DetectAbnormal(data[i].0, data[i].1))
  {
    if data == [] then []
    else [Row(data[0].0, data[0].1, DetectAbnormal(data[0].0, data[0].1))] + Classify(data[1..])
  }

  /** `info.get('value', '')` as text; `render` is Python's float formatting. */
  function ValueText(f: Field, render: real -> string): string
  {
    match f.value
    case Some(v) => render(v)
    case None => ""
  }

  /** `KEY NAME: value unit`, stripped. */
  function BaseLine(key: string, f: Field, render: real -> string): string
  {
    Strip(ReplaceChar(Upper(key), '_', ' ') + ": " + ValueText(f, render) + " " + f.unit)
  }

  /** The per-field summary line: the status is appended only when it is known. */
  function FieldLine(row: Row, render: real -> string): (line: string)
    ensures row.status != Unknown ==>
              line == BaseLine(row.key, row.field, render) + StatusSeparator + row.status.Name()
    ensures row.status == Unknown ==> line == BaseLine(row.key, row.field, render)
  {
    var base := BaseLine(row.key, row.field, render);
    if row.status.Name() != "" then base + StatusSeparator + row.status.Name() else base
  }

  /** The per-field lines, in data order. */
  function FieldLines(rows: seq<Row>, render: real -> string): seq<string>
  {
    seq(|rows|, i requires 0 <= i < |rows| => FieldLine(rows[i], render))
  }

  /** Each line followed by an empty line. */
  function Spaced(lines: seq<string>): (r: seq<string>)
  {
    if lines == [] then [] else [lines[0], ""] + Spaced(lines[1..])
  }

  /** The summary body: each field's line followed by an empty line. */
  function Body(rows: seq<Row>, render: real -> string): seq<string>
  {
    Spaced(FieldLines(rows, render))
  }

  /** A field whose status is Low or High, as the doctor note reports it. */
  datatype Alert = Alert(key: string, status: Status, value: Option<real>)

  /** The alert one row raises, if its status is Low or High. */
  function AlertOf(row: Row): (r: seq<Alert>)
    ensures |r| <= 1
    ensures r != [] <==> row.status.IsAlert()
    ensures r != [] ==> r[0] == Alert(row.key, row.status, row.field.value)
  {
    if row.status.IsAlert() then [Alert(row.key, row.status, row.field.value)] else []
  }

  /** The alerts, in data order. */
  function Alerts(rows: seq<Row>): seq<Alert>
  {
    if rows == [] then []
    else AlertOf(rows[0]) + Alerts(rows[1..])
  }

  /** `KEY: LOW (value v)` or `KEY: HIGH (value v)`. */
  function AlertText(a: Alert, render: real -> string): string
  {
    var v := match a.value case Some(x) => render(x) case None => "None";
    if a.status == Low then Upper(a.key) + ": LOW (value " + v + ")"
    else Upper(a.key) + ": HIGH (value " + v + ")"
  }

  function AlertTexts(alerts: seq<Alert>, render: real -> string): (r: seq<string>)
    ensures |r| == |alerts|
    ensures forall i :: 0 <= i < |alerts| ==> r[i] == AlertText(alerts[i], render)
  {
    if alerts == [] then [] else [AlertText(alerts[0], render)] + AlertTexts(alerts[1..], render)
  }

  /** The draft note: the alert lines under a heading, or a fixed sentence. */
  function DraftNote(lines: seq<string>): string
  {
    if lines != [] then AlertsHeading + Join(lines, "\n") else NoAlertsNote
  }

  /** The doctor note: the model's rewrite when it answers, else the draft. */
  function DoctorNote(lines: seq<string>, llm: string -> string): string
  {
    var enhanced := llm(EnhancePrompt + DraftNote(lines));
    if enhanced != "" then enhanced else DraftNote(lines)
  }

  /** `build_report_strings`: both summaries carry the same body under their
      own header, and the doctor note lists the alerts in data order. */
  method BuildReportStrings(data: seq<(string, Field)>, stamp: string, render: real -> string, llm: string -> string)
    returns (english: string, hindi: string, doctorNote: string)
    ensures english == Join([HeaderEnglish(stamp)] + Body(Classify(data), render), "\n")
    ensures hindi == Join([HeaderHindi(stamp)] + Body(Classify(data), render), "\n")
    ensures doctorNote == DoctorNote(AlertTexts(Alerts(Classify(data)), render), llm)
  {
    ghost var rows := Classify(data);
    var linesEn := [HeaderEnglish(stamp)];
    var linesHi := [HeaderHindi(stamp)];
    var doctorLines := [];
    for i := 0 to |data|
      invariant linesEn == [HeaderEnglish(stamp)] + Body(rows[..i], render)
      invariant linesHi == [HeaderHindi(stamp)] + Body(rows[..i], render)
      invariant doctorLines == AlertTexts(Alerts(rows[..i]), render)
    {
      var (key, info) := data[i];
      var status := DetectAbnormal(key, info);
      ghost var row := Row(key, info, status);
      assert rows[i] == row;
      var line := BaseLine(key, info, render);
      if status.Name() != "" {
        line := line + StatusSeparator + status.Name();
      }
      assert line == FieldLine(row, render);
      BodyStep(rows, i, render);
      SnocPair([HeaderEnglish(stamp)], Body(rows[..i], render), line);
      SnocPair([HeaderHindi(stamp)], Body(rows[..i], render), line);
      linesEn := linesEn + [line, ""];
      linesHi := linesHi + [line, ""];
      AlertStep(rows, i, render);
      AlertTextsOf(row, render);
      if status == Low {
        doctorLines := doctorLines + [Upper(key) + ": LOW (value " + render(info.value.value) + ")"];
      }
      if status == High {
        doctorLines := doctorLines + [Upper(key) + ": HIGH (value " + render(info.value.value) + ")"];
      }
    }
    assert rows[..|data|] == rows;
    var draft := if doctorLines != [] then AlertsHeading + Join(doctorLines, "\n") else NoAlertsNote;
    var enhanced := llm(EnhancePrompt + draft);
    doctorNote := if enhanced != "" then enhanced else draft;
    english := Join(linesEn, "\n");
    hindi := Join(linesHi, "\n");
  }

  /** One more row adds its line pair to the body. */
  lemma BodyStep(rows: seq<Row>, i: int, render: real -> string)
    requires 0 <= i < |rows|
    ensures Body(rows[..i + 1], render) == Body(rows[..i], render) + [FieldLine(rows[i], render), ""]
  {
    assert rows[..i + 1] == rows[..i] + [rows[i]];
    FieldLinesAppend(rows[..i], [rows[i]], render);
    assert FieldLines([rows[i]], render) == [FieldLine(rows[i], render)];
    assert FieldLines(rows[..i + 1], render) == FieldLines(rows[..i], render) + [FieldLine(rows[i], render)];
    SpacedSnoc(FieldLines(rows[..i], render), FieldLine(rows[i], render));
  }

  /** One more row adds its alert line, if any, to the doctor lines. */
  lemma AlertStep(rows: seq<Row>, i: int, render: real -> string)
    requires 0 <= i < |rows|
    ensures AlertTexts(Alerts(rows[..i + 1]), render)
            == AlertTexts(Alerts(rows[..i]), render) + AlertTexts(AlertOf(rows[i]), render)
  {
    assert rows[..i + 1] == rows[..i] + [rows[i]];
    AlertsAppend(rows[..i], [rows[i]]);
    assert Alerts([rows[i]]) == AlertOf(rows[i]) + Alerts([]);
    AlertTextsAppend(Alerts(rows[..i]), AlertOf(rows[i]), render);
  }

  lemma SnocPair(head: seq<string>, body: seq<string>, line: string)
    ensures (head + body) + [line, ""] == head + (body + [line, ""])
  {
  }

  /** The doctor-note line a row contributes, spelled out. */
  lemma AlertTextsOf(row: Row, render: real -> string)
    ensures row.status == Low && row.field.value.Some? ==>
              AlertTexts(AlertOf(row), render) == [Upper(row.key) + ": LOW (value " + render(row.field.value.value) + ")"]
    ensures row.status == High && row.field.value.Some? ==>
              AlertTexts(AlertOf(row), render) == [Upper(row.key) + ": HIGH (value " + render(row.field.value.value) + ")"]
    ensures !row.status.IsAlert() ==> AlertTexts(AlertOf(row), render) == []
  {
  }

  lemma FieldLinesAppend(a: seq<Row>, b: seq<Row>, render: real -> string)
    ensures FieldLines(a + b, render) == FieldLines(a, render) + FieldLines(b, render)
  {
    forall i | 0 <= i < |a| + |b|
      ensures FieldLines(a + b, render)[i] == (FieldLines(a, render) + FieldLines(b, render))[i]
    {
      if i >= |a| { assert (a + b)[i] == b[i - |a|]; }
    }
  }

  lemma {:induction false} SpacedSnoc(lines: seq<string>, last: string)
    ensures Spaced(lines + [last]) == Spaced(lines) + [last, ""]
    decreases |lines|
  {
    if lines == [] {
      assert lines + [last] == [last];
    } else {
      assert (lines + [last])[1..] == lines[1..] + [last];
      SpacedSnoc(lines[1..], last);
    }
  }

  lemma AlertTextsAppend(a: seq<Alert>, b: seq<Alert>, render: real -> string)
    ensures AlertTexts(a + b, render) == AlertTexts(a, render) + AlertTexts(b, render)
  {
  }

  /** Alerts keep data order: the alerts of a concatenation are the
      concatenation of the alerts. */
  lemma {:induction false} AlertsAppend(a: seq<Row>, b: seq<Row>)
    ensures Alerts(a + b) == Alerts(a) + Alerts(b)
    decreases |a|
  {
    if a == [] {
      assert a + b == b;
    } else {
      assert (a + b)[0] == a[0];
      assert (a + b)[1..] == a[1..] + b;
      AlertsAppend(a[1..], b);
    }
  }

  /** There is no alert exactly when no row's status is Low or High. */
  lemma {:induction false} AlertsEmptyIff(rows: seq<Row>)
    ensures Alerts(rows) == [] <==> forall i :: 0 <= i < |rows| ==> !rows[i].status.IsAlert()
    decreases |rows|
  {
    if rows != [] {
      AlertsEmptyIff(rows[1..]);
      assert forall i :: 1 <= i < |rows| ==> rows[1..][i - 1] == rows[i];
    }
  }

  /** Every alert comes from a Low or High row with that key, status and
      value, and every such row raises one. */
  lemma {:induction false} AlertsExactly(rows: seq<Row>)
    ensures forall a :: a in Alerts(rows) <==>
              exists i :: 0 <= i < |rows| && rows[i].status.IsAlert()
                          && a == Alert(rows[i].key, rows[i].status, rows[i].field.value)
    decreases |rows|
  {
    if rows != [] {
      AlertsExactly(rows[1..]);
      forall a | a in Alerts(rows)
        ensures exists i :: 0 <= i < |rows| && rows[i].status.IsAlert()
                            && a == Alert(rows[i].key, rows[i].status, rows[i].field.value)
      {
        if a !in AlertOf(rows[0]) {
          assert a in Alerts(rows[1..]);
          var j :| 0 <= j < |rows[1..]| && rows[1..][j].status.IsAlert()
                   && a == Alert(rows[1..][j].key, rows[1..][j].status, rows[1..][j].field.value);
          assert rows[1..][j] == rows[j + 1];
        }
      }
      forall i | 0 <= i < |rows| && rows[i].status.IsAlert()
        ensures Alert(rows[i].key, rows[i].status, rows[i].field.value) in Alerts(rows)
      {
        if i > 0 {
          assert rows[1..][i - 1] == rows[i];
        }
      }
    }
  }

  /** One alert per Low or High row. */
  lemma {:induction false} AlertsCount(rows: seq<Row>)
    ensures |Alerts(rows)| == |AlertIndices(rows)|
    decreases |rows|
  {
    if rows != [] {
      var n := |rows| - 1;
      var init := rows[..n];
      AlertsCount(init);
      assert |Alerts(rows)| == |Alerts(init)| + |AlertOf(rows[n])| by {
        assert rows == init + [rows[n]];
        AlertsAppend(init, [rows[n]]);
        assert Alerts([rows[n]]) == AlertOf(rows[n]) + Alerts([]);
      }
      AlertIndicesSnoc(rows);
    }
  }

  /** The indices of the rows that raise an alert. */
  ghost function AlertIndices(rows: seq<Row>): set<int>
  {
    set i | 0 <= i < |rows| && rows[i].status.IsAlert()
  }

  lemma AlertIndicesSnoc(rows: seq<Row>)
    requires rows != []
    ensures var n := |rows| - 1;
            |AlertIndices(rows)| == |AlertIndices(rows[..n])| + (if rows[n].status.IsAlert() then 1 else 0)
  {
    var n := |rows| - 1;
    var before := AlertIndices(rows[..n]);
    if rows[n].status.IsAlert() {
      assert AlertIndices(rows) == before + {n};
    } else {
      assert AlertIndices(rows) == before;
    }
  }

  lemma {:induction false} SpacedShape(lines: seq<string>)
    ensures |Spaced(lines)| == 2 * |lines|
    ensures forall i :: 0 <= i < |lines| ==> Spaced(lines)[2 * i] == lines[i] && Spaced(lines)[2 * i + 1] == ""
    decreases |lines|
  {
    if lines != [] {
      SpacedShape(lines[1..]);
      forall i | 1 <= i < |lines|
        ensures Spaced(lines)[2 * i] == lines[i] && Spaced(lines)[2 * i + 1] == ""
      {
        assert Spaced(lines)[2 * i] == Spaced(lines[1..])[2 * (i - 1)];
        assert Spaced(lines)[2 * i + 1] == Spaced(lines[1..])[2 * (i - 1) + 1];
      }
    }
  }

  /** Each field contributes its line, with its status when known, and then
      an empty line. */
  lemma BodyShape(data: seq<(string, Field)>, render: real -> string)
    ensures |Body(Classify(data), render)| == 2 * |data|
    ensures forall i :: 0 <= i < |data| ==>
              Body(Classify(data), render)[2 * i] == FieldLine(Row(data[i].0, data[i].1, DetectAbnormal(data[i].0, data[i].1)), render)
              && Body(Classify(data), render)[2 * i + 1] == ""
  {
    SpacedShape(FieldLines(Classify(data), render));
  }

  /** The doctor note lists exactly the Low and High fields of the data. */
  lemma AlertsOfData(data: seq<(string, Field)>)
    ensures |Alerts(Classify(data))| == |set i | 0 <= i < |data| && DetectAbnormal(data[i].0, data[i].1).IsAlert()|
    ensures forall a :: a in Alerts(Classify(data)) <==>
              exists i :: 0 <= i < |data| && DetectAbnormal(data[i].0, data[i].1).IsAlert()
                          && a == Alert(data[i].0, DetectAbnormal(data[i].0, data[i].1), data[i].1.value)
  {
    var rows := Classify(data);
    AlertsCount(rows);
    AlertsExactly(rows);
    assert AlertIndices(rows)
        == (set i | 0 <= i < |data| && DetectAbnormal(data[i].0, data[i].1).IsAlert());
  }

  lemma DraftNoteIff(lines: seq<string>)
    ensures DraftNote(lines) == NoAlertsNote <==> lines == []
  {
    if lines != [] {
      assert (AlertsHeading + Join(lines, "\n"))[0] == 'A';
    }
  }

  /** Without a model answer, the note is the fixed sentence exactly when
      there is no alert line, and otherwise the heading over the lines. */
  lemma DoctorNoteDraft(lines: seq<string>, llm: string -> string)
    requires llm(EnhancePrompt + DraftNote(lines)) == ""
    ensures DoctorNote(lines, llm) == NoAlertsNote <==> lines == []
    ensures lines != [] ==> DoctorNote(lines, llm) == AlertsHeading + Join(lines, "\n")
  {
    DraftNoteIff(lines);
  }

  /** A model answer, when there is one, replaces the draft unchanged. */
  lemma DoctorNoteEnhanced(lines: seq<string>, llm: string -> string)
    requires llm(EnhancePrompt + DraftNote(lines)) != ""
    ensures DoctorNote(lines, llm) == llm(EnhancePrompt + DraftNote(lines))
  {
  }

  datatype SummaryResult =
    | Failure(error: string)
    | Summary(englishSummary: string, hindiSummary: string, doctorNote: string)

  /** `run` on the loaded patient data: an error for empty data, else the three texts. */
  method Run(data: seq<(string, Field)>, stamp: string, render: real -> string, llm: string -> string)
    returns (r: SummaryResult)
    ensures r.Failure? <==> data == []
    ensures r.Failure? ==> r.error == "no data"
    ensures r.Summary? ==>
              && r.englishSummary == Join([HeaderEnglish(stamp)] + Body(Classify(data), render), "\n")
              && r.hindiSummary == Join([HeaderHindi(stamp)] + Body(Classify(data), render), "\n")
              && r.doctorNote == DoctorNote(AlertTexts(Alerts(Classify(data)), render), llm)
  {
    if data == [] {
      return Failure("no data");
    }
    var en, hi, note := BuildReportStrings(data, stamp, render, llm);
    r := Summary(en, hi, note);
  }
}
