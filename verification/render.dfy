/** Rendering a year's matrix for the web front ends: the plain table of class indices,
    the simple occupied/free table both front ends export (webapp/app.py and
    api/routers/simple.py), and the day grid of webapp/app.py with merged lab rows and
    break rows. */
module Render {
  import opened Model
  import opened Text
  import TimeGrid

  const Days: seq<string> := ["Monday", "Tuesday", "Wednesday", "Thursday", "Friday", "Saturday"]

  /** The Saturday column; it never holds a class. */
  const Saturday: nat := 5

  // ---------------------------------------------------------------------------
  // `_matrix_to_table`
  // ---------------------------------------------------------------------------

  /** `'-'` for an empty cell, the class index in decimal otherwise. */
  function CellText(v: Cell): (s: string)
    ensures s == "-" <==> v.None?
    ensures v.Some? ==> AllDigits(s) && ParseNat(s) == v.value
  {
    match v
    case None => "-"
    case Some(x) =>
      ParseNatToString(x);
      NatToString(x)
  }

  function Table(matrix: Matrix): (r: seq<seq<string>>)
    ensures |r| == |matrix|
    ensures forall i :: 0 <= i < |r| ==> |r[i]| == |matrix[i]|
    ensures forall i, j :: 0 <= i < |r| && 0 <= j < |r[i]| ==> r[i][j] == CellText(matrix[i][j])
  {
    seq(|matrix|, i requires 0 <= i < |matrix| => seq(|matrix[i]|, j requires 0 <= j < |matrix[i]| => CellText(matrix[i][j])))
  }

  /** Reads a table cell back. */
  function ParseCell(s: string): Cell
    requires s == "-" || AllDigits(s)
  {
    if s == "-" then None else Some(ParseNat(s))
  }

  /** The table loses nothing: each cell reads back as the matrix entry it renders. */
  lemma TableReadsBack(matrix: Matrix, i: nat, j: nat)
    requires i < |matrix| && j < |matrix[i]|
    ensures var s := Table(matrix)[i][j]; (s == "-" || AllDigits(s)) && ParseCell(s) == matrix[i][j]
  {
  }

  // ---------------------------------------------------------------------------
  // Reading the matrix by day and label index
  // ---------------------------------------------------------------------------

  /** Every row a table of `labelCount` labels reads exists and is at least as wide as
      the first row, which gives the number of rooms looked at. */
  predicate Readable(matrix: Matrix, labelCount: nat) {
    labelCount == 0 ||
    (|matrix| > RowOf(TeachingDays - 1, labelCount - 1) &&
     forall t, d :: 0 <= t < labelCount && 0 <= d < TeachingDays ==> |matrix[RowOf(d, t)]| >= |matrix[0]|)
  }

  /** The `for j in range(len(matrix[0]))` search: the first non-empty cell from `j`,
      as (class index, column). */
  function FirstOccupied(row: seq<Cell>, width: nat, j: nat): (r: Option<(nat, nat)>)
    requires width <= |row|
    ensures r.Some? ==> j <= r.value.1 < width && row[r.value.1] == Some(r.value.0)
                        && forall k :: j <= k < r.value.1 ==> row[k].None?
    ensures r.None? <==> forall k :: j <= k < width ==> row[k].None?
    decreases width - j
  {
    if j >= width then None
    else if row[j].Some? then Some((row[j].value, j))
    else FirstOccupied(row, width, j + 1)
  }

  /** Some room holds a class at label index `t` of day `d`. */
  predicate Occupied(matrix: Matrix, t: nat, d: nat)
    requires |matrix| > 0 && RowOf(d, t) < |matrix|
  {
    exists j :: 0 <= j < |matrix[0]| && j < |matrix[RowOf(d, t)]| && matrix[RowOf(d, t)][j].Some?
  }

  /** `grid[t][d]`: the first occupied room of the row, nothing on Saturday. */
  function GridAt(matrix: Matrix, labelCount: nat, t: nat, d: nat): (r: Option<(nat, nat)>)
    requires Readable(matrix, labelCount) && t < labelCount && d <= Saturday
    ensures r.Some? ==> d < Saturday && r.value.1 < |matrix[0]| && matrix[RowOf(d, t)][r.value.1] == Some(r.value.0)
    ensures d < Saturday ==> (r.Some? <==> Occupied(matrix, t, d))
  {
    if d == Saturday then None
    else
      assert |matrix[RowOf(d, t)]| >= |matrix[0]|;
      FirstOccupied(matrix[RowOf(d, t)], |matrix[0]|, 0)
  }

  // ---------------------------------------------------------------------------
  // `_matrix_to_simple_table`
  // ---------------------------------------------------------------------------

  /** A row of the simple table: the label, then `X` or `-` per day, Saturday always `-`. */
  function SimpleRow(matrix: Matrix, labelCount: nat, time: string, t: nat): (r: seq<string>)
    requires Readable(matrix, labelCount) && t < labelCount
    ensures |r| == 1 + |Days| && r[0] == time && r[1 + Saturday] == "-"
    ensures forall d :: 0 <= d < TeachingDays ==> (r[1 + d] == "X" <==> Occupied(matrix, t, d)) && r[1 + d] in {"X", "-"}
  {
    [time] + seq(|Days|, d requires 0 <= d < |Days| => if GridAt(matrix, labelCount, t, d).Some? then "X" else "-")
  }

  /** The table both front ends export: a header, then one row per label. */
  function SimpleTable(matrix: Matrix, labels: seq<string>): (r: seq<seq<string>>)
    requires Readable(matrix, |labels|)
    ensures |r| == 1 + |labels| && r[0] == ["Time"] + Days
    ensures forall t :: 0 <= t < |labels| ==> r[1 + t] == SimpleRow(matrix, |labels|, labels[t], t)
  {
    [["Time"] + Days] + seq(|labels|, t requires 0 <= t < |labels| => SimpleRow(matrix, |labels|, labels[t], t))
  }

  function LabelTexts(labels: seq<TimeGrid.Label>): (r: seq<string>)
    ensures |r| == |labels| && forall i :: 0 <= i < |labels| ==> r[i] == TimeGrid.LabelText(labels[i])
  {
    seq(|labels|, i requires 0 <= i < |labels| => TimeGrid.LabelText(labels[i]))
  }

  /** `_matrix_to_simple_table` of webapp/app.py: the labels are those of the configured
      day with the default break lengths. */
  function AppSimpleTable(matrix: Matrix, start: TimeGrid.Clock, end: TimeGrid.Clock): (r: seq<seq<string>>)
    requires TimeGrid.ValidClock(start) && TimeGrid.ValidClock(end)
    requires Readable(matrix, |TimeGrid.TimeLabels(start, end, 15, 45)|)
    ensures |r| == 1 + |TimeGrid.TimeLabels(start, end, 15, 45)|
    ensures forall i :: 1 <= i < |r| ==> |r[i]| == 1 + |Days| && r[i][0] == TimeGrid.LabelText(TimeGrid.TimeLabels(start, end, 15, 45)[i - 1])
  {
    var labels := TimeGrid.TimeLabels(start, end, 15, 45);
    var texts := LabelTexts(labels);
    var r := SimpleTable(matrix, texts);
    forall i | 1 <= i < |r| ensures |r[i]| == 1 + |Days| && r[i][0] == TimeGrid.LabelText(labels[i - 1]) {
      assert r[i] == SimpleRow(matrix, |texts|, texts[i - 1], i - 1);
    }
    r
  }

  /** `_matrix_to_simple_table` of the simple router: one row per whole hour. */
  function RouterSimpleTable(matrix: Matrix, startHour: int, startMinute: int, endHour: int): (r: seq<seq<string>>)
    requires Readable(matrix, |TimeGrid.SimpleTimeLabels(startHour, startMinute, endHour)|)
    ensures |r| == 1 + (if startHour < endHour then endHour - startHour else 0)
    ensures forall i :: 1 <= i < |r| ==> |r[i]| == 1 + |Days| && r[i][0] == TimeGrid.HourLabel(startHour + i - 1, startMinute)
  {
    var labels := TimeGrid.SimpleTimeLabels(startHour, startMinute, endHour);
    var r := SimpleTable(matrix, labels);
    forall i | 1 <= i < |r| ensures |r[i]| == 1 + |Days| && r[i][0] == TimeGrid.HourLabel(startHour + i - 1, startMinute) {
      assert r[i] == SimpleRow(matrix, |labels|, labels[i - 1], i - 1);
    }
    r
  }

  // ---------------------------------------------------------------------------
  // `_matrix_to_day_grid`
  // ---------------------------------------------------------------------------

  datatype GridCell = Free | Skip | Session(text: string, room: string, rowspan: nat) | Break(text: string)

  datatype GridRow = GridRow(time: string, cells: seq<GridCell>)

  datatype DayGrid = DayGrid(days: seq<string>, rows: seq<GridRow>)

  /** Label index `k` of day `d` shows class `ci`. */
  predicate Shows(matrix: Matrix, labelCount: nat, k: nat, d: nat, ci: nat)
    requires Readable(matrix, labelCount) && d <= Saturday
  {
    k < labelCount && GridAt(matrix, labelCount, k, d).Some? && GridAt(matrix, labelCount, k, d).value.0 == ci
  }

  /** The rowspan loop: how many label indices from `k` on keep showing class `ci`. */
  function Run(matrix: Matrix, labelCount: nat, k: nat, d: nat, ci: nat): (r: nat)
    requires Readable(matrix, labelCount) && d <= Saturday
    ensures k <= labelCount ==> k + r <= labelCount
    ensures forall i :: k <= i < k + r ==> Shows(matrix, labelCount, i, d, ci)
    ensures !Shows(matrix, labelCount, k + r, d, ci)
    decreases labelCount - k
  {
    if Shows(matrix, labelCount, k, d, ci) then 1 + Run(matrix, labelCount, k + 1, d, ci) else 0
  }

  /** The cell of label index `t`, day `d`, before the break rows are written over. */
  function CellAt(matrix: Matrix, classes: seq<Class>, rooms: seq<Room>, labelCount: nat, t: nat, d: nat): (r: GridCell)
    requires Readable(matrix, labelCount) && t < labelCount && d <= Saturday
    ensures r == Free <==> GridAt(matrix, labelCount, t, d).None?
    ensures r == Skip <==>
      (GridAt(matrix, labelCount, t, d).Some? && t > 0 && Shows(matrix, labelCount, t - 1, d, GridAt(matrix, labelCount, t, d).value.0))
    ensures !r.Break?
  {
    match GridAt(matrix, labelCount, t, d)
    case None => Free
    case Some((ci, col)) =>
      if t > 0 && Shows(matrix, labelCount, t - 1, d, ci) then Skip
      else
        var subject := if ci < |classes| then classes[ci].subject else "";
        var room := if col < |rooms| then rooms[col].name else "";
        var span := if ci < |classes| && classes[ci].kind == LabKind then 1 + Run(matrix, labelCount, t + 1, d, ci) else 1;
        Session(subject, room, span)
  }

  /** `BREAK (n min)`, or `BREAK` when the break is zero minutes. */
  function BreakText(minutes: int): string {
    if minutes == 0 then "BREAK"
    else "BREAK (" + (if minutes < 0 then "-" + NatToString(-minutes) else NatToString(minutes)) + " min)"
  }

  /** Label index `t` is drawn as a break row. */
  predicate BreakRow(t: nat) {
    t == TimeGrid.ShortBreakSlot || t == TimeGrid.LunchSlot
  }

  /** `_matrix_to_day_grid` with the labels of the configured day: one row per label with a
      cell per day; rows 2 and 4, when present, are written over with break text. */
  function DayGridOf(matrix: Matrix, classes: seq<Class>, rooms: seq<Room>, labels: seq<string>, short: int, lunch: int): (r: DayGrid)
    requires Readable(matrix, |labels|)
    ensures r.days == Days && |r.rows| == |labels|
    ensures forall t :: 0 <= t < |labels| ==> r.rows[t].time == labels[t] && |r.rows[t].cells| == |Days|
    ensures forall t :: 0 <= t < |labels| && BreakRow(t) ==>
      r.rows[t].cells == seq(|Days|, _ => Break(BreakText(if t == TimeGrid.ShortBreakSlot then short else lunch)))
    ensures forall t, d :: 0 <= t < |labels| && !BreakRow(t) && 0 <= d < |Days| ==>
      r.rows[t].cells[d] == CellAt(matrix, classes, rooms, |labels|, t, d)
  {
    var n := |labels|;
    var rows := seq(n, t requires 0 <= t < n =>
      GridRow(labels[t],
        if t == TimeGrid.ShortBreakSlot then seq(|Days|, _ => Break(BreakText(short)))
        else if t == TimeGrid.LunchSlot then seq(|Days|, _ => Break(BreakText(lunch)))
        else seq(|Days|, d requires 0 <= d < |Days| => CellAt(matrix, classes, rooms, n, t, d))));
    DayGrid(Days, rows)
  }

  /** Saturday is free on every row that is not a break. */
  lemma SaturdayFree(matrix: Matrix, classes: seq<Class>, rooms: seq<Room>, labels: seq<string>, short: int, lunch: int, t: nat)
    requires Readable(matrix, |labels|) && t < |labels| && !BreakRow(t)
    ensures DayGridOf(matrix, classes, rooms, labels, short, lunch).rows[t].cells[Saturday] == Free
  {
  }

  /** A lab's rowspan covers exactly the cells below it that are skipped: every row it
      spans shows the same class and is drawn as `SKIP`, and the row after it is not. */
  lemma SpanCoversSkips(matrix: Matrix, classes: seq<Class>, rooms: seq<Room>, labelCount: nat, t: nat, d: nat)
    requires Readable(matrix, labelCount) && t < labelCount && d < Saturday
    requires var c := CellAt(matrix, classes, rooms, labelCount, t, d);
      c.Session? && GridAt(matrix, labelCount, t, d).value.0 < |classes| && classes[GridAt(matrix, labelCount, t, d).value.0].kind == LabKind
    ensures var c := CellAt(matrix, classes, rooms, labelCount, t, d);
      && t + c.rowspan <= labelCount
      && (forall k :: t < k < t + c.rowspan ==> CellAt(matrix, classes, rooms, labelCount, k, d) == Skip)
      && (t + c.rowspan < labelCount ==> CellAt(matrix, classes, rooms, labelCount, t + c.rowspan, d) != Skip)
  {
    SpanSkips(matrix, classes, rooms, labelCount, t, d);
    SpanEnds(matrix, classes, rooms, labelCount, t, d);
  }

  /** Every row a lab's rowspan covers below it is skipped. */
  lemma {:induction false} SpanSkips(matrix: Matrix, classes: seq<Class>, rooms: seq<Room>, labelCount: nat, t: nat, d: nat)
    requires Readable(matrix, labelCount) && t < labelCount && d < Saturday
    requires var c := CellAt(matrix, classes, rooms, labelCount, t, d);
      c.Session? && GridAt(matrix, labelCount, t, d).value.0 < |classes| && classes[GridAt(matrix, labelCount, t, d).value.0].kind == LabKind
    ensures var c := CellAt(matrix, classes, rooms, labelCount, t, d);
      && t + c.rowspan <= labelCount
      && (forall k :: t < k < t + c.rowspan ==> CellAt(matrix, classes, rooms, labelCount, k, d) == Skip)
  {
    var ci := GridAt(matrix, labelCount, t, d).value.0;
    var span := 1 + Run(matrix, labelCount, t + 1, d, ci);
    forall k | t < k < t + span ensures CellAt(matrix, classes, rooms, labelCount, k, d) == Skip {
      assert Shows(matrix, labelCount, k, d, ci);
      assert Shows(matrix, labelCount, k - 1, d, ci) by {
        if k - 1 > t {
          assert t + 1 <= k - 1 < t + 1 + Run(matrix, labelCount, t + 1, d, ci);
        }
      }
    }
  }

  /** The row just after a lab's rowspan is not skipped. */
  lemma {:induction false} SpanEnds(matrix: Matrix, classes: seq<Class>, rooms: seq<Room>, labelCount: nat, t: nat, d: nat)
    requires Readable(matrix, labelCount) && t < labelCount && d < Saturday
    requires var c := CellAt(matrix, classes, rooms, labelCount, t, d);
      c.Session? && GridAt(matrix, labelCount, t, d).value.0 < |classes| && classes[GridAt(matrix, labelCount, t, d).value.0].kind == LabKind
    ensures var c := CellAt(matrix, classes, rooms, labelCount, t, d);
      t + c.rowspan < labelCount ==> CellAt(matrix, classes, rooms, labelCount, t + c.rowspan, d) != Skip
  {
    var ci := GridAt(matrix, labelCount, t, d).value.0;
    var span := 1 + Run(matrix, labelCount, t + 1, d, ci);
    if t + span < labelCount {
      var k := t + span;
      assert Shows(matrix, labelCount, k - 1, d, ci) by {
        if k - 1 > t {
          assert t + 1 <= k - 1 < t + 1 + Run(matrix, labelCount, t + 1, d, ci);
        }
      }
      assert !Shows(matrix, labelCount, k, d, ci);
    }
  }

}
