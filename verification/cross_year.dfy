/** `_resolve_cross_year_room_conflicts` of webapp/app.py: several years are scheduled
    separately over the same rooms; the years are then visited row by row in order, and a
    block of a later year that starts in a room column an earlier year already uses at
    that row (with a room of the same type) is relocated to another allowed room, or
    shifted a few slots later in the same day, or reported.

    The years are identified by their position in the list; each has its own matrix and
    its own classes and rooms. The matrices are updated in place by the source; here they
    are threaded through the passes. */
module CrossYear {
  import opened Model

  /** What the resolver reads of one year's data. */
  datatype YearData = YearData(classes: seq<Class>, rooms: seq<Room>)

  /** "Room conflict at row r could not be resolved for y". */
  datatype Warning = Unresolved(row: nat, year: nat)

  /** What became of the cell visited at one (row, column). */
  datatype Outcome = Kept | Moved(column: nat) | Shifted(row: nat) | Stuck

  /** The shift tries at most the next three slots of the day ... */
  const ShiftReach: nat := 4
  /** ... and only for sessions of at most three slots. */
  const ShortSession: nat := 3

  /** The type of the room a column stands for, when the year has such a room. */
  function RoomType(d: YearData, z: nat): Option<char> {
    if z < |d.rooms| then Some(d.rooms[z].kind) else None
  }

  // ---------------------------------------------------------------------------
  // Shapes
  // ---------------------------------------------------------------------------

  /** Every booked cell names one of the year's classes. */
  predicate CellsValid(m: Matrix, d: YearData) {
    forall x, z :: 0 <= x < |m| && 0 <= z < |m[x]| && m[x][z].Some? ==> m[x][z].value < |d.classes|
  }

  /** Every room a class may use is a column. */
  predicate RoomsInRange(d: YearData, cols: nat) {
    forall k, j :: 0 <= k < |d.classes| && 0 <= j < |d.classes[k].classrooms| ==> d.classes[k].classrooms[j] < cols
  }

  predicate YearShape(m: Matrix, d: YearData, rows: nat, cols: nat) {
    |m| == rows && Columns(m, cols) && CellsValid(m, d) && RoomsInRange(d, cols)
  }

  /** All years share one shape, whole days of twelve rows. */
  predicate Shaped(ms: seq<Matrix>, ds: seq<YearData>, rows: nat, cols: nat) {
    && |ms| == |ds|
    && rows % SlotsPerDay == 0
    && forall y :: 0 <= y < |ms| ==> YearShape(ms[y], ds[y], rows, cols)
  }

  function Width(m: Matrix): nat {
    if |m| > 0 then |m[0]| else 0
  }

  // ---------------------------------------------------------------------------
  // Taken columns
  // ---------------------------------------------------------------------------

  /** Some year before `y` books column `z` of row `x` with a room that is not of type
      `other`: the column is in the taken set of the other type. */
  predicate HeldBefore(ms: seq<Matrix>, ds: seq<YearData>, rows: nat, cols: nat, y: nat, x: nat, z: nat, other: char)
    requires Shaped(ms, ds, rows, cols) && y <= |ms| && x < rows && z < cols
  {
    exists p :: 0 <= p < y && ms[p][x][z].Some? && RoomType(ds[p], z) != Some(other)
  }

  /** The conflict test: a lab column clashes with the taken labs, a classroom column
      with the taken classrooms, a column of unknown type with either; a room of any
      other type never clashes. */
  function Conflict(t: Option<char>, inClassrooms: bool, inLabs: bool): (b: bool)
    ensures t == Some(LabTag) ==> (b <==> inLabs)
    ensures t == Some(ClassroomTag) ==> (b <==> inClassrooms)
    ensures t.None? ==> (b <==> inClassrooms || inLabs)
    ensures !inClassrooms && !inLabs ==> !b
  {
    match t
    case None => inClassrooms || inLabs
    case Some(k) => if k == LabTag then inLabs else if k == ClassroomTag then inClassrooms else false
  }

  /** Column `z` of year `y` is taken, at row `x`, by an earlier year with a room of the
      same type. */
  predicate Taken(ms: seq<Matrix>, ds: seq<YearData>, rows: nat, cols: nat, y: nat, x: nat, z: nat)
    requires Shaped(ms, ds, rows, cols) && y < |ms| && x < rows && z < cols
  {
    Conflict(RoomType(ds[y], z),
             HeldBefore(ms, ds, rows, cols, y, x, z, LabTag),
             HeldBefore(ms, ds, rows, cols, y, x, z, ClassroomTag))
  }

  /** An earlier year books column `z` of row `x` and the two rooms are not known to be
      of different types. */
  predicate BlockedBefore(ms: seq<Matrix>, ds: seq<YearData>, rows: nat, cols: nat, y: nat, x: nat, z: nat)
    requires Shaped(ms, ds, rows, cols) && y < |ms| && x < rows && z < cols
  {
    exists p :: 0 <= p < y && ms[p][x][z].Some? &&
      !(RoomType(ds[y], z).Some? && RoomType(ds[p], z).Some? && RoomType(ds[y], z) != RoomType(ds[p], z))
  }

  /** No earlier year books column `z` of row `x`. */
  predicate EmptyBefore(ms: seq<Matrix>, ds: seq<YearData>, rows: nat, cols: nat, y: nat, x: nat, z: nat)
    requires Shaped(ms, ds, rows, cols) && y < |ms| && x < rows && z < cols
  {
    forall p :: 0 <= p < y ==> ms[p][x][z].None?
  }

  // ---------------------------------------------------------------------------
  // Relocation to another room
  // ---------------------------------------------------------------------------

  /** Column `nc` can take a block of `dur` rows starting at row `r`: the rows exist, are
      empty in this year, and no earlier year blocks them. */
  predicate ColumnFits(m: Matrix, ms: seq<Matrix>, ds: seq<YearData>, rows: nat, cols: nat,
                       y: nat, r: nat, dur: nat, nc: nat)
    requires Shaped(ms, ds, rows, cols) && y < |ms| && YearShape(m, ds[y], rows, cols) && nc < cols
  {
    && r + dur <= rows
    && forall x :: r <= x < r + dur ==> m[x][nc].None? && !BlockedBefore(ms, ds, rows, cols, y, x, nc)
  }

  predicate Usable(m: Matrix, ms: seq<Matrix>, ds: seq<YearData>, rows: nat, cols: nat,
                   y: nat, r: nat, dur: nat, nc: nat)
    requires Shaped(ms, ds, rows, cols) && y < |ms| && YearShape(m, ds[y], rows, cols) && r < rows && nc < cols
  {
    !Taken(ms, ds, rows, cols, y, r, nc) && ColumnFits(m, ms, ds, rows, cols, y, r, dur, nc)
  }

  /** The loop over the class's rooms, from position `k`: the first usable one. */
  function FindColumn(m: Matrix, ms: seq<Matrix>, ds: seq<YearData>, rows: nat, cols: nat,
                      y: nat, r: nat, dur: nat, cands: seq<nat>, k: nat): (o: Option<nat>)
    requires Shaped(ms, ds, rows, cols) && y < |ms| && YearShape(m, ds[y], rows, cols) && r < rows
    requires forall j :: 0 <= j < |cands| ==> cands[j] < cols
    ensures o.Some? ==> k <= o.value < |cands| && Usable(m, ms, ds, rows, cols, y, r, dur, cands[o.value])
    ensures o.Some? ==> forall j :: k <= j < o.value ==> !Usable(m, ms, ds, rows, cols, y, r, dur, cands[j])
    ensures o.None? ==> forall j :: k <= j < |cands| ==> !Usable(m, ms, ds, rows, cols, y, r, dur, cands[j])
    decreases |cands| - k
  {
    if k >= |cands| then None
    else if Usable(m, ms, ds, rows, cols, y, r, dur, cands[k]) then Some(k)
    else FindColumn(m, ms, ds, rows, cols, y, r, dur, cands, k + 1)
  }

  // ---------------------------------------------------------------------------
  // Shift to a later slot
  // ---------------------------------------------------------------------------

  /** Rows `a .. a+dur-1` of column `c` are empty in this year and in every earlier one. */
  predicate AltFits(m: Matrix, ms: seq<Matrix>, ds: seq<YearData>, rows: nat, cols: nat,
                    y: nat, c: nat, a: nat, dur: nat)
    requires Shaped(ms, ds, rows, cols) && y < |ms| && YearShape(m, ds[y], rows, cols) && c < cols
    requires a + dur <= rows
  {
    forall x :: a <= x < a + dur ==> m[x][c].None? && EmptyBefore(ms, ds, rows, cols, y, x, c)
  }

  /** A later start `b` the shift may try: within three slots, in the same day, with the
      whole block inside the day. */
  predicate ShiftCandidate(r: nat, b: nat, dur: nat) {
    r < b < r + ShiftReach && b / SlotsPerDay == r / SlotsPerDay &&
    b + dur <= (r / SlotsPerDay + 1) * SlotsPerDay
  }

  lemma CandidateInRange(r: nat, b: nat, dur: nat, rows: nat)
    requires r < rows && rows % SlotsPerDay == 0 && ShiftCandidate(r, b, dur)
    ensures b + dur <= rows
  {
    var day := r / SlotsPerDay;
    var days := rows / SlotsPerDay;
    assert rows == days * SlotsPerDay;
    assert day * SlotsPerDay <= r;
    assert day < days;
  }

  /** The loop over `alt_slot` from slot `s` of the day of row `r`: the first later start
      whose block fits. */
  function FindShift(m: Matrix, ms: seq<Matrix>, ds: seq<YearData>, rows: nat, cols: nat,
                     y: nat, r: nat, c: nat, dur: nat, s: nat): (o: Option<nat>)
    requires Shaped(ms, ds, rows, cols) && y < |ms| && YearShape(m, ds[y], rows, cols)
    requires r < rows && c < cols && r % SlotsPerDay < s
    ensures o.Some? ==> ShiftCandidate(r, o.value, dur) && o.value % SlotsPerDay >= s
    ensures o.Some? ==> o.value + dur <= rows && AltFits(m, ms, ds, rows, cols, y, c, o.value, dur)
    ensures o.Some? ==> forall b: nat :: r < b < o.value && b % SlotsPerDay >= s && ShiftCandidate(r, b, dur) ==>
      b + dur <= rows && !AltFits(m, ms, ds, rows, cols, y, c, b, dur)
    ensures o.None? ==> forall b: nat :: ShiftCandidate(r, b, dur) && b % SlotsPerDay >= s ==>
      b + dur <= rows && !AltFits(m, ms, ds, rows, cols, y, c, b, dur)
    decreases SlotsPerDay - s
  {
    var day := r / SlotsPerDay;
    var slot := r % SlotsPerDay;
    var a := day * SlotsPerDay + s;
    if s >= SlotsPerDay || s >= slot + ShiftReach then
      None
    else if a + dur > (day + 1) * SlotsPerDay then
      None
    else
      assert ShiftCandidate(r, a, dur);
      CandidateInRange(r, a, dur, rows);
      if AltFits(m, ms, ds, rows, cols, y, c, a, dur) then Some(a)
      else
        var o := FindShift(m, ms, ds, rows, cols, y, r, c, dur, s + 1);
        forall b: nat | ShiftCandidate(r, b, dur) && b % SlotsPerDay == s
          ensures b == a
        {
        }
        forall b: nat | ShiftCandidate(r, b, dur) && b % SlotsPerDay >= s
          ensures b + dur <= rows
        {
          CandidateInRange(r, b, dur, rows);
        }
        o
  }

  // ---------------------------------------------------------------------------
  // Cell writes
  // ---------------------------------------------------------------------------

  function Set(m: Matrix, x: nat, z: nat, v: Cell): (r: Matrix)
    requires x < |m| && z < |m[x]|
    ensures |r| == |m| && forall i :: 0 <= i < |m| ==> |r[i]| == |m[i]|
    ensures r[x][z] == v
    ensures forall i, j :: 0 <= i < |m| && 0 <= j < |m[i]| && (i != x || j != z) ==> r[i][j] == m[i][j]
  {
    m[x := m[x][z := v]]
  }

  /** The relocation loop from step `i`: each row of the block is written into column
      `to` and then cleared in column `from`. */
  function MoveCells(m: Matrix, cols: nat, r: nat, dur: nat, from: nat, to: nat, ci: nat, i: nat): (res: Matrix)
    requires Columns(m, cols) && r + dur <= |m| && from < cols && to < cols
    ensures |res| == |m| && Columns(res, cols)
    ensures forall x, z :: 0 <= x < |m| && 0 <= z < cols ==>
      res[x][z] == (if z == from && r + i <= x < r + dur then None
                    else if z == to && r + i <= x < r + dur then Some(ci)
                    else m[x][z])
    decreases dur - i
  {
    if i >= dur then m
    else
      var m1 := Set(m, r + i, to, Some(ci));
      var m2 := Set(m1, r + i, from, None);
      MoveCells(m2, cols, r, dur, from, to, ci, i + 1)
  }

  /** The shift loop from step `i`: each row is written at the new start and then cleared
      at the old one, so rows the two blocks share end up empty. */
  function ShiftCells(m: Matrix, cols: nat, r: nat, a: nat, dur: nat, c: nat, ci: nat, i: nat): (res: Matrix)
    requires Columns(m, cols) && r < a && a + dur <= |m| && c < cols
    ensures |res| == |m| && Columns(res, cols)
    ensures forall x, z :: 0 <= x < |m| && 0 <= z < cols ==>
      res[x][z] == (if z == c && r + i <= x < r + dur then None
                    else if z == c && a + i <= x < a + dur then Some(ci)
                    else m[x][z])
    decreases dur - i
  {
    if i >= dur then m
    else
      var m1 := Set(m, a + i, c, Some(ci));
      var m2 := Set(m1, r + i, c, None);
      ShiftCells(m2, cols, r, a, dur, c, ci, i + 1)
  }

  // ---------------------------------------------------------------------------
  // One cell
  // ---------------------------------------------------------------------------

  /** The cell starts a block: it is booked, and the row above does not hold the same class. */
  predicate StartsBlock(m: Matrix, r: nat, c: nat)
    requires r < |m| && c < |m[r]| && (r > 0 ==> c < |m[r - 1]|)
  {
    m[r][c].Some? && !(r > 0 && m[r - 1][c] == m[r][c])
  }

  predicate Clash(m: Matrix, ms: seq<Matrix>, ds: seq<YearData>, rows: nat, cols: nat, y: nat, r: nat, c: nat)
    requires Shaped(ms, ds, rows, cols) && y < |ms| && YearShape(m, ds[y], rows, cols) && r < rows && c < cols
  {
    StartsBlock(m, r, c) && Taken(ms, ds, rows, cols, y, r, c)
  }

  function SessionOf(m: Matrix, ds: seq<YearData>, rows: nat, cols: nat, y: nat, r: nat, c: nat): Class
    requires y < |ds| && YearShape(m, ds[y], rows, cols) && r < rows && c < cols && m[r][c].Some?
  {
    ds[y].classes[m[r][c].value]
  }

  /** No room of the session can take the block. */
  predicate NoColumn(m: Matrix, ms: seq<Matrix>, ds: seq<YearData>, rows: nat, cols: nat, y: nat, r: nat, c: nat)
    requires Shaped(ms, ds, rows, cols) && y < |ms| && YearShape(m, ds[y], rows, cols) && r < rows && c < cols
    requires m[r][c].Some?
  {
    var cl := SessionOf(m, ds, rows, cols, y, r, c);
    forall j :: 0 <= j < |cl.classrooms| ==> !Usable(m, ms, ds, rows, cols, y, r, cl.duration, cl.classrooms[j])
  }

  /** No later start of the same day can take the block, or the session is too long to
      be shifted. */
  ghost predicate NoShift(m: Matrix, ms: seq<Matrix>, ds: seq<YearData>, rows: nat, cols: nat, y: nat, r: nat, c: nat)
    requires Shaped(ms, ds, rows, cols) && y < |ms| && YearShape(m, ds[y], rows, cols) && r < rows && c < cols
    requires m[r][c].Some?
  {
    var dur := SessionOf(m, ds, rows, cols, y, r, c).duration;
    dur > ShortSession ||
    forall b: nat :: ShiftCandidate(r, b, dur) ==> b + dur <= rows && !AltFits(m, ms, ds, rows, cols, y, c, b, dur)
  }

  /** The block occupies its `dur` rows of column `c` from row `r`. */
  predicate Intact(m: Matrix, r: nat, c: nat, dur: nat)
    requires r < |m| && r + dur <= |m| && forall x :: 0 <= x < |m| ==> c < |m[x]|
  {
    forall x :: r <= x < r + dur ==> m[x][c] == m[r][c]
  }

  /** The block of a clashing cell once no room can take it: shifted to the first later
      start of the day that fits when the session is short, otherwise left and reported. */
  function ShiftOrStay(m: Matrix, ms: seq<Matrix>, ds: seq<YearData>, rows: nat, cols: nat,
                       y: nat, r: nat, c: nat): (res: (Matrix, Outcome))
    requires Shaped(ms, ds, rows, cols) && y < |ms| && YearShape(m, ds[y], rows, cols) && r < rows && c < cols
    requires m[r][c].Some?
    ensures YearShape(res.0, ds[y], rows, cols)
    ensures res.1.Shifted? || res.1.Stuck?
    ensures res.1.Stuck? ==> res.0 == m
    ensures res.1.Stuck? <==> NoShift(m, ms, ds, rows, cols, y, r, c)
    ensures res.1.Shifted? ==>
      var dur := SessionOf(m, ds, rows, cols, y, r, c).duration;
      && dur <= ShortSession && ShiftCandidate(r, res.1.row, dur)
      && res.1.row + dur <= rows && AltFits(m, ms, ds, rows, cols, y, c, res.1.row, dur)
      && (Intact(m, r, c, dur) ==>
            forall x :: 0 <= x < rows ==>
              res.0[x][c] == (if r <= x < r + dur then None
                              else if res.1.row <= x < res.1.row + dur then m[r][c]
                              else m[x][c]))
  {
    var ci := m[r][c].value;
    var dur := ds[y].classes[ci].duration;
    if dur <= ShortSession then
      match FindShift(m, ms, ds, rows, cols, y, r, c, dur, r % SlotsPerDay + 1)
      case Some(a) =>
        var m1 := ShiftCells(m, cols, r, a, dur, c, ci, 0);
        assert YearShape(m1, ds[y], rows, cols) by {
          forall x, z | 0 <= x < |m1| && 0 <= z < |m1[x]| && m1[x][z].Some?
            ensures m1[x][z].value < |ds[y].classes|
          {
          }
        }
        ShiftedExact(m, ms, ds, rows, cols, y, r, c, a, dur, m1);
        (m1, Shifted(a))
      case None =>
        ShiftCandidatesFrom(r, dur);
        (m, Stuck)
    else (m, Stuck)
  }

  /** The block of a clashing cell: moved to the first of the session's rooms that can
      take it, or else handed to the shift. */
  function Relocate(m: Matrix, ms: seq<Matrix>, ds: seq<YearData>, rows: nat, cols: nat,
                    y: nat, r: nat, c: nat): (res: (Matrix, Outcome))
    requires Shaped(ms, ds, rows, cols) && y < |ms| && YearShape(m, ds[y], rows, cols) && r < rows && c < cols
    requires Clash(m, ms, ds, rows, cols, y, r, c)
    ensures YearShape(res.0, ds[y], rows, cols)
    ensures !res.1.Kept?
    ensures res.1.Moved? <==> !NoColumn(m, ms, ds, rows, cols, y, r, c)
    ensures !res.1.Moved? ==> res == ShiftOrStay(m, ms, ds, rows, cols, y, r, c)
    ensures res.1.Moved? ==>
      var cl := SessionOf(m, ds, rows, cols, y, r, c);
      && res.1.column in cl.classrooms && res.1.column != c
      && ColumnFits(m, ms, ds, rows, cols, y, r, cl.duration, res.1.column)
      && forall x :: r <= x < r + cl.duration ==>
           res.0[x][res.1.column] == m[r][c] && res.0[x][c].None?
  {
    var ci := m[r][c].value;
    var cl := ds[y].classes[ci];
    match FindColumn(m, ms, ds, rows, cols, y, r, cl.duration, cl.classrooms, 0)
    case Some(k) =>
      var nc := cl.classrooms[k];
      var m1 := MoveCells(m, cols, r, cl.duration, c, nc, ci, 0);
      assert YearShape(m1, ds[y], rows, cols) by {
        forall x, z | 0 <= x < |m1| && 0 <= z < |m1[x]| && m1[x][z].Some?
          ensures m1[x][z].value < |ds[y].classes|
        {
        }
      }
      (m1, Moved(nc))
    case None =>
      ShiftOrStay(m, ms, ds, rows, cols, y, r, c)
  }

  /** The body of the column loop for cell (r, c) of year `y`: a cell that does not clash
      is kept; one that clashes is moved, shifted or reported, and reported exactly when
      neither a room nor a later start can take it. */
  function HandleCell(m: Matrix, ms: seq<Matrix>, ds: seq<YearData>, rows: nat, cols: nat,
                      y: nat, r: nat, c: nat): (res: (Matrix, Outcome))
    requires Shaped(ms, ds, rows, cols) && y < |ms| && YearShape(m, ds[y], rows, cols) && r < rows && c < cols
    ensures YearShape(res.0, ds[y], rows, cols)
  {
    if !Clash(m, ms, ds, rows, cols, y, r, c) then (m, Kept)
    else Relocate(m, ms, ds, rows, cols, y, r, c)
  }

  /** What handling a cell does: it is kept exactly when it does not start a clashing
      block; a kept or stuck block leaves the matrix as it was; and it is stuck exactly
      when it clashes and neither a room nor a later start can take it. */
  lemma HandleCellOutcome(m: Matrix, ms: seq<Matrix>, ds: seq<YearData>, rows: nat, cols: nat,
                          y: nat, r: nat, c: nat)
    requires Shaped(ms, ds, rows, cols) && y < |ms| && YearShape(m, ds[y], rows, cols) && r < rows && c < cols
    ensures var res := HandleCell(m, ms, ds, rows, cols, y, r, c);
            && (res.1.Kept? <==> !Clash(m, ms, ds, rows, cols, y, r, c))
            && (res.1.Kept? || res.1.Stuck? ==> res.0 == m)
            && (res.1.Stuck? <==>
                  Clash(m, ms, ds, rows, cols, y, r, c) && NoColumn(m, ms, ds, rows, cols, y, r, c) &&
                  NoShift(m, ms, ds, rows, cols, y, r, c))
  {
  }

  /** Every shift candidate lies after the row's own slot. */
  lemma ShiftCandidatesFrom(r: nat, dur: nat)
    ensures forall b: nat :: ShiftCandidate(r, b, dur) ==> b % SlotsPerDay >= r % SlotsPerDay + 1
  {
  }

  /** An intact block and a free target share no rows, so the shift moves it whole. */
  lemma ShiftedExact(m: Matrix, ms: seq<Matrix>, ds: seq<YearData>, rows: nat, cols: nat,
                     y: nat, r: nat, c: nat, a: nat, dur: nat, m1: Matrix)
    requires Shaped(ms, ds, rows, cols) && y < |ms| && YearShape(m, ds[y], rows, cols) && r < rows && c < cols
    requires m[r][c].Some? && r < a && a + dur <= rows && AltFits(m, ms, ds, rows, cols, y, c, a, dur)
    requires m1 == ShiftCells(m, cols, r, a, dur, c, m[r][c].value, 0)
    ensures Intact(m, r, c, dur) ==>
      forall x :: 0 <= x < rows ==>
        m1[x][c] == (if r <= x < r + dur then None else if a <= x < a + dur then m[r][c] else m[x][c])
  {
    if Intact(m, r, c, dur) && dur > 0 {
      if a < r + dur {
        assert m[a][c] == m[r][c];
        assert m[a][c].None?;
      }
    }
  }

  // ---------------------------------------------------------------------------
  // Turns
  // ---------------------------------------------------------------------------

  /** The turn of cell (row, col) of year `year`: the year's matrix and all years'
      matrices as they stand when the loops reach the cell, and what became of it. */
  datatype Visit = Visit(row: nat, year: nat, col: nat, m: Matrix, ms: seq<Matrix>, outcome: Outcome)

  /** The turn handled its cell on the matrices it records. */
  predicate Handled(v: Visit, ds: seq<YearData>, rows: nat, cols: nat) {
    && Shaped(v.ms, ds, rows, cols) && v.year < |v.ms| && YearShape(v.m, ds[v.year], rows, cols)
    && v.row < rows && v.col < cols
    && v.outcome == HandleCell(v.m, v.ms, ds, rows, cols, v.year, v.row, v.col).1
  }

  /** What a turn means: kept exactly when its cell does not start a clashing block;
      moved or shifted exactly when it does and a room or a later start can take the
      block; stuck exactly when neither can. */
  ghost predicate Resolved(v: Visit, ds: seq<YearData>, rows: nat, cols: nat)
    requires Handled(v, ds, rows, cols)
  {
    var clash := Clash(v.m, v.ms, ds, rows, cols, v.year, v.row, v.col);
    && (v.outcome.Kept? <==> !clash)
    && (v.outcome.Moved? || v.outcome.Shifted? <==>
          clash && !(NoColumn(v.m, v.ms, ds, rows, cols, v.year, v.row, v.col) && NoShift(v.m, v.ms, ds, rows, cols, v.year, v.row, v.col)))
    && (v.outcome.Stuck? <==>
          clash && NoColumn(v.m, v.ms, ds, rows, cols, v.year, v.row, v.col) && NoShift(v.m, v.ms, ds, rows, cols, v.year, v.row, v.col))
  }

  lemma HandledResolved(v: Visit, ds: seq<YearData>, rows: nat, cols: nat)
    requires Handled(v, ds, rows, cols)
    ensures Resolved(v, ds, rows, cols)
  {
    HandleCellOutcome(v.m, v.ms, ds, rows, cols, v.year, v.row, v.col);
  }

  /** Turn `v` comes before turn `w` in loop order: rows, then years, then columns. */
  predicate Earlier(v: Visit, w: Visit) {
    v.row < w.row || (v.row == w.row && (v.year < w.year || (v.year == w.year && v.col < w.col)))
  }

  predicate InOrder(vs: seq<Visit>) {
    forall i, j :: 0 <= i < j < |vs| ==> Earlier(vs[i], vs[j])
  }

  /** Two lists of turns in loop order, every turn of the first before every turn of the
      second, are in loop order together. */
  lemma InOrderAppend(a: seq<Visit>, b: seq<Visit>)
    requires InOrder(a) && InOrder(b)
    requires forall i, j :: 0 <= i < |a| && 0 <= j < |b| ==> Earlier(a[i], b[j])
    ensures InOrder(a + b)
  {
    forall i, j | 0 <= i < j < |a + b| ensures Earlier((a + b)[i], (a + b)[j]) {
      if j < |a| {
        assert (a + b)[i] == a[i] && (a + b)[j] == a[j];
      } else if i < |a| {
        assert (a + b)[i] == a[i] && (a + b)[j] == b[j - |a|];
      } else {
        assert (a + b)[i] == b[i - |a|] && (a + b)[j] == b[j - |a|];
      }
    }
  }

  /** The warnings a list of turns gives: one per stuck turn, in order. */
  function Reported(vs: seq<Visit>): (ws: seq<Warning>)
    ensures |ws| <= |vs|
    decreases |vs|
  {
    if |vs| == 0 then []
    else (if vs[0].outcome.Stuck? then [Unresolved(vs[0].row, vs[0].year)] else []) + Reported(vs[1..])
  }

  /** Warning `w` is the one stuck turn `i` gives. */
  predicate ReportsTurn(vs: seq<Visit>, i: int, w: Warning) {
    0 <= i < |vs| && vs[i].outcome.Stuck? && w == Unresolved(vs[i].row, vs[i].year)
  }

  /** A warning is reported exactly for a stuck turn, and names the turn's row and year. */
  lemma {:induction false} ReportedStuck(vs: seq<Visit>)
    ensures forall w :: w in Reported(vs) <==> exists i :: ReportsTurn(vs, i, w)
    decreases |vs|
  {
    if |vs| > 0 {
      ReportedStuck(vs[1..]);
      forall w | w in Reported(vs) ensures exists i :: ReportsTurn(vs, i, w) {
        if vs[0].outcome.Stuck? && w == Unresolved(vs[0].row, vs[0].year) {
          assert ReportsTurn(vs, 0, w);
        } else {
          var i :| ReportsTurn(vs[1..], i, w);
          assert vs[i + 1] == vs[1..][i];
          assert ReportsTurn(vs, i + 1, w);
        }
      }
      forall w, i | ReportsTurn(vs, i, w) ensures w in Reported(vs) {
        if i > 0 {
          assert ReportsTurn(vs[1..], i - 1, w);
        }
      }
    }
  }

  lemma ReportedCons(v: Visit, rest: seq<Visit>)
    ensures Reported([v] + rest) == (if v.outcome.Stuck? then [Unresolved(v.row, v.year)] else []) + Reported(rest)
  {
    assert ([v] + rest)[1..] == rest;
  }

  lemma {:induction false} ReportedAppend(a: seq<Visit>, b: seq<Visit>)
    ensures Reported(a + b) == Reported(a) + Reported(b)
    decreases |a|
  {
    if |a| > 0 {
      assert (a + b)[1..] == a[1..] + b;
      ReportedAppend(a[1..], b);
    } else {
      assert a + b == b;
    }
  }

  /** Turn `w` sees the year's matrix as turn `v` left it, and the same other years. */
  predicate Next(v: Visit, w: Visit, ds: seq<YearData>, rows: nat, cols: nat) {
    Handled(v, ds, rows, cols) && w.ms == v.ms
    && w.m == HandleCell(v.m, v.ms, ds, rows, cols, v.year, v.row, v.col).0
  }

  /** The turns of the column loop of year `y` at row `r`, from column `c`. */
  function ColumnTurns(m: Matrix, ms: seq<Matrix>, ds: seq<YearData>, rows: nat, cols: nat,
                       y: nat, r: nat, c: nat): seq<Visit>
    requires Shaped(ms, ds, rows, cols) && y < |ms| && YearShape(m, ds[y], rows, cols) && r < rows
    requires c <= cols
    decreases cols - c
  {
    if c >= cols then []
    else
      var (m1, o) := HandleCell(m, ms, ds, rows, cols, y, r, c);
      [Visit(r, y, c, m, ms, o)] + ColumnTurns(m1, ms, ds, rows, cols, y, r, c + 1)
  }

  /** `vs` is a column loop's run of year `y` at row `r` from column `c`: one turn per
      column, in order, each handled on the year's matrix as the turn before left it. */
  predicate ColumnRun(vs: seq<Visit>, ms: seq<Matrix>, ds: seq<YearData>, rows: nat, cols: nat, y: nat, r: nat, c: nat) {
    && |vs| == cols - c && InOrder(vs)
    && (forall i :: 0 <= i < |vs| ==>
          vs[i].row == r && vs[i].year == y && vs[i].col == c + i && vs[i].ms == ms && Handled(vs[i], ds, rows, cols))
    && (forall i :: 0 <= i < |vs| - 1 ==> Next(vs[i], vs[i + 1], ds, rows, cols))
  }

  /** The column loop gives one turn per column from `c` on, in order, the first on the
      matrix it starts from and each next one on the matrix the turn before left. */
  lemma {:induction false} ColumnTurnsRun(m: Matrix, ms: seq<Matrix>, ds: seq<YearData>, rows: nat, cols: nat,
                                          y: nat, r: nat, c: nat)
    requires Shaped(ms, ds, rows, cols) && y < |ms| && YearShape(m, ds[y], rows, cols) && r < rows
    requires c <= cols
    ensures var vs := ColumnTurns(m, ms, ds, rows, cols, y, r, c);
            ColumnRun(vs, ms, ds, rows, cols, y, r, c) && (|vs| > 0 ==> vs[0].m == m)
    decreases cols - c
  {
    hide HandleCell;
    if c < cols {
      var (m1, o) := HandleCell(m, ms, ds, rows, cols, y, r, c);
      var rest := ColumnTurns(m1, ms, ds, rows, cols, y, r, c + 1);
      ColumnTurnsRun(m1, ms, ds, rows, cols, y, r, c + 1);
      ColumnCons(Visit(r, y, c, m, ms, o), rest, ms, ds, rows, cols, y, r, c);
    }
  }

  /** A handled turn at column `c` followed by the run from `c + 1` that starts on the
      matrix it leaves is the run from `c`. */
  lemma ColumnCons(v: Visit, rest: seq<Visit>, ms: seq<Matrix>, ds: seq<YearData>, rows: nat, cols: nat, y: nat, r: nat, c: nat)
    requires c < cols && v.row == r && v.year == y && v.col == c && v.ms == ms && Handled(v, ds, rows, cols)
    requires ColumnRun(rest, ms, ds, rows, cols, y, r, c + 1)
    requires |rest| > 0 ==> rest[0].m == HandleCell(v.m, v.ms, ds, rows, cols, v.year, v.row, v.col).0
    ensures ColumnRun([v] + rest, ms, ds, rows, cols, y, r, c)
  {
    hide HandleCell;
    var vs := [v] + rest;
    assert forall i :: 0 < i < |vs| ==> vs[i] == rest[i - 1];
  }

  /** Replacing one year's matrix by one of the same shape keeps all years shaped. */
  lemma ShapedUpdate(ms: seq<Matrix>, ds: seq<YearData>, rows: nat, cols: nat, y: nat, m: Matrix)
    requires Shaped(ms, ds, rows, cols) && y < |ms| && YearShape(m, ds[y], rows, cols)
    ensures Shaped(ms[y := m], ds, rows, cols)
  {
  }

  /** Turns at row `r` of years `lo` to `n - 1`, handled on `n` years' matrices. */
  predicate YearRun(vs: seq<Visit>, ds: seq<YearData>, rows: nat, cols: nat, r: nat, lo: nat, n: nat) {
    forall i :: 0 <= i < |vs| ==> vs[i].row == r && lo <= vs[i].year < n && |vs[i].ms| == n && Handled(vs[i], ds, rows, cols)
  }

  /** `vs` is the year loop's run at row `r` from year `lo` to `n - 1`: one turn per
      year and column, in order. */
  predicate YearTrace(vs: seq<Visit>, ds: seq<YearData>, rows: nat, cols: nat, r: nat, lo: nat, n: nat)
    requires lo <= n
  {
    |vs| == (n - lo) * cols && InOrder(vs) && YearRun(vs, ds, rows, cols, r, lo, n)
  }

  /** The turns of the year loop at row `r`, from year `y`. */
  function YearTurns(ms: seq<Matrix>, ds: seq<YearData>, rows: nat, cols: nat, r: nat, y: nat): seq<Visit>
    requires Shaped(ms, ds, rows, cols) && r < rows
    decreases |ms| - y
  {
    if y >= |ms| then []
    else
      var m1 := ColumnsFrom(ms[y], ms, ds, rows, cols, y, r, 0).0;
      ShapedUpdate(ms, ds, rows, cols, y, m1);
      ColumnTurns(ms[y], ms, ds, rows, cols, y, r, 0) + YearTurns(ms[y := m1], ds, rows, cols, r, y + 1)
  }

  /** The year loop at a row gives one turn per year from `y` on and column, in loop
      order, each handled on the matrices as they stand. */
  lemma {:induction false} YearTurnsRun(ms: seq<Matrix>, ds: seq<YearData>, rows: nat, cols: nat, r: nat, y: nat)
    requires Shaped(ms, ds, rows, cols) && r < rows
    ensures y <= |ms| ==> YearTrace(YearTurns(ms, ds, rows, cols, r, y), ds, rows, cols, r, y, |ms|)
    decreases |ms| - y
  {
    hide HandleCell;
    if y < |ms| {
      var m1 := ColumnsFrom(ms[y], ms, ds, rows, cols, y, r, 0).0;
      ShapedUpdate(ms, ds, rows, cols, y, m1);
      var here := ColumnTurns(ms[y], ms, ds, rows, cols, y, r, 0);
      var rest := YearTurns(ms[y := m1], ds, rows, cols, r, y + 1);
      ColumnTurnsRun(ms[y], ms, ds, rows, cols, y, r, 0);
      YearTurnsRun(ms[y := m1], ds, rows, cols, r, y + 1);
      JoinYears(here, rest, ms, ds, rows, cols, r, y, |ms|);
      assert YearTurns(ms, ds, rows, cols, r, y) == here + rest;
    }
  }

  /** The turns of one year's column loop followed by those of the later years. */
  lemma JoinYears(here: seq<Visit>, rest: seq<Visit>, ms: seq<Matrix>, ds: seq<YearData>, rows: nat, cols: nat, r: nat, y: nat, n: nat)
    requires y < n
    requires ColumnRun(here, ms, ds, rows, cols, y, r, 0) && |ms| == n
    requires YearTrace(rest, ds, rows, cols, r, y + 1, n)
    ensures YearTrace(here + rest, ds, rows, cols, r, y, n)
  {
    InOrderAppend(here, rest);
    assert (n - y) * cols == cols + (n - (y + 1)) * cols;
    forall i | 0 <= i < |here + rest|
      ensures (here + rest)[i].row == r && y <= (here + rest)[i].year < n && |(here + rest)[i].ms| == n && Handled((here + rest)[i], ds, rows, cols)
    {
      if i < |here| {
        assert (here + rest)[i] == here[i];
      } else {
        assert (here + rest)[i] == rest[i - |here|];
      }
    }
  }

  /** Turns at rows `lo` to `rows - 1`, each of one of `n` years, each handled. */
  predicate RowRun(vs: seq<Visit>, ds: seq<YearData>, rows: nat, cols: nat, lo: nat, n: nat) {
    forall i :: 0 <= i < |vs| ==> lo <= vs[i].row < rows && vs[i].year < n && Handled(vs[i], ds, rows, cols)
  }

  /** `vs` is the row loop's run from row `lo`: one turn per row, year and column, in
      order. */
  predicate RowTrace(vs: seq<Visit>, ds: seq<YearData>, rows: nat, cols: nat, lo: nat, n: nat)
    requires lo <= rows
  {
    |vs| == (rows - lo) * (n * cols) && InOrder(vs) && RowRun(vs, ds, rows, cols, lo, n)
  }

  /** The turns of the row loop, from row `r`. */
  function RowTurns(ms: seq<Matrix>, ds: seq<YearData>, rows: nat, cols: nat, r: nat): seq<Visit>
    requires Shaped(ms, ds, rows, cols)
    decreases rows - r
  {
    if r >= rows then []
    else YearTurns(ms, ds, rows, cols, r, 0) + RowTurns(YearsFrom(ms, ds, rows, cols, r, 0).0, ds, rows, cols, r + 1)
  }

  /** The row loop gives one turn per row from `r` on, year and column, in loop order,
      each handled on the matrices as they stand. */
  lemma {:induction false} RowTurnsRun(ms: seq<Matrix>, ds: seq<YearData>, rows: nat, cols: nat, r: nat)
    requires Shaped(ms, ds, rows, cols)
    ensures r <= rows ==> RowTrace(RowTurns(ms, ds, rows, cols, r), ds, rows, cols, r, |ms|)
    decreases rows - r
  {
    hide HandleCell;
    if r < rows {
      var ms1 := YearsFrom(ms, ds, rows, cols, r, 0).0;
      var here := YearTurns(ms, ds, rows, cols, r, 0);
      var rest := RowTurns(ms1, ds, rows, cols, r + 1);
      YearTurnsRun(ms, ds, rows, cols, r, 0);
      RowTurnsRun(ms1, ds, rows, cols, r + 1);
      JoinRows(here, rest, ds, rows, cols, r, |ms|);
      assert RowTurns(ms, ds, rows, cols, r) == here + rest;
    }
  }

  /** The turns of one row followed by those of the later rows. */
  lemma JoinRows(here: seq<Visit>, rest: seq<Visit>, ds: seq<YearData>, rows: nat, cols: nat, r: nat, n: nat)
    requires r < rows
    requires YearTrace(here, ds, rows, cols, r, 0, n)
    requires RowTrace(rest, ds, rows, cols, r + 1, n)
    ensures RowTrace(here + rest, ds, rows, cols, r, n)
  {
    InOrderAppend(here, rest);
    assert (rows - r) * (n * cols) == n * cols + (rows - (r + 1)) * (n * cols);
    forall i | 0 <= i < |here + rest|
      ensures r <= (here + rest)[i].row < rows && (here + rest)[i].year < n && Handled((here + rest)[i], ds, rows, cols)
    {
      if i < |here| {
        assert (here + rest)[i] == here[i];
      } else {
        assert (here + rest)[i] == rest[i - |here|];
      }
    }
  }

  // ---------------------------------------------------------------------------
  // The passes
  // ---------------------------------------------------------------------------

  /** The column loop of year `y` at row `r`, from column `c`: one warning per cell that
      clashes and cannot be moved. */
  function ColumnsFrom(m: Matrix, ms: seq<Matrix>, ds: seq<YearData>, rows: nat, cols: nat,
                       y: nat, r: nat, c: nat): (res: (Matrix, seq<Warning>))
    requires Shaped(ms, ds, rows, cols) && y < |ms| && YearShape(m, ds[y], rows, cols) && r < rows
    requires c <= cols
    ensures YearShape(res.0, ds[y], rows, cols)
    ensures |res.1| <= cols - c
    ensures forall w :: w in res.1 ==> w == Unresolved(r, y)
    ensures res.1 == Reported(ColumnTurns(m, ms, ds, rows, cols, y, r, c))
    decreases cols - c
  {
    if c >= cols then (m, [])
    else
      var (m1, o) := HandleCell(m, ms, ds, rows, cols, y, r, c);
      var (m2, ws) := ColumnsFrom(m1, ms, ds, rows, cols, y, r, c + 1);
      ReportedCons(Visit(r, y, c, m, ms, o), ColumnTurns(m1, ms, ds, rows, cols, y, r, c + 1));
      (m2, (if o.Stuck? then [Unresolved(r, y)] else []) + ws)
  }

  /** The loop over the years at row `r`, from year `y`; each year sees the earlier years
      as they stand after their own pass. */
  function YearsFrom(ms: seq<Matrix>, ds: seq<YearData>, rows: nat, cols: nat, r: nat, y: nat): (res: (seq<Matrix>, seq<Warning>))
    requires Shaped(ms, ds, rows, cols) && r < rows
    ensures Shaped(res.0, ds, rows, cols)
    ensures forall p :: 0 <= p < |ms| && (p < y || p == 0) ==> res.0[p] == ms[p]
    ensures forall w :: w in res.1 ==> w.row == r && y <= w.year < |ms| && w.year > 0
    decreases |ms| - y
  {
    if y >= |ms| then (ms, [])
    else
      var (m1, ws) := ColumnsFrom(ms[y], ms, ds, rows, cols, y, r, 0);
      assert y == 0 ==> m1 == ms[y] && ws == [] by {
        if y == 0 { FirstYearKept(ms[y], ms, ds, rows, cols, r, 0); }
      }
      var ms1 := ms[y := m1];
      var (ms2, ws2) := YearsFrom(ms1, ds, rows, cols, r, y + 1);
      (ms2, ws + ws2)
  }

  /** The loop over the rows, from row `r`. */
  function RowsFrom(ms: seq<Matrix>, ds: seq<YearData>, rows: nat, cols: nat, r: nat): (res: (seq<Matrix>, seq<Warning>))
    requires Shaped(ms, ds, rows, cols)
    ensures Shaped(res.0, ds, rows, cols)
    ensures |ms| > 0 ==> res.0[0] == ms[0]
    ensures forall w :: w in res.1 ==> r <= w.row < rows && 0 < w.year < |ms|
    decreases rows - r
  {
    if r >= rows then (ms, [])
    else
      var (ms1, ws) := YearsFrom(ms, ds, rows, cols, r, 0);
      var (ms2, ws2) := RowsFrom(ms1, ds, rows, cols, r + 1);
      (ms2, ws + ws2)
  }

  /** `_resolve_cross_year_room_conflicts`: the matrices after the passes, and the
      warnings. With at most one year there is nothing to compare and nothing changes;
      the first year has priority and is never changed; every warning names a row and a
      later year. */
  function Resolve(ms: seq<Matrix>, ds: seq<YearData>): (res: (seq<Matrix>, seq<Warning>))
    requires |ms| <= 1 || Shaped(ms, ds, |ms[0]|, Width(ms[0]))
    ensures |ms| <= 1 ==> res == (ms, [])
    ensures |res.0| == |ms|
    ensures |ms| > 1 ==> Shaped(res.0, ds, |ms[0]|, Width(ms[0]))
    ensures |ms| > 0 ==> res.0[0] == ms[0]
    ensures forall w :: w in res.1 ==> w.row < |ms[0]| && 0 < w.year < |ms|
  {
    if |ms| <= 1 then (ms, [])
    else RowsFrom(ms, ds, |ms[0]|, Width(ms[0]), 0)
  }

  // ---------------------------------------------------------------------------
  // Properties
  // ---------------------------------------------------------------------------

  /** The year loop at a row warns once per stuck turn of its run, in loop order. */
  lemma {:induction false} YearsReported(ms: seq<Matrix>, ds: seq<YearData>, rows: nat, cols: nat, r: nat, y: nat)
    requires Shaped(ms, ds, rows, cols) && r < rows
    ensures YearsFrom(ms, ds, rows, cols, r, y).1 == Reported(YearTurns(ms, ds, rows, cols, r, y))
    decreases |ms| - y
  {
    hide HandleCell;
    if y < |ms| {
      var m1 := ColumnsFrom(ms[y], ms, ds, rows, cols, y, r, 0).0;
      ShapedUpdate(ms, ds, rows, cols, y, m1);
      YearsReported(ms[y := m1], ds, rows, cols, r, y + 1);
      ReportedAppend(ColumnTurns(ms[y], ms, ds, rows, cols, y, r, 0), YearTurns(ms[y := m1], ds, rows, cols, r, y + 1));
    }
  }

  /** The row loop warns once per stuck turn of its run, in loop order. */
  lemma {:induction false} RowsReported(ms: seq<Matrix>, ds: seq<YearData>, rows: nat, cols: nat, r: nat)
    requires Shaped(ms, ds, rows, cols)
    ensures RowsFrom(ms, ds, rows, cols, r).1 == Reported(RowTurns(ms, ds, rows, cols, r))
    decreases rows - r
  {
    hide HandleCell;
    if r < rows {
      var (ms1, ws) := YearsFrom(ms, ds, rows, cols, r, 0);
      var here := YearTurns(ms, ds, rows, cols, r, 0);
      var rest := RowTurns(ms1, ds, rows, cols, r + 1);
      YearsReported(ms, ds, rows, cols, r, 0);
      RowsReported(ms1, ds, rows, cols, r + 1);
      ReportedAppend(here, rest);
      assert RowTurns(ms, ds, rows, cols, r) == here + rest;
    }
  }

  /** What the resolution does, turn by turn: the loops visit every (row, year, column)
      once, in that order; each turn keeps its cell exactly when it does not start a
      clashing block, moves or shifts the block exactly when a free room or a later
      start exists, and is stuck otherwise; and the warnings are exactly one per stuck
      turn, in loop order, naming its row and year. */
  lemma ResolveTurns(ms: seq<Matrix>, ds: seq<YearData>)
    requires 1 < |ms| && Shaped(ms, ds, |ms[0]|, Width(ms[0]))
    ensures var vs := RowTurns(ms, ds, |ms[0]|, Width(ms[0]), 0);
            && |vs| == |ms[0]| * (|ms| * Width(ms[0])) && InOrder(vs)
            && (forall i :: 0 <= i < |vs| ==> Handled(vs[i], ds, |ms[0]|, Width(ms[0])) && Resolved(vs[i], ds, |ms[0]|, Width(ms[0])))
            && Resolve(ms, ds).1 == Reported(vs)
            && (forall w :: w in Resolve(ms, ds).1 <==> exists i :: ReportsTurn(vs, i, w))
  {
    var rows, cols := |ms[0]|, Width(ms[0]);
    var vs := RowTurns(ms, ds, rows, cols, 0);
    RowTurnsRun(ms, ds, rows, cols, 0);
    RowsReported(ms, ds, rows, cols, 0);
    ReportedStuck(vs);
    forall i | 0 <= i < |vs| ensures Handled(vs[i], ds, rows, cols) && Resolved(vs[i], ds, rows, cols) {
      HandledResolved(vs[i], ds, rows, cols);
    }
  }

  /** The first year has no earlier year, so nothing of it is taken and its pass keeps
      every cell and warns about nothing. */
  lemma {:induction false} FirstYearKept(m: Matrix, ms: seq<Matrix>, ds: seq<YearData>, rows: nat, cols: nat, r: nat, c: nat)
    requires Shaped(ms, ds, rows, cols) && 0 < |ms| && YearShape(m, ds[0], rows, cols) && r < rows
    requires c <= cols
    ensures ColumnsFrom(m, ms, ds, rows, cols, 0, r, c) == (m, [])
    decreases cols - c
  {
    if c < cols {
      assert !HeldBefore(ms, ds, rows, cols, 0, r, c, LabTag);
      assert !HeldBefore(ms, ds, rows, cols, 0, r, c, ClassroomTag);
      FirstYearKept(m, ms, ds, rows, cols, r, c + 1);
    }
  }

  /** No cell of this year clashes in row `r`: the column loop changes nothing and warns
      about nothing. */
  predicate RowClear(m: Matrix, ms: seq<Matrix>, ds: seq<YearData>, rows: nat, cols: nat, y: nat, r: nat)
    requires Shaped(ms, ds, rows, cols) && y < |ms| && YearShape(m, ds[y], rows, cols) && r < rows
  {
    forall z :: 0 <= z < cols && m[r][z].Some? ==> !Taken(ms, ds, rows, cols, y, r, z)
  }

  lemma {:induction false} ClearRowKept(m: Matrix, ms: seq<Matrix>, ds: seq<YearData>, rows: nat, cols: nat, y: nat, r: nat, c: nat)
    requires Shaped(ms, ds, rows, cols) && y < |ms| && YearShape(m, ds[y], rows, cols) && r < rows
    requires RowClear(m, ms, ds, rows, cols, y, r) && c <= cols
    ensures ColumnsFrom(m, ms, ds, rows, cols, y, r, c) == (m, [])
    decreases cols - c
  {
    if c < cols {
      assert !Clash(m, ms, ds, rows, cols, y, r, c);
      ClearRowKept(m, ms, ds, rows, cols, y, r, c + 1);
    }
  }

  /** Years that never book a column an earlier year holds with a room of the same type. */
  predicate Disjoint(ms: seq<Matrix>, ds: seq<YearData>, rows: nat, cols: nat)
    requires Shaped(ms, ds, rows, cols)
  {
    forall y, x :: 0 <= y < |ms| && 0 <= x < rows ==> RowClear(ms[y], ms, ds, rows, cols, y, x)
  }

  lemma {:induction false} DisjointYearsKept(ms: seq<Matrix>, ds: seq<YearData>, rows: nat, cols: nat, r: nat, y: nat)
    requires Shaped(ms, ds, rows, cols) && r < rows && Disjoint(ms, ds, rows, cols)
    ensures YearsFrom(ms, ds, rows, cols, r, y).0 == ms
    ensures YearsFrom(ms, ds, rows, cols, r, y).1 == []
    decreases |ms| - y
  {
    if y < |ms| {
      assert RowClear(ms[y], ms, ds, rows, cols, y, r);
      ClearRowKept(ms[y], ms, ds, rows, cols, y, r, 0);
      assert ms[y := ms[y]] == ms;
      DisjointYearsKept(ms, ds, rows, cols, r, y + 1);
    }
  }

  lemma {:induction false} DisjointRowsKept(ms: seq<Matrix>, ds: seq<YearData>, rows: nat, cols: nat, r: nat)
    requires Shaped(ms, ds, rows, cols) && Disjoint(ms, ds, rows, cols)
    ensures RowsFrom(ms, ds, rows, cols, r).0 == ms
    ensures RowsFrom(ms, ds, rows, cols, r).1 == []
    decreases rows - r
  {
    if r < rows {
      DisjointYearsKept(ms, ds, rows, cols, r, 0);
      DisjointRowsKept(ms, ds, rows, cols, r + 1);
    }
  }

  /** When no year books a column an earlier year holds with a room of the same type, the
      resolver changes nothing and warns about nothing. */
  lemma DisjointUnchanged(ms: seq<Matrix>, ds: seq<YearData>)
    requires |ms| > 1 && Shaped(ms, ds, |ms[0]|, Width(ms[0]))
    requires Disjoint(ms, ds, |ms[0]|, Width(ms[0]))
    ensures Resolve(ms, ds) == (ms, [])
  {
    DisjointRowsKept(ms, ds, |ms[0]|, Width(ms[0]), 0);
  }
}
