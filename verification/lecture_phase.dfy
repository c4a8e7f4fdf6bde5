/** The lecture phase of scheduler.py, `initial_population`: after the labs, every
    type-`P` class not yet in `filled` is placed, in class order, by a scan over the free
    list. A start field whose room is a classroom the class may use and whose batch slots
    are free unlocks two attempts: first the preferred starts (slots 0, 1 and 5 of the
    days below the per-day target on which the subject has no lecture for the batch yet),
    in any allowed classroom whose fields are free and whose rows hold no clash; failing
    that the start field itself, when the whole block is free and no group of the class
    has the subject that day.

    The matrix is written only at the end, so the row checks see the classes placed
    before this phase, never the lectures the loop has just placed; the fallback does
    not consult the matrix at all. The per-(subject, group, day) counter is derived
    from the list of bookings; only its test against 1 is ever read. The batch
    occupancy of the source, keyed by batch, day and slot, is keyed here by batch and
    row: `is_slot_free_for_batch` rejects any slot past the end of the day before it
    looks, so the two keyings agree. */
module LecturePhase {
  import opened Model
  import opened Timetable
  import opened MatrixOps
  import opened ConfigAdapter

  // ---------------------------------------------------------------------------
  // Capacity and targets
  // ---------------------------------------------------------------------------

  /** Slots a room offers a week in `validate_capacity`: five days of six. */
  const WeeklySlotsPerRoom := 5 * 6

  /** The number of classes of kind `k`. */
  function CountKind(classes: seq<Class>, k: char): (r: nat)
    ensures r == |IndicesWhere(classes, (c: Class) => c.kind == k)|
  {
    |IndicesWhere(classes, (c: Class) => c.kind == k)|
  }

  /** One line of `validate_capacity`'s warnings: demand, slots on offer, rooms. */
  datatype CapacityWarning = LectureCapacity(demand: nat, slots: nat, rooms: nat) | LabCapacity(demand: nat, slots: nat, rooms: nat)

  /** `validate_capacity`: a warning for lectures when they outnumber the classroom
      slots, and one for labs when they outnumber the lab slots. */
  function CapacityWarnings(rooms: seq<Room>, classes: seq<Class>): (r: seq<CapacityWarning>)
    ensures (exists i :: 0 <= i < |r| && r[i].LectureCapacity?) <==>
              CountKind(classes, LectureKind) > |RoomsOfType(rooms, ClassroomTag)| * WeeklySlotsPerRoom
    ensures (exists i :: 0 <= i < |r| && r[i].LabCapacity?) <==>
              CountKind(classes, LabKind) > |RoomsOfType(rooms, LabTag)| * WeeklySlotsPerRoom
    ensures forall i :: 0 <= i < |r| ==> r[i].slots == r[i].rooms * WeeklySlotsPerRoom && r[i].demand > r[i].slots
    ensures forall i :: 0 <= i < |r| && r[i].LectureCapacity? ==>
              r[i].demand == CountKind(classes, LectureKind) && r[i].rooms == |RoomsOfType(rooms, ClassroomTag)|
    ensures forall i :: 0 <= i < |r| && r[i].LabCapacity? ==>
              r[i].demand == CountKind(classes, LabKind) && r[i].rooms == |RoomsOfType(rooms, LabTag)|
    ensures |r| <= 2 && (|r| == 2 ==> r[0].LectureCapacity? && r[1].LabCapacity?)
  {
    var lectures := CountKind(classes, LectureKind);
    var labs := CountKind(classes, LabKind);
    var nc := |RoomsOfType(rooms, ClassroomTag)|;
    var nl := |RoomsOfType(rooms, LabTag)|;
    var first := if lectures > nc * WeeklySlotsPerRoom then [LectureCapacity(lectures, nc * WeeklySlotsPerRoom, nc)] else [];
    var second := if labs > nl * WeeklySlotsPerRoom then [LabCapacity(labs, nl * WeeklySlotsPerRoom, nl)] else [];
    var r := first + second;
    assert |first| == 1 ==> r[0] == first[0];
    assert |second| == 1 ==> r[|first|] == second[0];
    r
  }

  /** `per_day_lecture_target`: a fifth of the lectures, rounded up, at least one; zero
      without lectures. */
  function LectureTarget(total: nat): (r: nat)
    ensures total == 0 <==> r == 0
    ensures total > 0 ==> 5 * (r - 1) < total <= 5 * r
  {
    if total > 0 then Max1((total + 4) / 5) else 0
  }

  function Max1(x: nat): nat {
    if x < 1 then 1 else x
  }

  /** `lecture_classes`: the lectures not yet in `filled`, in class order. */
  function LecturePool(classes: seq<Class>, filled: Filled): (r: seq<nat>)
    ensures forall x: nat :: x in r <==> x < |classes| && classes[x].kind == LectureKind && !HasKey(filled, x)
    ensures forall i, j :: 0 <= i < j < |r| ==> r[i] < r[j]
    decreases |classes|
  {
    if |classes| == 0 then []
    else
      var n := |classes| - 1;
      var prev := LecturePool(classes[..n], filled);
      assert forall i :: 0 <= i < |prev| ==> prev[i] < n by {
        forall i | 0 <= i < |prev| ensures prev[i] < n {
          assert prev[i] in prev;
        }
      }
      prev + (if classes[n].kind == LectureKind && !HasKey(filled, n) then [n] else [])
  }

  // ---------------------------------------------------------------------------
  // State
  // ---------------------------------------------------------------------------

  /** A lecture placed from row `start` in room `room`; `preferred` says which attempt placed it. */
  datatype Lecture = Lecture(cls: nat, start: nat, room: nat, preferred: bool)

  /** `occ` is `batch_occupancy`: (batch, row) to the room holding the batch then.
      `unplaced` lists the classes written to the conflict log. */
  datatype LectureState = LectureState(free: seq<Field>, filled: Filled, occ: map<(nat, nat), nat>,
                                       bookings: seq<Lecture>, unplaced: seq<nat>)

  function DayOf(row: nat): nat {
    row / SlotsPerDay
  }

  /** `lecture_day_counts[(subject, group, day)] >= 1`: a lecture of the subject with the
      group among its groups is already placed on that day. */
  predicate Taught(classes: seq<Class>, bs: seq<Lecture>, subject: string, group: nat, day: nat) {
    exists i :: 0 <= i < |bs| && bs[i].cls < |classes| && classes[bs[i].cls].subject == subject
                && group in classes[bs[i].cls].groups && DayOf(bs[i].start) == day
  }

  /** The over-cap test: some group of the class already has the subject that day. */
  predicate OverCap(classes: seq<Class>, bs: seq<Lecture>, c: Class, day: nat) {
    exists g :: g in c.groups && Taught(classes, bs, c.subject, g, day)
  }

  /** `placed_lectures_per_day[day]`: lectures the preferred attempt placed that day. */
  function PlacedOn(bs: seq<Lecture>, day: nat): nat
    decreases |bs|
  {
    if |bs| == 0 then 0
    else PlacedOn(bs[..|bs| - 1], day) + (if bs[|bs| - 1].preferred && DayOf(bs[|bs| - 1].start) == day then 1 else 0)
  }

  /** `is_slot_free_for_batch` for a lecture: the block ends within its day, and the
      batch is not held by another room at any of its rows. */
  predicate SlotFreeForBatch(occ: map<(nat, nat), nat>, batch: nat, start: nat, duration: nat, room: nat) {
    && (duration == 0 || start % SlotsPerDay + duration <= SlotsPerDay)
    && forall row: nat :: start <= row < start + duration && (batch, row) in occ ==> occ[(batch, row)] == room
  }

  /** `reserve_slot_for_batch`: the batch is held by `room` at every row of the block. */
  function Reserve(occ: map<(nat, nat), nat>, batch: nat, start: nat, duration: nat, room: nat): (r: map<(nat, nat), nat>)
    ensures forall row: nat :: start <= row < start + duration ==> (batch, row) in r && r[(batch, row)] == room
    ensures forall b: nat, row: nat :: (b, row) in occ && !(b == batch && start <= row < start + duration) ==>
              (b, row) in r && r[(b, row)] == occ[(b, row)]
    ensures forall b: nat, row: nat :: (b, row) in r ==> (b, row) in occ || (b == batch && start <= row < start + duration)
  {
    var block: set<(nat, nat)> := set row: nat | start <= row < start + duration :: (batch, row);
    map k: (nat, nat) | k in occ.Keys + block :: if k.0 == batch && start <= k.1 < start + duration then room else occ[k]
  }

  /** The full `is_slot_free_for_batch`: for a lab (`'L'`) the room must also be absent
      from `lab_specific_occupancy`, here the set of (room, row) pairs labs hold. The
      lecture loop only ever asks for lectures. */
  predicate BatchSlotFree(occ: map<(nat, nat), nat>, labOcc: set<(nat, nat)>, batch: nat, start: nat,
                          duration: nat, room: nat, kind: char) {
    && SlotFreeForBatch(occ, batch, start, duration, room)
    && (kind == LabKind ==> forall row: nat :: start <= row < start + duration ==> (room, row) !in labOcc)
  }

  /** The lab half of `reserve_slot_for_batch`: a lab marks its room at every row. */
  function ReserveLab(labOcc: set<(nat, nat)>, start: nat, duration: nat, room: nat, kind: char): (r: set<(nat, nat)>)
    ensures kind == LabKind ==> forall row: nat :: start <= row < start + duration ==> (room, row) in r
    ensures kind != LabKind ==> r == labOcc
    ensures labOcc <= r
    ensures forall x :: x in r ==> x in labOcc || (kind == LabKind && x.0 == room && start <= x.1 < start + duration)
  {
    if kind == LabKind then labOcc + set row: nat | start <= row < start + duration :: (room, row) else labOcc
  }

  /** The free-check rejects any block that runs past the end of its day. */
  lemma PastDayEndNotFree(occ: map<(nat, nat), nat>, labOcc: set<(nat, nat)>, batch: nat, start: nat,
                          duration: nat, room: nat, kind: char)
    requires duration > 0 && start % SlotsPerDay + duration > SlotsPerDay
    ensures !BatchSlotFree(occ, labOcc, batch, start, duration, room, kind)
  {
  }

  /** After a reservation, the same batch is not free at an overlapping row in another room,
      and after a lab's reservation its room is not free for any lab at an overlapping row. */
  lemma {:induction false} ReservedNotFree(occ: map<(nat, nat), nat>, labOcc: set<(nat, nat)>, batch: nat,
                                           start: nat, duration: nat, room: nat, kind: char,
                                           batch2: nat, start2: nat, duration2: nat, room2: nat, x: nat)
    requires start <= x < start + duration && start2 <= x < start2 + duration2
    ensures room2 != room ==>
      !BatchSlotFree(Reserve(occ, batch, start, duration, room), ReserveLab(labOcc, start, duration, room, kind),
                     batch, start2, duration2, room2, kind)
    ensures kind == LabKind ==>
      !BatchSlotFree(Reserve(occ, batch, start, duration, room), ReserveLab(labOcc, start, duration, room, kind),
                     batch2, start2, duration2, room, LabKind)
  {
    var occ' := Reserve(occ, batch, start, duration, room);
    var lab' := ReserveLab(labOcc, start, duration, room, kind);
    assert (batch, x) in occ' && occ'[(batch, x)] == room;
    if kind == LabKind {
      assert (room, x) in lab';
    }
  }

  // ---------------------------------------------------------------------------
  // The preferred attempt
  // ---------------------------------------------------------------------------

  /** The preferred start slots of a day. */
  const PreferredSlots: seq<nat> := [0, 1, 5]

  /** A day the preferred attempt considers: its placed count is below the target and
      the subject has no lecture on it for the class's first group. */
  predicate DayPreferred(classes: seq<Class>, bs: seq<Lecture>, c: Class, target: nat, day: nat) {
    PlacedOn(bs, day) < target && !Taught(classes, bs, c.subject, FirstGroup(c), day)
  }

  /** `preferred_starts`: slots 0, 1 and 5 of each preferred day from `day` on. */
  function PreferredStarts(classes: seq<Class>, bs: seq<Lecture>, c: Class, target: nat, day: nat): (r: seq<nat>)
    ensures forall x :: x in r <==> (exists d, k :: day <= d < TeachingDays && 0 <= k < |PreferredSlots| &&
                                       x == RowOf(d, PreferredSlots[k]) && DayPreferred(classes, bs, c, target, d))
    decreases TeachingDays - day
  {
    if day >= TeachingDays then []
    else
      var here := if DayPreferred(classes, bs, c, target, day)
                  then seq(|PreferredSlots|, k requires 0 <= k < |PreferredSlots| => RowOf(day, PreferredSlots[k])) else [];
      var rest := PreferredStarts(classes, bs, c, target, day + 1);
      forall x | x in here ensures exists k :: 0 <= k < |PreferredSlots| && x == RowOf(day, PreferredSlots[k]) {
        var k :| 0 <= k < |here| && here[k] == x;
      }
      forall k | 0 <= k < |PreferredSlots| && DayPreferred(classes, bs, c, target, day) ensures RowOf(day, PreferredSlots[k]) in here {
        assert here[k] == RowOf(day, PreferredSlots[k]);
      }
      here + rest
  }

  /** `[c for c in classs.classrooms if c in classroom_pool]`. */
  function InPool(xs: seq<nat>, pool: seq<nat>): (r: seq<nat>)
    ensures forall x :: x in r <==> x in xs && x in pool
  {
    if |xs| == 0 then [] else (if xs[0] in pool then [xs[0]] else []) + InPool(xs[1..], pool)
  }

  /** The block from `start` does not run into the next day, compared modulo 12 as in
      the source (for a block of zero rows only the first slot of a day passes). */
  predicate WithinDay(start: nat, duration: nat) {
    start % SlotsPerDay <= (start + duration - 1) % SlotsPerDay
  }

  /** The tests on a preferred start: within its day, no group over the cap, day below target. */
  predicate StartOk(classes: seq<Class>, bs: seq<Lecture>, c: Class, target: nat, start: nat) {
    WithinDay(start, c.duration) && !OverCap(classes, bs, c, DayOf(start)) && PlacedOn(bs, DayOf(start)) < target
  }

  /** The tests on a room for a preferred start: each field of the block is free and its
      row holds no clash; the batch is free there. */
  predicate RoomFits(m: Matrix, classes: seq<Class>, st: LectureState, idx: nat, start: nat, col: nat)
    requires idx < |classes| && FreeInMatrix(m, st.free)
  {
    var c := classes[idx];
    && (forall row: nat :: start <= row < start + c.duration ==> (row, col) in st.free && ValidTeacherGroupRow(m, classes, idx, row))
    && SlotFreeForBatch(st.occ, FirstGroup(c), start, c.duration, col)
  }

  predicate PreferredFits(m: Matrix, classes: seq<Class>, st: LectureState, idx: nat, target: nat, start: nat, col: nat)
    requires idx < |classes| && FreeInMatrix(m, st.free)
  {
    StartOk(classes, st.bookings, classes[idx], target, start) && RoomFits(m, classes, st, idx, start, col)
  }

  predicate After(a: nat, b: nat, k: nat, j: nat) {
    a > k || (a == k && b >= j)
  }

  /** The nested loops over preferred starts and rooms: the first pair that fits. */
  function TryPreferred(m: Matrix, classes: seq<Class>, st: LectureState, idx: nat, target: nat,
                        starts: seq<nat>, rooms: seq<nat>, k: nat, j: nat): (r: Option<(nat, nat)>)
    requires idx < |classes| && FreeInMatrix(m, st.free)
    ensures r.Some? ==> (exists a, b :: 0 <= a < |starts| && 0 <= b < |rooms| && After(a, b, k, j) &&
                           r.value == (starts[a], rooms[b]) && PreferredFits(m, classes, st, idx, target, starts[a], rooms[b]))
    ensures r.None? ==> forall a, b :: 0 <= a < |starts| && 0 <= b < |rooms| && After(a, b, k, j) ==>
              !PreferredFits(m, classes, st, idx, target, starts[a], rooms[b])
    decreases |starts| - k, |rooms| - j
  {
    if k >= |starts| then None
    else if j >= |rooms| || !StartOk(classes, st.bookings, classes[idx], target, starts[k]) then
      TryPreferred(m, classes, st, idx, target, starts, rooms, k + 1, 0)
    else if RoomFits(m, classes, st, idx, starts[k], rooms[j]) then
      assert PreferredFits(m, classes, st, idx, target, starts[k], rooms[j]);
      Some((starts[k], rooms[j]))
    else TryPreferred(m, classes, st, idx, target, starts, rooms, k, j + 1)
  }

  /** Every preferred start is slot 0, 1 or 5 of a teaching day. */
  lemma PreferredStartShape(classes: seq<Class>, bs: seq<Lecture>, c: Class, target: nat, day: nat, x: nat)
    requires x in PreferredStarts(classes, bs, c, target, day)
    ensures x % SlotsPerDay in PreferredSlots && DayOf(x) < TeachingDays
  {
    var d, k :| day <= d < TeachingDays && 0 <= k < |PreferredSlots| && x == RowOf(d, PreferredSlots[k]) && DayPreferred(classes, bs, c, target, d);
    var slot := PreferredSlots[k];
    assert slot in PreferredSlots;
    RowOfInverse(d, slot);
  }

  /** The preferred attempt of class `idx`: independent of the start field that led to it. */
  function Preferred(m: Matrix, rooms: seq<Room>, classes: seq<Class>, st: LectureState, idx: nat, target: nat): (r: Option<(nat, nat)>)
    requires idx < |classes| && FreeInMatrix(m, st.free)
    ensures r.Some? ==> PreferredFits(m, classes, st, idx, target, r.value.0, r.value.1)
    ensures r.Some? ==> r.value.1 in classes[idx].classrooms && r.value.1 in RoomsOfType(rooms, ClassroomTag)
    ensures r.Some? ==> r.value.0 % SlotsPerDay in PreferredSlots && DayOf(r.value.0) < TeachingDays
  {
    var c := classes[idx];
    var starts := PreferredStarts(classes, st.bookings, c, target, 0);
    var pool := InPool(c.classrooms, RoomsOfType(rooms, ClassroomTag));
    var r := TryPreferred(m, classes, st, idx, target, starts, pool, 0, 0);
    if r.Some? then
      PreferredStartShape(classes, st.bookings, c, target, 0, r.value.0);
      assert r.value.1 in pool;
      r
    else r
  }

  // ---------------------------------------------------------------------------
  // The scan over the free list
  // ---------------------------------------------------------------------------

  /** `found`: every later field of the block from the start field is free. */
  predicate Found(free: seq<Field>, start: Field, duration: nat) {
    forall row: nat :: start.0 < row < start.0 + duration ==> (row, start.1) in free
  }

  /** The gate every start field must pass before either attempt: within its day, a
      classroom, the batch free, a room the class may use. */
  predicate Gate(rooms: seq<Room>, classes: seq<Class>, st: LectureState, c: Class, start: Field) {
    && WithinDay(start.0, c.duration)
    && start.1 in RoomsOfType(rooms, ClassroomTag)
    && SlotFreeForBatch(st.occ, FirstGroup(c), start.0, c.duration, start.1)
    && start.1 in c.classrooms
  }

  /** The fallback placement at the start field itself. */
  predicate FallbackFits(rooms: seq<Room>, classes: seq<Class>, st: LectureState, c: Class, start: Field) {
    Gate(rooms, classes, st, c, start) && Found(st.free, start, c.duration) && !OverCap(classes, st.bookings, c, DayOf(start.0))
  }

  /** The `while ind < len(free)` loop for class `idx`, from position `ind`. The result
      is the start row, the room and whether the preferred attempt placed it. When a
      later field of the block is not free, the source advances `ind` once in the inner
      loop and once more before the next iteration, so the following free entry is
      never looked at; `asWritten` keeps that double step, and without it the scan
      advances by one. */
  function Scan(m: Matrix, rooms: seq<Room>, classes: seq<Class>, st: LectureState, idx: nat, target: nat,
                asWritten: bool, ind: nat): (r: Option<(nat, nat, bool)>)
    requires idx < |classes| && FreeInMatrix(m, st.free)
    ensures r.Some? && r.value.2 ==> PreferredFits(m, classes, st, idx, target, r.value.0, r.value.1)
                                     && Preferred(m, rooms, classes, st, idx, target) == Some((r.value.0, r.value.1))
    ensures r.Some? && !r.value.2 ==> exists j :: ind <= j < |st.free| && st.free[j] == (r.value.0, r.value.1)
                                        && FallbackFits(rooms, classes, st, classes[idx], st.free[j])
    decreases |st.free| - ind
  {
    if ind >= |st.free| then None
    else
      var c := classes[idx];
      var start := st.free[ind];
      if !WithinDay(start.0, c.duration) then Scan(m, rooms, classes, st, idx, target, asWritten, ind + 1)
      else
        var found := Found(st.free, start, c.duration);
        var next := if !found && asWritten then ind + 2 else ind + 1;
        if !Gate(rooms, classes, st, c, start) then Scan(m, rooms, classes, st, idx, target, asWritten, next)
        else match Preferred(m, rooms, classes, st, idx, target)
          case Some((s, col)) => Some((s, col, true))
          case None =>
            if found && !OverCap(classes, st.bookings, c, DayOf(start.0)) then Some((start.0, start.1, false))
            else Scan(m, rooms, classes, st, idx, target, asWritten, next)
  }

  // ---------------------------------------------------------------------------
  // Placement
  // ---------------------------------------------------------------------------

  /** The placement block: reserve the batch, add the fields to `filled` (the key is
      only created when there is a field), drop them from `free`, log the lecture. */
  function Place(st: LectureState, c: Class, idx: nat, start: nat, col: nat, preferred: bool): (r: LectureState)
    requires UniqueKeys(st.filled)
    ensures UniqueKeys(r.filled)
    ensures r.bookings == st.bookings + [Lecture(idx, start, col, preferred)] && r.unplaced == st.unplaced
    ensures r.occ == Reserve(st.occ, FirstGroup(c), start, c.duration, col)
    ensures multiset(r.free) == multiset(st.free) - multiset(Block(start, c.duration, col))
    ensures forall x :: x in r.free ==> x in st.free
    ensures c.duration > 0 ==> FieldsOf(r.filled, idx) == FieldsOf(st.filled, idx) + Block(start, c.duration, col)
    ensures forall k :: k != idx ==> Get(r.filled, k) == Get(st.filled, k)
  {
    var fields := Block(start, c.duration, col);
    assert forall x :: x in RemoveAll(st.free, fields) ==> x in st.free by {
      forall x | x in RemoveAll(st.free, fields) ensures x in st.free {
        assert x in multiset(RemoveAll(st.free, fields));
      }
    }
    LectureState(RemoveAll(st.free, fields),
                 if c.duration == 0 then st.filled else Extend(st.filled, idx, fields),
                 Reserve(st.occ, FirstGroup(c), start, c.duration, col),
                 st.bookings + [Lecture(idx, start, col, preferred)],
                 st.unplaced)
  }

  /** One iteration of `for index in priority_order`. */
  function ScheduleLecture(m: Matrix, rooms: seq<Room>, classes: seq<Class>, target: nat, asWritten: bool,
                           st: LectureState, idx: nat): (r: LectureState)
    requires idx < |classes| && FreeInMatrix(m, st.free) && UniqueKeys(st.filled)
    ensures UniqueKeys(r.filled) && FreeInMatrix(m, r.free)
  {
    match Scan(m, rooms, classes, st, idx, target, asWritten, 0)
    case Some((start, col, preferred)) => Place(st, classes[idx], idx, start, col, preferred)
    case None => st.(unplaced := st.unplaced + [idx])
  }

  predicate Indices(classes: seq<Class>, xs: seq<nat>) {
    forall i :: 0 <= i < |xs| ==> xs[i] < |classes|
  }

  function Lectures(m: Matrix, rooms: seq<Room>, classes: seq<Class>, target: nat, asWritten: bool,
                    order: seq<nat>, st: LectureState): (r: LectureState)
    requires Indices(classes, order) && FreeInMatrix(m, st.free) && UniqueKeys(st.filled)
    ensures UniqueKeys(r.filled) && FreeInMatrix(m, r.free)
    decreases |order|
  {
    if |order| == 0 then st
    else Lectures(m, rooms, classes, target, asWritten, order[1..], ScheduleLecture(m, rooms, classes, target, asWritten, st, order[0]))
  }

  /** The state before the first lecture: nothing reserved, nothing placed. */
  function Start(free: seq<Field>, filled: Filled): LectureState {
    LectureState(free, filled, map[], [], [])
  }

  datatype LectureResult = LectureResult(matrix: Matrix, state: LectureState, warnings: seq<CapacityWarning>)

  /** The lecture part of `initial_population`: the capacity warnings, the lecture loop
      over the unplaced lectures with the per-day target derived from all lectures,
      then `filled` written into the matrix. `asWritten` selects the scan that steps
      two entries past a block that is not free; otherwise it advances by one. */
  function InitialPopulation(m: Matrix, rooms: seq<Room>, classes: seq<Class>, free: seq<Field>, filled: Filled,
                             asWritten: bool): (r: LectureResult)
    requires Columns(m, |rooms|) && FreeInMatrix(m, free)
    requires UniqueKeys(filled) && FilledWithin(filled, |m|, |rooms|)
    ensures SameShape(r.matrix, m) && UniqueKeys(r.state.filled)
    ensures forall x, y :: 0 <= x < |m| && 0 <= y < |m[x]| && r.matrix[x][y] != m[x][y] ==>
              r.matrix[x][y].Some? && HasKey(r.state.filled, r.matrix[x][y].value)
  {
    var pool := LecturePool(classes, filled);
    assert Indices(classes, pool) by {
      forall i | 0 <= i < |pool| ensures pool[i] < |classes| {
        assert pool[i] in pool;
      }
    }
    var target := LectureTarget(CountKind(classes, LectureKind));
    var st := Lectures(m, rooms, classes, target, asWritten, pool, Start(free, filled));
    LecturesWithin(m, rooms, classes, target, asWritten, pool, Start(free, filled));
    WithinIsInMatrix(m, st.filled, |rooms|);
    FillShowsFilled(m, st.filled);
    LectureResult(FillMatrix(m, st.filled), st, CapacityWarnings(rooms, classes))
  }

  // ---------------------------------------------------------------------------
  // Bounds
  // ---------------------------------------------------------------------------

  lemma PlaceWithin(m: Matrix, rooms: seq<Room>, st: LectureState, c: Class, idx: nat, start: nat, col: nat, preferred: bool)
    requires Columns(m, |rooms|) && FreeInMatrix(m, st.free) && UniqueKeys(st.filled) && FilledWithin(st.filled, |m|, |rooms|)
    requires forall row: nat :: start <= row < start + c.duration ==> (row, col) in st.free
    ensures FilledWithin(Place(st, c, idx, start, col, preferred).filled, |m|, |rooms|)
  {
    var fields := Block(start, c.duration, col);
    if c.duration > 0 {
      forall x | x in fields ensures x.0 < |m| && x.1 < |rooms| {
        var i :| 0 <= i < |fields| && fields[i] == x;
        assert (start + i, col) in st.free;
      }
      ExtendWithin(st.filled, idx, fields, |m|, |rooms|);
    }
  }

  /** What a scan result satisfies, whichever attempt produced it: a classroom the
      class may use, every field of the block free, the batch free, no group over
      the cap that day; a preferred start is slot 0, 1 or 5 of a teaching day whose
      placed count is below the target. */
  predicate Placeable(rooms: seq<Room>, classes: seq<Class>, st: LectureState, c: Class, target: nat,
                      start: nat, col: nat, preferred: bool) {
    && col in RoomsOfType(rooms, ClassroomTag) && col in c.classrooms
    && (forall row: nat :: start <= row < start + c.duration ==> (row, col) in st.free)
    && SlotFreeForBatch(st.occ, FirstGroup(c), start, c.duration, col)
    && !OverCap(classes, st.bookings, c, DayOf(start))
    && (preferred ==> start % SlotsPerDay in PreferredSlots && DayOf(start) < TeachingDays && PlacedOn(st.bookings, DayOf(start)) < target)
  }

  lemma ScanPlaceable(m: Matrix, rooms: seq<Room>, classes: seq<Class>, st: LectureState, idx: nat, target: nat,
                      asWritten: bool, ind: nat)
    requires idx < |classes| && FreeInMatrix(m, st.free)
    requires Scan(m, rooms, classes, st, idx, target, asWritten, ind).Some?
    ensures var (start, col, preferred) := Scan(m, rooms, classes, st, idx, target, asWritten, ind).value;
      Placeable(rooms, classes, st, classes[idx], target, start, col, preferred)
  {
    var (start, col, preferred) := Scan(m, rooms, classes, st, idx, target, asWritten, ind).value;
    var c := classes[idx];
    if !preferred {
      var j :| ind <= j < |st.free| && st.free[j] == (start, col) && FallbackFits(rooms, classes, st, c, st.free[j]);
      forall row: nat | start <= row < start + c.duration ensures (row, col) in st.free {
        if row == start {
          assert st.free[j] == (row, col);
        }
      }
    }
  }

  lemma ScheduleLectureWithin(m: Matrix, rooms: seq<Room>, classes: seq<Class>, target: nat, asWritten: bool,
                              st: LectureState, idx: nat)
    requires idx < |classes| && Columns(m, |rooms|) && FreeInMatrix(m, st.free)
    requires UniqueKeys(st.filled) && FilledWithin(st.filled, |m|, |rooms|)
    ensures FilledWithin(ScheduleLecture(m, rooms, classes, target, asWritten, st, idx).filled, |m|, |rooms|)
  {
    match Scan(m, rooms, classes, st, idx, target, asWritten, 0)
    case Some((start, col, preferred)) =>
      ScanPlaceable(m, rooms, classes, st, idx, target, asWritten, 0);
      PlaceWithin(m, rooms, st, classes[idx], idx, start, col, preferred);
    case None =>
  }

  lemma {:induction false} LecturesWithin(m: Matrix, rooms: seq<Room>, classes: seq<Class>, target: nat, asWritten: bool,
                                          order: seq<nat>, st: LectureState)
    requires Indices(classes, order) && Columns(m, |rooms|) && FreeInMatrix(m, st.free)
    requires UniqueKeys(st.filled) && FilledWithin(st.filled, |m|, |rooms|)
    ensures FilledWithin(Lectures(m, rooms, classes, target, asWritten, order, st).filled, |m|, |rooms|)
    decreases |order|
  {
    if |order| > 0 {
      ScheduleLectureWithin(m, rooms, classes, target, asWritten, st, order[0]);
      LecturesWithin(m, rooms, classes, target, asWritten, order[1..], ScheduleLecture(m, rooms, classes, target, asWritten, st, order[0]));
    }
  }

  // ---------------------------------------------------------------------------
  // Invariants of the lectures
  // ---------------------------------------------------------------------------

  /** Lecture `b` holds its room and its batch at `row`. */
  predicate CoversRow(classes: seq<Class>, b: Lecture, row: nat) {
    b.cls < |classes| && b.start <= row < b.start + classes[b.cls].duration
  }

  /** A placed lecture: a lecture class in a classroom it may use, within one day; a
      preferred one at slot 0, 1 or 5 of a teaching day. */
  predicate WellPlaced(rooms: seq<Room>, classes: seq<Class>, b: Lecture) {
    && b.cls < |classes| && classes[b.cls].kind == LectureKind
    && b.room in RoomsOfType(rooms, ClassroomTag) && b.room in classes[b.cls].classrooms
    && (classes[b.cls].duration == 0 || b.start % SlotsPerDay + classes[b.cls].duration <= SlotsPerDay)
    && (b.preferred ==> b.start % SlotsPerDay in PreferredSlots && DayOf(b.start) < TeachingDays)
  }

  predicate AllWellPlaced(rooms: seq<Room>, classes: seq<Class>, bs: seq<Lecture>) {
    forall i :: 0 <= i < |bs| ==> WellPlaced(rooms, classes, bs[i])
  }

  predicate SameSubjectDay(classes: seq<Class>, a: Lecture, b: Lecture) {
    a.cls < |classes| && b.cls < |classes| && classes[a.cls].subject == classes[b.cls].subject && DayOf(a.start) == DayOf(b.start)
  }

  /** No group has two lectures of one subject on one day. */
  ghost predicate NoRepeat(classes: seq<Class>, bs: seq<Lecture>) {
    forall i, j, g :: 0 <= i < j < |bs| && SameSubjectDay(classes, bs[i], bs[j]) && g in classes[bs[i].cls].groups ==>
      g !in classes[bs[j].cls].groups
  }

  /** No day has more preferred placements than the target. */
  ghost predicate WithinTarget(bs: seq<Lecture>, target: nat) {
    forall d: nat :: PlacedOn(bs, d) <= target
  }

  predicate SameBatch(classes: seq<Class>, a: Lecture, b: Lecture) {
    a.cls < |classes| && b.cls < |classes| && FirstGroup(classes[a.cls]) == FirstGroup(classes[b.cls])
  }

  /** No two lectures of one batch (first group) share a row. */
  ghost predicate BatchApart(classes: seq<Class>, bs: seq<Lecture>) {
    forall i, j, row: nat :: 0 <= i < j < |bs| && SameBatch(classes, bs[i], bs[j]) && CoversRow(classes, bs[i], row) ==>
      !CoversRow(classes, bs[j], row)
  }

  /** The batch occupancy holds each lecture's room at each of its rows. */
  ghost predicate OccRecorded(classes: seq<Class>, st: LectureState) {
    forall i, row: nat :: 0 <= i < |st.bookings| && CoversRow(classes, st.bookings[i], row) ==>
      var key := (FirstGroup(classes[st.bookings[i].cls]), row);
      key in st.occ && st.occ[key] == st.bookings[i].room
  }

  function BlockOf(classes: seq<Class>, b: Lecture): seq<Field> {
    if b.cls < |classes| then Block(b.start, classes[b.cls].duration, b.room) else []
  }

  /** The fields of all placed lectures, with multiplicity. */
  ghost function BookedFields(classes: seq<Class>, bs: seq<Lecture>): multiset<Field>
    decreases |bs|
  {
    if |bs| == 0 then multiset{} else BookedFields(classes, bs[..|bs| - 1]) + multiset(BlockOf(classes, bs[|bs| - 1]))
  }

  /** The free list names each field at most once. */
  ghost predicate DistinctFree(free: seq<Field>) {
    forall x :: multiset(free)[x] <= 1
  }

  /** Nothing is lost: the free fields and the placed fields make up the original free list. */
  ghost predicate Conserved(classes: seq<Class>, free0: seq<Field>, st: LectureState) {
    multiset(st.free) + BookedFields(classes, st.bookings) == multiset(free0)
  }

  ghost predicate LInv(m: Matrix, rooms: seq<Room>, classes: seq<Class>, target: nat, free0: seq<Field>, st: LectureState) {
    && UniqueKeys(st.filled) && FreeInMatrix(m, st.free)
    && AllWellPlaced(rooms, classes, st.bookings) && NoRepeat(classes, st.bookings) && WithinTarget(st.bookings, target)
    && OccRecorded(classes, st) && BatchApart(classes, st.bookings) && Conserved(classes, free0, st)
  }

  lemma {:induction false} BlockCount(start: nat, duration: nat, col: nat, x: Field)
    ensures multiset(Block(start, duration, col))[x] == if x.1 == col && start <= x.0 < start + duration then 1 else 0
    decreases duration
  {
    if duration > 0 {
      var n := duration - 1;
      assert Block(start, duration, col) == Block(start, n, col) + [(start + n, col)];
      BlockCount(start, n, col, x);
    } else {
      assert Block(start, duration, col) == [];
    }
  }

  lemma {:induction false} CoveredIsBooked(classes: seq<Class>, bs: seq<Lecture>, i: nat, row: nat)
    requires i < |bs| && CoversRow(classes, bs[i], row)
    ensures BookedFields(classes, bs)[(row, bs[i].room)] >= 1
    decreases |bs|
  {
    var n := |bs| - 1;
    if i == n {
      BlockCount(bs[i].start, classes[bs[i].cls].duration, bs[i].room, (row, bs[i].room));
    } else {
      assert bs[..n][i] == bs[i];
      CoveredIsBooked(classes, bs[..n], i, row);
    }
  }

  /** A field a lecture holds is no longer free. */
  lemma BookedNotFree(classes: seq<Class>, free0: seq<Field>, st: LectureState, i: nat, row: nat)
    requires Conserved(classes, free0, st) && DistinctFree(free0)
    requires i < |st.bookings| && CoversRow(classes, st.bookings[i], row)
    ensures (row, st.bookings[i].room) !in st.free
  {
    CoveredIsBooked(classes, st.bookings, i, row);
    assert multiset(free0)[(row, st.bookings[i].room)] <= 1;
  }

  lemma PlaceConserves(classes: seq<Class>, free0: seq<Field>, st: LectureState, idx: nat, start: nat, col: nat, preferred: bool)
    requires idx < |classes| && UniqueKeys(st.filled) && Conserved(classes, free0, st)
    requires forall row: nat :: start <= row < start + classes[idx].duration ==> (row, col) in st.free
    ensures Conserved(classes, free0, Place(st, classes[idx], idx, start, col, preferred))
  {
    var c := classes[idx];
    BlockInFree(st.free, start, c.duration, col);
    ConservedSnoc(classes, free0, st, Place(st, c, idx, start, col, preferred), Lecture(idx, start, col, preferred));
  }

  /** A block whose fields are all free is contained in the free list. */
  lemma BlockInFree(free: seq<Field>, start: nat, n: nat, col: nat)
    requires forall row: nat :: start <= row < start + n ==> (row, col) in free
    ensures multiset(Block(start, n, col)) <= multiset(free)
  {
    forall x: Field ensures multiset(Block(start, n, col))[x] <= multiset(free)[x] {
      BlockCount(start, n, col, x);
      if x.1 == col && start <= x.0 < start + n {
        assert (x.0, col) in free;
      }
    }
  }

  /** Moving a booking's fields from the free list to the booked fields conserves them. */
  lemma ConservedSnoc(classes: seq<Class>, free0: seq<Field>, st: LectureState, r: LectureState, nb: Lecture)
    requires Conserved(classes, free0, st) && multiset(BlockOf(classes, nb)) <= multiset(st.free)
    requires multiset(r.free) == multiset(st.free) - multiset(BlockOf(classes, nb))
    requires r.bookings == st.bookings + [nb]
    ensures Conserved(classes, free0, r)
  {
    assert r.bookings[..|r.bookings| - 1] == st.bookings;
  }

  lemma PlacedOnSnoc(bs: seq<Lecture>, b: Lecture, d: nat)
    ensures PlacedOn(bs + [b], d) == PlacedOn(bs, d) + (if b.preferred && DayOf(b.start) == d then 1 else 0)
  {
    assert (bs + [b])[..|bs|] == bs;
  }

  lemma PlaceShapedAndCapped(rooms: seq<Room>, classes: seq<Class>, target: nat, st: LectureState, idx: nat,
                             start: nat, col: nat, preferred: bool)
    requires idx < |classes| && classes[idx].kind == LectureKind && UniqueKeys(st.filled)
    requires AllWellPlaced(rooms, classes, st.bookings) && NoRepeat(classes, st.bookings) && WithinTarget(st.bookings, target)
    requires Placeable(rooms, classes, st, classes[idx], target, start, col, preferred)
    ensures var r := Place(st, classes[idx], idx, start, col, preferred);
      AllWellPlaced(rooms, classes, r.bookings) && NoRepeat(classes, r.bookings) && WithinTarget(r.bookings, target)
  {
    var c := classes[idx];
    var nb := Lecture(idx, start, col, preferred);
    var bs := st.bookings + [nb];
    forall i | 0 <= i < |bs| ensures WellPlaced(rooms, classes, bs[i]) {
      if i < |st.bookings| {
        assert bs[i] == st.bookings[i];
      }
    }
    forall i, j, g | 0 <= i < j < |bs| && SameSubjectDay(classes, bs[i], bs[j]) && g in classes[bs[i].cls].groups
      ensures g !in classes[bs[j].cls].groups
    {
      assert bs[i] == st.bookings[i];
      if j < |st.bookings| {
        assert bs[j] == st.bookings[j];
      } else if g in c.groups {
        assert Taught(classes, st.bookings, c.subject, g, DayOf(start));
      }
    }
    forall d: nat ensures PlacedOn(bs, d) <= target {
      PlacedOnSnoc(st.bookings, nb, d);
    }
  }

  lemma PlaceBatchApart(classes: seq<Class>, free0: seq<Field>, st: LectureState, idx: nat, start: nat, col: nat, preferred: bool)
    requires idx < |classes| && UniqueKeys(st.filled) && DistinctFree(free0)
    requires OccRecorded(classes, st) && BatchApart(classes, st.bookings) && Conserved(classes, free0, st)
    requires forall row: nat :: start <= row < start + classes[idx].duration ==> (row, col) in st.free
    requires SlotFreeForBatch(st.occ, FirstGroup(classes[idx]), start, classes[idx].duration, col)
    ensures BatchApart(classes, Place(st, classes[idx], idx, start, col, preferred).bookings)
  {
    var nb := Lecture(idx, start, col, preferred);
    var bs := st.bookings + [nb];
    NewLectureApart(classes, free0, st, idx, start, col, preferred);
    forall i, j, row: nat | 0 <= i < j < |bs| && SameBatch(classes, bs[i], bs[j]) && CoversRow(classes, bs[i], row)
      ensures !CoversRow(classes, bs[j], row)
    {
      assert bs[i] == st.bookings[i];
      if j < |st.bookings| {
        assert bs[j] == st.bookings[j];
      }
    }
  }

  /** No row an earlier lecture of the same batch covers lies in the new block: the batch
      check admits only the earlier lecture's own room there, and that field is no longer
      free. */
  lemma NewLectureApart(classes: seq<Class>, free0: seq<Field>, st: LectureState, idx: nat, start: nat, col: nat, preferred: bool)
    requires idx < |classes| && DistinctFree(free0)
    requires OccRecorded(classes, st) && Conserved(classes, free0, st)
    requires forall row: nat :: start <= row < start + classes[idx].duration ==> (row, col) in st.free
    requires SlotFreeForBatch(st.occ, FirstGroup(classes[idx]), start, classes[idx].duration, col)
    ensures forall i, row: nat ::
              (0 <= i < |st.bookings| && SameBatch(classes, st.bookings[i], Lecture(idx, start, col, preferred))
               && CoversRow(classes, st.bookings[i], row)) ==> !CoversRow(classes, Lecture(idx, start, col, preferred), row)
  {
    forall i, row: nat | && 0 <= i < |st.bookings| && SameBatch(classes, st.bookings[i], Lecture(idx, start, col, preferred))
                         && CoversRow(classes, st.bookings[i], row) && start <= row < start + classes[idx].duration
      ensures false
    {
      BookedNotFree(classes, free0, st, i, row);
    }
  }

  lemma PlaceOccRecorded(classes: seq<Class>, st: LectureState, idx: nat, start: nat, col: nat, preferred: bool)
    requires idx < |classes| && UniqueKeys(st.filled) && OccRecorded(classes, st)
    requires BatchApart(classes, st.bookings + [Lecture(idx, start, col, preferred)])
    ensures OccRecorded(classes, Place(st, classes[idx], idx, start, col, preferred))
  {
    OccAfterReserve(classes, st, Place(st, classes[idx], idx, start, col, preferred), Lecture(idx, start, col, preferred));
  }

  /** Reserving a new lecture's rows for its batch keeps the occupancy recorded, provided
      the new lecture shares no row with a lecture of its batch. */
  lemma OccAfterReserve(classes: seq<Class>, st: LectureState, r: LectureState, nb: Lecture)
    requires nb.cls < |classes| && OccRecorded(classes, st) && BatchApart(classes, st.bookings + [nb])
    requires r.bookings == st.bookings + [nb]
    requires r.occ == Reserve(st.occ, FirstGroup(classes[nb.cls]), nb.start, classes[nb.cls].duration, nb.room)
    ensures OccRecorded(classes, r)
  {
    var c := classes[nb.cls];
    forall i, row: nat | 0 <= i < |r.bookings| && CoversRow(classes, r.bookings[i], row)
      ensures (FirstGroup(classes[r.bookings[i].cls]), row) in r.occ
      ensures r.occ[(FirstGroup(classes[r.bookings[i].cls]), row)] == r.bookings[i].room
    {
      if i < |st.bookings| {
        assert r.bookings[i] == st.bookings[i];
        if FirstGroup(classes[st.bookings[i].cls]) == FirstGroup(c) && nb.start <= row < nb.start + c.duration {
          assert SameBatch(classes, r.bookings[i], r.bookings[|st.bookings|]);
          assert CoversRow(classes, r.bookings[|st.bookings|], row);
        }
      }
    }
  }

  /** Placing a lecture keeps every invariant. */
  lemma PlaceKeeps(m: Matrix, rooms: seq<Room>, classes: seq<Class>, target: nat, free0: seq<Field>, st: LectureState,
                   idx: nat, start: nat, col: nat, preferred: bool)
    requires idx < |classes| && classes[idx].kind == LectureKind && DistinctFree(free0)
    requires LInv(m, rooms, classes, target, free0, st)
    requires Placeable(rooms, classes, st, classes[idx], target, start, col, preferred)
    ensures LInv(m, rooms, classes, target, free0, Place(st, classes[idx], idx, start, col, preferred))
  {
    PlaceConserves(classes, free0, st, idx, start, col, preferred);
    PlaceShapedAndCapped(rooms, classes, target, st, idx, start, col, preferred);
    PlaceBatchApart(classes, free0, st, idx, start, col, preferred);
    PlaceOccRecorded(classes, st, idx, start, col, preferred);
  }

  lemma ScheduleLectureKeeps(m: Matrix, rooms: seq<Room>, classes: seq<Class>, target: nat, asWritten: bool,
                             free0: seq<Field>, st: LectureState, idx: nat)
    requires idx < |classes| && classes[idx].kind == LectureKind && DistinctFree(free0)
    requires LInv(m, rooms, classes, target, free0, st)
    ensures LInv(m, rooms, classes, target, free0, ScheduleLecture(m, rooms, classes, target, asWritten, st, idx))
  {
    match Scan(m, rooms, classes, st, idx, target, asWritten, 0)
    case Some((start, col, preferred)) =>
      ScanPlaceable(m, rooms, classes, st, idx, target, asWritten, 0);
      PlaceKeeps(m, rooms, classes, target, free0, st, idx, start, col, preferred);
    case None =>
  }

  predicate LectureIndices(classes: seq<Class>, xs: seq<nat>) {
    forall i :: 0 <= i < |xs| ==> xs[i] < |classes| && classes[xs[i]].kind == LectureKind
  }

  lemma {:induction false} LecturesKeep(m: Matrix, rooms: seq<Room>, classes: seq<Class>, target: nat, asWritten: bool,
                                        free0: seq<Field>, order: seq<nat>, st: LectureState)
    requires LectureIndices(classes, order) && DistinctFree(free0) && LInv(m, rooms, classes, target, free0, st)
    ensures LInv(m, rooms, classes, target, free0, Lectures(m, rooms, classes, target, asWritten, order, st))
    decreases |order|
  {
    if |order| > 0 {
      ScheduleLectureKeeps(m, rooms, classes, target, asWritten, free0, st, order[0]);
      LecturesKeep(m, rooms, classes, target, asWritten, free0, order[1..], ScheduleLecture(m, rooms, classes, target, asWritten, st, order[0]));
    }
  }

  // ---------------------------------------------------------------------------
  // Accounting: each lecture of the order is placed or logged, exactly once
  // ---------------------------------------------------------------------------

  function ClassesOf(bs: seq<Lecture>): (r: seq<nat>)
    ensures |r| == |bs| && forall i :: 0 <= i < |bs| ==> r[i] == bs[i].cls
  {
    seq(|bs|, i requires 0 <= i < |bs| => bs[i].cls)
  }

  lemma ScheduleLectureAccounts(m: Matrix, rooms: seq<Room>, classes: seq<Class>, target: nat, asWritten: bool,
                                st: LectureState, idx: nat)
    requires idx < |classes| && FreeInMatrix(m, st.free) && UniqueKeys(st.filled)
    ensures var r := ScheduleLecture(m, rooms, classes, target, asWritten, st, idx);
      multiset(ClassesOf(r.bookings)) + multiset(r.unplaced) == multiset(ClassesOf(st.bookings)) + multiset(st.unplaced) + multiset{idx}
  {
    match Scan(m, rooms, classes, st, idx, target, asWritten, 0)
    case Some((start, col, preferred)) =>
      var r := Place(st, classes[idx], idx, start, col, preferred);
      assert ClassesOf(r.bookings) == ClassesOf(st.bookings) + [idx];
    case None =>
  }

  lemma {:induction false} LecturesAccount(m: Matrix, rooms: seq<Room>, classes: seq<Class>, target: nat, asWritten: bool,
                                           order: seq<nat>, st: LectureState)
    requires Indices(classes, order) && FreeInMatrix(m, st.free) && UniqueKeys(st.filled)
    ensures var r := Lectures(m, rooms, classes, target, asWritten, order, st);
      multiset(ClassesOf(r.bookings)) + multiset(r.unplaced) == multiset(ClassesOf(st.bookings)) + multiset(st.unplaced) + multiset(order)
    decreases |order|
  {
    if |order| > 0 {
      ScheduleLectureAccounts(m, rooms, classes, target, asWritten, st, order[0]);
      LecturesAccount(m, rooms, classes, target, asWritten, order[1..], ScheduleLecture(m, rooms, classes, target, asWritten, st, order[0]));
      assert order == [order[0]] + order[1..];
    }
  }

  // ---------------------------------------------------------------------------
  // The double step of the scan
  // ---------------------------------------------------------------------------

  /** One step of the scan at entry `ind`, when the entry does not end it. */
  lemma ScanStep(m: Matrix, rooms: seq<Room>, classes: seq<Class>, st: LectureState, idx: nat, target: nat,
                 asWritten: bool, ind: nat)
    requires idx < |classes| && FreeInMatrix(m, st.free) && ind < |st.free|
    requires var start := st.free[ind];
      !Gate(rooms, classes, st, classes[idx], start) ||
      (Preferred(m, rooms, classes, st, idx, target).None? &&
       !(Found(st.free, start, classes[idx].duration) && !OverCap(classes, st.bookings, classes[idx], DayOf(start.0))))
    ensures var start := st.free[ind];
      var next := if WithinDay(start.0, classes[idx].duration) && !Found(st.free, start, classes[idx].duration) && asWritten
                  then ind + 2 else ind + 1;
      Scan(m, rooms, classes, st, idx, target, asWritten, ind) == Scan(m, rooms, classes, st, idx, target, asWritten, next)
  {
  }

  /** The scan that advances one entry at a time looks at every entry from `ind`: when it
      gives up, no entry fits the fallback placement, and the preferred attempt failed
      whenever it was tried. */
  lemma {:induction false} ScanComplete(m: Matrix, rooms: seq<Room>, classes: seq<Class>, st: LectureState, idx: nat,
                                        target: nat, ind: nat)
    requires idx < |classes| && FreeInMatrix(m, st.free)
    requires Scan(m, rooms, classes, st, idx, target, false, ind).None?
    ensures forall j :: ind <= j < |st.free| ==> !FallbackFits(rooms, classes, st, classes[idx], st.free[j])
    ensures forall j :: ind <= j < |st.free| && Gate(rooms, classes, st, classes[idx], st.free[j]) ==>
              Preferred(m, rooms, classes, st, idx, target).None?
    decreases |st.free| - ind
  {
    if ind < |st.free| {
      var c := classes[idx];
      var start := st.free[ind];
      var pref := Preferred(m, rooms, classes, st, idx, target);
      var fits := Found(st.free, start, c.duration) && !OverCap(classes, st.bookings, c, DayOf(start.0));
      if Gate(rooms, classes, st, c, start) {
        assert pref.None? && !fits by {
          if pref.Some? || fits {
            assert Scan(m, rooms, classes, st, idx, target, false, ind).Some?;
          }
        }
      }
      ScanStep(m, rooms, classes, st, idx, target, false, ind);
      ScanComplete(m, rooms, classes, st, idx, target, ind + 1);
      forall j | ind <= j < |st.free| ensures !FallbackFits(rooms, classes, st, c, st.free[j]) {
        if j > ind {
          assert !FallbackFits(rooms, classes, st, classes[idx], st.free[j]);
        }
      }
      forall j | ind <= j < |st.free| && Gate(rooms, classes, st, c, st.free[j]) ensures pref.None? {
        if j > ind {
          assert Preferred(m, rooms, classes, st, idx, target).None?;
        }
      }
    }
  }

  /** A block of two rows needs the row after its start free too: when no preferred
      start has that, the preferred attempt fails. */
  lemma NoPreferredPair(m: Matrix, rooms: seq<Room>, classes: seq<Class>, st: LectureState, idx: nat, target: nat)
    requires idx < |classes| && classes[idx].duration == 2 && FreeInMatrix(m, st.free)
    requires forall x: nat, col: nat :: (x, col) in st.free && x % SlotsPerDay in PreferredSlots ==> (x + 1, col) !in st.free
    ensures Preferred(m, rooms, classes, st, idx, target).None?
  {
    var r := Preferred(m, rooms, classes, st, idx, target);
    if r.Some? {
      PreferredPair(m, classes, st, idx, target, r.value.0, r.value.1);
    }
  }

  /** A preferred fit of a two-row block holds both rows of its room free. */
  lemma PreferredPair(m: Matrix, classes: seq<Class>, st: LectureState, idx: nat, target: nat, x: nat, col: nat)
    requires idx < |classes| && classes[idx].duration == 2 && FreeInMatrix(m, st.free)
    requires PreferredFits(m, classes, st, idx, target, x, col)
    ensures (x, col) in st.free && (x + 1, col) in st.free
  {
    assert x <= x + 1 < x + classes[idx].duration;
  }

  /** With rows 0, 2 and 3 of room 0 free, only row 0 is a preferred start, and row 1 is taken. */
  lemma GapHasNoPair(free: seq<Field>)
    requires free == [(0, 0), (2, 0), (3, 0)]
    ensures forall x: nat, col: nat :: (x, col) in free && x % SlotsPerDay in PreferredSlots ==> (x + 1, col) !in free
  {
    forall x: nat, col: nat | (x, col) in free && x % SlotsPerDay in PreferredSlots ensures (x + 1, col) !in free {
      assert x == 0 || x == 2 || x == 3;
    }
  }

  /** A two-slot lecture, one classroom, rows 0, 2 and 3 free. The scan as written tries
      row 0, sees row 1 taken and steps past entry 1 to row 3, which fails too; the
      block at rows 2 and 3 is never tried. Advancing by one places the lecture there. */
  lemma ScanSkipsAsWritten(m: Matrix, rooms: seq<Room>, classes: seq<Class>, st: LectureState, target: nat)
    requires rooms == [Room("C1", ClassroomTag)]
    requires classes == [Class([0], "T", "S", LectureKind, 2, [0])]
    requires st == LectureState([(0, 0), (2, 0), (3, 0)], [], map[], [], [])
    requires FreeInMatrix(m, st.free)
    ensures Scan(m, rooms, classes, st, 0, target, true, 0).None?
    ensures Scan(m, rooms, classes, st, 0, target, false, 0) == Some((2, 0, false))
  {
    GapHasNoPair(st.free);
    NoPreferredPair(m, rooms, classes, st, 0, target);
    assert !Found(st.free, (0, 0), 2) by {
      assert (1, 0) !in st.free;
    }
    assert !Found(st.free, (3, 0), 2) by {
      assert (4, 0) !in st.free;
    }
    ScanStep(m, rooms, classes, st, 0, target, true, 0);
    ScanStep(m, rooms, classes, st, 0, target, true, 2);
    ScanStep(m, rooms, classes, st, 0, target, false, 0);
    assert Found(st.free, (2, 0), 2);
    assert 0 in RoomsOfType(rooms, ClassroomTag);
    assert Gate(rooms, classes, st, classes[0], (2, 0));
  }

  // ---------------------------------------------------------------------------
  // The lecture phase as a whole
  // ---------------------------------------------------------------------------

  /** What the lecture phase guarantees. Every lecture placed is a lecture class in a
      classroom it may use, within one day; no group has one subject twice a day; no day
      gets more preferred placements than the target; no batch holds two lectures at
      one row; every field placed came from the free list and left it. Each lecture of
      the pool is placed or logged as unplaced, once. This holds for both scans. */
  lemma InitialPopulationOutcome(m: Matrix, rooms: seq<Room>, classes: seq<Class>, free: seq<Field>, filled: Filled,
                                 asWritten: bool)
    requires Columns(m, |rooms|) && FreeInMatrix(m, free)
    requires UniqueKeys(filled) && FilledWithin(filled, |m|, |rooms|)
    requires DistinctFree(free)
    ensures var r := InitialPopulation(m, rooms, classes, free, filled, asWritten);
      var target := LectureTarget(CountKind(classes, LectureKind));
      && AllWellPlaced(rooms, classes, r.state.bookings) && NoRepeat(classes, r.state.bookings)
      && WithinTarget(r.state.bookings, target) && BatchApart(classes, r.state.bookings)
      && Conserved(classes, free, r.state)
      && multiset(ClassesOf(r.state.bookings)) + multiset(r.state.unplaced) == multiset(LecturePool(classes, filled))
  {
    var pool := LecturePool(classes, filled);
    assert LectureIndices(classes, pool) by {
      forall i | 0 <= i < |pool| ensures pool[i] < |classes| && classes[pool[i]].kind == LectureKind {
        assert pool[i] in pool;
      }
    }
    var target := LectureTarget(CountKind(classes, LectureKind));
    var st0 := Start(free, filled);
    assert BookedFields(classes, st0.bookings) == multiset{};
    LecturesKeep(m, rooms, classes, target, asWritten, free, pool, st0);
    LecturesAccount(m, rooms, classes, target, asWritten, pool, st0);
  }
}
