/** `improved_initial_population` of scheduler_improved.py: labs first, then lectures,
    each class placed on the first day (Monday to Friday) that its per-day cap allows
    and where the ResourceManager finds a free (slot, room).

    The per-day counters are built as a two-level `defaultdict` but indexed once with a
    (subject, group, day) tuple, so the first cap test or count update raises a
    TypeError. `ImprovedInitialPopulationAsWritten` models that run; everywhere else
    the counters are the flat ones evidently intended, for both settings of `asWritten`.

    Two further defects of the loop are modelled both ways, selected by `asWritten`:
    - the lab day cap's `continue` sits in the inner `for` over groups, so it never
      skips the day; corrected, a lab skips the day once its subject has a lab that
      day for any of its groups;
    - reservations are filed under the year "Year" while lookups ask for "Unknown",
      so the batch test never sees them; corrected, both use the lookup year.
    The bookkeeping the loop also does for the evolutionary phase (`groups_empty_space`,
    `teachers_empty_space`, `subjects_order`) is not part of this model. */
module ImprovedScheduler {
  import opened Model
  import opened ResourceManager
  import opened Timetable

  // ---------------------------------------------------------------------------
  // Priority order
  // ---------------------------------------------------------------------------

  /** `priority_order`: lab sessions, then lectures, each in index order. Sorting by
      `get_year_priority`, which is constant, is stable and leaves each list as it is;
      classes of any other type are not scheduled. */
  function PriorityOrder(classes: seq<Class>): (r: seq<nat>)
    ensures forall x: nat :: x in r <==> x < |classes| && (classes[x].kind == LabKind || classes[x].kind == LectureKind)
    ensures forall i :: 0 <= i < |r| ==> r[i] < |classes|
    ensures forall i, j :: 0 <= i < j < |r| && classes[r[j]].kind == LabKind ==> classes[r[i]].kind == LabKind
    ensures forall i, j :: 0 <= i < j < |r| && classes[r[i]].kind == classes[r[j]].kind ==> r[i] < r[j]
  {
    var labs := IndicesWhere(classes, (c: Class) => c.kind == LabKind);
    var lectures := IndicesWhere(classes, (c: Class) => c.kind == LectureKind);
    LabsThenLectures(classes, labs, lectures);
    labs + lectures
  }

  /** The ascending lab indices followed by the ascending lecture indices put every lab
      first and keep each kind in index order. */
  lemma LabsThenLectures(classes: seq<Class>, labs: seq<nat>, lectures: seq<nat>)
    requires forall x: nat :: x in labs <==> x < |classes| && classes[x].kind == LabKind
    requires forall x: nat :: x in lectures <==> x < |classes| && classes[x].kind == LectureKind
    requires forall i, j :: 0 <= i < j < |labs| ==> labs[i] < labs[j]
    requires forall i, j :: 0 <= i < j < |lectures| ==> lectures[i] < lectures[j]
    ensures var r := labs + lectures;
            && (forall x: nat :: x in r <==> x < |classes| && (classes[x].kind == LabKind || classes[x].kind == LectureKind))
            && (forall i :: 0 <= i < |r| ==> r[i] < |classes|)
            && (forall i, j :: 0 <= i < j < |r| && classes[r[j]].kind == LabKind ==> classes[r[i]].kind == LabKind)
            && (forall i, j :: 0 <= i < j < |r| && classes[r[i]].kind == classes[r[j]].kind ==> r[i] < r[j])
  {
    var r := labs + lectures;
    forall i | 0 <= i < |r| ensures r[i] < |classes| && (i < |labs| <==> classes[r[i]].kind == LabKind) {
      if i < |labs| {
        assert r[i] in labs;
      } else {
        assert r[i] in lectures;
      }
    }
  }

  // ---------------------------------------------------------------------------
  // Loop state
  // ---------------------------------------------------------------------------

  /** (subject, group, day) */
  type DayKey = (string, nat, nat)

  /** One successful placement: class `cls` starts at `slot` of `day` in `room`. The
      source records the same facts in `filled`; the list keeps them in loop order. */
  datatype Placement = Placement(cls: nat, day: nat, slot: nat, room: nat)

  datatype State = State(mgr: Manager, filled: Filled, free: seq<Field>,
                         lectureCounts: map<DayKey, nat>, labCounts: map<DayKey, nat>,
                         placements: seq<Placement>, unplaced: seq<nat>)

  /** A flat per-day counter, 0 for a key never counted: the day counters as evidently
      intended (see `ReachesCounters` for the counters as written). */
  function Count(counts: map<DayKey, nat>, k: DayKey): nat {
    if k in counts then counts[k] else 0
  }

  /** `counts[(subject, g, day)] += 1` for each group `g` in turn. */
  function Bump(counts: map<DayKey, nat>, subject: string, groups: seq<nat>, day: nat): (r: map<DayKey, nat>)
    ensures forall k: DayKey :: Count(r, k) == Count(counts, k) + (if k.0 == subject && k.2 == day then multiset(groups)[k.1] else 0)
    decreases |groups|
  {
    if |groups| == 0 then counts
    else
      var k := (subject, groups[0], day);
      assert groups == [groups[0]] + groups[1..];
      Bump(counts[k := Count(counts, k) + 1], subject, groups[1..], day)
  }

  /** The fields a session of `duration` slots occupies from `slot` of `day` in `room`. */
  function SessionFields(day: nat, slot: nat, duration: nat, room: nat): (r: seq<Field>)
    ensures |r| == duration
    ensures forall i :: 0 <= i < duration ==> r[i] == (RowOf(day, slot) + i, room)
  {
    seq(duration, i requires 0 <= i < duration => ((RowOf(day, slot) + i) as nat, room))
  }

  // ---------------------------------------------------------------------------
  // One class
  // ---------------------------------------------------------------------------

  /** The year reservations are filed under. */
  function ReserveYear(asWritten: bool): string {
    if asWritten then "Year" else LookupYear
  }

  /** The per-day caps: a lecture skips a day once a lecture of its subject is there for
      its first group; a lab (corrected only) once a lab of its subject is there for any
      of its groups. */
  predicate DaySkipped(st: State, c: Class, day: nat, asWritten: bool) {
    if c.kind == LectureKind then Count(st.lectureCounts, (c.subject, FirstGroup(c), day)) >= 1
    else !asWritten && exists g :: g in c.groups && Count(st.labCounts, (c.subject, g, day)) >= 1
  }

  /** Slots tried first: lectures at 09:15, 10:15, 14:15; two-hour labs at 09:15 or 14:15. */
  function PreferredSlots(c: Class): (r: seq<nat>)
    ensures c.kind == LectureKind ==> r == [0, 1, 5]
    ensures c.kind != LectureKind ==> r == (if c.duration == 2 then [0, 5] else [0])
  {
    if c.kind == LectureKind then [0, 1, 5] else if c.duration == 2 then [0, 5] else [0]
  }

  /** The body of `if placement:`: reserve, record the fields (the `setdefault` inside
      the loop over the session's slots creates the class's key only when there is a
      slot), drop them from `free`, count the session for each of its groups. */
  function Place(st: State, c: Class, idx: nat, day: nat, slot: nat, room: nat, asWritten: bool): (r: State)
    requires UniqueKeys(st.filled)
    ensures UniqueKeys(r.filled)
  {
    var fields := SessionFields(day, slot, c.duration, room);
    State(ReserveSlot(st.mgr, room, day, slot, c.duration, ReserveYear(asWritten), FirstGroup(c)),
          if c.duration == 0 then st.filled else Extend(st.filled, idx, fields),
          RemoveAll(st.free, fields),
          if c.kind == LectureKind then Bump(st.lectureCounts, c.subject, c.groups, day) else st.lectureCounts,
          if c.kind == LectureKind then st.labCounts else Bump(st.labCounts, c.subject, c.groups, day),
          st.placements + [Placement(idx, day, slot, room)],
          st.unplaced)
  }

  /** `for day in day_order`: the first day not skipped where a (slot, room) is found. */
  function TryDays(classes: seq<Class>, st: State, idx: nat, day: nat, asWritten: bool): (r: State)
    requires idx < |classes| && UniqueKeys(st.filled)
    ensures UniqueKeys(r.filled)
    decreases TeachingDays - day
  {
    if day >= TeachingDays then st.(unplaced := st.unplaced + [idx])
    else
      var c := classes[idx];
      if DaySkipped(st, c, day, asWritten) then TryDays(classes, st, idx, day + 1, asWritten)
      else match FindAlternateRoomOrSlot(st.mgr, c, day, PreferredSlots(c))
        case None => TryDays(classes, st, idx, day + 1, asWritten)
        case Some((row, col)) => Place(st, c, idx, day, row % SlotsPerDay, col, asWritten)
  }

  /** `for class_idx in priority_order`. */
  function Run(classes: seq<Class>, order: seq<nat>, st: State, asWritten: bool): (r: State)
    requires forall i :: 0 <= i < |order| ==> order[i] < |classes|
    requires UniqueKeys(st.filled)
    ensures UniqueKeys(r.filled)
    decreases |order|
  {
    if |order| == 0 then st
    else Run(classes, order[1..], TryDays(classes, st, order[0], 0, asWritten), asWritten)
  }

  // ---------------------------------------------------------------------------
  // What a run keeps true
  // ---------------------------------------------------------------------------

  /** Two non-empty slot ranges of one day that share a slot. */
  predicate Overlap(a: nat, da: nat, b: nat, db: nat) {
    0 < da && 0 < db && a < b + db && b < a + da
  }

  /** A placement in one of the class's rooms, from the pool of its type, on a teaching
      day, not running past the end of the day. */
  predicate WellPlaced(classes: seq<Class>, mgr: Manager, p: Placement) {
    && p.cls < |classes| && p.day < TeachingDays
    && p.room in classes[p.cls].classrooms && p.room in PoolFor(mgr, classes[p.cls])
    && (classes[p.cls].duration > 0 ==> p.slot + classes[p.cls].duration <= SlotsPerDay)
  }

  /** The state remembers a placement: its day counted for each of its groups, a lab
      room marked for its slots, and (corrected only) its batch holding those slots. */
  predicate Recorded(classes: seq<Class>, st: State, p: Placement, asWritten: bool)
    requires p.cls < |classes|
  {
    var c := classes[p.cls];
    && (c.kind == LectureKind ==> forall g :: g in c.groups ==> Count(st.lectureCounts, (c.subject, g, p.day)) >= 1)
    && (c.kind != LectureKind ==> forall g :: g in c.groups ==> Count(st.labCounts, (c.subject, g, p.day)) >= 1)
    && (p.room in st.mgr.labs ==>
          forall s: nat :: p.slot <= s < p.slot + c.duration ==> (p.room, p.day, s) in st.mgr.labOccupancy)
    && (!asWritten ==>
          forall s: nat :: p.slot <= s < p.slot + c.duration ==> (LookupYear, FirstGroup(c), p.day, s) in st.mgr.occupied)
  }

  /** The matrix fields a placement occupies. */
  function Footprint(classes: seq<Class>, p: Placement): seq<Field> {
    if p.cls < |classes| then SessionFields(p.day, p.slot, classes[p.cls].duration, p.room) else []
  }

  /** `filled` lists the fields of a placement under its class. */
  predicate Claimed(classes: seq<Class>, filled: Filled, p: Placement) {
    forall x :: x in Footprint(classes, p) ==> x in FieldsOf(filled, p.cls)
  }

  /** No field appears twice in the free list. */
  ghost predicate Unrepeated(free: seq<Field>) {
    forall x :: multiset(free)[x] <= 1
  }

  /** The fields of the placements are no longer free. */
  predicate Vacated(classes: seq<Class>, free: seq<Field>, ps: seq<Placement>) {
    forall i, x :: 0 <= i < |ps| && x in Footprint(classes, ps[i]) ==> x !in free
  }

  /** Two lectures of one subject on one day, the later one's first group among the
      earlier one's groups: what the lecture day cap rules out. */
  predicate LectureClash(classes: seq<Class>, p: Placement, q: Placement)
    requires p.cls < |classes| && q.cls < |classes|
  {
    var cp := classes[p.cls];
    var cq := classes[q.cls];
    cp.kind == LectureKind && cq.kind == LectureKind && cp.subject == cq.subject && p.day == q.day
    && FirstGroup(cq) in cp.groups
  }

  /** Two labs of one subject on one day sharing a group: what the lab day cap is for. */
  predicate LabDayClash(classes: seq<Class>, p: Placement, q: Placement)
    requires p.cls < |classes| && q.cls < |classes|
  {
    var cp := classes[p.cls];
    var cq := classes[q.cls];
    cp.kind != LectureKind && cq.kind != LectureKind && cp.subject == cq.subject && p.day == q.day
    && exists g :: g in cp.groups && g in cq.groups
  }

  /** Two sessions in one lab room at overlapping slots. */
  predicate LabRoomClash(classes: seq<Class>, labs: set<nat>, p: Placement, q: Placement)
    requires p.cls < |classes| && q.cls < |classes|
  {
    p.room == q.room && p.room in labs && p.day == q.day
    && Overlap(p.slot, classes[p.cls].duration, q.slot, classes[q.cls].duration)
  }

  /** Two sessions of one batch (first group) at overlapping slots. */
  predicate BatchClash(classes: seq<Class>, p: Placement, q: Placement)
    requires p.cls < |classes| && q.cls < |classes|
  {
    FirstGroup(classes[p.cls]) == FirstGroup(classes[q.cls]) && p.day == q.day
    && Overlap(p.slot, classes[p.cls].duration, q.slot, classes[q.cls].duration)
  }

  /** No two placements, in loop order, clash in any of the ways above that the variant rules out. */
  predicate ClashFree(classes: seq<Class>, labs: set<nat>, ps: seq<Placement>, asWritten: bool)
    requires forall i :: 0 <= i < |ps| ==> ps[i].cls < |classes|
  {
    forall i, j :: 0 <= i < j < |ps| ==>
      && !LectureClash(classes, ps[i], ps[j])
      && !LabRoomClash(classes, labs, ps[i], ps[j])
      && (!asWritten ==> !LabDayClash(classes, ps[i], ps[j]) && !BatchClash(classes, ps[i], ps[j]))
  }

  ghost predicate Inv(classes: seq<Class>, rooms: seq<Room>, st: State, asWritten: bool) {
    && st.mgr.classrooms == NewManager(rooms).classrooms && st.mgr.labs == NewManager(rooms).labs
    && UniqueKeys(st.filled)
    && FilledWithin(st.filled, TeachingDays * SlotsPerDay, |rooms|)
    && (forall i :: 0 <= i < |st.placements| ==> WellPlaced(classes, st.mgr, st.placements[i]))
    && (forall i :: 0 <= i < |st.placements| ==> Recorded(classes, st, st.placements[i], asWritten))
    && (forall i :: 0 <= i < |st.placements| ==> Claimed(classes, st.filled, st.placements[i]))
    && (asWritten ==> forall k :: k in st.mgr.occupied ==> k.0 == ReserveYear(true))
    && ClashFree(classes, st.mgr.labs, st.placements, asWritten)
  }

  // ---------------------------------------------------------------------------
  // Preservation
  // ---------------------------------------------------------------------------

  /** Earlier placements stay well placed and recorded: pools do not change, counts and
      occupancy only grow. */
  lemma PlaceKeepsOld(classes: seq<Class>, rooms: seq<Room>, st: State, idx: nat, day: nat, slot: nat, col: nat, asWritten: bool)
    requires Inv(classes, rooms, st, asWritten) && idx < |classes|
    ensures var r := Place(st, classes[idx], idx, day, slot, col, asWritten);
            forall i :: 0 <= i < |st.placements| ==>
              WellPlaced(classes, r.mgr, st.placements[i]) && Recorded(classes, r, st.placements[i], asWritten)
  {
    var c := classes[idx];
    var r := Place(st, c, idx, day, slot, col, asWritten);
    PlaceParts(st, c, idx, day, slot, col, asWritten);
    ReserveRecords(st.mgr, col, day, slot, c.duration, ReserveYear(asWritten), FirstGroup(c), r.mgr);
    ReserveGrows(st.mgr, col, day, slot, c.duration, ReserveYear(asWritten), FirstGroup(c));
    BumpGrows(st.lectureCounts, c.subject, c.groups, day);
    BumpGrows(st.labCounts, c.subject, c.groups, day);
    forall i | 0 <= i < |st.placements|
      ensures WellPlaced(classes, r.mgr, st.placements[i]) && Recorded(classes, r, st.placements[i], asWritten)
    {
      assert WellPlaced(classes, st.mgr, st.placements[i]);
      KeepsRecorded(classes, st, r, st.placements[i], asWritten);
    }
  }

  /** Counting one more session never lowers a count. */
  lemma BumpGrows(counts: map<DayKey, nat>, subject: string, groups: seq<nat>, day: nat)
    ensures forall k: DayKey :: Count(counts, k) <= Count(Bump(counts, subject, groups, day), k)
  {
  }

  /** A placement recorded in `st` stays recorded in any state whose counts and
      occupancy only grew. */
  lemma KeepsRecorded(classes: seq<Class>, st: State, r: State, p: Placement, asWritten: bool)
    requires p.cls < |classes| && Recorded(classes, st, p, asWritten)
    requires forall k: DayKey :: Count(st.lectureCounts, k) <= Count(r.lectureCounts, k)
    requires forall k: DayKey :: Count(st.labCounts, k) <= Count(r.labCounts, k)
    requires r.mgr.labs == st.mgr.labs && st.mgr.labOccupancy <= r.mgr.labOccupancy
    requires forall k :: k in st.mgr.occupied ==> k in r.mgr.occupied
    ensures Recorded(classes, r, p, asWritten)
  {
  }

  /** The new placement is well placed and recorded. */
  lemma PlaceRecordsNew(classes: seq<Class>, st: State, idx: nat, day: nat, row: nat, col: nat, asWritten: bool)
    requires UniqueKeys(st.filled) && idx < |classes| && day < TeachingDays
    requires FindAlternateRoomOrSlot(st.mgr, classes[idx], day, PreferredSlots(classes[idx])) == Some((row, col))
    ensures var r := Place(st, classes[idx], idx, day, row % SlotsPerDay, col, asWritten);
            var q := Placement(idx, day, row % SlotsPerDay, col);
            WellPlaced(classes, r.mgr, q) && Recorded(classes, r, q, asWritten)
  {
    PlaceWellPlaced(classes, st, idx, day, row, col, asWritten);
    hide Place;
    hide WellPlaced;
    PlaceRecorded(classes, st, idx, day, row % SlotsPerDay, col, asWritten);
  }

  /** The new placement lies in one of the class's rooms, within the day. */
  lemma PlaceWellPlaced(classes: seq<Class>, st: State, idx: nat, day: nat, row: nat, col: nat, asWritten: bool)
    requires UniqueKeys(st.filled) && idx < |classes| && day < TeachingDays
    requires FindAlternateRoomOrSlot(st.mgr, classes[idx], day, PreferredSlots(classes[idx])) == Some((row, col))
    ensures var r := Place(st, classes[idx], idx, day, row % SlotsPerDay, col, asWritten);
            WellPlaced(classes, r.mgr, Placement(idx, day, row % SlotsPerDay, col))
  {
    var c := classes[idx];
    var slot := row % SlotsPerDay;
    var r := Place(st, c, idx, day, slot, col, asWritten);
    var m2 := ReserveSlot(st.mgr, col, day, slot, c.duration, ReserveYear(asWritten), FirstGroup(c));
    assert r.mgr == m2;
    assert col in c.classrooms && col in PoolFor(st.mgr, c);
    if c.duration > 0 {
      assert Fits(st.mgr, c, day, slot, col);
      FreeStaysInDay(st.mgr, col, day, slot, c.duration, LookupYear, FirstGroup(c));
    }
  }

  /** `Place` records what it places, whatever the slot and room. */
  lemma PlaceRecorded(classes: seq<Class>, st: State, idx: nat, day: nat, slot: nat, col: nat, asWritten: bool)
    requires UniqueKeys(st.filled) && idx < |classes|
    ensures Recorded(classes, Place(st, classes[idx], idx, day, slot, col, asWritten), Placement(idx, day, slot, col), asWritten)
  {
    var c := classes[idx];
    var r := Place(st, c, idx, day, slot, col, asWritten);
    PlaceParts(st, c, idx, day, slot, col, asWritten);
    CountsRecordNew(st, c, day, r);
    ReserveRecords(st.mgr, col, day, slot, c.duration, ReserveYear(asWritten), FirstGroup(c), r.mgr);
  }

  /** The parts of the state `Place` changes that the invariant looks at. */
  lemma PlaceParts(st: State, c: Class, idx: nat, day: nat, slot: nat, col: nat, asWritten: bool)
    requires UniqueKeys(st.filled)
    ensures var r := Place(st, c, idx, day, slot, col, asWritten);
            && r.mgr == ReserveSlot(st.mgr, col, day, slot, c.duration, ReserveYear(asWritten), FirstGroup(c))
            && r.lectureCounts == (if c.kind == LectureKind then Bump(st.lectureCounts, c.subject, c.groups, day) else st.lectureCounts)
            && r.labCounts == (if c.kind == LectureKind then st.labCounts else Bump(st.labCounts, c.subject, c.groups, day))
            && r.placements == st.placements + [Placement(idx, day, slot, col)]
  {
  }

  /** What `Place` does to `free`. */
  lemma PlaceFree(st: State, c: Class, idx: nat, day: nat, slot: nat, col: nat, asWritten: bool)
    requires UniqueKeys(st.filled)
    ensures var r := Place(st, c, idx, day, slot, col, asWritten);
            r.free == RemoveAll(st.free, SessionFields(day, slot, c.duration, col))
  {
  }

  /** What `Place` does to `filled`. */
  lemma PlaceFilled(st: State, c: Class, idx: nat, day: nat, slot: nat, col: nat, asWritten: bool)
    requires UniqueKeys(st.filled)
    ensures var r := Place(st, c, idx, day, slot, col, asWritten);
            r.filled == if c.duration == 0 then st.filled else Extend(st.filled, idx, SessionFields(day, slot, c.duration, col))
  {
  }

  /** A reservation holds its whole range for its batch and, in a lab, in the lab map. */
  lemma ReserveRecords(m: Manager, room: nat, day: nat, slot: nat, duration: nat, year: string, batch: nat, r: Manager)
    requires r == ReserveSlot(m, room, day, slot, duration, year, batch)
    ensures r.labs == m.labs && r.classrooms == m.classrooms
    ensures room in r.labs ==> forall s: nat :: slot <= s < slot + duration ==> (room, day, s) in r.labOccupancy
    ensures forall s: nat :: slot <= s < slot + duration ==> (year, batch, day, s) in r.occupied
  {
  }

  /** After `Place`, the day is counted for each group of the placed class. */
  lemma CountsRecordNew(st: State, c: Class, day: nat, r: State)
    requires c.kind == LectureKind ==> r.lectureCounts == Bump(st.lectureCounts, c.subject, c.groups, day)
    requires c.kind != LectureKind ==> r.labCounts == Bump(st.labCounts, c.subject, c.groups, day)
    ensures c.kind == LectureKind ==> forall g :: g in c.groups ==> Count(r.lectureCounts, (c.subject, g, day)) >= 1
    ensures c.kind != LectureKind ==> forall g :: g in c.groups ==> Count(r.labCounts, (c.subject, g, day)) >= 1
  {
    forall g | g in c.groups
      ensures multiset(c.groups)[g] >= 1
    {
    }
  }

  /** The new placement clashes with none before it. */
  lemma PlaceClashFree(classes: seq<Class>, rooms: seq<Room>, st: State, idx: nat, day: nat, row: nat, col: nat, asWritten: bool)
    requires Inv(classes, rooms, st, asWritten) && idx < |classes| && day < TeachingDays
    requires !DaySkipped(st, classes[idx], day, asWritten)
    requires FindAlternateRoomOrSlot(st.mgr, classes[idx], day, PreferredSlots(classes[idx])) == Some((row, col))
    ensures var q := Placement(idx, day, row % SlotsPerDay, col);
            forall i :: 0 <= i < |st.placements| ==>
              && !LectureClash(classes, st.placements[i], q)
              && !LabRoomClash(classes, st.mgr.labs, st.placements[i], q)
              && (!asWritten ==> !LabDayClash(classes, st.placements[i], q) && !BatchClash(classes, st.placements[i], q))
  {
    var c := classes[idx];
    var slot := row % SlotsPerDay;
    var q := Placement(idx, day, slot, col);
    forall i | 0 <= i < |st.placements|
      ensures !LectureClash(classes, st.placements[i], q)
      ensures !LabRoomClash(classes, st.mgr.labs, st.placements[i], q)
      ensures !asWritten ==> !LabDayClash(classes, st.placements[i], q) && !BatchClash(classes, st.placements[i], q)
    {
      var p := st.placements[i];
      assert WellPlaced(classes, st.mgr, p);
      assert Recorded(classes, st, p, asWritten);
      OccupancySeparates(classes, st, p, q, asWritten);
    }
  }

  /** A recorded placement and a session found free on the same day never share a lab
      slot, nor (corrected) a batch slot. */
  lemma OccupancySeparates(classes: seq<Class>, st: State, p: Placement, q: Placement, asWritten: bool)
    requires p.cls < |classes| && q.cls < |classes|
    requires Recorded(classes, st, p, asWritten)
    requires classes[q.cls].duration > 0 ==> Fits(st.mgr, classes[q.cls], q.day, q.slot, q.room)
    ensures !LabRoomClash(classes, st.mgr.labs, p, q)
    ensures !asWritten ==> !BatchClash(classes, p, q)
  {
    var cp := classes[p.cls];
    var c := classes[q.cls];
    if Overlap(p.slot, cp.duration, q.slot, c.duration) && p.day == q.day {
      var s: nat := if p.slot <= q.slot then q.slot else p.slot;
      assert SlotFree(st.mgr, q.room, q.day, s, LookupYear, FirstGroup(c), false);
      assert p.slot <= s < p.slot + cp.duration;
    }
  }

  /** The fields of a session that fits lie in the 60-row matrix, in a column of a room. */
  lemma NewFieldsWithin(rooms: seq<Room>, mgr: Manager, c: Class, day: nat, slot: nat, col: nat)
    requires mgr.classrooms == NewManager(rooms).classrooms && mgr.labs == NewManager(rooms).labs
    requires day < TeachingDays && col in PoolFor(mgr, c)
    requires c.duration > 0 ==> slot + c.duration <= SlotsPerDay
    ensures forall x :: x in SessionFields(day, slot, c.duration, col) ==> x.0 < TeachingDays * SlotsPerDay && x.1 < |rooms|
  {
  }

  /** One placement keeps the invariant. */
  lemma PlaceInv(classes: seq<Class>, rooms: seq<Room>, st: State, idx: nat, day: nat, row: nat, col: nat, asWritten: bool)
    requires Inv(classes, rooms, st, asWritten) && idx < |classes| && day < TeachingDays
    requires !DaySkipped(st, classes[idx], day, asWritten)
    requires FindAlternateRoomOrSlot(st.mgr, classes[idx], day, PreferredSlots(classes[idx])) == Some((row, col))
    ensures Inv(classes, rooms, Place(st, classes[idx], idx, day, row % SlotsPerDay, col, asWritten), asWritten)
  {
    var c := classes[idx];
    var slot := row % SlotsPerDay;
    var r := Place(st, c, idx, day, slot, col, asWritten);
    PlaceParts(st, c, idx, day, slot, col, asWritten);
    ReserveRecords(st.mgr, col, day, slot, c.duration, ReserveYear(asWritten), FirstGroup(c), r.mgr);
    PlaceRecordsNew(classes, st, idx, day, row, col, asWritten);
    NewFieldsWithin(rooms, st.mgr, c, day, slot, col);
    ExtendWithin(st.filled, idx, SessionFields(day, slot, c.duration, col), TeachingDays * SlotsPerDay, |rooms|);
    PlaceInvPlacements(classes, rooms, st, idx, day, row, col, asWritten);
    PlaceInvClashFree(classes, rooms, st, idx, day, row, col, asWritten);
    PlaceClaims(classes, st, idx, day, slot, col, asWritten);
    if asWritten {
      ReserveGrows(st.mgr, col, day, slot, c.duration, ReserveYear(asWritten), FirstGroup(c));
    }
  }

  lemma PlaceInvPlacements(classes: seq<Class>, rooms: seq<Room>, st: State, idx: nat, day: nat, row: nat, col: nat, asWritten: bool)
    requires Inv(classes, rooms, st, asWritten) && idx < |classes| && day < TeachingDays
    requires FindAlternateRoomOrSlot(st.mgr, classes[idx], day, PreferredSlots(classes[idx])) == Some((row, col))
    ensures var r := Place(st, classes[idx], idx, day, row % SlotsPerDay, col, asWritten);
            forall i :: 0 <= i < |r.placements| ==>
              WellPlaced(classes, r.mgr, r.placements[i]) && Recorded(classes, r, r.placements[i], asWritten)
  {
    var c := classes[idx];
    var slot := row % SlotsPerDay;
    var r := Place(st, c, idx, day, slot, col, asWritten);
    PlaceParts(st, c, idx, day, slot, col, asWritten);
    PlaceKeepsOld(classes, rooms, st, idx, day, slot, col, asWritten);
    PlaceRecordsNew(classes, st, idx, day, row, col, asWritten);
    AllPlacedSnoc(classes, r, st.placements, Placement(idx, day, slot, col), asWritten);
  }

  /** `Place` files the new placement's fields under its class and keeps the old ones. */
  lemma PlaceClaims(classes: seq<Class>, st: State, idx: nat, day: nat, slot: nat, col: nat, asWritten: bool)
    requires UniqueKeys(st.filled) && idx < |classes|
    requires forall i :: 0 <= i < |st.placements| ==> Claimed(classes, st.filled, st.placements[i])
    ensures var r := Place(st, classes[idx], idx, day, slot, col, asWritten);
            forall i :: 0 <= i < |r.placements| ==> Claimed(classes, r.filled, r.placements[i])
  {
    var c := classes[idx];
    var r := Place(st, c, idx, day, slot, col, asWritten);
    var fields := SessionFields(day, slot, c.duration, col);
    var q := Placement(idx, day, slot, col);
    PlaceParts(st, c, idx, day, slot, col, asWritten);
    PlaceFilled(st, c, idx, day, slot, col, asWritten);
    assert Footprint(classes, q) == fields;
    if c.duration > 0 {
      ExtendGrows(st.filled, idx, fields);
    }
    ClaimedSnoc(classes, st.filled, r.filled, st.placements, q);
  }

  /** A placement claimed in `r`, after placements claimed in a `filled` that `r` extends. */
  lemma ClaimedSnoc(classes: seq<Class>, f: Filled, r: Filled, ps: seq<Placement>, q: Placement)
    requires forall i :: 0 <= i < |ps| ==> Claimed(classes, f, ps[i])
    requires forall k, x :: x in FieldsOf(f, k) ==> x in FieldsOf(r, k)
    requires Claimed(classes, r, q)
    ensures forall i :: 0 <= i < |ps + [q]| ==> Claimed(classes, r, (ps + [q])[i])
  {
    forall i | 0 <= i < |ps + [q]| ensures Claimed(classes, r, (ps + [q])[i]) {
      if i < |ps| {
        assert (ps + [q])[i] == ps[i] && Claimed(classes, f, ps[i]);
      }
    }
  }

  /** With no field free twice, `Place` takes the new placement's fields out of `free`
      and the old ones stay out. */
  lemma PlaceVacates(classes: seq<Class>, st: State, idx: nat, day: nat, slot: nat, col: nat, asWritten: bool)
    requires UniqueKeys(st.filled) && idx < |classes|
    requires Unrepeated(st.free) && Vacated(classes, st.free, st.placements)
    ensures var r := Place(st, classes[idx], idx, day, slot, col, asWritten);
            Unrepeated(r.free) && Vacated(classes, r.free, r.placements)
  {
    var c := classes[idx];
    var r := Place(st, c, idx, day, slot, col, asWritten);
    var fields := SessionFields(day, slot, c.duration, col);
    var q := Placement(idx, day, slot, col);
    PlaceParts(st, c, idx, day, slot, col, asWritten);
    PlaceFree(st, c, idx, day, slot, col, asWritten);
    assert Footprint(classes, q) == fields;
    RemoveVacates(st.free, fields, r.free);
    VacatedSnoc(classes, st.free, r.free, st.placements, q);
  }

  /** Taking `fields` out of a free list without repeats leaves none of them in it. */
  lemma RemoveVacates(free: seq<Field>, fields: seq<Field>, r: seq<Field>)
    requires multiset(r) == multiset(free) - multiset(fields) && Unrepeated(free)
    ensures Unrepeated(r)
    ensures forall x :: x in r ==> x in free
    ensures forall x :: x in fields ==> x !in r
  {
    forall x | x in r ensures x in free {
      assert x in multiset(r);
    }
    forall x | x in fields ensures x !in r {
      assert multiset(fields)[x] >= 1 && multiset(free)[x] <= 1;
    }
  }

  /** A placement whose fields left the list, after placements whose fields left a
      larger one. */
  lemma VacatedSnoc(classes: seq<Class>, free: seq<Field>, r: seq<Field>, ps: seq<Placement>, q: Placement)
    requires Vacated(classes, free, ps)
    requires forall x :: x in r ==> x in free
    requires forall x :: x in Footprint(classes, q) ==> x !in r
    ensures Vacated(classes, r, ps + [q])
  {
    forall i, x | 0 <= i < |ps + [q]| && x in Footprint(classes, (ps + [q])[i]) ensures x !in r {
      if i < |ps| {
        assert (ps + [q])[i] == ps[i];
      }
    }
  }

  /** Appending a well-placed, recorded placement keeps all placements so. */
  lemma AllPlacedSnoc(classes: seq<Class>, r: State, ps: seq<Placement>, q: Placement, asWritten: bool)
    requires forall i :: 0 <= i < |ps| ==> WellPlaced(classes, r.mgr, ps[i]) && Recorded(classes, r, ps[i], asWritten)
    requires WellPlaced(classes, r.mgr, q) && Recorded(classes, r, q, asWritten)
    ensures forall i :: 0 <= i < |ps + [q]| ==>
              WellPlaced(classes, r.mgr, (ps + [q])[i]) && Recorded(classes, r, (ps + [q])[i], asWritten)
  {
    forall i | 0 <= i < |ps + [q]|
      ensures WellPlaced(classes, r.mgr, (ps + [q])[i]) && Recorded(classes, r, (ps + [q])[i], asWritten)
    {
      if i < |ps| {
        assert (ps + [q])[i] == ps[i];
      }
    }
  }

  lemma PlaceInvClashFree(classes: seq<Class>, rooms: seq<Room>, st: State, idx: nat, day: nat, row: nat, col: nat, asWritten: bool)
    requires Inv(classes, rooms, st, asWritten) && idx < |classes| && day < TeachingDays
    requires !DaySkipped(st, classes[idx], day, asWritten)
    requires FindAlternateRoomOrSlot(st.mgr, classes[idx], day, PreferredSlots(classes[idx])) == Some((row, col))
    ensures var r := Place(st, classes[idx], idx, day, row % SlotsPerDay, col, asWritten);
            (forall i :: 0 <= i < |r.placements| ==> r.placements[i].cls < |classes|)
            && ClashFree(classes, r.mgr.labs, r.placements, asWritten)
  {
    var c := classes[idx];
    var slot := row % SlotsPerDay;
    var r := Place(st, c, idx, day, slot, col, asWritten);
    var q := Placement(idx, day, slot, col);
    InvClashParts(classes, rooms, st, asWritten);
    PlaceClashFree(classes, rooms, st, idx, day, row, col, asWritten);
    hide Inv;
    hide Place;
    PlaceParts(st, c, idx, day, slot, col, asWritten);
    ReserveRecords(st.mgr, col, day, slot, c.duration, ReserveYear(asWritten), FirstGroup(c), r.mgr);
    ClashFreeSnoc(classes, r.mgr.labs, st.placements, q, asWritten);
  }

  /** The parts of the invariant the clash proofs use. */
  lemma InvClashParts(classes: seq<Class>, rooms: seq<Room>, st: State, asWritten: bool)
    requires Inv(classes, rooms, st, asWritten)
    ensures forall i :: 0 <= i < |st.placements| ==> st.placements[i].cls < |classes|
    ensures ClashFree(classes, st.mgr.labs, st.placements, asWritten)
  {
    assert forall i :: 0 <= i < |st.placements| ==> WellPlaced(classes, st.mgr, st.placements[i]);
  }

  /** Appending a placement that clashes with none before it keeps the list clash-free. */
  lemma ClashFreeSnoc(classes: seq<Class>, labs: set<nat>, ps: seq<Placement>, q: Placement, asWritten: bool)
    requires q.cls < |classes| && forall i :: 0 <= i < |ps| ==> ps[i].cls < |classes|
    requires ClashFree(classes, labs, ps, asWritten)
    requires forall i :: 0 <= i < |ps| ==>
              && !LectureClash(classes, ps[i], q)
              && !LabRoomClash(classes, labs, ps[i], q)
              && (!asWritten ==> !LabDayClash(classes, ps[i], q) && !BatchClash(classes, ps[i], q))
    ensures forall i :: 0 <= i < |ps + [q]| ==> (ps + [q])[i].cls < |classes|
    ensures ClashFree(classes, labs, ps + [q], asWritten)
  {
    var rs := ps + [q];
    assert forall i :: 0 <= i < |rs| ==> rs[i] == if i < |ps| then ps[i] else q;
    forall i, j | 0 <= i < j < |rs|
      ensures && !LectureClash(classes, rs[i], rs[j])
              && !LabRoomClash(classes, labs, rs[i], rs[j])
              && (!asWritten ==> !LabDayClash(classes, rs[i], rs[j]) && !BatchClash(classes, rs[i], rs[j]))
    {
      assert rs[i] == ps[i];
    }
  }

  /** The search over the days keeps the invariant. */
  lemma {:induction false} TryDaysInv(classes: seq<Class>, rooms: seq<Room>, st: State, idx: nat, day: nat, asWritten: bool)
    requires Inv(classes, rooms, st, asWritten) && idx < |classes|
    ensures Inv(classes, rooms, TryDays(classes, st, idx, day, asWritten), asWritten)
    decreases TeachingDays - day
  {
    if day >= TeachingDays {
    } else {
      var c := classes[idx];
      if DaySkipped(st, c, day, asWritten) {
        TryDaysInv(classes, rooms, st, idx, day + 1, asWritten);
      } else {
        match FindAlternateRoomOrSlot(st.mgr, c, day, PreferredSlots(c))
        case None =>
          TryDaysInv(classes, rooms, st, idx, day + 1, asWritten);
        case Some((row, col)) =>
          PlaceInv(classes, rooms, st, idx, day, row, col, asWritten);
      }
    }
  }

  /** The search over the days keeps the placed fields out of a free list without repeats. */
  lemma {:induction false} TryDaysVacates(classes: seq<Class>, st: State, idx: nat, day: nat, asWritten: bool)
    requires idx < |classes| && UniqueKeys(st.filled)
    requires Unrepeated(st.free) && Vacated(classes, st.free, st.placements)
    ensures var r := TryDays(classes, st, idx, day, asWritten);
            Unrepeated(r.free) && Vacated(classes, r.free, r.placements)
    decreases TeachingDays - day
  {
    if day < TeachingDays {
      var c := classes[idx];
      if DaySkipped(st, c, day, asWritten) {
        TryDaysVacates(classes, st, idx, day + 1, asWritten);
      } else {
        match FindAlternateRoomOrSlot(st.mgr, c, day, PreferredSlots(c))
        case None =>
          TryDaysVacates(classes, st, idx, day + 1, asWritten);
        case Some((row, col)) =>
          PlaceVacates(classes, st, idx, day, row % SlotsPerDay, col, asWritten);
      }
    }
  }

  /** Each class handled adds exactly one record: a placement of it, or its index to `unplaced`. */
  lemma {:induction false} TryDaysAccounts(classes: seq<Class>, st: State, idx: nat, day: nat, asWritten: bool)
    requires idx < |classes| && UniqueKeys(st.filled)
    ensures var r := TryDays(classes, st, idx, day, asWritten);
            || (r.unplaced == st.unplaced && |r.placements| == |st.placements| + 1
                && r.placements[..|st.placements|] == st.placements && r.placements[|st.placements|].cls == idx)
            || (r.placements == st.placements && r.unplaced == st.unplaced + [idx])
    decreases TeachingDays - day
  {
    if day < TeachingDays {
      var c := classes[idx];
      if DaySkipped(st, c, day, asWritten) {
        TryDaysAccounts(classes, st, idx, day + 1, asWritten);
      } else {
        match FindAlternateRoomOrSlot(st.mgr, c, day, PreferredSlots(c))
        case None =>
          TryDaysAccounts(classes, st, idx, day + 1, asWritten);
        case Some((row, col)) =>
          PlaceParts(st, c, idx, day, row % SlotsPerDay, col, asWritten);
      }
    }
  }

  function PlacedClasses(ps: seq<Placement>): (r: seq<nat>)
    ensures |r| == |ps| && forall i :: 0 <= i < |ps| ==> r[i] == ps[i].cls
  {
    seq(|ps|, i requires 0 <= i < |ps| => ps[i].cls)
  }

  /** The whole run keeps the invariant. */
  lemma {:induction false} RunInv(classes: seq<Class>, rooms: seq<Room>, order: seq<nat>, st: State, asWritten: bool)
    requires forall i :: 0 <= i < |order| ==> order[i] < |classes|
    requires Inv(classes, rooms, st, asWritten)
    ensures Inv(classes, rooms, Run(classes, order, st, asWritten), asWritten)
    decreases |order|
  {
    if |order| > 0 {
      TryDaysInv(classes, rooms, st, order[0], 0, asWritten);
      RunInv(classes, rooms, order[1..], TryDays(classes, st, order[0], 0, asWritten), asWritten);
    }
  }

  /** The whole run keeps the placed fields out of a free list without repeats. */
  lemma {:induction false} RunVacates(classes: seq<Class>, order: seq<nat>, st: State, asWritten: bool)
    requires forall i :: 0 <= i < |order| ==> order[i] < |classes|
    requires UniqueKeys(st.filled) && Unrepeated(st.free) && Vacated(classes, st.free, st.placements)
    ensures var r := Run(classes, order, st, asWritten);
            Unrepeated(r.free) && Vacated(classes, r.free, r.placements)
    decreases |order|
  {
    if |order| > 0 {
      TryDaysVacates(classes, st, order[0], 0, asWritten);
      RunVacates(classes, order[1..], TryDays(classes, st, order[0], 0, asWritten), asWritten);
    }
  }

  /** The classes a state has recorded, placed or not. */
  function Accounted(st: State): multiset<nat> {
    multiset(PlacedClasses(st.placements)) + multiset(st.unplaced)
  }

  /** The records of one class, counted. */
  lemma TryDaysAccountsCount(classes: seq<Class>, st: State, idx: nat, asWritten: bool)
    requires idx < |classes| && UniqueKeys(st.filled)
    ensures Accounted(TryDays(classes, st, idx, 0, asWritten)) == Accounted(st) + multiset{idx}
  {
    TryDaysAccounts(classes, st, idx, 0, asWritten);
    RecordCount(st, TryDays(classes, st, idx, 0, asWritten), idx);
  }

  /** One more record, a placement or an unplaced index, adds its class once. */
  lemma RecordCount(st: State, r: State, idx: nat)
    requires || (r.unplaced == st.unplaced && |r.placements| == |st.placements| + 1
                 && r.placements[..|st.placements|] == st.placements && r.placements[|st.placements|].cls == idx)
             || (r.placements == st.placements && r.unplaced == st.unplaced + [idx])
    ensures Accounted(r) == Accounted(st) + multiset{idx}
  {
    if r.unplaced == st.unplaced && |r.placements| == |st.placements| + 1 {
      assert r.placements == st.placements + [r.placements[|st.placements|]];
      assert PlacedClasses(r.placements) == PlacedClasses(st.placements) + [idx];
    }
  }

  /** Every class of the order is accounted for exactly once: placed, or reported as not placed. */
  lemma {:induction false} RunAccounts(classes: seq<Class>, order: seq<nat>, st: State, asWritten: bool)
    requires forall i :: 0 <= i < |order| ==> order[i] < |classes|
    requires UniqueKeys(st.filled)
    ensures Accounted(Run(classes, order, st, asWritten)) == Accounted(st) + multiset(order)
    decreases |order|
  {
    if |order| > 0 {
      var rest := order[1..];
      var st1 := RunFirst(classes, order, st, asWritten);
      RunAccounts(classes, rest, st1, asWritten);
      MultisetHead(order);
      SumStep(Accounted(st), Accounted(st1), Accounted(Run(classes, rest, st1, asWritten)), order[0], multiset(rest));
    }
  }

  /** The run handles the first class of the order, then runs on from the state that
      leaves, which records that class once. */
  lemma RunFirst(classes: seq<Class>, order: seq<nat>, st: State, asWritten: bool) returns (st1: State)
    requires forall i :: 0 <= i < |order| ==> order[i] < |classes|
    requires UniqueKeys(st.filled) && |order| > 0
    ensures UniqueKeys(st1.filled) && Accounted(st1) == Accounted(st) + multiset{order[0]}
    ensures Run(classes, order, st, asWritten) == Run(classes, order[1..], st1, asWritten)
  {
    st1 := TryDays(classes, st, order[0], 0, asWritten);
    TryDaysAccountsCount(classes, st, order[0], asWritten);
  }

  lemma MultisetHead(xs: seq<nat>)
    requires |xs| > 0
    ensures multiset(xs) == multiset{xs[0]} + multiset(xs[1..])
  {
    assert xs == [xs[0]] + xs[1..];
  }

  lemma SumStep(a0: multiset<nat>, a1: multiset<nat>, a2: multiset<nat>, x: nat, rest: multiset<nat>)
    requires a1 == a0 + multiset{x} && a2 == a1 + rest
    ensures a2 == a0 + (multiset{x} + rest)
  {
  }

  // ---------------------------------------------------------------------------
  // The whole function
  // ---------------------------------------------------------------------------

  datatype Outcome = Outcome(matrix: Matrix, free: seq<Field>, filled: Filled, warnings: seq<CapacityWarning>,
                             placements: seq<Placement>, unplaced: seq<nat>)

  function InitialState(rooms: seq<Room>, free: seq<Field>, filled: Filled): State {
    State(NewManager(rooms), filled, free, map[], map[], [], [])
  }

  lemma InitialInv(classes: seq<Class>, rooms: seq<Room>, free: seq<Field>, filled: Filled, asWritten: bool)
    requires UniqueKeys(filled) && FilledWithin(filled, TeachingDays * SlotsPerDay, |rooms|)
    ensures Inv(classes, rooms, InitialState(rooms, free, filled), asWritten)
  {
  }

  /** From a free list without repeats, the run leaves the placed fields out of it. */
  lemma InitialVacates(classes: seq<Class>, rooms: seq<Room>, order: seq<nat>, free: seq<Field>, filled: Filled, asWritten: bool)
    requires forall i :: 0 <= i < |order| ==> order[i] < |classes|
    requires UniqueKeys(filled)
    ensures var r := Run(classes, order, InitialState(rooms, free, filled), asWritten);
            Unrepeated(free) ==> Unrepeated(r.free) && Vacated(classes, r.free, r.placements)
  {
    if Unrepeated(free) {
      RunVacates(classes, order, InitialState(rooms, free, filled), asWritten);
    }
  }

  /** The main loop from a fresh resource manager: it keeps the invariant and records
      every class of the priority order once. */
  function PlaceAll(classes: seq<Class>, rooms: seq<Room>, free: seq<Field>, filled: Filled, asWritten: bool): (st: State)
    requires UniqueKeys(filled) && FilledWithin(filled, TeachingDays * SlotsPerDay, |rooms|)
    ensures Inv(classes, rooms, st, asWritten)
    ensures Accounted(st) == multiset(PriorityOrder(classes))
    ensures Unrepeated(free) ==> Unrepeated(st.free) && Vacated(classes, st.free, st.placements)
  {
    var order := PriorityOrder(classes);
    var st0 := InitialState(rooms, free, filled);
    InitialInv(classes, rooms, free, filled, asWritten);
    RunInv(classes, rooms, order, st0, asWritten);
    RunAccounts(classes, order, st0, asWritten);
    InitialVacates(classes, rooms, order, free, filled, asWritten);
    Run(classes, order, st0, asWritten)
  }

  /** `improved_initial_population`. Every class of the priority order is either placed
      or reported; each placement is in one of its class's rooms, from the pool of its
      type, within one day; no two lectures of a subject share a day for the same
      group, no lab room holds two sessions at once, and, corrected, no lab subject
      repeats on a day for a group and no batch holds two sessions at once. */
  function ImprovedInitialPopulation(data: Data, matrix: Matrix, free: seq<Field>, filled: Filled, asWritten: bool): (r: Outcome)
    requires UniqueKeys(filled)
    requires |matrix| == TeachingDays * SlotsPerDay && forall x :: 0 <= x < |matrix| ==> |matrix[x]| == |data.rooms|
    requires FilledWithin(filled, |matrix|, |data.rooms|)
    ensures SameShape(r.matrix, matrix)
    ensures multiset(PlacedClasses(r.placements)) + multiset(r.unplaced) == multiset(PriorityOrder(data.classes))
    ensures forall i :: 0 <= i < |r.placements| ==> WellPlaced(data.classes, NewManager(data.rooms), r.placements[i])
    ensures forall i :: 0 <= i < |r.placements| ==> r.placements[i].cls < |data.classes|
    ensures ClashFree(data.classes, NewManager(data.rooms).labs, r.placements, asWritten)
    ensures var m := NewManager(data.rooms);
            var lectures := |IndicesWhere(data.classes, (c: Class) => c.kind == LectureKind)|;
            var labs := |IndicesWhere(data.classes, (c: Class) => c.kind == LabKind)|;
            && (InsufficientClassrooms(lectures, |m.classrooms| * TeachingDays, |m.classrooms|) in r.warnings
                <==> lectures > |m.classrooms| * TeachingDays)
            && (InsufficientLabs(labs, |m.labs| * TeachingDays, |m.labs|) in r.warnings <==> labs > |m.labs| * TeachingDays)
    ensures forall x, y :: 0 <= x < |matrix| && 0 <= y < |matrix[x]| && r.matrix[x][y] != matrix[x][y] ==>
              r.matrix[x][y].Some? && HasKey(r.filled, r.matrix[x][y].value)
    ensures Shown(data.classes, r.matrix, r.filled, r.placements)
    ensures Unrepeated(free) ==> Vacated(data.classes, r.free, r.placements)
  {
    var classes := data.classes;
    var mgr := NewManager(data.rooms);
    var warnings := ValidateCapacity(mgr, |IndicesWhere(classes, (c: Class) => c.kind == LectureKind)|,
                                     |IndicesWhere(classes, (c: Class) => c.kind == LabKind)|);
    var st := PlaceAll(classes, data.rooms, free, filled, asWritten);
    WithinIsInMatrix(matrix, st.filled, |data.rooms|);
    var filledMatrix := FillMatrix(matrix, st.filled);
    FillShowsFilled(matrix, st.filled);
    PlacementsShow(data.classes, matrix, st.filled, st.placements);
    Outcome(filledMatrix, st.free, st.filled, warnings, st.placements, st.unplaced)
  }

  /** Each field of each placement is filed under its class in `filled` and shows, in
      the matrix, a class claiming it: the placement's own class when no other claims it. */
  ghost predicate Shown(classes: seq<Class>, m: Matrix, filled: Filled, ps: seq<Placement>) {
    forall i, x :: 0 <= i < |ps| && x in Footprint(classes, ps[i]) ==> FieldShown(m, filled, ps[i].cls, x)
  }

  /** Field `x` of class `k` is filed under `k` and shows a class claiming it: `k`
      itself when no other class claims it. */
  ghost predicate FieldShown(m: Matrix, filled: Filled, k: nat, x: Field) {
    && x in FieldsOf(filled, k)
    && ShowsClaimant(m, filled, x)
    && ((forall k' :: k' != k ==> x !in FieldsOf(filled, k')) ==> m[x.0][x.1] == Some(k))
  }

  /** Each field of a claimed placement shows a class claiming it once `filled` is
      written into the matrix. */
  lemma PlacementsShow(classes: seq<Class>, matrix: Matrix, filled: Filled, ps: seq<Placement>)
    requires UniqueKeys(filled) && FilledInMatrix(matrix, filled)
    requires forall i :: 0 <= i < |ps| ==> Claimed(classes, filled, ps[i])
    ensures Shown(classes, FillMatrix(matrix, filled), filled, ps)
  {
    var m := FillMatrix(matrix, filled);
    forall i, x | 0 <= i < |ps| && x in Footprint(classes, ps[i])
      ensures FieldShown(m, filled, ps[i].cls, x)
    {
      assert Claimed(classes, filled, ps[i]);
      FillShowsClaimant(matrix, filled, ps[i].cls, x);
    }
  }

  // ---------------------------------------------------------------------------
  // The day counters as written
  // ---------------------------------------------------------------------------

  /** Handling class `c` reaches the day counters. The source builds them as
      `defaultdict(lambda: defaultdict(int))` but indexes them once, with the whole
      (subject, group, day) tuple, so a lookup yields an inner dictionary, and both
      `>= 1` and `+= 1` on it raise a TypeError. A lecture's cap looks its counter up
      on the first day tried; a lab's cap looks one up per group, and so does its count
      update, so only a lab without groups never reaches them. */
  predicate ReachesCounters(c: Class) {
    c.kind == LectureKind || |c.groups| > 0
  }

  /** Every placement is of a lab without groups, the only classes that never reach
      the counters. */
  ghost predicate OnlyUngroupedLabs(classes: seq<Class>, ps: seq<Placement>) {
    forall i :: 0 <= i < |ps| ==>
      ps[i].cls < |classes| && classes[ps[i].cls].kind == LabKind && classes[ps[i].cls].groups == []
  }

  /** The position in `order` of the first class that reaches the counters. */
  function FirstRaise(classes: seq<Class>, order: seq<nat>): (r: Option<nat>)
    requires forall i :: 0 <= i < |order| ==> order[i] < |classes|
    ensures r.Some? ==> r.value < |order| && ReachesCounters(classes[order[r.value]])
    ensures r.Some? ==> forall i :: 0 <= i < r.value ==> !ReachesCounters(classes[order[i]])
    ensures r.None? <==> forall i :: 0 <= i < |order| ==> !ReachesCounters(classes[order[i]])
    decreases |order|
  {
    if |order| == 0 then None
    else if ReachesCounters(classes[order[0]]) then Some(0)
    else match FirstRaise(classes, order[1..])
      case None => None
      case Some(k) => Some(k + 1)
  }

  /** How `improved_initial_population` ends as written: a TypeError raised while
      handling class `cls`, with the resource manager, `filled` and `free` as the loop
      left them and the matrix never filled; or a normal return. */
  datatype AsWrittenOutcome = Raised(cls: nat, state: State) | Returned(outcome: Outcome)

  /** `improved_initial_population` as written, day counters included. The loop stops
      with a TypeError at the first class of the priority order that reaches the
      counters; everything placed before it is a lab without groups. Only when no class
      reaches them does the function return, and then it returns what the loop with
      flat counters returns, the counters never having been consulted or changed
      (`RunLeavesCounters`). */
  function ImprovedInitialPopulationAsWritten(data: Data, matrix: Matrix, free: seq<Field>, filled: Filled): (r: AsWrittenOutcome)
    requires UniqueKeys(filled)
    requires |matrix| == TeachingDays * SlotsPerDay && forall x :: 0 <= x < |matrix| ==> |matrix[x]| == |data.rooms|
    requires FilledWithin(filled, |matrix|, |data.rooms|)
    ensures var order := PriorityOrder(data.classes);
            r.Raised? <==> exists i :: 0 <= i < |order| && ReachesCounters(data.classes[order[i]])
    ensures r.Raised? ==> r.cls in PriorityOrder(data.classes) && ReachesCounters(data.classes[r.cls])
    ensures r.Raised? ==> OnlyUngroupedLabs(data.classes, r.state.placements)
    ensures r.Returned? ==> r.outcome == ImprovedInitialPopulation(data, matrix, free, filled, true)
  {
    var classes := data.classes;
    var order := PriorityOrder(classes);
    match FirstRaise(classes, order)
    case None => Returned(ImprovedInitialPopulation(data, matrix, free, filled, true))
    case Some(k) => Raised(order[k], StateAtRaise(classes, data.rooms, free, filled, k))
  }

  /** The state the loop is in when the class at position `k` of the priority order
      raises: the run over the classes before it. */
  function StateAtRaise(classes: seq<Class>, rooms: seq<Room>, free: seq<Field>, filled: Filled, k: nat): (st: State)
    requires UniqueKeys(filled)
    requires FirstRaise(classes, PriorityOrder(classes)) == Some(k)
    ensures OnlyUngroupedLabs(classes, st.placements)
  {
    var order := PriorityOrder(classes);
    var st0 := InitialState(rooms, free, filled);
    RaisedPrefix(classes, k);
    PrefixPlacements(classes, order[..k], st0);
    Run(classes, order[..k], st0, true)
  }

  /** A run over labs without groups from a state with nothing placed or unplaced
      places only those labs. */
  lemma PrefixPlacements(classes: seq<Class>, prefix: seq<nat>, st0: State)
    requires forall i :: 0 <= i < |prefix| ==> prefix[i] < |classes|
    requires forall i :: 0 <= i < |prefix| ==> classes[prefix[i]].kind == LabKind && classes[prefix[i]].groups == []
    requires UniqueKeys(st0.filled) && st0.placements == [] && st0.unplaced == []
    ensures OnlyUngroupedLabs(classes, Run(classes, prefix, st0, true).placements)
  {
    var st := Run(classes, prefix, st0, true);
    RunAccounts(classes, prefix, st0, true);
    assert Accounted(st0) == multiset{};
    forall i | 0 <= i < |st.placements|
      ensures st.placements[i].cls < |classes| && classes[st.placements[i].cls].kind == LabKind
              && classes[st.placements[i].cls].groups == []
    {
      var x := st.placements[i].cls;
      assert PlacedClasses(st.placements)[i] == x;
      assert x in multiset(PlacedClasses(st.placements));
      assert x in Accounted(st);
      assert x in multiset(prefix);
      var j :| 0 <= j < |prefix| && prefix[j] == x;
    }
  }

  /** The classes the priority order handles before the first that reaches the counters
      are labs without groups. */
  lemma RaisedPrefix(classes: seq<Class>, k: nat)
    requires FirstRaise(classes, PriorityOrder(classes)) == Some(k)
    ensures var prefix := PriorityOrder(classes)[..k];
            forall i :: 0 <= i < |prefix| ==>
              prefix[i] < |classes| && classes[prefix[i]].kind == LabKind && classes[prefix[i]].groups == []
  {
    var order := PriorityOrder(classes);
    forall i | 0 <= i < k
      ensures order[i] < |classes| && classes[order[i]].kind == LabKind && classes[order[i]].groups == []
    {
      assert order[i] in order;
      assert !ReachesCounters(classes[order[i]]);
    }
  }

  /** Placing a class that never reaches the counters leaves them as they were. */
  lemma PlaceLeavesCounters(st: State, c: Class, idx: nat, day: nat, slot: nat, room: nat, asWritten: bool)
    requires UniqueKeys(st.filled) && !ReachesCounters(c)
    ensures var r := Place(st, c, idx, day, slot, room, asWritten);
            r.lectureCounts == st.lectureCounts && r.labCounts == st.labCounts
  {
    assert Bump(st.labCounts, c.subject, c.groups, day) == st.labCounts;
  }

  /** The day search for a class that never reaches the counters leaves them as they were. */
  lemma {:induction false} TryDaysLeavesCounters(classes: seq<Class>, st: State, idx: nat, day: nat, asWritten: bool)
    requires idx < |classes| && UniqueKeys(st.filled) && !ReachesCounters(classes[idx])
    ensures var r := TryDays(classes, st, idx, day, asWritten);
            r.lectureCounts == st.lectureCounts && r.labCounts == st.labCounts
    decreases TeachingDays - day
  {
    if day < TeachingDays {
      var c := classes[idx];
      assert !DaySkipped(st, c, day, asWritten);
      match FindAlternateRoomOrSlot(st.mgr, c, day, PreferredSlots(c))
      case None => TryDaysLeavesCounters(classes, st, idx, day + 1, asWritten);
      case Some((row, col)) =>
        PlaceLeavesCounters(st, c, idx, day, row % SlotsPerDay, col, asWritten);
    }
  }

  /** A run over classes that never reach the counters leaves them as they were: the
      flat counters of the model play no part in any run the source completes. */
  lemma {:induction false} RunLeavesCounters(classes: seq<Class>, order: seq<nat>, st: State, asWritten: bool)
    requires forall i :: 0 <= i < |order| ==> order[i] < |classes|
    requires forall i :: 0 <= i < |order| ==> !ReachesCounters(classes[order[i]])
    requires UniqueKeys(st.filled)
    ensures var r := Run(classes, order, st, asWritten);
            r.lectureCounts == st.lectureCounts && r.labCounts == st.labCounts
    decreases |order|
  {
    if |order| > 0 {
      var st1 := TryDays(classes, st, order[0], 0, asWritten);
      TryDaysLeavesCounters(classes, st, order[0], 0, asWritten);
      RunLeavesCounters(classes, order[1..], st1, asWritten);
    }
  }

  /** When the first class of the priority order reaches the counters, the source raises
      before anything is placed: the state is the initial one. */
  lemma RaisesAtFirst(data: Data, matrix: Matrix, free: seq<Field>, filled: Filled)
    requires UniqueKeys(filled)
    requires |matrix| == TeachingDays * SlotsPerDay && forall x :: 0 <= x < |matrix| ==> |matrix[x]| == |data.rooms|
    requires FilledWithin(filled, |matrix|, |data.rooms|)
    requires |PriorityOrder(data.classes)| > 0 && ReachesCounters(data.classes[PriorityOrder(data.classes)[0]])
    ensures ImprovedInitialPopulationAsWritten(data, matrix, free, filled)
            == Raised(PriorityOrder(data.classes)[0], InitialState(data.rooms, free, filled))
  {
    hide ImprovedInitialPopulation;
    var order := PriorityOrder(data.classes);
    assert FirstRaise(data.classes, order) == Some(0);
    StateAtFirstRaise(data.classes, data.rooms, free, filled);
  }

  /** Raising at the first class, the loop has done nothing. */
  lemma StateAtFirstRaise(classes: seq<Class>, rooms: seq<Room>, free: seq<Field>, filled: Filled)
    requires UniqueKeys(filled)
    requires FirstRaise(classes, PriorityOrder(classes)) == Some(0)
    ensures StateAtRaise(classes, rooms, free, filled, 0) == InitialState(rooms, free, filled)
  {
    assert PriorityOrder(classes)[..0] == [];
  }

  /** Both classes of each small input below reach the counters, and class 0 comes first
      in the priority order. */
  lemma TwoClassesOrder(classes: seq<Class>)
    requires classes == TwoLectures() || classes == TwoLabs()
    ensures |PriorityOrder(classes)| > 0 && PriorityOrder(classes)[0] == 0 && ReachesCounters(classes[0])
  {
    var order := PriorityOrder(classes);
    assert 0 in order;
    var j :| 0 <= j < |order| && order[j] == 0;
  }

  /** As written, on either small input the TypeError comes at class 0 on Monday, before
      anything is placed, reserved or removed from `free`, and the matrix is never filled. */
  lemma CountersRaiseAsWritten(data: Data, matrix: Matrix, free: seq<Field>, filled: Filled)
    requires data.classes == TwoLectures() || data.classes == TwoLabs()
    requires UniqueKeys(filled)
    requires |matrix| == TeachingDays * SlotsPerDay && forall x :: 0 <= x < |matrix| ==> |matrix[x]| == |data.rooms|
    requires FilledWithin(filled, |matrix|, |data.rooms|)
    ensures ImprovedInitialPopulationAsWritten(data, matrix, free, filled) == Raised(0, InitialState(data.rooms, free, filled))
  {
    TwoClassesOrder(data.classes);
    RaisesAtFirst(data, matrix, free, filled);
  }

  // ---------------------------------------------------------------------------
  // The two loop defects on small inputs
  // ---------------------------------------------------------------------------

  /** Two one-hour labs of subject "A" for group 0 and one lab room. */
  function TwoLabs(): seq<Class> {
    [Class([0], "Lab-A", "A", LabKind, 1, [0]), Class([0], "Lab-A", "A", LabKind, 1, [0])]
  }

  lemma LabRoomManager()
    ensures NewManager([Room("Lab-1", LabTag)]) == Manager({}, {0}, map[], {})
  {
    assert [Room("Lab-1", LabTag)][..0] == [];
  }

  lemma FirstLabSearch()
    ensures FindAlternateRoomOrSlot(Manager({}, {0}, map[], {}), TwoLabs()[0], 0, [0]) == Some((0, 0))
  {
    var m := Manager({}, {0}, map[], {});
    var c := TwoLabs()[0];
    assert SlotFree(m, 0, 0, 0, LookupYear, 0, false);
    assert Fits(m, c, 0, 0, 0);
  }

  lemma FirstLabReserve(year: string)
    ensures ReserveSlot(Manager({}, {0}, map[], {}), 0, 0, 0, 1, year, 0)
            == Manager({}, {0}, map[(year, 0, 0, 0) := 0], {(0, 0, 0)})
  {
  }

  lemma SecondLabSearch(year: string)
    requires year != LookupYear
    ensures FindAlternateRoomOrSlot(Manager({}, {0}, map[(year, 0, 0, 0) := 0], {(0, 0, 0)}), TwoLabs()[1], 0, [0]) == Some((1, 0))
  {
    var m := Manager({}, {0}, map[(year, 0, 0, 0) := 0], {(0, 0, 0)});
    var c := TwoLabs()[1];
    assert !SlotFree(m, 0, 0, 0, LookupYear, 0, false);
    assert FirstFit(m, c, 0, [0], 0) == None;
    var fb := FallbackSlots(1);
    assert fb[0] == 0 && fb[1] == 1;
    assert SlotFree(m, 0, 0, 1, LookupYear, 0, false);
    assert FirstRoom(m, c, 0, 1, 0) == Some(0);
    assert FirstFit(m, c, 0, fb, 1) == Some((1, 0));
    assert FirstFit(m, c, 0, fb, 0) == Some((1, 0));
  }

  /** The day search places a class on the first day it is not skipped and the search
      finds a (slot, room). */
  lemma TryDaysPlaces(classes: seq<Class>, st: State, idx: nat, day: nat, asWritten: bool, row: nat, col: nat)
    requires idx < |classes| && UniqueKeys(st.filled) && day < TeachingDays
    requires !DaySkipped(st, classes[idx], day, asWritten)
    requires FindAlternateRoomOrSlot(st.mgr, classes[idx], day, PreferredSlots(classes[idx])) == Some((row, col))
    ensures var r := TryDays(classes, st, idx, day, asWritten);
            var c := classes[idx];
            && r.placements == st.placements + [Placement(idx, day, row % SlotsPerDay, col)]
            && r.mgr == ReserveSlot(st.mgr, col, day, row % SlotsPerDay, c.duration, ReserveYear(asWritten), FirstGroup(c))
            && r.lectureCounts == (if c.kind == LectureKind then Bump(st.lectureCounts, c.subject, c.groups, day) else st.lectureCounts)
            && r.labCounts == (if c.kind == LectureKind then st.labCounts else Bump(st.labCounts, c.subject, c.groups, day))
  {
    PlaceParts(st, classes[idx], idx, day, row % SlotsPerDay, col, asWritten);
  }

  /** As written, the first lab goes to Monday at 09:15 in the one lab room. */
  lemma FirstLabStep(classes: seq<Class>, st: State)
    requires classes == TwoLabs() && UniqueKeys(st.filled)
    requires st.mgr == Manager({}, {0}, map[], {}) && st.placements == []
    ensures var r := TryDays(classes, st, 0, 0, true);
            r.placements == [Placement(0, 0, 0, 0)] && r.mgr == Manager({}, {0}, map[("Year", 0, 0, 0) := 0], {(0, 0, 0)})
  {
    FirstLabSearch();
    TryDaysPlaces(classes, st, 0, 0, true, 0, 0);
    FirstLabReserve("Year");
  }

  /** As written, the second lab of the same subject and group still goes to Monday, at 10:15. */
  lemma SecondLabStep(classes: seq<Class>, st: State)
    requires classes == TwoLabs() && UniqueKeys(st.filled)
    requires st.mgr == Manager({}, {0}, map[("Year", 0, 0, 0) := 0], {(0, 0, 0)}) && st.placements == [Placement(0, 0, 0, 0)]
    ensures TryDays(classes, st, 1, 0, true).placements == [Placement(0, 0, 0, 0), Placement(1, 0, 1, 0)]
  {
    hide TryDays;
    hide Place;
    var c := classes[1];
    assert PreferredSlots(c) == [0];
    assert !DaySkipped(st, c, 0, true);
    SecondLabSearch("Year");
    TryDaysPlaces(classes, st, 1, 0, true, 1, 0);
    SnocTwo(st.placements, Placement(0, 0, 0, 0), Placement(1, 0, 1 % SlotsPerDay, 0));
  }

  lemma SnocTwo<T>(ps: seq<T>, p: T, q: T)
    requires ps == [p]
    ensures ps + [q] == [p, q]
  {
  }

  /** A run over a two-class order is the day search for each class in turn. */
  lemma RunTwo(classes: seq<Class>, order: seq<nat>, st0: State, asWritten: bool)
    requires |order| == 2 && order[0] < |classes| && order[1] < |classes| && UniqueKeys(st0.filled)
    ensures Run(classes, order, st0, asWritten)
            == TryDays(classes, TryDays(classes, st0, order[0], 0, asWritten), order[1], 0, asWritten)
  {
    var st1 := TryDays(classes, st0, order[0], 0, asWritten);
    var rest := order[1..];
    assert rest[0] == order[1] && |rest[1..]| == 0;
    assert Run(classes, rest, st1, asWritten) == Run(classes, rest[1..], TryDays(classes, st1, order[1], 0, asWritten), asWritten);
  }

  /** With the day counters corrected, the lab cap as written does not keep the second lab
      off Monday: both land on day 0, slots 0 and 1. Fully as written the run raises at the
      first lab instead (`CountersRaiseAsWritten`). */
  lemma LabDayCapIgnoredAsWritten(classes: seq<Class>, order: seq<nat>, free: seq<Field>, filled: Filled)
    requires classes == TwoLabs() && order == [0, 1] && UniqueKeys(filled)
    ensures var ps := Run(classes, order, InitialState([Room("Lab-1", LabTag)], free, filled), true).placements;
            ps == [Placement(0, 0, 0, 0), Placement(1, 0, 1, 0)] && LabDayClash(classes, ps[0], ps[1])
  {
    LabRoomManager();
    TwoLabsRun(classes, order, InitialState([Room("Lab-1", LabTag)], free, filled));
    assert 0 in classes[0].groups && 0 in classes[1].groups;
  }

  lemma TwoLabsRun(classes: seq<Class>, order: seq<nat>, st0: State)
    requires classes == TwoLabs() && order == [0, 1] && UniqueKeys(st0.filled)
    requires st0.mgr == Manager({}, {0}, map[], {}) && st0.placements == []
    ensures Run(classes, order, st0, true).placements == [Placement(0, 0, 0, 0), Placement(1, 0, 1, 0)]
  {
    FirstLabStep(classes, st0);
    SecondLabStep(classes, TryDays(classes, st0, 0, 0, true));
    RunTwo(classes, order, st0, true);
  }

  /** Corrected, the first lab also goes to Monday at 09:15, and its subject is then
      counted on Monday for group 0 and on no group on Tuesday. */
  lemma FirstLabStepCorrected(classes: seq<Class>, st: State)
    requires classes == TwoLabs() && UniqueKeys(st.filled)
    requires st.mgr == Manager({}, {0}, map[], {}) && st.placements == [] && st.labCounts == map[]
    ensures var r := TryDays(classes, st, 0, 0, false);
            && r.placements == [Placement(0, 0, 0, 0)]
            && r.mgr == Manager({}, {0}, map[(LookupYear, 0, 0, 0) := 0], {(0, 0, 0)})
            && Count(r.labCounts, ("A", 0, 0)) >= 1
            && forall g: nat :: Count(r.labCounts, ("A", g, 1)) == 0
  {
    var c := classes[0];
    assert c == Class([0], "Lab-A", "A", LabKind, 1, [0]);
    assert !DaySkipped(st, c, 0, false);
    FirstLabSearch();
    TryDaysPlaces(classes, st, 0, 0, false, 0, 0);
    FirstLabReserve(LookupYear);
    assert multiset(c.groups)[0] == 1;
  }

  /** With the lab room busy at Tuesday 09:15 for nobody, the search puts the second lab
      there (row 12). */
  lemma SecondLabSearchCorrected()
    ensures FindAlternateRoomOrSlot(Manager({}, {0}, map[(LookupYear, 0, 0, 0) := 0], {(0, 0, 0)}), TwoLabs()[1], 1, [0])
            == Some((12, 0))
  {
    var m := Manager({}, {0}, map[(LookupYear, 0, 0, 0) := 0], {(0, 0, 0)});
    var c := TwoLabs()[1];
    assert SlotFree(m, 0, 1, 0, LookupYear, 0, false);
    assert Fits(m, c, 1, 0, 0);
    assert FirstRoom(m, c, 1, 0, 0) == Some(0);
  }

  /** Corrected, the second lab sees its subject already on Monday for group 0 and goes to
      Tuesday at 09:15. */
  lemma SecondLabStepCorrected(classes: seq<Class>, st: State)
    requires classes == TwoLabs() && UniqueKeys(st.filled)
    requires st.mgr == Manager({}, {0}, map[(LookupYear, 0, 0, 0) := 0], {(0, 0, 0)}) && st.placements == [Placement(0, 0, 0, 0)]
    requires Count(st.labCounts, ("A", 0, 0)) >= 1
    requires forall g: nat :: Count(st.labCounts, ("A", g, 1)) == 0
    ensures TryDays(classes, st, 1, 0, false).placements == [Placement(0, 0, 0, 0), Placement(1, 1, 0, 0)]
  {
    assert DaySkipped(st, classes[1], 0, false) by { assert 0 in classes[1].groups; }
    TryDaysSkips(classes, st, 1, 0, false);
    SecondLabTuesdayCorrected(classes, st);
  }

  /** On Tuesday nothing of subject "A" is counted yet, so the second lab is placed there. */
  lemma SecondLabTuesdayCorrected(classes: seq<Class>, st: State)
    requires classes == TwoLabs() && UniqueKeys(st.filled)
    requires st.mgr == Manager({}, {0}, map[(LookupYear, 0, 0, 0) := 0], {(0, 0, 0)}) && st.placements == [Placement(0, 0, 0, 0)]
    requires forall g: nat :: Count(st.labCounts, ("A", g, 1)) == 0
    ensures TryDays(classes, st, 1, 1, false).placements == [Placement(0, 0, 0, 0), Placement(1, 1, 0, 0)]
  {
    assert !DaySkipped(st, classes[1], 1, false);
    SecondLabSearchCorrected();
    TryDaysPlaces(classes, st, 1, 1, false, 12, 0);
  }

  /** A skipped day passes the search on to the next day. */
  lemma TryDaysSkips(classes: seq<Class>, st: State, idx: nat, day: nat, asWritten: bool)
    requires idx < |classes| && UniqueKeys(st.filled) && day < TeachingDays
    requires DaySkipped(st, classes[idx], day, asWritten)
    ensures TryDays(classes, st, idx, day, asWritten) == TryDays(classes, st, idx, day + 1, asWritten)
  {
  }

  lemma TwoLabsRunCorrected(classes: seq<Class>, order: seq<nat>, st0: State)
    requires classes == TwoLabs() && order == [0, 1] && UniqueKeys(st0.filled)
    requires st0.mgr == Manager({}, {0}, map[], {}) && st0.placements == [] && st0.labCounts == map[]
    ensures Run(classes, order, st0, false).placements == [Placement(0, 0, 0, 0), Placement(1, 1, 0, 0)]
  {
    FirstLabStepCorrected(classes, st0);
    SecondLabStepCorrected(classes, TryDays(classes, st0, 0, 0, false));
    RunTwo(classes, order, st0, false);
  }

  /** With the counters and the lab cap corrected, the same input puts the second lab on
      another day: no lab-day clash. */
  lemma LabDayCapKeptCorrected(classes: seq<Class>, order: seq<nat>, free: seq<Field>, filled: Filled)
    requires classes == TwoLabs() && order == [0, 1] && UniqueKeys(filled)
    ensures var ps := Run(classes, order, InitialState([Room("Lab-1", LabTag)], free, filled), false).placements;
            ps == [Placement(0, 0, 0, 0), Placement(1, 1, 0, 0)] && !LabDayClash(classes, ps[0], ps[1])
  {
    LabRoomManager();
    TwoLabsRunCorrected(classes, order, InitialState([Room("Lab-1", LabTag)], free, filled));
  }

  /** Two one-hour lectures of different subjects for group 0 and one classroom. */
  function TwoLectures(): seq<Class> {
    [Class([0], "T", "A", LectureKind, 1, [0]), Class([0], "T", "B", LectureKind, 1, [0])]
  }

  lemma ClassroomManager()
    ensures NewManager([Room("CR-1", ClassroomTag)]) == Manager({0}, {}, map[], {})
  {
    assert [Room("CR-1", ClassroomTag)][..0] == [];
  }

  lemma FirstLectureSearch()
    ensures FindAlternateRoomOrSlot(Manager({0}, {}, map[], {}), TwoLectures()[0], 0, [0, 1, 5]) == Some((0, 0))
  {
    var m := Manager({0}, {}, map[], {});
    var c := TwoLectures()[0];
    assert SlotFree(m, 0, 0, 0, LookupYear, 0, false);
    assert Fits(m, c, 0, 0, 0);
    assert FirstRoom(m, c, 0, 0, 0) == Some(0);
  }

  /** A reservation filed under another year than the lookup's leaves Monday 09:15 free. */
  lemma SecondLectureSearch(year: string)
    requires year != LookupYear
    ensures FindAlternateRoomOrSlot(Manager({0}, {}, map[(year, 0, 0, 0) := 0], {}), TwoLectures()[1], 0, [0, 1, 5]) == Some((0, 0))
  {
    var m := Manager({0}, {}, map[(year, 0, 0, 0) := 0], {});
    var c := TwoLectures()[1];
    assert SlotFree(m, 0, 0, 0, LookupYear, 0, false);
    assert Fits(m, c, 0, 0, 0);
    assert FirstRoom(m, c, 0, 0, 0) == Some(0);
  }

  /** A reservation filed under the lookup's year moves the second lecture to 10:15. */
  lemma SecondLectureSearchCorrected()
    ensures FindAlternateRoomOrSlot(Manager({0}, {}, map[(LookupYear, 0, 0, 0) := 0], {}), TwoLectures()[1], 0, [0, 1, 5]) == Some((1, 0))
  {
    var m := Manager({0}, {}, map[(LookupYear, 0, 0, 0) := 0], {});
    var c := TwoLectures()[1];
    assert !SlotFree(m, 0, 0, 0, LookupYear, 0, false);
    assert FirstRoom(m, c, 0, 0, 0) == None;
    assert SlotFree(m, 0, 0, 1, LookupYear, 0, false);
    assert Fits(m, c, 0, 1, 0);
    assert FirstRoom(m, c, 0, 1, 0) == Some(0);
    assert FirstFit(m, c, 0, [0, 1, 5], 1) == Some((1, 0));
  }

  /** The first lecture goes to Monday at 09:15, whatever year its batch is reserved under. */
  lemma FirstLectureStep(classes: seq<Class>, st: State, asWritten: bool)
    requires classes == TwoLectures() && UniqueKeys(st.filled)
    requires st.mgr == Manager({0}, {}, map[], {}) && st.placements == [] && st.lectureCounts == map[]
    ensures var r := TryDays(classes, st, 0, 0, asWritten);
            && r.placements == [Placement(0, 0, 0, 0)]
            && r.mgr == Manager({0}, {}, map[(ReserveYear(asWritten), 0, 0, 0) := 0], {})
            && forall g: nat :: Count(r.lectureCounts, ("B", g, 0)) == 0
  {
    var c := classes[0];
    assert c == TwoLectures()[0];
    assert !DaySkipped(st, c, 0, asWritten);
    FirstLectureSearch();
    TryDaysPlaces(classes, st, 0, 0, asWritten, 0, 0);
  }

  /** As written, the second lecture looks its batch up under "Unknown", misses the
      reservation made under "Year", and takes the same Monday 09:15 slot. */
  lemma SecondLectureStep(classes: seq<Class>, st: State)
    requires classes == TwoLectures() && UniqueKeys(st.filled)
    requires st.mgr == Manager({0}, {}, map[("Year", 0, 0, 0) := 0], {}) && st.placements == [Placement(0, 0, 0, 0)]
    requires forall g: nat :: Count(st.lectureCounts, ("B", g, 0)) == 0
    ensures TryDays(classes, st, 1, 0, true).placements == [Placement(0, 0, 0, 0), Placement(1, 0, 0, 0)]
  {
    var c := classes[1];
    assert c == TwoLectures()[1];
    assert !DaySkipped(st, c, 0, true);
    SecondLectureSearch("Year");
    TryDaysPlaces(classes, st, 1, 0, true, 0, 0);
  }

  /** Corrected, the second lecture finds its batch busy at 09:15 and takes 10:15. */
  lemma SecondLectureStepCorrected(classes: seq<Class>, st: State)
    requires classes == TwoLectures() && UniqueKeys(st.filled)
    requires st.mgr == Manager({0}, {}, map[(LookupYear, 0, 0, 0) := 0], {}) && st.placements == [Placement(0, 0, 0, 0)]
    requires forall g: nat :: Count(st.lectureCounts, ("B", g, 0)) == 0
    ensures TryDays(classes, st, 1, 0, false).placements == [Placement(0, 0, 0, 0), Placement(1, 0, 1, 0)]
  {
    var c := classes[1];
    assert c == TwoLectures()[1];
    assert !DaySkipped(st, c, 0, false);
    SecondLectureSearchCorrected();
    TryDaysPlaces(classes, st, 1, 0, false, 1, 0);
  }

  lemma TwoLecturesRun(classes: seq<Class>, order: seq<nat>, st0: State, asWritten: bool)
    requires classes == TwoLectures() && order == [0, 1] && UniqueKeys(st0.filled)
    requires st0.mgr == Manager({0}, {}, map[], {}) && st0.placements == [] && st0.lectureCounts == map[]
    ensures asWritten ==> Run(classes, order, st0, asWritten).placements == [Placement(0, 0, 0, 0), Placement(1, 0, 0, 0)]
    ensures !asWritten ==> Run(classes, order, st0, asWritten).placements == [Placement(0, 0, 0, 0), Placement(1, 0, 1, 0)]
  {
    FirstLectureStep(classes, st0, asWritten);
    var st1 := TryDays(classes, st0, 0, 0, asWritten);
    if asWritten { SecondLectureStep(classes, st1); } else { SecondLectureStepCorrected(classes, st1); }
    RunTwo(classes, order, st0, asWritten);
  }

  /** With the day counters corrected, the year mismatch as written puts group 0 in two
      lectures at once (and room 0 is double-booked); corrected, the second lecture moves
      to the next slot and no batch clash remains. Fully as written the run raises at the
      first lecture instead (`CountersRaiseAsWritten`). */
  lemma YearMismatchDoubleBooks(classes: seq<Class>, order: seq<nat>, free: seq<Field>, filled: Filled)
    requires classes == TwoLectures() && order == [0, 1] && UniqueKeys(filled)
    ensures var ps := Run(classes, order, InitialState([Room("CR-1", ClassroomTag)], free, filled), true).placements;
            ps == [Placement(0, 0, 0, 0), Placement(1, 0, 0, 0)] && BatchClash(classes, ps[0], ps[1])
    ensures var ps := Run(classes, order, InitialState([Room("CR-1", ClassroomTag)], free, filled), false).placements;
            ps == [Placement(0, 0, 0, 0), Placement(1, 0, 1, 0)] && !BatchClash(classes, ps[0], ps[1])
  {
    ClassroomManager();
    TwoLecturesRun(classes, order, InitialState([Room("CR-1", ClassroomTag)], free, filled), true);
    TwoLecturesRun(classes, order, InitialState([Room("CR-1", ClassroomTag)], free, filled), false);
  }
}
