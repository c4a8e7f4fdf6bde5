/** The ResourceManager of scheduler_improved.py: room pools split by type, batch and
    lab occupancy keyed by (day, slot), and the checks and updates on them.

    The source keeps nested default dictionaries; here each is a flat map or set keyed
    by the whole path, which has the same observable contents (an empty inner
    dictionary created by a lookup holds no slot). */
module ResourceManager {
  import opened Model

  /** `occupied[(year, batch, day, slot)]` is the room a batch holds at that slot;
      `labOccupancy` holds `(lab room, day, slot)` for every lab slot marked taken. */
  datatype Manager = Manager(classrooms: set<nat>, labs: set<nat>,
                             occupied: map<BatchKey, nat>,
                             labOccupancy: set<LabKey>)

  /** (year, batch, day, slot) */
  type BatchKey = (string, nat, nat, nat)
  /** (lab room, day, slot) */
  type LabKey = (nat, nat, nat)

  // ---------------------------------------------------------------------------
  // Pools
  // ---------------------------------------------------------------------------

  /** `__init__`: rooms of type `'n'` form the classroom pool, rooms of type `'r'` the
      lab pool, rooms of any other type belong to neither; both occupancy maps start empty. */
  function NewManager(rooms: seq<Room>): (m: Manager)
    ensures forall i: nat :: i in m.classrooms <==> i < |rooms| && rooms[i].kind == ClassroomTag
    ensures forall i: nat :: i in m.labs <==> i < |rooms| && rooms[i].kind == LabTag
    ensures m.classrooms !! m.labs
    ensures m.occupied == map[] && m.labOccupancy == {}
    decreases |rooms|
  {
    if |rooms| == 0 then Manager({}, {}, map[], {})
    else
      var last := |rooms| - 1;
      var m := NewManager(rooms[..last]);
      if rooms[last].kind == ClassroomTag then m.(classrooms := m.classrooms + {last})
      else if rooms[last].kind == LabTag then m.(labs := m.labs + {last})
      else m
  }

  // ---------------------------------------------------------------------------
  // Free checks
  // ---------------------------------------------------------------------------

  /** Key presence in the batch map: a batch holds the slot whatever room it holds. */
  predicate BatchHolds(m: Manager, year: string, batch: nat, day: nat, slot: nat) {
    (year, batch, day, slot) in m.occupied
  }

  /** The source's own test `if occupied_slots[year][batch].get(day, {}).get(slot)`: the
      stored value is a room index and Python treats index 0 as false. */
  predicate BatchHoldsAsWritten(m: Manager, year: string, batch: nat, day: nat, slot: nat) {
    (year, batch, day, slot) in m.occupied && m.occupied[(year, batch, day, slot)] != 0
  }

  predicate LabHolds(m: Manager, room: nat, day: nat, slot: nat) {
    room in m.labs && (room, day, slot) in m.labOccupancy
  }

  /** One slot of `is_room_free`'s loop: inside the day, not held by the (year, batch),
      and, for a lab room, not marked taken. The batch test is chosen by a flag so the
      as-written and the corrected checks share everything else. */
  predicate SlotFree(m: Manager, room: nat, day: nat, slot: nat, year: string, batch: nat, asWritten: bool) {
    && slot < SlotsPerDay
    && !(if asWritten then BatchHoldsAsWritten(m, year, batch, day, slot) else BatchHolds(m, year, batch, day, slot))
    && !LabHolds(m, room, day, slot)
  }

  function RangeFree(m: Manager, room: nat, day: nat, slot: nat, duration: nat, year: string, batch: nat, asWritten: bool): (r: bool)
    ensures r <==> forall s: nat :: slot <= s < slot + duration ==> SlotFree(m, room, day, s, year, batch, asWritten)
    decreases duration
  {
    if duration == 0 then true
    else SlotFree(m, room, day, slot, year, batch, asWritten) && RangeFree(m, room, day, slot + 1, duration - 1, year, batch, asWritten)
  }

  /** `is_room_free` as written: the batch test misses a reservation of room 0. */
  function IsRoomFreeAsWritten(m: Manager, room: nat, day: nat, slot: nat, duration: nat, year: string, batch: nat): (r: bool)
    ensures r <==> forall s: nat :: slot <= s < slot + duration ==> SlotFree(m, room, day, s, year, batch, true)
  {
    RangeFree(m, room, day, slot, duration, year, batch, true)
  }

  /** `is_room_free` with the batch test on key presence: every slot of the range lies in
      the day, is not held by this (year, batch), and, for a lab, is not marked in the lab map. */
  function IsRoomFree(m: Manager, room: nat, day: nat, slot: nat, duration: nat, year: string, batch: nat): (r: bool)
    ensures r <==> forall s: nat :: slot <= s < slot + duration ==> SlotFree(m, room, day, s, year, batch, false)
  {
    RangeFree(m, room, day, slot, duration, year, batch, false)
  }

  /** A session may not cross the day boundary. */
  lemma FreeStaysInDay(m: Manager, room: nat, day: nat, slot: nat, duration: nat, year: string, batch: nat)
    requires 0 < duration
    requires IsRoomFree(m, room, day, slot, duration, year, batch)
    ensures slot + duration <= SlotsPerDay
  {
    var last: nat := slot + duration - 1;
    assert slot <= last < slot + duration;
    assert SlotFree(m, room, day, last, year, batch, false);
  }

  // ---------------------------------------------------------------------------
  // Reserve and release
  // ---------------------------------------------------------------------------

  /** `reserve_slot`: the batch holds `room` at every slot of the range, and a lab room is
      marked taken there; nothing else changes. Slots past the day are not refused. */
  function ReserveSlot(m: Manager, room: nat, day: nat, slot: nat, duration: nat, year: string, batch: nat): (r: Manager)
    ensures r.classrooms == m.classrooms && r.labs == m.labs
    ensures forall s: nat :: slot <= s < slot + duration ==>
              (year, batch, day, s) in r.occupied && r.occupied[(year, batch, day, s)] == room
    ensures forall k: BatchKey :: !(k.0 == year && k.1 == batch && k.2 == day && slot <= k.3 < slot + duration) ==>
              (k in r.occupied <==> k in m.occupied) && (k in m.occupied ==> r.occupied[k] == m.occupied[k])
    ensures forall k: LabKey :: k in r.labOccupancy <==>
              k in m.labOccupancy || (room in m.labs && k.0 == room && k.1 == day && slot <= k.2 < slot + duration)
    decreases duration
  {
    if duration == 0 then m
    else
      var m1 := m.(occupied := m.occupied[(year, batch, day, slot) := room],
                   labOccupancy := if room in m.labs then m.labOccupancy + {(room, day, slot)} else m.labOccupancy);
      ReserveSlot(m1, room, day, slot + 1, duration - 1, year, batch)
  }

  /** `release_slot`: the range is removed from this batch's map and, for a lab room,
      from the lab map; nothing else changes. */
  function ReleaseSlot(m: Manager, room: nat, day: nat, slot: nat, duration: nat, year: string, batch: nat): (r: Manager)
    ensures r.classrooms == m.classrooms && r.labs == m.labs
    ensures forall k: BatchKey :: k in r.occupied <==>
              k in m.occupied && !(k.0 == year && k.1 == batch && k.2 == day && slot <= k.3 < slot + duration)
    ensures forall k: BatchKey :: k in r.occupied ==> r.occupied[k] == m.occupied[k]
    ensures forall k: LabKey :: k in r.labOccupancy <==>
              k in m.labOccupancy && !(room in m.labs && k.0 == room && k.1 == day && slot <= k.2 < slot + duration)
    decreases duration
  {
    if duration == 0 then m
    else
      var m1 := m.(occupied := m.occupied - {(year, batch, day, slot)},
                   labOccupancy := if room in m.labs then m.labOccupancy - {(room, day, slot)} else m.labOccupancy);
      ReleaseSlot(m1, room, day, slot + 1, duration - 1, year, batch)
  }

  /** A reservation only adds: every key held before is still held, and every new key
      carries the reserving year. */
  lemma ReserveGrows(m: Manager, room: nat, day: nat, slot: nat, duration: nat, year: string, batch: nat)
    ensures var r := ReserveSlot(m, room, day, slot, duration, year, batch);
            && (forall k :: k in m.occupied ==> k in r.occupied)
            && (forall k :: k in r.occupied ==> k in m.occupied || k.0 == year)
            && m.labOccupancy <= r.labOccupancy
  {
    var r := ReserveSlot(m, room, day, slot, duration, year, batch);
    forall k | k in m.occupied
      ensures k in r.occupied
    {
      if k.0 == year && k.1 == batch && k.2 == day && slot <= k.3 < slot + duration {
        var s: nat := k.3;
        assert (year, batch, day, s) in r.occupied;
      }
    }
  }

  /** After a reservation the same (year, batch) cannot get any overlapping range on that day. */
  lemma ReserveBlocksBatch(m: Manager, room: nat, day: nat, slot: nat, duration: nat, year: string, batch: nat,
                           room2: nat, slot2: nat, duration2: nat)
    requires 0 < duration && 0 < duration2
    requires slot2 < slot + duration && slot < slot2 + duration2
    ensures !IsRoomFree(ReserveSlot(m, room, day, slot, duration, year, batch), room2, day, slot2, duration2, year, batch)
  {
    var r := ReserveSlot(m, room, day, slot, duration, year, batch);
    var s: nat := if slot2 <= slot then slot else slot2;
    assert (year, batch, day, s) in r.occupied;
    assert !SlotFree(r, room2, day, s, year, batch, false);
  }

  /** After reserving a lab room nobody, of any year or batch, gets an overlapping range in it. */
  lemma ReserveBlocksLab(m: Manager, room: nat, day: nat, slot: nat, duration: nat, year: string, batch: nat,
                         slot2: nat, duration2: nat, year2: string, batch2: nat)
    requires room in m.labs
    requires 0 < duration && 0 < duration2
    requires slot2 < slot + duration && slot < slot2 + duration2
    ensures !IsRoomFree(ReserveSlot(m, room, day, slot, duration, year, batch), room, day, slot2, duration2, year2, batch2)
  {
    var r := ReserveSlot(m, room, day, slot, duration, year, batch);
    var s: nat := if slot2 <= slot then slot else slot2;
    assert (room, day, s) in r.labOccupancy;
    assert !SlotFree(r, room, day, s, year2, batch2, false);
  }

  /** Releasing a reservation made on slots that were empty gives back the state before it. */
  lemma ReleaseUndoesReserve(m: Manager, room: nat, day: nat, slot: nat, duration: nat, year: string, batch: nat)
    requires forall s: nat :: slot <= s < slot + duration ==> (year, batch, day, s) !in m.occupied
    requires room in m.labs ==> forall s: nat :: slot <= s < slot + duration ==> (room, day, s) !in m.labOccupancy
    ensures ReleaseSlot(ReserveSlot(m, room, day, slot, duration, year, batch), room, day, slot, duration, year, batch) == m
  {
    var r := ReleaseSlot(ReserveSlot(m, room, day, slot, duration, year, batch), room, day, slot, duration, year, batch);
    assert r.occupied.Keys == m.occupied.Keys;
    assert r.occupied == m.occupied;
    assert r.labOccupancy == m.labOccupancy;
  }

  /** As written, a reservation of room 0 is invisible to the batch test: right after
      reserving a classroom with index 0, the very same range still reads as free for the
      batch that holds it, while the key-presence test refuses it. */
  lemma RoomZeroReservationUnseen(m: Manager, day: nat, slot: nat, duration: nat, year: string, batch: nat)
    requires 0 !in m.labs && 0 < duration
    requires IsRoomFreeAsWritten(m, 0, day, slot, duration, year, batch)
    ensures IsRoomFreeAsWritten(ReserveSlot(m, 0, day, slot, duration, year, batch), 0, day, slot, duration, year, batch)
    ensures !IsRoomFree(ReserveSlot(m, 0, day, slot, duration, year, batch), 0, day, slot, duration, year, batch)
  {
    var r := ReserveSlot(m, 0, day, slot, duration, year, batch);
    forall s: nat | slot <= s < slot + duration
      ensures SlotFree(r, 0, day, s, year, batch, true)
    {
      assert SlotFree(m, 0, day, s, year, batch, true);
      assert r.occupied[(year, batch, day, s)] == 0;
    }
    ReserveBlocksBatch(m, 0, day, slot, duration, year, batch, 0, slot, duration);
  }

  /** The two batch tests differ only on a stored room 0. */
  lemma AsWrittenAgreesWithoutRoomZero(m: Manager, room: nat, day: nat, slot: nat, duration: nat, year: string, batch: nat)
    requires forall k :: k in m.occupied ==> m.occupied[k] != 0
    ensures IsRoomFreeAsWritten(m, room, day, slot, duration, year, batch) == IsRoomFree(m, room, day, slot, duration, year, batch)
  {
    forall s: nat
      ensures SlotFree(m, room, day, s, year, batch, true) == SlotFree(m, room, day, s, year, batch, false)
    {
    }
  }

  /** A slot inside the day that the lab map does not mark for `room`. */
  predicate LabSlotFree(m: Manager, room: nat, day: nat, slot: nat) {
    slot < SlotsPerDay && !LabHolds(m, room, day, slot)
  }

  /** A lookup under a year nobody has reserved for sees only the lab map. */
  lemma UnreservedYearSeesOnlyLabs(m: Manager, room: nat, day: nat, slot: nat, duration: nat, year: string, batch: nat)
    requires forall k :: k in m.occupied ==> k.0 != year
    ensures IsRoomFree(m, room, day, slot, duration, year, batch) <==>
            forall s: nat :: slot <= s < slot + duration ==> LabSlotFree(m, room, day, s)
  {
    forall s: nat
      ensures SlotFree(m, room, day, s, year, batch, false) <==> LabSlotFree(m, room, day, s)
    {
      assert !BatchHolds(m, year, batch, day, s);
    }
  }

  /** Under a year nobody has reserved, the batch test as written and the corrected one
      agree: neither sees anything. */
  lemma UnreservedYearAgrees(m: Manager, room: nat, day: nat, slot: nat, duration: nat, year: string, batch: nat)
    requires forall k :: k in m.occupied ==> k.0 != year
    ensures IsRoomFreeAsWritten(m, room, day, slot, duration, year, batch) == IsRoomFree(m, room, day, slot, duration, year, batch)
  {
    forall s: nat
      ensures SlotFree(m, room, day, s, year, batch, true) == SlotFree(m, room, day, s, year, batch, false)
    {
      assert !BatchHolds(m, year, batch, day, s);
      assert !BatchHoldsAsWritten(m, year, batch, day, s);
    }
  }

  // ---------------------------------------------------------------------------
  // Capacity
  // ---------------------------------------------------------------------------

  datatype CapacityWarning =
    | InsufficientClassrooms(need: nat, available: nat, rooms: nat)
    | InsufficientLabs(need: nat, available: nat, labs: nat)

  /** `validate_capacity`: one warning per pool whose session count exceeds five per room. */
  function ValidateCapacity(m: Manager, lectureSessions: nat, labSessions: nat): (r: seq<CapacityWarning>)
    ensures InsufficientClassrooms(lectureSessions, |m.classrooms| * TeachingDays, |m.classrooms|) in r
            <==> lectureSessions > |m.classrooms| * TeachingDays
    ensures InsufficientLabs(labSessions, |m.labs| * TeachingDays, |m.labs|) in r
            <==> labSessions > |m.labs| * TeachingDays
    ensures forall w :: w in r ==>
              w == InsufficientClassrooms(lectureSessions, |m.classrooms| * TeachingDays, |m.classrooms|)
              || w == InsufficientLabs(labSessions, |m.labs| * TeachingDays, |m.labs|)
    ensures |r| <= 2
  {
    var maxLectures := |m.classrooms| * TeachingDays;
    var maxLabs := |m.labs| * TeachingDays;
    var w1 := if lectureSessions > maxLectures then [InsufficientClassrooms(lectureSessions, maxLectures, |m.classrooms|)] else [];
    var w2 := if labSessions > maxLabs then [InsufficientLabs(labSessions, maxLabs, |m.labs|)] else [];
    w1 + w2
  }

  // ---------------------------------------------------------------------------
  // Search
  // ---------------------------------------------------------------------------

  /** `_get_year_from_class`: every class is filed under the year "Unknown". */
  const LookupYear: string := "Unknown"

  /** The pool a class draws from: labs for type `'L'`, classrooms otherwise. */
  function PoolFor(m: Manager, c: Class): set<nat> {
    if c.kind == LabKind then m.labs else m.classrooms
  }

  /** A candidate (slot, room) the search accepts. */
  predicate Fits(m: Manager, c: Class, day: nat, slot: nat, room: nat) {
    room in PoolFor(m, c) && IsRoomFree(m, room, day, slot, c.duration, LookupYear, FirstGroup(c))
  }

  /** Rooms `c.classrooms[j..]` in order, for one slot: the first that fits. */
  function FirstRoom(m: Manager, c: Class, day: nat, slot: nat, j: nat): (r: Option<nat>)
    requires j <= |c.classrooms|
    ensures r.Some? ==> j <= r.value < |c.classrooms| && Fits(m, c, day, slot, c.classrooms[r.value])
    ensures r.Some? ==> forall j' :: j <= j' < r.value ==> !Fits(m, c, day, slot, c.classrooms[j'])
    ensures r.None? ==> forall j' :: j <= j' < |c.classrooms| ==> !Fits(m, c, day, slot, c.classrooms[j'])
    decreases |c.classrooms| - j
  {
    if j == |c.classrooms| then None
    else if Fits(m, c, day, slot, c.classrooms[j]) then Some(j)
    else FirstRoom(m, c, day, slot, j + 1)
  }

  /** Slots `slots[k..]` in order, each with every room: the first (slot, room) positions that fit. */
  function FirstFit(m: Manager, c: Class, day: nat, slots: seq<nat>, k: nat): (r: Option<(nat, nat)>)
    requires k <= |slots|
    ensures r.Some? ==> k <= r.value.0 < |slots| && r.value.1 < |c.classrooms|
                        && Fits(m, c, day, slots[r.value.0], c.classrooms[r.value.1])
    ensures r.Some? ==> forall k', j' :: k <= k' < r.value.0 && 0 <= j' < |c.classrooms| ==>
                          !Fits(m, c, day, slots[k'], c.classrooms[j'])
    ensures r.Some? ==> forall j' :: 0 <= j' < r.value.1 ==> !Fits(m, c, day, slots[r.value.0], c.classrooms[j'])
    ensures r.None? ==> forall k', j' :: k <= k' < |slots| && 0 <= j' < |c.classrooms| ==>
                          !Fits(m, c, day, slots[k'], c.classrooms[j'])
    decreases |slots| - k
  {
    if k == |slots| then None
    else match FirstRoom(m, c, day, slots[k], 0)
      case Some(j) => Some((k, j))
      case None => FirstFit(m, c, day, slots, k + 1)
  }

  /** `range(0, 12 - duration + 1)`. */
  function FallbackSlots(duration: nat): (r: seq<nat>)
    ensures |r| == if duration <= SlotsPerDay + 1 then SlotsPerDay + 1 - duration else 0
    ensures forall k :: 0 <= k < |r| ==> r[k] == k && r[k] + duration <= SlotsPerDay + 1
  {
    var n := if duration <= SlotsPerDay + 1 then SlotsPerDay + 1 - duration else 0;
    seq(n, k requires 0 <= k < n => k)
  }

  /** Position `(k, j)` — slot `slots[k]` with room `c.classrooms[j]` — fits, and no
      position before it in the search's order (slots first, then rooms) does. */
  predicate FirstInOrder(m: Manager, c: Class, day: nat, slots: seq<nat>, k: int, j: int) {
    && 0 <= k < |slots| && 0 <= j < |c.classrooms|
    && Fits(m, c, day, slots[k], c.classrooms[j])
    && (forall k', j' :: 0 <= k' < k && 0 <= j' < |c.classrooms| ==> !Fits(m, c, day, slots[k'], c.classrooms[j']))
    && (forall j' :: 0 <= j' < j ==> !Fits(m, c, day, slots[k], c.classrooms[j']))
  }

  /** A fitting slot of a non-empty session lies inside the day, so its row gives back day and slot. */
  lemma FitRow(m: Manager, c: Class, day: nat, slot: nat, room: nat)
    requires Fits(m, c, day, slot, room)
    ensures c.duration > 0 ==> RowOf(day, slot) / SlotsPerDay == day && RowOf(day, slot) % SlotsPerDay == slot
  {
    if c.duration > 0 {
      FreeStaysInDay(m, room, day, slot, c.duration, LookupYear, FirstGroup(c));
      RowOfInverse(day, slot);
    }
  }

  /** `find_alternate_room_or_slot`: the first (slot, room), preferred slots before the
      fallback slots and rooms in the class's order, that is in the class's pool and free. */
  function FindAlternateRoomOrSlot(m: Manager, c: Class, day: nat, preferred: seq<nat>): (r: Option<(nat, nat)>)
    ensures r.Some? ==> r.value.1 in c.classrooms && r.value.1 in PoolFor(m, c)
    ensures r.Some? ==> exists s: nat :: r.value.0 == RowOf(day, s) && Fits(m, c, day, s, r.value.1)
    ensures r.Some? && c.duration > 0 ==>
              r.value.0 / SlotsPerDay == day && Fits(m, c, day, r.value.0 % SlotsPerDay, r.value.1)
    ensures (exists k, j :: 0 <= k < |preferred| && 0 <= j < |c.classrooms| && Fits(m, c, day, preferred[k], c.classrooms[j]))
            ==> r.Some? && exists k :: 0 <= k < |preferred| && r.value.0 == RowOf(day, preferred[k])
    ensures r.None? <==>
              (forall k, j :: 0 <= k < |preferred| && 0 <= j < |c.classrooms| ==> !Fits(m, c, day, preferred[k], c.classrooms[j]))
              && (forall s, j :: 0 <= s < |FallbackSlots(c.duration)| && 0 <= j < |c.classrooms| ==> !Fits(m, c, day, s, c.classrooms[j]))
  {
    match FirstFit(m, c, day, preferred, 0)
    case Some((k, j)) =>
      var s := preferred[k];
      FitRow(m, c, day, s, c.classrooms[j]);
      Some((RowOf(day, s), c.classrooms[j]))
    case None =>
      var fb := FallbackSlots(c.duration);
      match FirstFit(m, c, day, fb, 0)
      case Some((k, j)) =>
        var s := fb[k];
        FitRow(m, c, day, s, c.classrooms[j]);
        Some((RowOf(day, s), c.classrooms[j]))
      case None =>
        forall s, j | 0 <= s < |fb| && 0 <= j < |c.classrooms|
          ensures !Fits(m, c, day, s, c.classrooms[j])
        {
          assert fb[s] == s;
        }
        None
  }

  /** The search's order: the position found is the first in the preferred list that
      fits, or, when none of those fits, the first in the fallback list. */
  lemma FindAlternateFirstFit(m: Manager, c: Class, day: nat, preferred: seq<nat>)
    ensures var r := FindAlternateRoomOrSlot(m, c, day, preferred);
            r.Some? ==>
              (exists k, j :: FirstInOrder(m, c, day, preferred, k, j) && r.value == (RowOf(day, preferred[k]), c.classrooms[j]))
              || ((forall k, j :: 0 <= k < |preferred| && 0 <= j < |c.classrooms| ==> !Fits(m, c, day, preferred[k], c.classrooms[j]))
                  && exists s, j :: FirstInOrder(m, c, day, FallbackSlots(c.duration), s, j) && r.value == (RowOf(day, s), c.classrooms[j]))
  {
    match FirstFit(m, c, day, preferred, 0)
    case Some((k, j)) =>
      assert FirstInOrder(m, c, day, preferred, k, j);
    case None =>
      var fb := FallbackSlots(c.duration);
      match FirstFit(m, c, day, fb, 0)
      case Some((k, j)) =>
        assert FirstInOrder(m, c, day, fb, k, j) && fb[k] == k;
      case None =>
  }
}
