/** The lab phase of scheduler.py, `schedule_labs_first`. Every type-`L` class, longest
    first, is booked into a window of a lab room: slots 0-1 (before the short break) or
    5-6 (after lunch). The first pass tries the class's expected lab; the second tries
    the other labs the class may use; both respect two per-day caps for the class's
    batch. The matrix is then filled, and a final retry tries every window of every lab
    again for the classes still missing, without the caps and checking the lab and the
    batch only at the window's first slot.

    The matrix is only written between the passes and at the end, so the row checks of
    a pass see the classes placed before the phase (and, in the retry, those of the
    first two passes), never the labs the same pass has just booked. Lab occupancy is
    keyed by room name, as in the source. The per-day counters are derived from the
    list of bookings: each booking adds one to the counter of its subject, batch and
    day. The bookkeeping for the evolutionary phase (`groups_empty_space`,
    `teachers_empty_space`, `subjects_order`) and the quota report are not part of
    this model. */
module LabPhase {
  import opened Model
  import opened Text
  import opened Timetable
  import opened MatrixOps
  import opened LabMap
  import ConfigAdapter

  // ---------------------------------------------------------------------------
  // Order: `lab_classes.sort(key=(int(duration), subject), reverse=True)`
  // ---------------------------------------------------------------------------

  /** The sort key `(duration, subject)` under Python's tuple order. */
  predicate KeyLess(a: Class, b: Class) {
    a.duration < b.duration || (a.duration == b.duration && StrLess(a.subject, b.subject))
  }

  predicate SameKey(a: Class, b: Class) {
    a.duration == b.duration && a.subject == b.subject
  }

  /** The key order is a strict total order. */
  lemma KeyOrder(a: Class, b: Class, c: Class)
    ensures !KeyLess(a, a)
    ensures KeyLess(a, b) ==> !KeyLess(b, a) && !SameKey(a, b)
    ensures SameKey(a, b) || KeyLess(a, b) || KeyLess(b, a)
    ensures KeyLess(a, b) && KeyLess(b, c) ==> KeyLess(a, c)
  {
    StrLessIrreflexive(a.subject);
    StrLessTotal(a.subject, b.subject);
    if KeyLess(a, b) && a.duration == b.duration {
      StrLessAsymmetric(a.subject, b.subject);
      StrLessIrreflexive(a.subject);
    }
    if KeyLess(a, b) && KeyLess(b, c) && a.duration == b.duration && b.duration == c.duration {
      StrLessTransitive(a.subject, b.subject, c.subject);
    }
  }

  /** If `p` sorts below `x` and `q` does not sort above `p`, then `q` sorts below `x`. */
  lemma KeyBelow(p: Class, q: Class, x: Class)
    requires KeyLess(p, x) && !KeyLess(p, q)
    ensures KeyLess(q, x) && !KeyLess(x, q) && !SameKey(x, q)
  {
    KeyOrder(q, p, x);
    KeyOrder(p, q, x);
    KeyOrder(q, x, x);
  }

  predicate Indices(classes: seq<Class>, s: seq<nat>) {
    forall i :: 0 <= i < |s| ==> s[i] < |classes|
  }

  /** Non-increasing by key. */
  predicate Descending(classes: seq<Class>, s: seq<nat>)
    requires Indices(classes, s)
  {
    forall i, j :: 0 <= i < j < |s| ==> !KeyLess(classes[s[i]], classes[s[j]])
  }

  /** Equal keys keep ascending class order, the input order of the sort. */
  predicate Stable(classes: seq<Class>, s: seq<nat>)
    requires Indices(classes, s)
  {
    forall i, j :: 0 <= i < j < |s| && SameKey(classes[s[i]], classes[s[j]]) ==> s[i] < s[j]
  }

  /** Insert `x` after every element whose key is not below its own. */
  function Insert(classes: seq<Class>, s: seq<nat>, x: nat): (r: seq<nat>)
    requires Indices(classes, s) && x < |classes|
    ensures multiset(r) == multiset(s) + multiset{x}
    ensures Indices(classes, r)
    decreases |s|
  {
    if |s| == 0 then [x]
    else if KeyLess(classes[s[0]], classes[x]) then [x] + s
    else
      assert s == [s[0]] + s[1..];
      var rest := Insert(classes, s[1..], x);
      assert forall i :: 0 <= i < |rest| ==> rest[i] in multiset(rest);
      [s[0]] + rest
  }

  /** An element of the insertion into `s[1..]` is `x` or an element of `s` after its head. */
  lemma FromRest(s: seq<nat>, rest: seq<nat>, x: nat, v: nat) returns (k: nat)
    requires |s| > 0 && multiset(rest) == multiset(s[1..]) + multiset{x} && v in rest
    ensures v == x || (1 <= k < |s| && s[k] == v)
  {
    k := 0;
    assert v in multiset(rest);
    if v != x {
      assert v in multiset(s[1..]);
      var m :| 0 <= m < |s[1..]| && s[1..][m] == v;
      k := m + 1;
    }
  }

  /** Putting `x` in front of `s` when the head of `s` sorts below `x`. */
  lemma PrependOrdered(classes: seq<Class>, s: seq<nat>, x: nat)
    requires Indices(classes, s) && x < |classes| && |s| > 0 && Descending(classes, s)
    requires KeyLess(classes[s[0]], classes[x])
    ensures Indices(classes, [x] + s)
    ensures Descending(classes, [x] + s)
    ensures Stable(classes, s) ==> Stable(classes, [x] + s)
  {
    var r := [x] + s;
    forall j | 1 <= j < |r| ensures KeyLess(classes[r[j]], classes[x]) && !KeyLess(classes[x], classes[r[j]]) && !SameKey(classes[x], classes[r[j]]) {
      assert r[j] == s[j - 1];
      if j == 1 {
        KeyOrder(classes[s[0]], classes[x], classes[x]);
      } else {
        KeyBelow(classes[s[0]], classes[s[j - 1]], classes[x]);
      }
    }
    forall i, j | 1 <= i < j < |r| ensures r[i] == s[i - 1] && r[j] == s[j - 1] { }
  }

  lemma {:induction false} InsertDescending(classes: seq<Class>, s: seq<nat>, x: nat)
    requires Indices(classes, s) && x < |classes| && Descending(classes, s)
    ensures Descending(classes, Insert(classes, s, x))
    decreases |s|
  {
    if |s| == 0 {
    } else if KeyLess(classes[s[0]], classes[x]) {
      PrependOrdered(classes, s, x);
    } else {
      InsertDescending(classes, s[1..], x);
      var rest := Insert(classes, s[1..], x);
      var r := [s[0]] + rest;
      forall j | 0 < j < |r| ensures !KeyLess(classes[s[0]], classes[r[j]]) {
        var k := FromRest(s, rest, x, r[j]);
      }
      forall i, j | 0 < i < j < |r| ensures r[i] == rest[i - 1] && r[j] == rest[j - 1] { }
    }
  }

  lemma {:induction false} InsertStable(classes: seq<Class>, s: seq<nat>, x: nat)
    requires Indices(classes, s) && x < |classes| && Stable(classes, s)
    requires forall i :: 0 <= i < |s| ==> s[i] < x
    requires Descending(classes, s)
    ensures Stable(classes, Insert(classes, s, x))
    decreases |s|
  {
    if |s| == 0 {
    } else if KeyLess(classes[s[0]], classes[x]) {
      PrependOrdered(classes, s, x);
    } else {
      var t := s[1..];
      assert Stable(classes, t) && Descending(classes, t) by {
        forall i, j | 0 <= i < j < |t| ensures t[i] == s[i + 1] && t[j] == s[j + 1] { }
      }
      InsertStable(classes, t, x);
      var rest := Insert(classes, t, x);
      assert Insert(classes, s, x) == [s[0]] + rest;
      forall v | v in rest && SameKey(classes[s[0]], classes[v]) ensures s[0] < v {
        var k := FromRest(s, rest, x, v);
      }
      ConsStable(classes, s[0], rest);
    }
  }

  /** A head below every later index with the same key keeps a stable list stable. */
  lemma ConsStable(classes: seq<Class>, h: nat, rest: seq<nat>)
    requires h < |classes| && Indices(classes, rest) && Stable(classes, rest)
    requires forall v :: v in rest && SameKey(classes[h], classes[v]) ==> h < v
    ensures Indices(classes, [h] + rest) && Stable(classes, [h] + rest)
  {
    var r := [h] + rest;
    forall i, j | 0 <= i < j < |r| ensures r[j] == rest[j - 1] && (i > 0 ==> r[i] == rest[i - 1]) { }
  }

  /** Python's stable sort with `reverse=True`, by insertion in input order. */
  function SortByKey(classes: seq<Class>, xs: seq<nat>): (r: seq<nat>)
    requires Indices(classes, xs)
    ensures multiset(r) == multiset(xs)
    ensures Indices(classes, r)
    decreases |xs|
  {
    if |xs| == 0 then []
    else
      var n := |xs| - 1;
      assert xs == xs[..n] + [xs[n]];
      Insert(classes, SortByKey(classes, xs[..n]), xs[n])
  }

  predicate Increasing(xs: seq<nat>) {
    forall i, j :: 0 <= i < j < |xs| ==> xs[i] < xs[j]
  }

  /** The sort orders by descending key and, fed ascending indices, keeps equal keys in
      index order. */
  lemma {:induction false} SortByKeyOrdered(classes: seq<Class>, xs: seq<nat>)
    requires Indices(classes, xs) && Increasing(xs)
    ensures Descending(classes, SortByKey(classes, xs))
    ensures Stable(classes, SortByKey(classes, xs))
    decreases |xs|
  {
    if |xs| > 0 {
      var n := |xs| - 1;
      var prev := SortByKey(classes, xs[..n]);
      SortByKeyOrdered(classes, xs[..n]);
      forall i | 0 <= i < |prev| ensures prev[i] < xs[n] {
        assert prev[i] in multiset(xs[..n]);
        var k :| 0 <= k < n && xs[..n][k] == prev[i];
      }
      InsertDescending(classes, prev, xs[n]);
      InsertStable(classes, prev, xs[n]);
    }
  }

  /** `lab_classes` after sorting. Every class of type `'L'` is kept, whatever the name
      matching before the sort decides: each of its branches appends the class. */
  function LabOrder(classes: seq<Class>): (r: seq<nat>)
    ensures forall x: nat :: x in r <==> x < |classes| && classes[x].kind == LabKind
    ensures |r| == |IndicesWhere(classes, (c: Class) => c.kind == LabKind)|
    ensures Indices(classes, r)
  {
    var labs := IndicesWhere(classes, (c: Class) => c.kind == LabKind);
    assert forall i :: 0 <= i < |labs| ==> labs[i] in labs;
    var r := SortByKey(classes, labs);
    assert forall x: nat :: x in r <==> x in multiset(labs);
    assert |r| == |multiset(r)| == |multiset(labs)|;
    r
  }

  /** The lab order is a permutation of the lab classes, longest first, then by subject
      in reverse code-point order, ties in index order. */
  lemma LabOrderSorted(classes: seq<Class>)
    ensures Descending(classes, LabOrder(classes))
    ensures Stable(classes, LabOrder(classes))
    ensures multiset(LabOrder(classes)) == multiset(IndicesWhere(classes, (c: Class) => c.kind == LabKind))
  {
    var labs := IndicesWhere(classes, (c: Class) => c.kind == LabKind);
    assert forall i :: 0 <= i < |labs| ==> labs[i] in labs;
    SortByKeyOrdered(classes, labs);
  }

  // ---------------------------------------------------------------------------
  // Windows, occupancy and caps
  // ---------------------------------------------------------------------------

  /** `valid_lab_windows`: the slots 3-4 window is dropped because slot 4 is the lunch break. */
  const Windows: seq<seq<nat>> := [[0, 1], [5, 6]]
  /** Slots that are breaks: the short break and lunch. */
  const BreakSlots: set<nat> := {2, 4}

  /** One lab booking: class `cls` in room `room`, called `roomName`, from `slot` of `day`.
      `pass` is 1 for the expected lab, 2 for another lab, 3 for the final retry. */
  datatype LabBooking = LabBooking(cls: nat, day: nat, slot: nat, room: nat, roomName: string, pass: nat)

  /** `lab_occupancy` holds (lab name, day, slot), `batch_schedule` (batch, day, slot).
      `unplaced` lists the classes neither pass could book, `noRoom` those skipped
      because there is no lab at all, `retryUnplaced` those the final retry could
      not book either. */
  datatype LabState = LabState(free: seq<Field>, filled: Filled,
                               labOcc: set<(string, nat, nat)>, batchOcc: set<(nat, nat, nat)>,
                               bookings: seq<LabBooking>, unplaced: seq<nat>, noRoom: seq<nat>,
                               retryUnplaced: seq<nat>)

  /** A booking counted under `lab_day_counts[...][batch][day]`. */
  predicate BookedFor(classes: seq<Class>, b: LabBooking, batch: nat, day: nat) {
    b.cls < |classes| && FirstGroup(classes[b.cls]) == batch && b.day == day
  }

  /** `sum(lab_day_counts[s][batch][day] for s in lab_day_counts)`. */
  function LabsOn(classes: seq<Class>, bs: seq<LabBooking>, batch: nat, day: nat): nat
    decreases |bs|
  {
    if |bs| == 0 then 0
    else LabsOn(classes, bs[..|bs| - 1], batch, day) + (if BookedFor(classes, bs[|bs| - 1], batch, day) then 1 else 0)
  }

  /** `lab_day_counts[subject][batch][day]`. */
  function SubjectLabsOn(classes: seq<Class>, bs: seq<LabBooking>, subject: string, batch: nat, day: nat): nat
    decreases |bs|
  {
    if |bs| == 0 then 0
    else
      var b := bs[|bs| - 1];
      SubjectLabsOn(classes, bs[..|bs| - 1], subject, batch, day)
      + (if BookedFor(classes, b, batch, day) && classes[b.cls].subject == subject then 1 else 0)
  }

  /** The day caps: fewer than two labs for the batch that day, and none yet of the subject. */
  predicate DayOpen(classes: seq<Class>, bs: seq<LabBooking>, c: Class, day: nat) {
    LabsOn(classes, bs, FirstGroup(c), day) < 2 && SubjectLabsOn(classes, bs, c.subject, FirstGroup(c), day) < 1
  }

  /** `row in [f[0] for f in free]`: some field of the row, in any room, is free. */
  predicate RowFree(free: seq<Field>, row: nat) {
    exists i :: 0 <= i < |free| && free[i].0 == row
  }

  /** The matrix has the weekly layout: five days of twelve rows, and at least that. */
  predicate WeekMatrix(m: Matrix) {
    |m| >= TeachingDays * SlotsPerDay
  }

  /** The window checks of the first two passes, for booking class `idx` into the lab
      called `name` in window `w` of `day`: the window is long enough, ends inside the
      day, its slots are off the breaks and each of their rows has a free field; the
      lab and the batch are free at every slot; no matrix row holds a class of the
      same teacher or a shared group. */
  predicate WindowFits(m: Matrix, classes: seq<Class>, st: LabState, idx: nat, name: string, day: nat, w: nat)
    requires idx < |classes| && w < |Windows| && day < TeachingDays && WeekMatrix(m)
  {
    var c := classes[idx];
    var win := Windows[w];
    var slot := win[0];
    && c.duration <= |win|
    && slot + c.duration <= SlotsPerDay
    && (forall s: nat :: slot <= s < slot + c.duration ==> s in win && s !in BreakSlots && RowFree(st.free, RowOf(day, s)))
    && (forall s: nat :: slot <= s < slot + c.duration ==> (name, day, s) !in st.labOcc)
    && (forall s: nat :: slot <= s < slot + c.duration ==> (FirstGroup(c), day, s) !in st.batchOcc)
    && (forall s: nat :: slot <= s < slot + c.duration ==> ValidTeacherGroupRow(m, classes, idx, RowOf(day, s)))
  }

  predicate Candidate(m: Matrix, classes: seq<Class>, st: LabState, idx: nat, name: string, day: nat, w: nat)
    requires idx < |classes| && w < |Windows| && day < TeachingDays && WeekMatrix(m)
  {
    DayOpen(classes, st.bookings, classes[idx], day) && WindowFits(m, classes, st, idx, name, day, w)
  }

  /** (d, v) comes at or after (day, w) in the search order, days outer, windows inner. */
  predicate From(d: nat, v: nat, day: nat, w: nat) {
    d > day || (d == day && v >= w)
  }

  /** `for day in day_order: <caps>; for win in valid_lab_windows: <checks>`: the first
      (day, window) from (day, w) on that passes the caps and the window checks. */
  function FindWindow(m: Matrix, classes: seq<Class>, st: LabState, idx: nat, name: string, day: nat, w: nat): (r: Option<(nat, nat)>)
    requires idx < |classes| && WeekMatrix(m)
    ensures r.Some? ==> var (d, v) := r.value;
              d < TeachingDays && v < |Windows| && From(d, v, day, w) && Candidate(m, classes, st, idx, name, d, v)
    ensures r.Some? ==> forall d: nat, v: nat :: d < TeachingDays && v < |Windows| && From(d, v, day, w) && !From(d, v, r.value.0, r.value.1) ==>
              !Candidate(m, classes, st, idx, name, d, v)
    ensures r.None? <==> forall d: nat, v: nat :: d < TeachingDays && v < |Windows| && From(d, v, day, w) ==>
              !Candidate(m, classes, st, idx, name, d, v)
    decreases TeachingDays - day, |Windows| - w
  {
    if day >= TeachingDays then None
    else if w >= |Windows| || !DayOpen(classes, st.bookings, classes[idx], day) then
      FindWindow(m, classes, st, idx, name, day + 1, 0)
    else if WindowFits(m, classes, st, idx, name, day, w) then
      assert Candidate(m, classes, st, idx, name, day, w);
      Some((day, w))
    else FindWindow(m, classes, st, idx, name, day, w + 1)
  }

  // ---------------------------------------------------------------------------
  // Booking
  // ---------------------------------------------------------------------------

  /** The slots `slot .. slot+duration-1` of one day, tagged with a lab name or a batch. */
  function Tagged<T(==,!new)>(tag: T, day: nat, slot: nat, duration: nat): (r: set<(T, nat, nat)>)
    ensures forall t, d, s :: (t, d, s) in r <==> t == tag && d == day && slot <= s < slot + duration
  {
    set s: nat | slot <= s < slot + duration :: (tag, day, s)
  }

  /** The placement block of the source: mark the lab and the batch busy, add the
      fields to `filled` (the key is only created when there is a field), and drop the
      fields that are in `free` from it. */
  function Book(st: LabState, c: Class, idx: nat, day: nat, slot: nat, room: nat, name: string, pass: nat): (r: LabState)
    requires UniqueKeys(st.filled)
    ensures UniqueKeys(r.filled)
    ensures r.labOcc == st.labOcc + Tagged(name, day, slot, c.duration)
    ensures r.batchOcc == st.batchOcc + Tagged(FirstGroup(c), day, slot, c.duration)
    ensures r.bookings == st.bookings + [LabBooking(idx, day, slot, room, name, pass)]
    ensures r.unplaced == st.unplaced && r.noRoom == st.noRoom && r.retryUnplaced == st.retryUnplaced
    ensures c.duration > 0 ==> FieldsOf(r.filled, idx) == FieldsOf(st.filled, idx) + Block(RowOf(day, slot), c.duration, room)
    ensures forall k :: k != idx ==> Get(r.filled, k) == Get(st.filled, k)
    ensures forall k :: HasKey(st.filled, k) ==> HasKey(r.filled, k)
    ensures c.duration > 0 ==> HasKey(r.filled, idx)
    ensures multiset(r.free) == multiset(st.free) - multiset(Block(RowOf(day, slot), c.duration, room))
  {
    var fields := Block(RowOf(day, slot), c.duration, room);
    var filled := if c.duration == 0 then st.filled else Extend(st.filled, idx, fields);
    assert forall k :: HasKey(st.filled, k) ==> HasKey(filled, k) by {
      forall k | HasKey(st.filled, k) ensures HasKey(filled, k) {
        assert k != idx ==> Get(filled, k) == Get(st.filled, k);
      }
    }
    LabState(RemoveAll(st.free, fields), filled,
             st.labOcc + Tagged(name, day, slot, c.duration),
             st.batchOcc + Tagged(FirstGroup(c), day, slot, c.duration),
             st.bookings + [LabBooking(idx, day, slot, room, name, pass)],
             st.unplaced, st.noRoom, st.retryUnplaced)
  }

  /** `class_obj.classrooms.append(lab_room_idx)` when the chosen lab is not yet allowed. */
  function WithRoom(rooms: seq<nat>, room: nat): (r: seq<nat>)
    ensures room in r && forall x :: x in rooms ==> x in r
    ensures forall x :: x in r ==> x in rooms || x == room
  {
    if room in rooms then rooms else rooms + [room]
  }

  // ---------------------------------------------------------------------------
  // The first two passes
  // ---------------------------------------------------------------------------

  /** `lab_name_to_room_idx`: lab name to room index; of two labs with one name, the
      later index wins and the name keeps the earlier one's place. */
  function LabDirectory(rooms: seq<Room>): (r: Dict<nat>)
    ensures DistinctKeys(r)
    ensures NamesLabs(rooms, r)
    ensures forall i :: 0 <= i < |r| ==> IsLab(rooms, r[i].1) && rooms[r[i].1].name == r[i].0
    decreases |rooms|
  {
    if |rooms| == 0 then []
    else
      var n := |rooms| - 1;
      var prev := LabDirectory(rooms[..n]);
      WidenNames(rooms, n, prev);
      var r := if rooms[n].kind == LabTag then Assign(prev, rooms[n].name, n) else prev;
      assert NamesLabs(rooms, r) by {
        if rooms[n].kind == LabTag { AssignNames(rooms, prev, n); }
      }
      NamesEntries(rooms, r);
      r
  }

  /** Every name the directory `d` knows is that of a lab room at the index it maps to. */
  ghost predicate NamesLabs(rooms: seq<Room>, d: Dict<nat>) {
    forall k :: Lookup(d, k).Some? ==> IsLab(rooms, Lookup(d, k).value) && rooms[Lookup(d, k).value].name == k
  }

  /** Lab rooms of a prefix of the rooms are lab rooms of all of them. */
  lemma WidenNames(rooms: seq<Room>, n: nat, d: Dict<nat>)
    requires n <= |rooms| && NamesLabs(rooms[..n], d)
    ensures NamesLabs(rooms, d)
  {
    forall k | Lookup(d, k).Some? ensures IsLab(rooms, Lookup(d, k).value) && rooms[Lookup(d, k).value].name == k {
      assert rooms[..n][Lookup(d, k).value] == rooms[Lookup(d, k).value];
    }
  }

  /** Mapping a lab room's name to its index keeps the directory naming labs. */
  lemma AssignNames(rooms: seq<Room>, d: Dict<nat>, n: nat)
    requires DistinctKeys(d) && NamesLabs(rooms, d) && IsLab(rooms, n)
    ensures NamesLabs(rooms, Assign(d, rooms[n].name, n))
  {
  }

  /** In a directory that names labs, every entry names a lab. */
  lemma NamesEntries(rooms: seq<Room>, d: Dict<nat>)
    requires DistinctKeys(d) && NamesLabs(rooms, d)
    ensures forall i :: 0 <= i < |d| ==> IsLab(rooms, d[i].1) && rooms[d[i].1].name == d[i].0
  {
    forall i | 0 <= i < |d| ensures IsLab(rooms, d[i].1) && rooms[d[i].1].name == d[i].0 {
      assert Lookup(d, d[i].0) == Some(d[i].1);
    }
  }

  /** `for alt_lab_name in lab_names_list`: the first other lab, by position `k` on, that
      the class may use and that has a window passing the checks. */
  function SecondPass(m: Matrix, rooms: seq<Room>, classes: seq<Class>, st: LabState, idx: nat,
                      allowed: seq<nat>, expected: string, k: nat): (r: Option<(nat, nat, nat)>)
    requires idx < |classes| && WeekMatrix(m)
    ensures r.Some? ==> var (room, d, v) := r.value;
              && IsLab(rooms, room) && room in allowed && rooms[room].name != expected
              && d < TeachingDays && v < |Windows| && Candidate(m, classes, st, idx, rooms[room].name, d, v)
    decreases |LabRoomNames(rooms)| - k
  {
    var names := LabRoomNames(rooms);
    if k >= |names| then None
    else if names[k] == expected then SecondPass(m, rooms, classes, st, idx, allowed, expected, k + 1)
    else match Lookup(LabDirectory(rooms), names[k])
      case None => SecondPass(m, rooms, classes, st, idx, allowed, expected, k + 1)
      case Some(room) =>
        if room !in allowed then SecondPass(m, rooms, classes, st, idx, allowed, expected, k + 1)
        else match FindWindow(m, classes, st, idx, names[k], 0, 0)
          case Some((d, v)) => Some((room, d, v))
          case None => SecondPass(m, rooms, classes, st, idx, allowed, expected, k + 1)
  }

  /** The lab a class expects, chosen by name. */
  function ExpectedRoom(rooms: seq<Room>, labMap: Dict<string>, s2l: Dict<string>, c: Class): Option<nat> {
    ChooseLabRoom(rooms, ExpectedLabName(labMap, s2l, c.subject))
  }

  /** One iteration of `for class_idx, class_obj in lab_classes` (first and second pass). */
  function ScheduleLab(m: Matrix, rooms: seq<Room>, classes: seq<Class>, labMap: Dict<string>, s2l: Dict<string>,
                       st: LabState, idx: nat): (r: LabState)
    requires idx < |classes| && WeekMatrix(m) && UniqueKeys(st.filled)
    ensures UniqueKeys(r.filled)
  {
    var c := classes[idx];
    match ExpectedRoom(rooms, labMap, s2l, c)
    case None => st.(noRoom := st.noRoom + [idx])
    case Some(room) =>
      var name := rooms[room].name;
      match FindWindow(m, classes, st, idx, name, 0, 0)
      case Some((d, v)) => Book(st, c, idx, d, Windows[v][0], room, name, 1)
      case None =>
        if name == "" then st.(unplaced := st.unplaced + [idx])
        else match SecondPass(m, rooms, classes, st, idx, WithRoom(c.classrooms, room), name, 0)
          case Some((room2, d, v)) => Book(st, c, idx, d, Windows[v][0], room2, rooms[room2].name, 2)
          case None => st.(unplaced := st.unplaced + [idx])
  }

  function Passes(m: Matrix, rooms: seq<Room>, classes: seq<Class>, labMap: Dict<string>, s2l: Dict<string>,
                  order: seq<nat>, st: LabState): (r: LabState)
    requires Indices(classes, order) && WeekMatrix(m) && UniqueKeys(st.filled)
    ensures UniqueKeys(r.filled)
    decreases |order|
  {
    if |order| == 0 then st
    else Passes(m, rooms, classes, labMap, s2l, order[1..], ScheduleLab(m, rooms, classes, labMap, s2l, st, order[0]))
  }

  // ---------------------------------------------------------------------------
  // The final retry
  // ---------------------------------------------------------------------------

  /** The retry's checks for lab `name` (room `room`) in window `w` of `day`: window long
      enough, room allowed, inside the day, slots in the window and off the breaks, each
      row with a free field and no row clash; the lab and the batch are then checked at
      the window's first slot only. */
  predicate RetryFits(m: Matrix, classes: seq<Class>, st: LabState, idx: nat, allowed: seq<nat>,
                      name: string, room: nat, day: nat, w: nat)
    requires idx < |classes| && w < |Windows| && day < TeachingDays && WeekMatrix(m)
  {
    var c := classes[idx];
    var win := Windows[w];
    var slot := win[0];
    && c.duration <= |win|
    && room in allowed
    && slot + c.duration <= SlotsPerDay
    && (forall s: nat :: slot <= s < slot + c.duration ==>
          s in win && s !in BreakSlots && RowFree(st.free, RowOf(day, s)) && ValidTeacherGroupRow(m, classes, idx, RowOf(day, s)))
    && (name, day, slot) !in st.labOcc
    && (FirstGroup(c), day, slot) !in st.batchOcc
  }

  /** (d, v, j) comes at or after (day, w, j0) in the retry's order: days, windows, labs. */
  predicate RetryFrom(d: nat, v: nat, j: nat, day: nat, w: nat, j0: nat) {
    d > day || (d == day && (v > w || (v == w && j >= j0)))
  }

  /** `for day in range(5): for win in valid_lab_windows: for lab_name, lab_room_idx in
      lab_name_to_room_idx.items()`: the first entry that passes the retry's checks. */
  function RetrySearch(m: Matrix, dir: Dict<nat>, classes: seq<Class>, st: LabState, idx: nat,
                       allowed: seq<nat>, day: nat, w: nat, j: nat): (r: Option<(nat, nat, nat)>)
    requires idx < |classes| && WeekMatrix(m)
    ensures r.Some? ==> var (d, v, k) := r.value;
              d < TeachingDays && v < |Windows| && k < |dir| && RetryFrom(d, v, k, day, w, j)
              && RetryFits(m, classes, st, idx, allowed, dir[k].0, dir[k].1, d, v)
    ensures r.None? <==> forall d: nat, v: nat, k: nat :: d < TeachingDays && v < |Windows| && k < |dir| && RetryFrom(d, v, k, day, w, j) ==>
              !RetryFits(m, classes, st, idx, allowed, dir[k].0, dir[k].1, d, v)
    decreases TeachingDays - day, |Windows| - w, |dir| - j
  {
    if day >= TeachingDays then None
    else if w >= |Windows| then RetrySearch(m, dir, classes, st, idx, allowed, day + 1, 0, 0)
    else if j >= |dir| then RetrySearch(m, dir, classes, st, idx, allowed, day, w + 1, 0)
    else if RetryFits(m, classes, st, idx, allowed, dir[j].0, dir[j].1, day, w) then Some((day, w, j))
    else RetrySearch(m, dir, classes, st, idx, allowed, day, w, j + 1)
  }

  /** One iteration of the final retry. A class already in `filled` is skipped; the
      others may use the lab the first pass added to their rooms. */
  function RetryLab(m: Matrix, rooms: seq<Room>, classes: seq<Class>, labMap: Dict<string>, s2l: Dict<string>,
                    st: LabState, idx: nat): (r: LabState)
    requires idx < |classes| && WeekMatrix(m) && UniqueKeys(st.filled)
    ensures UniqueKeys(r.filled)
  {
    var c := classes[idx];
    if HasKey(st.filled, idx) then st
    else
      var allowed := match ExpectedRoom(rooms, labMap, s2l, c)
        case None => c.classrooms
        case Some(room) => WithRoom(c.classrooms, room);
      var dir := LabDirectory(rooms);
      match RetrySearch(m, dir, classes, st, idx, allowed, 0, 0, 0)
      case Some((d, v, k)) => Book(st, c, idx, d, Windows[v][0], dir[k].1, dir[k].0, 3)
      case None => st.(retryUnplaced := st.retryUnplaced + [idx])
  }

  function Retry(m: Matrix, rooms: seq<Room>, classes: seq<Class>, labMap: Dict<string>, s2l: Dict<string>,
                 order: seq<nat>, st: LabState): (r: LabState)
    requires Indices(classes, order) && WeekMatrix(m) && UniqueKeys(st.filled)
    ensures UniqueKeys(r.filled)
    decreases |order|
  {
    if |order| == 0 then st
    else Retry(m, rooms, classes, labMap, s2l, order[1..], RetryLab(m, rooms, classes, labMap, s2l, st, order[0]))
  }

  // ---------------------------------------------------------------------------
  // Invariants of the bookings
  // ---------------------------------------------------------------------------

  /** Booking `b` holds its lab and its batch at slot `s`. */
  predicate Covers(classes: seq<Class>, b: LabBooking, s: nat) {
    b.cls < |classes| && b.slot <= s < b.slot + classes[b.cls].duration
  }

  /** Two bookings on one day that need the same lab (by name) or the same batch. */
  predicate Competes(classes: seq<Class>, a: LabBooking, b: LabBooking) {
    && a.cls < |classes| && b.cls < |classes| && a.day == b.day
    && (a.roomName == b.roomName || FirstGroup(classes[a.cls]) == FirstGroup(classes[b.cls]))
  }

  /** No lab and no batch is booked twice at any slot. */
  ghost predicate NoClash(classes: seq<Class>, bs: seq<LabBooking>) {
    forall i, j, s: nat :: 0 <= i < j < |bs| && Competes(classes, bs[i], bs[j]) && Covers(classes, bs[i], s) ==>
      !Covers(classes, bs[j], s)
  }

  /** A booking starts a lab window on a teaching day, lasts at most the window, and
      names the lab room it uses. */
  predicate WellShaped(rooms: seq<Room>, classes: seq<Class>, b: LabBooking) {
    && b.cls < |classes| && b.day < TeachingDays && (b.slot == 0 || b.slot == 5)
    && classes[b.cls].duration <= 2 && IsLab(rooms, b.room) && rooms[b.room].name == b.roomName
  }

  predicate Shaped(rooms: seq<Room>, classes: seq<Class>, bs: seq<LabBooking>) {
    forall i :: 0 <= i < |bs| ==> WellShaped(rooms, classes, bs[i])
  }

  /** Every slot a booking covers is marked in the lab and batch occupancy. */
  ghost predicate Recorded(classes: seq<Class>, st: LabState) {
    forall i, s: nat :: 0 <= i < |st.bookings| && Covers(classes, st.bookings[i], s) ==>
      && (st.bookings[i].roomName, st.bookings[i].day, s) in st.labOcc
      && (FirstGroup(classes[st.bookings[i].cls]), st.bookings[i].day, s) in st.batchOcc
  }

  /** The fields a booking occupies: its slots in the lab room's column. */
  function BookedFields(classes: seq<Class>, b: LabBooking): seq<Field> {
    if b.cls < |classes| then Block(RowOf(b.day, b.slot), classes[b.cls].duration, b.room) else []
  }

  /** Every field of every booking is in `filled` under the booking's class. */
  ghost predicate InFilled(classes: seq<Class>, filled: Filled, bs: seq<LabBooking>) {
    forall i, x :: 0 <= i < |bs| && x in BookedFields(classes, bs[i]) ==> x in FieldsOf(filled, bs[i].cls)
  }

  ghost predicate Inv(rooms: seq<Room>, classes: seq<Class>, rows: nat, st: LabState) {
    && UniqueKeys(st.filled) && FilledWithin(st.filled, rows, |rooms|)
    && Shaped(rooms, classes, st.bookings) && Recorded(classes, st) && NoClash(classes, st.bookings)
    && InFilled(classes, st.filled, st.bookings)
  }

  /** A well-shaped booking stays inside one window: it never covers a break and ends
      by the end of the day. */
  lemma ShapedAvoidsBreaks(rooms: seq<Room>, classes: seq<Class>, b: LabBooking, s: nat)
    requires WellShaped(rooms, classes, b) && Covers(classes, b, s)
    ensures s !in BreakSlots && s < SlotsPerDay
    ensures exists w :: 0 <= w < |Windows| && s in Windows[w]
  {
    if b.slot == 0 {
      assert s in Windows[0];
    } else {
      assert s in Windows[1];
    }
  }

  /** Two bookings that start at window starts and cover a common slot start together. */
  lemma SameStart(rooms: seq<Room>, classes: seq<Class>, a: LabBooking, b: LabBooking, s: nat)
    requires WellShaped(rooms, classes, a) && WellShaped(rooms, classes, b)
    requires Covers(classes, a, s) && Covers(classes, b, s)
    ensures a.slot == b.slot && Covers(classes, a, a.slot)
  {
  }

  /** Booking a class at a window start whose lab and batch are free at that start keeps
      the invariant: no earlier booking can cover a later slot of the window without
      covering its start. */
  lemma BookKeeps(rooms: seq<Room>, classes: seq<Class>, rows: nat, st: LabState, idx: nat,
                  day: nat, slot: nat, room: nat, name: string, pass: nat)
    requires Inv(rooms, classes, rows, st) && rows >= TeachingDays * SlotsPerDay
    requires idx < |classes| && day < TeachingDays && (slot == 0 || slot == 5) && classes[idx].duration <= 2
    requires IsLab(rooms, room) && rooms[room].name == name
    requires classes[idx].duration > 0 ==> (name, day, slot) !in st.labOcc && (FirstGroup(classes[idx]), day, slot) !in st.batchOcc
    ensures Inv(rooms, classes, rows, Book(st, classes[idx], idx, day, slot, room, name, pass))
  {
    var c := classes[idx];
    var r := Book(st, c, idx, day, slot, room, name, pass);
    var nb := LabBooking(idx, day, slot, room, name, pass);
    BookWithin(st, c, idx, day, slot, room, name, pass, rows, |rooms|);
    assert r.bookings == st.bookings + [nb];
    SnocShaped(rooms, classes, st.bookings, nb);
    SnocRecorded(classes, st, r, nb);
    SnocNoClash(rooms, classes, st, nb);
    BookInFilled(classes, st, idx, day, slot, room, name, pass);
  }

  /** Booking keeps every earlier booking's fields in `filled` and files the new
      booking's fields under its class. */
  lemma BookInFilled(classes: seq<Class>, st: LabState, idx: nat, day: nat, slot: nat, room: nat, name: string, pass: nat)
    requires UniqueKeys(st.filled) && idx < |classes| && InFilled(classes, st.filled, st.bookings)
    ensures var r := Book(st, classes[idx], idx, day, slot, room, name, pass);
            InFilled(classes, r.filled, r.bookings)
  {
    var c := classes[idx];
    var r := Book(st, c, idx, day, slot, room, name, pass);
    var nb := LabBooking(idx, day, slot, room, name, pass);
    forall i, x | 0 <= i < |st.bookings| && x in BookedFields(classes, st.bookings[i])
      ensures x in FieldsOf(r.filled, st.bookings[i].cls)
    {
      var k := st.bookings[i].cls;
      if k != idx {
        assert Get(r.filled, k) == Get(st.filled, k);
      } else {
        assert c.duration > 0;
      }
    }
    InFilledSnoc(classes, r.filled, st.bookings, nb);
  }

  /** A booking whose fields are filed under its class extends a booking list whose
      fields are all filed. */
  lemma InFilledSnoc(classes: seq<Class>, filled: Filled, bs: seq<LabBooking>, nb: LabBooking)
    requires InFilled(classes, filled, bs)
    requires forall x :: x in BookedFields(classes, nb) ==> x in FieldsOf(filled, nb.cls)
    ensures InFilled(classes, filled, bs + [nb])
  {
    var all := bs + [nb];
    assert forall i :: 0 <= i < |bs| ==> all[i] == bs[i];
  }

  lemma BookWithin(st: LabState, c: Class, idx: nat, day: nat, slot: nat, room: nat, name: string, pass: nat, rows: nat, cols: nat)
    requires UniqueKeys(st.filled) && FilledWithin(st.filled, rows, cols)
    requires day < TeachingDays && slot + c.duration <= SlotsPerDay && room < cols && rows >= TeachingDays * SlotsPerDay
    ensures FilledWithin(Book(st, c, idx, day, slot, room, name, pass).filled, rows, cols)
  {
    var fields := Block(RowOf(day, slot), c.duration, room);
    if c.duration > 0 {
      forall x | x in fields ensures x.0 < rows && x.1 < cols {
        var i :| 0 <= i < |fields| && fields[i] == x;
      }
      ExtendWithin(st.filled, idx, fields, rows, cols);
    }
  }

  lemma SnocShaped(rooms: seq<Room>, classes: seq<Class>, bs: seq<LabBooking>, nb: LabBooking)
    requires Shaped(rooms, classes, bs) && WellShaped(rooms, classes, nb)
    ensures Shaped(rooms, classes, bs + [nb])
  {
    var r := bs + [nb];
    forall i | 0 <= i < |r| ensures WellShaped(rooms, classes, r[i]) {
      if i < |bs| {
        assert r[i] == bs[i];
      }
    }
  }

  lemma SnocRecorded(classes: seq<Class>, st: LabState, r: LabState, nb: LabBooking)
    requires Recorded(classes, st) && r.bookings == st.bookings + [nb]
    requires st.labOcc <= r.labOcc && st.batchOcc <= r.batchOcc
    requires nb.cls < |classes|
    requires forall s: nat :: Covers(classes, nb, s) ==> (nb.roomName, nb.day, s) in r.labOcc
    requires forall s: nat :: Covers(classes, nb, s) ==> (FirstGroup(classes[nb.cls]), nb.day, s) in r.batchOcc
    ensures Recorded(classes, r)
  {
    forall i, s: nat | 0 <= i < |r.bookings| && Covers(classes, r.bookings[i], s)
      ensures (r.bookings[i].roomName, r.bookings[i].day, s) in r.labOcc
      ensures (FirstGroup(classes[r.bookings[i].cls]), r.bookings[i].day, s) in r.batchOcc
    {
      if i < |st.bookings| {
        assert r.bookings[i] == st.bookings[i];
      }
    }
  }

  lemma SnocNoClash(rooms: seq<Room>, classes: seq<Class>, st: LabState, nb: LabBooking)
    requires Shaped(rooms, classes, st.bookings) && Recorded(classes, st) && NoClash(classes, st.bookings)
    requires WellShaped(rooms, classes, nb)
    requires classes[nb.cls].duration > 0 ==>
               (nb.roomName, nb.day, nb.slot) !in st.labOcc && (FirstGroup(classes[nb.cls]), nb.day, nb.slot) !in st.batchOcc
    ensures NoClash(classes, st.bookings + [nb])
  {
    var r := st.bookings + [nb];
    forall i, j, s: nat | 0 <= i < j < |r| && Competes(classes, r[i], r[j]) && Covers(classes, r[i], s)
      ensures !Covers(classes, r[j], s)
    {
      assert r[i] == st.bookings[i];
      if j < |st.bookings| {
        assert r[j] == st.bookings[j];
      } else if Covers(classes, nb, s) {
        assert r[j] == nb;
        SameStart(rooms, classes, st.bookings[i], nb, s);
      }
    }
  }

  /** A window found by the first two passes can be booked, keeping the invariant. */
  lemma WindowKeeps(m: Matrix, rooms: seq<Room>, classes: seq<Class>, st: LabState, idx: nat,
                    name: string, room: nat, day: nat, w: nat, pass: nat)
    requires idx < |classes| && WeekMatrix(m) && Inv(rooms, classes, |m|, st)
    requires day < TeachingDays && w < |Windows| && WindowFits(m, classes, st, idx, name, day, w)
    requires IsLab(rooms, room) && rooms[room].name == name
    ensures Inv(rooms, classes, |m|, Book(st, classes[idx], idx, day, Windows[w][0], room, name, pass))
  {
    BookKeeps(rooms, classes, |m|, st, idx, day, Windows[w][0], room, name, pass);
  }

  /** A window found by the retry can be booked, keeping the invariant. */
  lemma RetryWindowKeeps(m: Matrix, rooms: seq<Room>, classes: seq<Class>, st: LabState, idx: nat,
                         allowed: seq<nat>, name: string, room: nat, day: nat, w: nat)
    requires idx < |classes| && WeekMatrix(m) && Inv(rooms, classes, |m|, st)
    requires day < TeachingDays && w < |Windows| && RetryFits(m, classes, st, idx, allowed, name, room, day, w)
    requires IsLab(rooms, room) && rooms[room].name == name
    ensures Inv(rooms, classes, |m|, Book(st, classes[idx], idx, day, Windows[w][0], room, name, 3))
  {
    BookKeeps(rooms, classes, |m|, st, idx, day, Windows[w][0], room, name, 3);
  }

  lemma ScheduleLabKeeps(m: Matrix, rooms: seq<Room>, classes: seq<Class>, labMap: Dict<string>, s2l: Dict<string>,
                         st: LabState, idx: nat)
    requires idx < |classes| && WeekMatrix(m) && Inv(rooms, classes, |m|, st)
    ensures Inv(rooms, classes, |m|, ScheduleLab(m, rooms, classes, labMap, s2l, st, idx))
  {
    var c := classes[idx];
    match ExpectedRoom(rooms, labMap, s2l, c)
    case None =>
    case Some(room) =>
      var name := rooms[room].name;
      match FindWindow(m, classes, st, idx, name, 0, 0)
      case Some((d, v)) => WindowKeeps(m, rooms, classes, st, idx, name, room, d, v, 1);
      case None =>
        if name != "" {
          match SecondPass(m, rooms, classes, st, idx, WithRoom(c.classrooms, room), name, 0)
          case Some((room2, d, v)) => WindowKeeps(m, rooms, classes, st, idx, rooms[room2].name, room2, d, v, 2);
          case None =>
        }
  }

  lemma {:induction false} PassesKeep(m: Matrix, rooms: seq<Room>, classes: seq<Class>, labMap: Dict<string>, s2l: Dict<string>,
                                      order: seq<nat>, st: LabState)
    requires Indices(classes, order) && WeekMatrix(m) && Inv(rooms, classes, |m|, st)
    ensures Inv(rooms, classes, |m|, Passes(m, rooms, classes, labMap, s2l, order, st))
    decreases |order|
  {
    if |order| > 0 {
      ScheduleLabKeeps(m, rooms, classes, labMap, s2l, st, order[0]);
      PassesKeep(m, rooms, classes, labMap, s2l, order[1..], ScheduleLab(m, rooms, classes, labMap, s2l, st, order[0]));
    }
  }

  lemma RetryLabKeeps(m: Matrix, rooms: seq<Room>, classes: seq<Class>, labMap: Dict<string>, s2l: Dict<string>,
                      st: LabState, idx: nat)
    requires idx < |classes| && WeekMatrix(m) && Inv(rooms, classes, |m|, st)
    ensures Inv(rooms, classes, |m|, RetryLab(m, rooms, classes, labMap, s2l, st, idx))
  {
    var c := classes[idx];
    if !HasKey(st.filled, idx) {
      var allowed := match ExpectedRoom(rooms, labMap, s2l, c)
        case None => c.classrooms
        case Some(room) => WithRoom(c.classrooms, room);
      var dir := LabDirectory(rooms);
      match RetrySearch(m, dir, classes, st, idx, allowed, 0, 0, 0)
      case Some((d, v, k)) =>
        assert dir[k] in dir;
        RetryWindowKeeps(m, rooms, classes, st, idx, allowed, dir[k].0, dir[k].1, d, v);
      case None =>
    }
  }

  lemma {:induction false} RetryKeeps(m: Matrix, rooms: seq<Room>, classes: seq<Class>, labMap: Dict<string>, s2l: Dict<string>,
                                      order: seq<nat>, st: LabState)
    requires Indices(classes, order) && WeekMatrix(m) && Inv(rooms, classes, |m|, st)
    ensures Inv(rooms, classes, |m|, Retry(m, rooms, classes, labMap, s2l, order, st))
    decreases |order|
  {
    if |order| > 0 {
      RetryLabKeeps(m, rooms, classes, labMap, s2l, st, order[0]);
      RetryKeeps(m, rooms, classes, labMap, s2l, order[1..], RetryLab(m, rooms, classes, labMap, s2l, st, order[0]));
    }
  }

  // ---------------------------------------------------------------------------
  // The day caps of the first two passes
  // ---------------------------------------------------------------------------

  /** At most two labs per batch and day, and at most one of each subject. */
  ghost predicate CapsHold(classes: seq<Class>, bs: seq<LabBooking>) {
    && (forall batch: nat, day: nat :: LabsOn(classes, bs, batch, day) <= 2)
    && (forall subject: string, batch: nat, day: nat :: SubjectLabsOn(classes, bs, subject, batch, day) <= 1)
  }

  lemma CountsSnoc(classes: seq<Class>, bs: seq<LabBooking>, b: LabBooking, subject: string, batch: nat, day: nat)
    ensures LabsOn(classes, bs + [b], batch, day) == LabsOn(classes, bs, batch, day) + (if BookedFor(classes, b, batch, day) then 1 else 0)
    ensures SubjectLabsOn(classes, bs + [b], subject, batch, day) == SubjectLabsOn(classes, bs, subject, batch, day)
              + (if BookedFor(classes, b, batch, day) && classes[b.cls].subject == subject then 1 else 0)
  {
    assert (bs + [b])[..|bs|] == bs;
  }

  /** A booking made while its day is open keeps the caps. */
  lemma CapsSnoc(classes: seq<Class>, bs: seq<LabBooking>, b: LabBooking)
    requires CapsHold(classes, bs) && b.cls < |classes| && DayOpen(classes, bs, classes[b.cls], b.day)
    ensures CapsHold(classes, bs + [b])
  {
    forall batch: nat, day: nat ensures LabsOn(classes, bs + [b], batch, day) <= 2 {
      CountsSnoc(classes, bs, b, "", batch, day);
    }
    forall subject: string, batch: nat, day: nat ensures SubjectLabsOn(classes, bs + [b], subject, batch, day) <= 1 {
      CountsSnoc(classes, bs, b, subject, batch, day);
    }
  }

  lemma ScheduleLabCaps(m: Matrix, rooms: seq<Room>, classes: seq<Class>, labMap: Dict<string>, s2l: Dict<string>,
                        st: LabState, idx: nat)
    requires idx < |classes| && WeekMatrix(m) && UniqueKeys(st.filled) && CapsHold(classes, st.bookings)
    ensures CapsHold(classes, ScheduleLab(m, rooms, classes, labMap, s2l, st, idx).bookings)
  {
    var c := classes[idx];
    match ExpectedRoom(rooms, labMap, s2l, c)
    case None =>
    case Some(room) =>
      var name := rooms[room].name;
      match FindWindow(m, classes, st, idx, name, 0, 0)
      case Some((d, v)) =>
        BookCaps(classes, st, idx, d, Windows[v][0], room, name, 1);
      case None =>
        if name != "" {
          match SecondPass(m, rooms, classes, st, idx, WithRoom(c.classrooms, room), name, 0)
          case Some((room2, d, v)) =>
            BookCaps(classes, st, idx, d, Windows[v][0], room2, rooms[room2].name, 2);
          case None =>
        }
  }

  /** Booking a class on a day still open to it keeps the caps. */
  lemma BookCaps(classes: seq<Class>, st: LabState, idx: nat, day: nat, slot: nat, room: nat, name: string, pass: nat)
    requires idx < |classes| && UniqueKeys(st.filled) && CapsHold(classes, st.bookings)
    requires DayOpen(classes, st.bookings, classes[idx], day)
    ensures CapsHold(classes, Book(st, classes[idx], idx, day, slot, room, name, pass).bookings)
  {
    CapsSnoc(classes, st.bookings, LabBooking(idx, day, slot, room, name, pass));
  }

  /** The first two passes never put a third lab on a batch's day, nor a second lab of
      one subject. */
  lemma {:induction false} PassesCaps(m: Matrix, rooms: seq<Room>, classes: seq<Class>, labMap: Dict<string>, s2l: Dict<string>,
                                      order: seq<nat>, st: LabState)
    requires Indices(classes, order) && WeekMatrix(m) && UniqueKeys(st.filled) && CapsHold(classes, st.bookings)
    ensures CapsHold(classes, Passes(m, rooms, classes, labMap, s2l, order, st).bookings)
    decreases |order|
  {
    if |order| > 0 {
      ScheduleLabCaps(m, rooms, classes, labMap, s2l, st, order[0]);
      PassesCaps(m, rooms, classes, labMap, s2l, order[1..], ScheduleLab(m, rooms, classes, labMap, s2l, st, order[0]));
    }
  }

  // ---------------------------------------------------------------------------
  // Accounting
  // ---------------------------------------------------------------------------

  function BookedClasses(bs: seq<LabBooking>): (r: seq<nat>)
    ensures |r| == |bs| && forall i :: 0 <= i < |bs| ==> r[i] == bs[i].cls
  {
    seq(|bs|, i requires 0 <= i < |bs| => bs[i].cls)
  }

  /** Every class the first two passes handled: booked, unplaced, or without a lab. */
  ghost function Outcomes(st: LabState): multiset<nat> {
    multiset(BookedClasses(st.bookings)) + multiset(st.unplaced) + multiset(st.noRoom)
  }

  /** Going from `st` to `r` the first two passes booked, left unplaced or skipped
      exactly the classes `xs`, appending their bookings. */
  ghost predicate AccountsFor(st: LabState, r: LabState, xs: multiset<nat>) {
    && Outcomes(r) == Outcomes(st) + xs
    && Appends(st, r, 1, 2)
    && r.retryUnplaced == st.retryUnplaced
  }

  /** `r` extends `st`'s bookings with bookings of passes `lo` to `hi`. */
  ghost predicate Appends(st: LabState, r: LabState, lo: nat, hi: nat) {
    && |st.bookings| <= |r.bookings| && r.bookings[..|st.bookings|] == st.bookings
    && forall i :: |st.bookings| <= i < |r.bookings| ==> lo <= r.bookings[i].pass <= hi
  }

  lemma AppendsTrans(a: LabState, b: LabState, c: LabState, lo: nat, hi: nat)
    requires Appends(a, b, lo, hi) && Appends(b, c, lo, hi)
    ensures Appends(a, c, lo, hi)
  {
    assert c.bookings[..|a.bookings|] == c.bookings[..|b.bookings|][..|a.bookings|];
  }

  /** Accounting for one class and then for the rest accounts for all of them. */
  lemma AccountChain(a: LabState, b: LabState, c: LabState, order: seq<nat>)
    requires |order| > 0 && AccountsFor(a, b, multiset{order[0]}) && AccountsFor(b, c, multiset(order[1..]))
    ensures AccountsFor(a, c, multiset(order))
  {
    assert order == [order[0]] + order[1..];
    AppendsTrans(a, b, c, 1, 2);
  }

  lemma BookedSnoc(bs: seq<LabBooking>, b: LabBooking)
    ensures multiset(BookedClasses(bs + [b])) == multiset(BookedClasses(bs)) + multiset{b.cls}
  {
    assert BookedClasses(bs + [b]) == BookedClasses(bs) + [b.cls];
  }

  /** One class of the first two passes ends in exactly one of three places: booked by
      pass 1 or 2, unplaced, or skipped because there is no lab at all. */
  lemma ScheduleLabAccounts(m: Matrix, rooms: seq<Room>, classes: seq<Class>, labMap: Dict<string>, s2l: Dict<string>,
                            st: LabState, idx: nat)
    requires idx < |classes| && WeekMatrix(m) && UniqueKeys(st.filled)
    ensures AccountsFor(st, ScheduleLab(m, rooms, classes, labMap, s2l, st, idx), multiset{idx})
  {
    hide ScheduleLab;
    var r := ScheduleLab(m, rooms, classes, labMap, s2l, st, idx);
    var booked, d, slot, room, name, pass := ScheduleLabCases(m, rooms, classes, labMap, s2l, st, idx);
    if booked {
      BookAccountsFor(st, classes[idx], idx, d, slot, room, name, pass);
    } else {
      SkipAccounts(st, r, idx);
    }
  }

  /** The three ways one class of the first two passes can end, with the booking's
      day, start slot, room, lab name and pass when it is booked. */
  lemma ScheduleLabCases(m: Matrix, rooms: seq<Room>, classes: seq<Class>, labMap: Dict<string>, s2l: Dict<string>,
                         st: LabState, idx: nat)
      returns (booked: bool, d: nat, slot: nat, room: nat, name: string, pass: nat)
    requires idx < |classes| && WeekMatrix(m) && UniqueKeys(st.filled)
    ensures var r := ScheduleLab(m, rooms, classes, labMap, s2l, st, idx);
            if booked then 1 <= pass <= 2 && r == Book(st, classes[idx], idx, d, slot, room, name, pass)
            else r == st.(unplaced := st.unplaced + [idx]) || r == st.(noRoom := st.noRoom + [idx])
  {
    var c := classes[idx];
    booked, d, slot, room, name, pass := false, 0, 0, 0, "", 0;
    match ExpectedRoom(rooms, labMap, s2l, c)
    case None =>
    case Some(expected) =>
      var ename := rooms[expected].name;
      match FindWindow(m, classes, st, idx, ename, 0, 0)
      case Some((d1, v)) =>
        booked, d, slot, room, name, pass := true, d1, Windows[v][0], expected, ename, 1;
      case None =>
        if ename != "" {
          match SecondPass(m, rooms, classes, st, idx, WithRoom(c.classrooms, expected), ename, 0)
          case Some((room2, d2, v)) =>
            booked, d, slot, room, name, pass := true, d2, Windows[v][0], room2, rooms[room2].name, 2;
          case None =>
        }
  }

  lemma BookAccountsFor(st: LabState, c: Class, idx: nat, day: nat, slot: nat, room: nat, name: string, pass: nat)
    requires UniqueKeys(st.filled) && 1 <= pass <= 2
    ensures AccountsFor(st, Book(st, c, idx, day, slot, room, name, pass), multiset{idx})
  {
    BookAccounts(st, c, idx, day, slot, room, name, pass);
  }

  lemma SkipAccounts(st: LabState, r: LabState, idx: nat)
    requires r == st.(unplaced := st.unplaced + [idx]) || r == st.(noRoom := st.noRoom + [idx])
    ensures AccountsFor(st, r, multiset{idx})
  {
    assert st.bookings[..|st.bookings|] == st.bookings;
  }

  /** A lab class is skipped for want of a room exactly when there is no lab at all. */
  lemma ScheduleLabNoRoom(m: Matrix, rooms: seq<Room>, classes: seq<Class>, labMap: Dict<string>, s2l: Dict<string>,
                          st: LabState, idx: nat)
    requires idx < |classes| && WeekMatrix(m) && UniqueKeys(st.filled)
    ensures var r := ScheduleLab(m, rooms, classes, labMap, s2l, st, idx);
      r.noRoom == st.noRoom + [idx] <==> forall i :: 0 <= i < |rooms| ==> !IsLab(rooms, i)
  {
  }

  lemma BookAccounts(st: LabState, c: Class, idx: nat, day: nat, slot: nat, room: nat, name: string, pass: nat)
    requires UniqueKeys(st.filled)
    ensures var r := Book(st, c, idx, day, slot, room, name, pass);
      Outcomes(r) == Outcomes(st) + multiset{idx} && Appends(st, r, pass, pass)
  {
    var nb := LabBooking(idx, day, slot, room, name, pass);
    BookedSnoc(st.bookings, nb);
    assert (st.bookings + [nb])[..|st.bookings|] == st.bookings;
  }

  /** Each class of the lab order is accounted for exactly once after the first two passes. */
  lemma {:induction false} PassesAccount(m: Matrix, rooms: seq<Room>, classes: seq<Class>, labMap: Dict<string>, s2l: Dict<string>,
                                         order: seq<nat>, st: LabState)
    requires Indices(classes, order) && WeekMatrix(m) && UniqueKeys(st.filled)
    ensures AccountsFor(st, Passes(m, rooms, classes, labMap, s2l, order, st), multiset(order))
    decreases |order|
  {
    if |order| > 0 {
      var st' := ScheduleLab(m, rooms, classes, labMap, s2l, st, order[0]);
      ScheduleLabAccounts(m, rooms, classes, labMap, s2l, st, order[0]);
      PassesAccount(m, rooms, classes, labMap, s2l, order[1..], st');
      AccountChain(st, st', Passes(m, rooms, classes, labMap, s2l, order[1..], st'), order);
    }
  }

  /** One class of the retry: already in `filled`, now booked by pass 3, or recorded as
      unplaced again; classes of duration zero are the exception, as their booking adds
      no field. */
  lemma RetryLabAccounts(m: Matrix, rooms: seq<Room>, classes: seq<Class>, labMap: Dict<string>, s2l: Dict<string>,
                         st: LabState, idx: nat)
    requires idx < |classes| && WeekMatrix(m) && UniqueKeys(st.filled)
    ensures var r := RetryLab(m, rooms, classes, labMap, s2l, st, idx);
      && (HasKey(r.filled, idx) || idx in r.retryUnplaced || classes[idx].duration == 0)
      && (HasKey(st.filled, idx) ==> r == st)
      && (forall k :: HasKey(st.filled, k) ==> HasKey(r.filled, k))
      && (forall x :: x in st.retryUnplaced ==> x in r.retryUnplaced)
      && Appends(st, r, 3, 3)
  {
    var c := classes[idx];
    if !HasKey(st.filled, idx) {
      var allowed := match ExpectedRoom(rooms, labMap, s2l, c)
        case None => c.classrooms
        case Some(room) => WithRoom(c.classrooms, room);
      var dir := LabDirectory(rooms);
      match RetrySearch(m, dir, classes, st, idx, allowed, 0, 0, 0)
      case Some((d, v, k)) =>
        var nb := LabBooking(idx, d, Windows[v][0], dir[k].1, dir[k].0, 3);
        assert (st.bookings + [nb])[..|st.bookings|] == st.bookings;
      case None =>
    }
  }

  /** After the retry every class of the lab order with a positive duration is in
      `filled` or listed as unplaced by the retry. */
  lemma {:induction false} RetryAccounts(m: Matrix, rooms: seq<Room>, classes: seq<Class>, labMap: Dict<string>, s2l: Dict<string>,
                                         order: seq<nat>, st: LabState)
    requires Indices(classes, order) && WeekMatrix(m) && UniqueKeys(st.filled)
    ensures var r := Retry(m, rooms, classes, labMap, s2l, order, st);
      && (forall x :: x in order ==> HasKey(r.filled, x) || x in r.retryUnplaced || classes[x].duration == 0)
      && (forall k :: HasKey(st.filled, k) ==> HasKey(r.filled, k))
      && (forall x :: x in st.retryUnplaced ==> x in r.retryUnplaced)
      && Appends(st, r, 3, 3)
    decreases |order|
  {
    if |order| > 0 {
      var st' := RetryLab(m, rooms, classes, labMap, s2l, st, order[0]);
      RetryLabAccounts(m, rooms, classes, labMap, s2l, st, order[0]);
      RetryAccounts(m, rooms, classes, labMap, s2l, order[1..], st');
      AppendsTrans(st, st', Retry(m, rooms, classes, labMap, s2l, order, st), 3, 3);
      assert forall x :: x in order ==> x == order[0] || x in order[1..];
    }
  }

  // ---------------------------------------------------------------------------
  // The phase
  // ---------------------------------------------------------------------------

  datatype LabResult = LabResult(matrix: Matrix, state: LabState)

  /** The state before the first lab: nothing occupied, nothing booked. */
  function Start(free: seq<Field>, filled: Filled): LabState {
    LabState(free, filled, {}, {}, [], [], [], [])
  }

  /** `schedule_labs_first`. It returns at once when both the lab map and the subject
      to lab name map are empty; otherwise it runs the two passes over the sorted lab
      classes, writes `filled` into the matrix, runs the retry and writes `filled`
      again. The bound check of the first write always passes, as every field lies
      inside the matrix. */
  function ScheduleLabsFirst(m: Matrix, rooms: seq<Room>, classes: seq<Class>, subjects: seq<ConfigAdapter.SubjectConfig>,
                             labNames: seq<string>, free: seq<Field>, filled: Filled): (r: LabResult)
    requires WeekMatrix(m) && Columns(m, |rooms|)
    requires UniqueKeys(filled) && FilledWithin(filled, |m|, |rooms|)
    ensures SameShape(r.matrix, m) && UniqueKeys(r.state.filled)
  {
    var labMap := BuildLabMap(subjects, labNames, Some(rooms));
    var s2l := SubjectToLabName(subjects);
    var st0 := Start(free, filled);
    if |labMap| == 0 && |s2l| == 0 then LabResult(m, st0)
    else
      var order := LabOrder(classes);
      var st1 := Passes(m, rooms, classes, labMap, s2l, order, st0);
      PassesKeep(m, rooms, classes, labMap, s2l, order, st0);
      WithinIsInMatrix(m, st1.filled, |rooms|);
      var m1 := FillMatrix(m, st1.filled);
      var st2 := Retry(m1, rooms, classes, labMap, s2l, order, st1);
      RetryKeeps(m1, rooms, classes, labMap, s2l, order, st1);
      WithinIsInMatrix(m1, st2.filled, |rooms|);
      LabResult(FillMatrix(m1, st2.filled), st2)
  }

  /** What the lab phase guarantees. With no lab-bearing subject nothing changes.
      Otherwise every booking starts a lab window on a teaching day in a lab room; no
      lab and no batch is booked twice at any slot, the retry's bookings included;
      the bookings of the first two passes come first and respect the day caps; and
      every lab class of positive duration ends in `filled` or among the classes the
      retry could not place. */
  lemma LabPhaseOutcome(m: Matrix, rooms: seq<Room>, classes: seq<Class>, subjects: seq<ConfigAdapter.SubjectConfig>,
                        labNames: seq<string>, free: seq<Field>, filled: Filled)
    requires WeekMatrix(m) && Columns(m, |rooms|)
    requires UniqueKeys(filled) && FilledWithin(filled, |m|, |rooms|)
    ensures var r := ScheduleLabsFirst(m, rooms, classes, subjects, labNames, free, filled);
      && (LabCount(subjects) == 0 ==> r == LabResult(m, Start(free, filled)))
      && Shaped(rooms, classes, r.state.bookings) && NoClash(classes, r.state.bookings)
      && (exists n: nat :: FirstPasses(r.state.bookings, n) && CapsHold(classes, r.state.bookings[..n]))
      && (LabCount(subjects) > 0 ==> forall x: nat :: x < |classes| && classes[x].kind == LabKind && classes[x].duration > 0 ==>
            HasKey(r.state.filled, x) || x in r.state.retryUnplaced)
  {
    var labMap := BuildLabMap(subjects, labNames, Some(rooms));
    var s2l := SubjectToLabName(subjects);
    var st0 := Start(free, filled);
    MapsEmptyTogether(subjects, labNames, Some(rooms));
    if |labMap| == 0 && |s2l| == 0 {
      assert FirstPasses([], 0);
    } else {
      var order := LabOrder(classes);
      var st1 := Passes(m, rooms, classes, labMap, s2l, order, st0);
      PassesKeep(m, rooms, classes, labMap, s2l, order, st0);
      PassesCaps(m, rooms, classes, labMap, s2l, order, st0);
      PassesAccount(m, rooms, classes, labMap, s2l, order, st0);
      WithinIsInMatrix(m, st1.filled, |rooms|);
      var m1 := FillMatrix(m, st1.filled);
      var st2 := Retry(m1, rooms, classes, labMap, s2l, order, st1);
      RetryKeeps(m1, rooms, classes, labMap, s2l, order, st1);
      RetryAccounts(m1, rooms, classes, labMap, s2l, order, st1);
      PassesThenRetry(st0, st1, st2);
    }
  }

  /** Bookings of passes 1 and 2 appended to none, then bookings of pass 3: the first
      stretch is exactly the first two passes' bookings. */
  lemma PassesThenRetry(st0: LabState, st1: LabState, st2: LabState)
    requires |st0.bookings| == 0 && Appends(st0, st1, 1, 2) && Appends(st1, st2, 3, 3)
    ensures st2.bookings[..|st1.bookings|] == st1.bookings
    ensures FirstPasses(st2.bookings, |st1.bookings|)
  {
    var n := |st1.bookings|;
    forall i | 0 <= i < |st2.bookings|
      ensures st2.bookings[i].pass <= 2 <==> i < n
    {
      if i < n {
        assert st2.bookings[i] == st1.bookings[i];
      }
    }
  }

  /** The first `n` bookings are those of the first two passes, the rest the retry's. */
  predicate FirstPasses(bs: seq<LabBooking>, n: nat) {
    n <= |bs| && forall i :: 0 <= i < |bs| ==> (bs[i].pass <= 2 <==> i < n)
  }
}
