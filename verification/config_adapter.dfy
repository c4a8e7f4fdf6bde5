/** Expansion of a year's configuration into rooms, groups, teachers and one class
    per weekly session (config_adapter.py). */
module ConfigAdapter {
  import opened Model
  import opened Text

  /** One entry of a year's `subjects` list. Missing or empty numeric fields read as 0;
      `name` and `lab_name` are read by plain indexing and must be present (an empty
      `lab_name` is the empty string). */
  datatype SubjectConfig = SubjectConfig(name: string, hours: int, labs: int, labName: string, labHours: int)

  /** A class as first created, before its requested room type is turned into room indices. */
  datatype ClassSpec = ClassSpec(group: nat, teacher: string, subject: string, kind: char,
                                 duration: nat, roomType: char)

  /** The `[-1, -1, -1]` start-time triple the code stores per (subject, group). */
  datatype StartTimes = StartTimes(lecture: int, v: int, other: int)

  const Unscheduled: StartTimes := StartTimes(-1, -1, -1)

  function Max0(x: int): nat {
    if x > 0 then x else 0
  }

  function LectureSessions(s: SubjectConfig): nat {
    Max0(s.hours)
  }

  function LabSessions(s: SubjectConfig): nat {
    Max0(s.labs)
  }

  /** `max(1, lab_hours or 1)`: a lab lasts at least one slot. */
  function LabDuration(s: SubjectConfig): (d: nat)
    ensures d >= 1
    ensures s.labHours >= 1 ==> d == s.labHours
    ensures s.labHours < 1 ==> d == 1
  {
    if s.labHours > 1 then s.labHours else 1
  }

  /** `lab_name or name`. */
  function LabSubject(s: SubjectConfig): string {
    if s.labName != "" then s.labName else s.name
  }

  function LectureTeacher(s: SubjectConfig): string {
    "Teacher-" + s.name
  }

  function LabTeacher(s: SubjectConfig): string {
    "Lab-" + LabSubject(s)
  }

  // ---------------------------------------------------------------------------
  // Rooms
  // ---------------------------------------------------------------------------

  function ClassroomName(i: nat): string {
    "CR-" + NatToString(i + 1)
  }

  /** The i-th lab is called `lab_names[i]` when that entry exists and is non-empty. */
  function LabRoomName(labNames: seq<string>, i: nat): string {
    if i < |labNames| && labNames[i] != "" then labNames[i] else "Lab-" + NatToString(i + 1)
  }

  lemma SameSuffix(p: string, x: string, y: string)
    requires p + x == p + y
    ensures x == y
  {
    assert x == (p + x)[|p|..];
    assert y == (p + y)[|p|..];
  }

  /** Generated classroom names never collide. */
  lemma ClassroomNamesDistinct(i: nat, j: nat)
    requires i != j
    ensures ClassroomName(i) != ClassroomName(j)
  {
    if ClassroomName(i) == ClassroomName(j) {
      SameSuffix("CR-", NatToString(i + 1), NatToString(j + 1));
      NatToStringInjective(i + 1, j + 1);
    }
  }

  /** `_build_classrooms`: classrooms `CR-1..` first, then the labs, under contiguous keys. */
  method BuildClassrooms(numClassrooms: int, numLabs: int, labNames: seq<string>) returns (rooms: seq<Room>)
    ensures |rooms| == Max0(numClassrooms) + Max0(numLabs)
    ensures forall i :: 0 <= i < Max0(numClassrooms) ==> rooms[i] == Room(ClassroomName(i), ClassroomTag)
    ensures forall i :: 0 <= i < Max0(numLabs) ==>
              rooms[Max0(numClassrooms) + i] == Room(LabRoomName(labNames, i), LabTag)
  {
    rooms := [];
    var i := 0;
    while i < numClassrooms
      invariant 0 <= i <= Max0(numClassrooms)
      invariant |rooms| == i
      invariant forall k :: 0 <= k < i ==> rooms[k] == Room(ClassroomName(k), ClassroomTag)
    {
      rooms := rooms + [Room(ClassroomName(i), ClassroomTag)];
      i := i + 1;
    }
    var j := 0;
    while j < numLabs
      invariant 0 <= j <= Max0(numLabs)
      invariant |rooms| == Max0(numClassrooms) + j
      invariant forall k :: 0 <= k < Max0(numClassrooms) ==> rooms[k] == Room(ClassroomName(k), ClassroomTag)
      invariant forall k :: 0 <= k < j ==> rooms[Max0(numClassrooms) + k] == Room(LabRoomName(labNames, k), LabTag)
    {
      rooms := rooms + [Room(LabRoomName(labNames, j), LabTag)];
      j := j + 1;
    }
  }

  /** The ascending list of indices of rooms whose type is `t` (the final conversion loop). */
  function RoomsOfType(rooms: seq<Room>, t: char): (r: seq<nat>)
    ensures forall x: nat :: x in r <==> x < |rooms| && rooms[x].kind == t
    ensures forall i, j :: 0 <= i < j < |r| ==> r[i] < r[j]
  {
    IndicesWhere(rooms, (room: Room) => room.kind == t)
  }

  // ---------------------------------------------------------------------------
  // Groups and teachers
  // ---------------------------------------------------------------------------

  function GroupName(yearKey: string, b: nat): string {
    yearKey + "-B" + NatToString(b + 1)
  }

  /** Group names of a year. Since they are pairwise distinct (GroupNamesDistinct),
      `groups[gname] = len(groups)` gives batch `b` the id `b`. */
  function GroupNames(yearKey: string, batchCount: int): (r: seq<string>)
    ensures |r| == Max0(batchCount)
    ensures forall b :: 0 <= b < |r| ==> r[b] == GroupName(yearKey, b)
  {
    seq(Max0(batchCount), b requires 0 <= b => GroupName(yearKey, b))
  }

  lemma GroupNamesDistinct(yearKey: string, a: nat, b: nat)
    requires a != b
    ensures GroupName(yearKey, a) != GroupName(yearKey, b)
  {
    if GroupName(yearKey, a) == GroupName(yearKey, b) {
      SameSuffix(yearKey + "-B", NatToString(a + 1), NatToString(b + 1));
      NatToStringInjective(a + 1, b + 1);
    }
  }

  predicate NoDuplicates<T(==)>(s: seq<T>) {
    forall i, j :: 0 <= i < j < |s| ==> s[i] != s[j]
  }

  /** `ensure_teacher`: a name is appended (taking id `len(teachers)`) only if absent. */
  function EnsureTeacher(ts: seq<string>, name: string): (r: seq<string>)
    ensures ts <= r
    ensures forall x :: x in r <==> x in ts || x == name
    ensures NoDuplicates(ts) ==> NoDuplicates(r)
  {
    if name in ts then ts else ts + [name]
  }

  /** The teacher a subject asks for: its lecture teacher when it has lectures,
      its lab teacher when it has labs. */
  predicate NeedsTeacher(s: SubjectConfig, x: string) {
    (LectureSessions(s) > 0 && x == LectureTeacher(s)) || (LabSessions(s) > 0 && x == LabTeacher(s))
  }

  function TeachersOf(s: SubjectConfig, ts: seq<string>): (r: seq<string>)
    ensures forall x :: x in r <==> x in ts || NeedsTeacher(s, x)
    ensures NoDuplicates(ts) ==> NoDuplicates(r)
  {
    var afterLecture := if LectureSessions(s) > 0 then EnsureTeacher(ts, LectureTeacher(s)) else ts;
    if LabSessions(s) > 0 then EnsureTeacher(afterLecture, LabTeacher(s)) else afterLecture
  }

  /** The teachers dictionary after all subjects: every needed teacher exactly once. */
  function Teachers(subjects: seq<SubjectConfig>): (r: seq<string>)
    ensures NoDuplicates(r)
    ensures forall x :: x in r <==> exists s :: s in subjects && NeedsTeacher(s, x)
    decreases |subjects|
  {
    if |subjects| == 0 then []
    else
      var init := subjects[..|subjects| - 1];
      var last := subjects[|subjects| - 1];
      var prev := Teachers(init);
      var r := TeachersOf(last, prev);
      assert forall s :: s in subjects <==> s in init || s == last by {
        assert subjects == init + [last];
      }
      r
  }

  // ---------------------------------------------------------------------------
  // Classes
  // ---------------------------------------------------------------------------

  function LectureSpec(s: SubjectConfig, g: nat): ClassSpec {
    ClassSpec(g, LectureTeacher(s), s.name, LectureKind, 1, ClassroomTag)
  }

  function LabSpec(s: SubjectConfig, g: nat): ClassSpec {
    ClassSpec(g, LabTeacher(s), LabSubject(s), LabKind, LabDuration(s), LabTag)
  }

  function SpecFor(s: SubjectConfig, g: nat, lab: bool): ClassSpec {
    if lab then LabSpec(s, g) else LectureSpec(s, g)
  }

  lemma MulLeMono(a: nat, b: nat, k: nat)
    requires a <= b
    ensures a * k <= b * k
  {
    var d := b - a;
    assert b * k == a * k + d * k;
  }

  lemma MulNat(a: nat, b: nat)
    ensures a * b >= 0
  {
  }

  lemma Distrib(n: nat, a: nat, b: nat)
    ensures n * a + n * b == n * (a + b)
  {
  }

  /** `a * k < (b + 1) * k` with `k > 0` means `a <= b`. */
  lemma MulLtCancel(a: nat, b: nat, k: nat)
    requires 0 < k
    requires a * k < b * k + k
    ensures a <= b
  {
    if a > b {
      MulLeMono(b + 1, a, k);
    }
  }

  lemma DivInBlock(i: nat, k: nat, n: nat)
    requires 0 < k
    requires n * k <= i < n * k + k
    ensures i / k == n
  {
    var q := i / k;
    assert q * k + i % k == i;
    MulLtCancel(q, n, k);
    MulLtCancel(n, q, k);
  }

  /** An index below `n * k` lies in one of the first `n` blocks of size `k`. */
  lemma DivBelow(i: nat, k: nat, n: nat)
    requires i < n * k
    ensures 0 < k && i / k < n
  {
    assert k == 0 ==> n * k == 0;
    var q := i / k;
    assert q * k + i % k == i;
    if q >= n {
      MulLeMono(n, q, k);
    }
  }

  /** From position `from` on, `n` runs of `k` entries: entry `from + j` is batch `j / k`'s
      spec. */
  predicate GroupedFrom(r: seq<ClassSpec>, from: nat, s: SubjectConfig, n: nat, k: nat, lab: bool) {
    forall i :: from <= i < from + n * k && i < |r| ==> k > 0 && r[i] == SpecFor(s, (i - from) / k, lab)
  }

  /** `for gidx in groups: for _ in range(k): ...` over groups `0..n-1`:
      entry `i` belongs to group `i / k`. */
  function PerGroup(s: SubjectConfig, n: nat, k: nat, lab: bool): (r: seq<ClassSpec>)
    ensures |r| == n * k
    ensures GroupedFrom(r, 0, s, n, k, lab)
    decreases n
  {
    if n == 0 then []
    else
      var prev := PerGroup(s, n - 1, k, lab);
      var block := seq(k, _ => SpecFor(s, n - 1, lab));
      GroupStep(prev, block, s, n, k, lab);
      prev + block
  }

  /** The block of group `n - 1` after the layout of groups `0..n-2` lays out groups `0..n-1`. */
  lemma GroupStep(prev: seq<ClassSpec>, block: seq<ClassSpec>, s: SubjectConfig, n: nat, k: nat, lab: bool)
    requires n > 0 && |prev| == (n - 1) * k && GroupedFrom(prev, 0, s, n - 1, k, lab)
    requires |block| == k && forall j :: 0 <= j < k ==> block[j] == SpecFor(s, n - 1, lab)
    ensures |prev + block| == n * k && GroupedFrom(prev + block, 0, s, n, k, lab)
  {
    var r := prev + block;
    assert |r| == n * k by {
      assert (n - 1) * k + k == n * k by { assert (n - 1) * k + 1 * k == ((n - 1) + 1) * k; }
    }
    forall i | 0 <= i < n * k
      ensures k > 0 && r[i] == SpecFor(s, i / k, lab)
    {
      PositiveFactor(n, k);
      if i >= (n - 1) * k {
        DivInBlock(i, k, n - 1);
        assert r[i] == block[i - (n - 1) * k];
      } else {
        assert r[i] == prev[i];
      }
    }
  }

  /** A layout of `x` survives appending to `x`. */
  lemma GroupedPrefix(x: seq<ClassSpec>, y: seq<ClassSpec>, s: SubjectConfig, n: nat, k: nat, lab: bool)
    requires |x| == n * k && GroupedFrom(x, 0, s, n, k, lab)
    ensures GroupedFrom(x + y, 0, s, n, k, lab)
  {
    forall i | 0 <= i < n * k && i < |x + y| ensures k > 0 && (x + y)[i] == SpecFor(s, i / k, lab) {
      assert (x + y)[i] == x[i];
    }
  }

  /** A layout of `y` reappears after `x` in `x + y`. */
  lemma GroupedSuffix(x: seq<ClassSpec>, y: seq<ClassSpec>, s: SubjectConfig, n: nat, k: nat, lab: bool)
    requires GroupedFrom(y, 0, s, n, k, lab)
    ensures GroupedFrom(x + y, |x|, s, n, k, lab)
  {
    forall i | |x| <= i < |x| + n * k && i < |x + y| ensures k > 0 && (x + y)[i] == SpecFor(s, (i - |x|) / k, lab) {
      assert (x + y)[i] == y[i - |x|];
    }
  }

  lemma PositiveFactor(n: nat, k: nat)
    ensures n * k > 0 ==> k > 0
  {
    if k == 0 { assert n * k == 0; }
  }

  /** The classes one subject contributes: every lecture first (duration 1, type `'P'`,
      classroom type `'n'`), then every lab (type `'L'`, duration `max(1, lab_hours)`,
      lab type `'r'`), each batch's sessions together. */
  function SubjectBlock(s: SubjectConfig, n: nat): (r: seq<ClassSpec>)
    ensures |r| == n * (LectureSessions(s) + LabSessions(s))
    ensures GroupedFrom(r, 0, s, n, LectureSessions(s), false)
    ensures GroupedFrom(r, n * LectureSessions(s), s, n, LabSessions(s), true)
  {
    var lectures := PerGroup(s, n, LectureSessions(s), false);
    var labs := PerGroup(s, n, LabSessions(s), true);
    Distrib(n, LectureSessions(s), LabSessions(s));
    GroupedPrefix(lectures, labs, s, n, LectureSessions(s), false);
    GroupedSuffix(lectures, labs, s, n, LabSessions(s), true);
    lectures + labs
  }

  /** Weekly sessions of the listed subjects, per batch. */
  function TotalSessions(subjects: seq<SubjectConfig>): nat
    decreases |subjects|
  {
    if |subjects| == 0 then 0
    else TotalSessions(subjects[..|subjects| - 1]) + LectureSessions(subjects[|subjects| - 1]) + LabSessions(subjects[|subjects| - 1])
  }

  /** All classes of the year in key order. */
  function Expand(subjects: seq<SubjectConfig>, n: nat): (r: seq<ClassSpec>)
    ensures |r| == n * TotalSessions(subjects)
    decreases |subjects|
  {
    if |subjects| == 0 then []
    else
      var init := subjects[..|subjects| - 1];
      var last := subjects[|subjects| - 1];
      Distrib(n, TotalSessions(init), LectureSessions(last) + LabSessions(last));
      Expand(init, n) + SubjectBlock(last, n)
  }

  /** Key of the first class of subject `k`. */
  function Offset(subjects: seq<SubjectConfig>, k: nat, n: nat): nat
    requires k <= |subjects|
  {
    n * TotalSessions(subjects[..k])
  }

  /** Class keys are contiguous and follow subject order: subject `k`'s classes occupy keys
      `Offset(k) .. Offset(k+1)-1` and are exactly its block (lectures, then labs). */
  lemma {:induction false} ExpandLayout(subjects: seq<SubjectConfig>, n: nat, k: nat)
    requires k < |subjects|
    ensures Offset(subjects, k + 1, n) <= |Expand(subjects, n)|
    ensures Offset(subjects, k + 1, n) == Offset(subjects, k, n) + n * (LectureSessions(subjects[k]) + LabSessions(subjects[k]))
    ensures Offset(subjects, k, n) <= Offset(subjects, k + 1, n)
    ensures Expand(subjects, n)[Offset(subjects, k, n)..Offset(subjects, k + 1, n)] == SubjectBlock(subjects[k], n)
    decreases |subjects|
  {
    var init := subjects[..|subjects| - 1];
    var last := subjects[|subjects| - 1];
    var pre, pre1 := subjects[..k], subjects[..k + 1];
    assert pre1[..k] == pre;
    var size := LectureSessions(subjects[k]) + LabSessions(subjects[k]);
    assert TotalSessions(pre1) == TotalSessions(pre) + size;
    Distrib(n, TotalSessions(pre), size);
    MulNat(n, size);
    var lo, hi := Offset(subjects, k, n), Offset(subjects, k + 1, n);
    var e := Expand(init, n);
    var b := SubjectBlock(last, n);
    assert Expand(subjects, n) == e + b;
    if k == |subjects| - 1 {
      assert pre == init && pre1 == subjects;
      assert lo == |e| && hi == |e| + |b|;
      SliceOfRight(e, b);
    } else {
      ExpandLayout(init, n, k);
      assert init[..k] == pre && init[..k + 1] == pre1 && init[k] == subjects[k];
      assert Offset(init, k, n) == lo && Offset(init, k + 1, n) == hi;
      SliceOfLeft(e, b, lo, hi);
    }
  }

  lemma SliceOfLeft<T>(e: seq<T>, b: seq<T>, lo: nat, hi: nat)
    requires lo <= hi <= |e|
    ensures (e + b)[lo..hi] == e[lo..hi]
  {
  }

  lemma SliceOfRight<T>(e: seq<T>, b: seq<T>)
    ensures (e + b)[|e|..|e| + |b|] == b
  {
  }

  /** Every class is a lecture or a lab session of one of the subjects: a lecture has type
      `'P'`, duration 1, the classroom type and the subject's name; a lab has type `'L'`,
      duration `max(1, lab_hours)`, the lab type and `lab_name or name`. */
  lemma {:induction false} ExpandKinds(subjects: seq<SubjectConfig>, n: nat, i: nat)
    requires i < |Expand(subjects, n)|
    ensures var c := Expand(subjects, n)[i];
            (c.kind == LectureKind && c.duration == 1 && c.roomType == ClassroomTag)
            || (c.kind == LabKind && c.duration >= 1 && c.roomType == LabTag)
    ensures Expand(subjects, n)[i].group < n
    ensures var c := Expand(subjects, n)[i];
            exists k :: 0 <= k < |subjects| && (c == LectureSpec(subjects[k], c.group) || c == LabSpec(subjects[k], c.group))
    decreases |subjects|
  {
    var init := subjects[..|subjects| - 1];
    var last := subjects[|subjects| - 1];
    var e := Expand(init, n);
    if i < |e| {
      ExpandKinds(init, n, i);
      var c := e[i];
      var k :| 0 <= k < |init| && (c == LectureSpec(init[k], c.group) || c == LabSpec(init[k], c.group));
      assert init[k] == subjects[k];
    } else {
      var j := i - |e|;
      var b := SubjectBlock(last, n);
      assert Expand(subjects, n)[i] == b[j];
      var lec := LectureSessions(last);
      var lab := LabSessions(last);
      Distrib(n, lec, lab);
      if j < n * lec {
        assert lec > 0 && b[j] == SpecFor(last, j / lec, false);
        DivBelow(j, lec, n);
      } else {
        assert lab > 0 && b[j] == SpecFor(last, (j - n * lec) / lab, true);
        DivBelow(j - n * lec, lab, n);
      }
      assert subjects[|subjects| - 1] == last;
    }
  }

  /** The conversion step: the requested type becomes the list of matching room indices. */
  function ToClass(c: ClassSpec, rooms: seq<Room>): Class {
    Class([c.group], c.teacher, c.subject, c.kind, c.duration, RoomsOfType(rooms, c.roomType))
  }

  /** `subjects_order[(subject, gidx)] = [-1, -1, -1]` for each class created, in order. */
  function InitOrder(order: map<(string, nat), StartTimes>, specs: seq<ClassSpec>): (r: map<(string, nat), StartTimes>)
    ensures forall c :: c in specs ==> (c.subject, c.group) in r && r[(c.subject, c.group)] == Unscheduled
    ensures forall key :: key in r <==> key in order || exists c :: c in specs && key == (c.subject, c.group)
    ensures forall key :: key in order && (forall c :: c in specs ==> key != (c.subject, c.group)) ==> r[key] == order[key]
    decreases |specs|
  {
    if |specs| == 0 then order
    else
      var c := specs[0];
      var r := InitOrder(order[(c.subject, c.group) := Unscheduled], specs[1..]);
      assert forall x :: x in specs <==> x == c || x in specs[1..] by {
        assert specs == [c] + specs[1..];
      }
      r
  }

  /** `build_data_from_config` for one year. Groups, rooms, teachers and classes come out
      as described by the functions above; `order` is the caller's `subjects_order`. */
  method BuildData(subjects: seq<SubjectConfig>, yearKey: string, batchCount: int,
                   numClassrooms: int, numLabs: int, labNames: seq<string>,
                   order: map<(string, nat), StartTimes>)
    returns (data: Data, order': map<(string, nat), StartTimes>)
    ensures |data.rooms| == Max0(numClassrooms) + Max0(numLabs)
    ensures forall i :: 0 <= i < Max0(numClassrooms) ==> data.rooms[i] == Room(ClassroomName(i), ClassroomTag)
    ensures forall i :: 0 <= i < Max0(numLabs) ==>
              data.rooms[Max0(numClassrooms) + i] == Room(LabRoomName(labNames, i), LabTag)
    ensures data.groups == GroupNames(yearKey, batchCount)
    ensures data.teachers == Teachers(subjects)
    ensures |data.classes| == Max0(batchCount) * TotalSessions(subjects)
    ensures forall i :: 0 <= i < |data.classes| ==>
              data.classes[i] == ToClass(Expand(subjects, Max0(batchCount))[i], data.rooms)
    ensures order' == InitOrder(order, Expand(subjects, Max0(batchCount)))
  {
    var rooms := BuildClassrooms(numClassrooms, numLabs, labNames);
    var specs := Expand(subjects, Max0(batchCount));
    var classes := seq(|specs|, i requires 0 <= i < |specs| => ToClass(specs[i], rooms));
    data := Data(GroupNames(yearKey, batchCount), Teachers(subjects), classes, rooms);
    order' := InitOrder(order, specs);
  }

  /** After conversion every class's room list is exactly the ascending list of room
      indices whose type is the one it asked for: `'n'` for lectures, `'r'` for labs. */
  lemma ConvertedRooms(subjects: seq<SubjectConfig>, n: nat, rooms: seq<Room>, i: nat)
    requires i < |Expand(subjects, n)|
    ensures var c := ToClass(Expand(subjects, n)[i], rooms);
            && (forall x: nat :: x in c.classrooms <==> x < |rooms| && rooms[x].kind == (if c.kind == LectureKind then ClassroomTag else LabTag))
            && (forall a, b :: 0 <= a < b < |c.classrooms| ==> c.classrooms[a] < c.classrooms[b])
  {
    ExpandKinds(subjects, n, i);
  }
}
