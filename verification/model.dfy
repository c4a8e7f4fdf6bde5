/** The entities the scheduler works on. `model.Classroom`, `model.Class` and
    `model.Data` are not part of this model's source; they are described here by
    the fields the scheduling code reads and writes.

    The timetable is a matrix with one row per (day, slot) pair, `row = day * 12 + slot`,
    and one column per room index. A cell holds the index of the class placed there,
    or nothing. */
module Model {

  datatype Option<T> = None | Some(value: T)

  /** Slots per day in the matrix layout; a day occupies rows `day*12 .. day*12+11`. */
  const SlotsPerDay: nat := 12
  /** Teaching days the placement loops visit (Monday to Friday). */
  const TeachingDays: nat := 5

  /** Room type tags: `'n'` is a classroom, `'r'` a lab. */
  const ClassroomTag: char := 'n'
  const LabTag: char := 'r'
  /** Class type tags: `'P'` is a lecture, `'L'` a lab session. */
  const LectureKind: char := 'P'
  const LabKind: char := 'L'

  datatype Room = Room(name: string, kind: char)

  /** A weekly session. `classrooms` holds the room indices the session may use;
      `duration` is the number of consecutive slots it needs. */
  datatype Class = Class(groups: seq<nat>, teacher: string, subject: string, kind: char,
                         duration: nat, classrooms: seq<nat>)

  /** Groups and teachers are dictionaries from name to an id handed out as
      `len(dict)`; with distinct names the id is the position, so a sequence of
      names in insertion order represents them. */
  /** `groups[0] if groups else 0`: the batch a class's bookings are filed under. */
  function FirstGroup(c: Class): nat {
    if |c.groups| > 0 then c.groups[0] else 0
  }

  datatype Data = Data(groups: seq<string>, teachers: seq<string>, classes: seq<Class>, rooms: seq<Room>)

  type Cell = Option<nat>
  type Matrix = seq<seq<Cell>>

  /** A matrix position `(row, column)`; the `free` list and the `filled` map hold these. */
  type Field = (nat, nat)

  function RowOf(day: nat, slot: nat): nat {
    day * SlotsPerDay + slot
  }

  /** Day and slot of a row: the layout is a bijection between rows and (day, slot < 12). */
  lemma RowOfInverse(day: nat, slot: nat)
    requires slot < SlotsPerDay
    ensures RowOf(day, slot) / SlotsPerDay == day
    ensures RowOf(day, slot) % SlotsPerDay == slot
  {
  }

  /** Positions of the elements that pass `p`, in ascending order. */
  function IndicesWhere<T>(xs: seq<T>, p: T -> bool): (r: seq<nat>)
    ensures forall x: nat :: x in r <==> x < |xs| && p(xs[x])
    ensures forall i, j :: 0 <= i < j < |r| ==> r[i] < r[j]
    decreases |xs|
  {
    if |xs| == 0 then []
    else
      var last := |xs| - 1;
      var prev := IndicesWhere(xs[..last], p);
      forall i | 0 <= i < |prev|
        ensures prev[i] < last
      {
        assert prev[i] in prev;
        assert |xs[..last]| == last;
      }
      prev + (if p(xs[last]) then [last] else [])
  }

  predicate Rectangular(m: Matrix) {
    forall r :: 0 <= r < |m| ==> |m[r]| == |m[0]|
  }

  /** Every row has one cell per room. */
  predicate Columns(m: Matrix, cols: nat) {
    forall x :: 0 <= x < |m| ==> |m[x]| == cols
  }

  predicate InMatrix(m: Matrix, f: Field) {
    f.0 < |m| && f.1 < |m[f.0]|
  }
}
