/** The small matrix helpers of the genetic scheduler (scheduler.py): recording a
    class's start time, swapping two equally long classes, the teacher/group row
    check, and moving a class to the first free spot where it clashes with nothing. */
module MatrixOps {
  import opened Model
  import opened Timetable
  import opened ConfigAdapter

  type OrderKey = (string, nat)

  // ---------------------------------------------------------------------------
  // insert_order
  // ---------------------------------------------------------------------------

  /** The start-time triple with the entry for class type `kind` replaced:
      `'P'` is entry 0, `'V'` entry 1, anything else entry 2. */
  function SetStart(t: StartTimes, kind: char, start: int): StartTimes {
    if kind == LectureKind then t.(lecture := start)
    else if kind == 'V' then t.(v := start)
    else t.(other := start)
  }

  /** `insert_order`: the (subject, group) entry must exist (a missing one is a
      `KeyError`); exactly one of its three start times changes. */
  function InsertOrder(order: map<OrderKey, StartTimes>, subject: string, group: nat, kind: char, start: int)
    : (r: Option<map<OrderKey, StartTimes>>)
    ensures r.None? <==> (subject, group) !in order
    ensures r.Some? ==> r.value.Keys == order.Keys
    ensures r.Some? ==> forall k :: k in order && k != (subject, group) ==> r.value[k] == order[k]
    ensures r.Some? ==>
              var before := order[(subject, group)];
              var after := r.value[(subject, group)];
              && (after.lecture == if kind == LectureKind then start else before.lecture)
              && (after.v == if kind == 'V' then start else before.v)
              && (after.other == if kind != LectureKind && kind != 'V' then start else before.other)
  {
    if (subject, group) !in order then None
    else Some(order[(subject, group) := SetStart(order[(subject, group)], kind, start)])
  }

  /** Recording a start time twice for the same class type keeps only the second. */
  lemma InsertOrderLastWins(order: map<OrderKey, StartTimes>, subject: string, group: nat, kind: char, t1: int, t2: int)
    requires (subject, group) in order
    ensures InsertOrder(order, subject, group, kind, t1).Some?
    ensures InsertOrder(InsertOrder(order, subject, group, kind, t1).value, subject, group, kind, t2)
            == InsertOrder(order, subject, group, kind, t2)
  {
    var o1 := InsertOrder(order, subject, group, kind, t1).value;
    var a := InsertOrder(o1, subject, group, kind, t2).value;
    var b := InsertOrder(order, subject, group, kind, t2).value;
    assert a[(subject, group)] == b[(subject, group)];
    assert a == b;
  }

  /** Start times of different class types are independent of each other. */
  lemma InsertOrderCommutes(order: map<OrderKey, StartTimes>, subject: string, group: nat, k1: char, k2: char, t1: int, t2: int)
    requires (subject, group) in order
    requires k1 != k2 && (k1 == LectureKind || k1 == 'V' || k2 == LectureKind || k2 == 'V')
    ensures var a := InsertOrder(InsertOrder(order, subject, group, k1, t1).value, subject, group, k2, t2);
            var b := InsertOrder(InsertOrder(order, subject, group, k2, t2).value, subject, group, k1, t1);
            a == b
  {
    var a := InsertOrder(InsertOrder(order, subject, group, k1, t1).value, subject, group, k2, t2).value;
    var b := InsertOrder(InsertOrder(order, subject, group, k2, t2).value, subject, group, k1, t1).value;
    assert a[(subject, group)] == b[(subject, group)];
    assert a == b;
  }

  // ---------------------------------------------------------------------------
  // exchange_two
  // ---------------------------------------------------------------------------

  /** The content of cell `p`. */
  function At(m: Matrix, p: Field): Cell
    requires InMatrix(m, p)
  {
    m[p.0][p.1]
  }

  /** The contents of cells `a` and `b` trade places (through a temporary, as in the source). */
  function SwapCells(m: Matrix, a: Field, b: Field): (r: Matrix)
    requires InMatrix(m, a) && InMatrix(m, b)
    ensures SameShape(r, m)
    ensures At(r, b) == At(m, a)
    ensures a != b ==> At(r, a) == At(m, b)
    ensures forall p: Field {:trigger At(r, p)} :: InMatrix(m, p) && p != a && p != b ==> At(r, p) == At(m, p)
  {
    var t := m[a.0][a.1];
    var m1 := m[a.0 := m[a.0][a.1 := m[b.0][b.1]]];
    m1[b.0 := m1[b.0][b.1 := t]]
  }

  predicate PairsInMatrix(m: Matrix, fs1: seq<Field>, fs2: seq<Field>, n: nat)
    requires n <= |fs1| && n <= |fs2|
  {
    forall i :: 0 <= i < n ==> InMatrix(m, fs1[i]) && InMatrix(m, fs2[i])
  }

  /** `for i in range(n): swap fields1[i] and fields2[i]`, in that order. */
  function SwapAll(m: Matrix, fs1: seq<Field>, fs2: seq<Field>, n: nat): (r: Matrix)
    requires n <= |fs1| && n <= |fs2| && PairsInMatrix(m, fs1, fs2, n)
    ensures SameShape(r, m)
    decreases n
  {
    if n == 0 then m
    else
      var m1 := SwapAll(m, fs1, fs2, n - 1);
      assert InMatrix(m, fs1[n - 1]) && InMatrix(m, fs2[n - 1]);
      SwapCells(m1, fs1[n - 1], fs2[n - 1])
  }

  /** No field appears twice among the first `n` of either list. */
  predicate DistinctPairs(fs1: seq<Field>, fs2: seq<Field>, n: nat)
    requires n <= |fs1| && n <= |fs2|
  {
    && (forall i, j :: 0 <= i < n && 0 <= j < n ==> fs1[i] != fs2[j])
    && (forall i, j :: 0 <= i < j < n ==> fs1[i] != fs1[j] && fs2[i] != fs2[j])
  }

  /** Field `p` is none of the first `n` fields of either list. */
  predicate Untouched(p: Field, fs1: seq<Field>, fs2: seq<Field>, n: nat)
    requires n <= |fs1| && n <= |fs2|
  {
    forall i :: 0 <= i < n ==> p != fs1[i] && p != fs2[i]
  }

  /** With all fields distinct, each `fields1[i]` ends up holding what `fields2[i]` held
      and the other way round. */
  lemma {:induction false} SwapAllCells(m: Matrix, fs1: seq<Field>, fs2: seq<Field>, n: nat)
    requires n <= |fs1| && n <= |fs2| && PairsInMatrix(m, fs1, fs2, n) && DistinctPairs(fs1, fs2, n)
    ensures forall i {:trigger At(SwapAll(m, fs1, fs2, n), fs1[i])} :: 0 <= i < n ==>
              At(SwapAll(m, fs1, fs2, n), fs1[i]) == At(m, fs2[i])
    ensures forall i {:trigger At(SwapAll(m, fs1, fs2, n), fs2[i])} :: 0 <= i < n ==>
              At(SwapAll(m, fs1, fs2, n), fs2[i]) == At(m, fs1[i])
    decreases n
  {
    if n > 0 {
      SwapAllCells(m, fs1, fs2, n - 1);
      SwapAllOthers(m, fs1, fs2, n - 1);
      var a := fs1[n - 1];
      var b := fs2[n - 1];
      var m1 := SwapAll(m, fs1, fs2, n - 1);
      var r := SwapAll(m, fs1, fs2, n);
      assert r == SwapCells(m1, a, b);
      assert Untouched(a, fs1, fs2, n - 1) && Untouched(b, fs1, fs2, n - 1);
      assert At(m1, a) == At(m, a) && At(m1, b) == At(m, b);
      forall i | 0 <= i < n
        ensures At(r, fs1[i]) == At(m, fs2[i]) && At(r, fs2[i]) == At(m, fs1[i])
      {
        if i < n - 1 {
          assert fs1[i] != a && fs1[i] != b && fs2[i] != a && fs2[i] != b;
          assert InMatrix(m1, fs1[i]) && InMatrix(m1, fs2[i]);
          assert At(r, fs1[i]) == At(m1, fs1[i]) && At(r, fs2[i]) == At(m1, fs2[i]);
          assert At(m1, fs1[i]) == At(m, fs2[i]) && At(m1, fs2[i]) == At(m, fs1[i]);
        } else {
          assert a != b;
        }
      }
    }
  }

  /** Every cell outside both lists keeps its content. */
  lemma {:induction false} SwapAllOthers(m: Matrix, fs1: seq<Field>, fs2: seq<Field>, n: nat)
    requires n <= |fs1| && n <= |fs2| && PairsInMatrix(m, fs1, fs2, n)
    ensures forall p: Field {:trigger At(SwapAll(m, fs1, fs2, n), p)} :: InMatrix(m, p) && Untouched(p, fs1, fs2, n) ==>
              At(SwapAll(m, fs1, fs2, n), p) == At(m, p)
    decreases n
  {
    if n > 0 {
      SwapAllOthers(m, fs1, fs2, n - 1);
      var m1 := SwapAll(m, fs1, fs2, n - 1);
      var r := SwapAll(m, fs1, fs2, n);
      forall p: Field | InMatrix(m, p) && Untouched(p, fs1, fs2, n)
        ensures At(r, p) == At(m, p)
      {
        assert p != fs1[n - 1] && p != fs2[n - 1];
        assert Untouched(p, fs1, fs2, n - 1);
        assert InMatrix(m1, p);
      }
    }
  }

  /** Two matrices of the same shape that agree on every cell are equal. */
  lemma MatrixExt(a: Matrix, b: Matrix)
    requires SameShape(a, b)
    requires forall p: Field :: InMatrix(a, p) ==> At(a, p) == At(b, p)
    ensures a == b
  {
    forall x | 0 <= x < |a| ensures a[x] == b[x] {
      forall y | 0 <= y < |a[x]| ensures a[x][y] == b[x][y] {
        assert At(a, (x, y)) == At(b, (x, y));
      }
    }
  }

  datatype Exchanged = Exchanged(matrix: Matrix, filled: Filled)

  /** `exchange_two(matrix, filled, ind1, ind2)`. Both keys must be in `filled` and
      different (the second lookup happens after the first key is popped), and the
      second field list must be at least as long as the first, or the source raises.
      Both entries are popped and re-inserted, so they move to the end of `filled`,
      each holding the other's former fields. */
  function ExchangeTwo(m: Matrix, f: Filled, ind1: nat, ind2: nat): (r: Option<Exchanged>)
    requires UniqueKeys(f)
    ensures r.None? <==>
              || !HasKey(f, ind1) || !HasKey(f, ind2) || ind1 == ind2
              || |FieldsOf(f, ind2)| < |FieldsOf(f, ind1)|
              || !PairsInMatrix(m, FieldsOf(f, ind1), FieldsOf(f, ind2), |FieldsOf(f, ind1)|)
    ensures r.Some? ==> UniqueKeys(r.value.filled) && SameShape(r.value.matrix, m)
    ensures r.Some? ==> Get(r.value.filled, ind1) == Get(f, ind2) && Get(r.value.filled, ind2) == Get(f, ind1)
    ensures r.Some? ==> forall k :: k != ind1 && k != ind2 ==> Get(r.value.filled, k) == Get(f, k)
  {
    if !HasKey(f, ind1) then None
    else
      var fields1 := FieldsOf(f, ind1);
      var f1 := Pop(f, ind1);
      if !HasKey(f1, ind2) then None
      else
        var fields2 := FieldsOf(f1, ind2);
        var f2 := Pop(f1, ind2);
        if |fields2| < |fields1| || !PairsInMatrix(m, fields1, fields2, |fields1|) then None
        else
          var f3 := Put(f2, ind1, fields2);
          Some(Exchanged(SwapAll(m, fields1, fields2, |fields1|), Put(f3, ind2, fields1)))
  }

  /** On two classes of one length whose fields are all distinct, the exchange swaps
      their cells in the matrix and leaves every other cell alone. */
  lemma ExchangeTwoSwaps(m: Matrix, f: Filled, ind1: nat, ind2: nat)
    requires UniqueKeys(f) && HasKey(f, ind1) && HasKey(f, ind2) && ind1 != ind2
    requires |FieldsOf(f, ind1)| == |FieldsOf(f, ind2)|
    requires PairsInMatrix(m, FieldsOf(f, ind1), FieldsOf(f, ind2), |FieldsOf(f, ind1)|)
    requires DistinctPairs(FieldsOf(f, ind1), FieldsOf(f, ind2), |FieldsOf(f, ind1)|)
    ensures ExchangeTwo(m, f, ind1, ind2).Some?
    ensures SameShape(ExchangeTwo(m, f, ind1, ind2).value.matrix, m)
    ensures SwappedLists(m, ExchangeTwo(m, f, ind1, ind2).value.matrix, FieldsOf(f, ind1), FieldsOf(f, ind2))
  {
    ExchangeUnfold(m, f, ind1, ind2);
    SwapAllSwaps(m, FieldsOf(f, ind1), FieldsOf(f, ind2));
  }

  /** `r` shows each field of `fs1` with what its partner in `fs2` held in `m` and the
      other way round, and every other cell as it was. */
  ghost predicate SwappedLists(m: Matrix, r: Matrix, fs1: seq<Field>, fs2: seq<Field>)
    requires SameShape(r, m) && |fs1| == |fs2| && PairsInMatrix(m, fs1, fs2, |fs1|)
  {
    && (forall i :: 0 <= i < |fs1| ==> At(r, fs1[i]) == At(m, fs2[i]) && At(r, fs2[i]) == At(m, fs1[i]))
    && (forall p: Field :: InMatrix(m, p) && p !in fs1 && p !in fs2 ==> At(r, p) == At(m, p))
  }

  /** The whole swap loop over two equally long lists of distinct fields exchanges them. */
  lemma SwapAllSwaps(m: Matrix, fs1: seq<Field>, fs2: seq<Field>)
    requires |fs1| == |fs2| && PairsInMatrix(m, fs1, fs2, |fs1|) && DistinctPairs(fs1, fs2, |fs1|)
    ensures SwappedLists(m, SwapAll(m, fs1, fs2, |fs1|), fs1, fs2)
  {
    SwapAllCells(m, fs1, fs2, |fs1|);
    SwapAllOthers(m, fs1, fs2, |fs1|);
    var r := SwapAll(m, fs1, fs2, |fs1|);
    forall p: Field | InMatrix(m, p) && p !in fs1 && p !in fs2
      ensures At(r, p) == At(m, p)
    {
      assert Untouched(p, fs1, fs2, |fs1|);
    }
  }

  /** Swapping two disjoint field lists and then swapping them back restores the matrix. */
  lemma SwapAllTwice(m: Matrix, fs1: seq<Field>, fs2: seq<Field>)
    requires |fs1| == |fs2| && PairsInMatrix(m, fs1, fs2, |fs1|) && DistinctPairs(fs1, fs2, |fs1|)
    ensures PairsInMatrix(SwapAll(m, fs1, fs2, |fs1|), fs2, fs1, |fs1|)
    ensures SwapAll(SwapAll(m, fs1, fs2, |fs1|), fs2, fs1, |fs1|) == m
  {
    var n := |fs1|;
    var m1 := SwapAll(m, fs1, fs2, n);
    assert PairsInMatrix(m1, fs2, fs1, n) by {
      forall i | 0 <= i < n ensures InMatrix(m1, fs2[i]) && InMatrix(m1, fs1[i]) {
        assert InMatrix(m, fs2[i]) && InMatrix(m, fs1[i]);
      }
    }
    assert DistinctPairs(fs2, fs1, n);
    var m2 := SwapAll(m1, fs2, fs1, n);
    SwapAllCells(m, fs1, fs2, n);
    SwapAllOthers(m, fs1, fs2, n);
    SwapAllCells(m1, fs2, fs1, n);
    SwapAllOthers(m1, fs2, fs1, n);
    forall p: Field | InMatrix(m2, p)
      ensures At(m2, p) == At(m, p)
    {
      if p in fs1 {
        var i :| 0 <= i < n && p == fs1[i];
        assert At(m2, fs1[i]) == At(m1, fs2[i]);
      } else if p in fs2 {
        var i :| 0 <= i < n && p == fs2[i];
        assert At(m2, fs2[i]) == At(m1, fs1[i]);
      } else {
        assert Untouched(p, fs1, fs2, n) && Untouched(p, fs2, fs1, n);
        assert At(m2, p) == At(m1, p);
      }
    }
    MatrixExt(m2, m);
  }

  /** Exchanging the same two classes twice restores the matrix and every `filled` entry
      (only the dictionary's order differs: both keys now come last). */
  lemma ExchangeTwoTwice(m: Matrix, f: Filled, ind1: nat, ind2: nat)
    requires UniqueKeys(f) && HasKey(f, ind1) && HasKey(f, ind2) && ind1 != ind2
    requires |FieldsOf(f, ind1)| == |FieldsOf(f, ind2)|
    requires PairsInMatrix(m, FieldsOf(f, ind1), FieldsOf(f, ind2), |FieldsOf(f, ind1)|)
    requires DistinctPairs(FieldsOf(f, ind1), FieldsOf(f, ind2), |FieldsOf(f, ind1)|)
    ensures ExchangeTwo(m, f, ind1, ind2).Some?
    ensures var e := ExchangeTwo(m, f, ind1, ind2).value;
            var e2 := ExchangeTwo(e.matrix, e.filled, ind1, ind2);
            && e2.Some? && e2.value.matrix == m
            && forall k :: Get(e2.value.filled, k) == Get(f, k)
  {
    var fs1 := FieldsOf(f, ind1);
    var fs2 := FieldsOf(f, ind2);
    ExchangeUnfold(m, f, ind1, ind2);
    SwapAllTwice(m, fs1, fs2);
    var e := ExchangeTwo(m, f, ind1, ind2).value;
    ExchangeUnfold(e.matrix, e.filled, ind1, ind2);
  }

  /** Under the conditions the source needs, the exchange swaps the two field lists in
      the matrix and the two entries in `filled`. */
  lemma ExchangeUnfold(m: Matrix, f: Filled, ind1: nat, ind2: nat)
    requires UniqueKeys(f) && HasKey(f, ind1) && HasKey(f, ind2) && ind1 != ind2
    requires |FieldsOf(f, ind1)| == |FieldsOf(f, ind2)|
    requires PairsInMatrix(m, FieldsOf(f, ind1), FieldsOf(f, ind2), |FieldsOf(f, ind1)|)
    ensures ExchangeTwo(m, f, ind1, ind2).Some?
    ensures var e := ExchangeTwo(m, f, ind1, ind2).value;
            && e.matrix == SwapAll(m, FieldsOf(f, ind1), FieldsOf(f, ind2), |FieldsOf(f, ind1)|)
            && HasKey(e.filled, ind1) && HasKey(e.filled, ind2)
            && FieldsOf(e.filled, ind1) == FieldsOf(f, ind2) && FieldsOf(e.filled, ind2) == FieldsOf(f, ind1)
  {
    assert FieldsOf(Pop(f, ind1), ind2) == FieldsOf(f, ind2);
  }

  // ---------------------------------------------------------------------------
  // valid_teacher_group_row
  // ---------------------------------------------------------------------------

  predicate SharesGroup(a: Class, b: Class) {
    exists g :: g in b.groups && g in a.groups
  }

  /** Cell content that rules a row out for class `c`: some class with the same teacher
      or a group in common. */
  predicate CellConflicts(classes: seq<Class>, c: Class, cell: Cell) {
    cell.Some? && cell.value < |classes|
    && (classes[cell.value].teacher == c.teacher || SharesGroup(c, classes[cell.value]))
  }

  /** Every class index in the matrix names a class (the source looks each one up). */
  predicate CellsValid(classes: seq<Class>, m: Matrix) {
    forall x, y :: 0 <= x < |m| && 0 <= y < |m[x]| && m[x][y].Some? ==> m[x][y].value < |classes|
  }

  /** Scans cells `j..` of a row, as the loop does after column `j`. */
  function RowClear(classes: seq<Class>, c: Class, row: seq<Cell>, j: nat): (r: bool)
    requires j <= |row|
    ensures r <==> forall k :: j <= k < |row| ==> !CellConflicts(classes, c, row[k])
    decreases |row| - j
  {
    if j == |row| then true
    else if CellConflicts(classes, c, row[j]) then false
    else RowClear(classes, c, row, j + 1)
  }

  /** `valid_teacher_group_row`: false exactly when some occupied cell of the row holds a
      class with the same teacher as class `idx` or a group it shares. */
  function ValidTeacherGroupRow(m: Matrix, classes: seq<Class>, idx: nat, row: nat): (r: bool)
    requires idx < |classes| && row < |m|
    ensures r <==> forall k :: 0 <= k < |m[row]| ==> !CellConflicts(classes, classes[idx], m[row][k])
  {
    RowClear(classes, classes[idx], m[row], 0)
  }

  /** On a matrix whose every index names a class (one built from `filled`), the
      out-of-range case never arises: the row is valid exactly when every occupied
      cell holds a class with another teacher and no group in common. */
  lemma ValidRowOnValidCells(m: Matrix, classes: seq<Class>, idx: nat, row: nat)
    requires idx < |classes| && row < |m| && CellsValid(classes, m)
    ensures ValidTeacherGroupRow(m, classes, idx, row) <==>
              forall k :: 0 <= k < |m[row]| && m[row][k].Some? ==>
                classes[m[row][k].value].teacher != classes[idx].teacher && !SharesGroup(classes[idx], classes[m[row][k].value])
  {
  }

  /** A class never fits a row it already occupies: it shares its own teacher. */
  lemma OwnRowInvalid(m: Matrix, classes: seq<Class>, idx: nat, row: nat, col: nat)
    requires idx < |classes| && row < |m| && col < |m[row]| && m[row][col] == Some(idx)
    ensures !ValidTeacherGroupRow(m, classes, idx, row)
  {
    assert CellConflicts(classes, classes[idx], m[row][col]);
  }

  // ---------------------------------------------------------------------------
  // mutate_ideal_spot
  // ---------------------------------------------------------------------------

  /** What the genetic operators share: the matrix, the free and filled bookkeeping,
      the rows each group and each teacher is busy in, and the start times. */
  datatype GaState = GaState(matrix: Matrix, free: seq<Field>, filled: Filled,
                             groupsEmpty: map<nat, seq<nat>>, teachersEmpty: map<string, seq<nat>>,
                             order: map<OrderKey, StartTimes>)

  predicate FreeInMatrix(m: Matrix, free: seq<Field>) {
    forall p :: p in free ==> InMatrix(m, p)
  }

  /** A start field fits class `idx`: the session does not wrap past the end of a day
      (compared modulo 12, Python's floored `%`), the column is one of the class's rooms,
      and each of its fields is free in a row holding no class of the same teacher or
      a shared group. */
  predicate SpotFits(m: Matrix, free: seq<Field>, classes: seq<Class>, idx: nat, start: Field)
    requires idx < |classes| && FreeInMatrix(m, free)
  {
    var c := classes[idx];
    var first := start.0;
    var last := first + c.duration - 1;
    && first % SlotsPerDay <= last % SlotsPerDay
    && start.1 in c.classrooms
    && forall p :: p in Block(first, c.duration, start.1) ==>
         p in free && ValidTeacherGroupRow(m, classes, idx, p.0)
  }

  /** The `while True` scan over `free` from position `ind`: the first start field that fits. */
  function FindSpot(m: Matrix, free: seq<Field>, classes: seq<Class>, idx: nat, ind: nat): (r: Option<nat>)
    requires idx < |classes| && FreeInMatrix(m, free)
    ensures r.Some? ==> ind <= r.value < |free| && SpotFits(m, free, classes, idx, free[r.value])
    ensures r.Some? ==> forall k :: ind <= k < r.value ==> !SpotFits(m, free, classes, idx, free[k])
    ensures r.None? <==> forall k :: ind <= k < |free| ==> !SpotFits(m, free, classes, idx, free[k])
    decreases |free| - ind
  {
    if ind >= |free| then None
    else if SpotFits(m, free, classes, idx, free[ind]) then Some(ind)
    else FindSpot(m, free, classes, idx, ind + 1)
  }

  /** `lst.remove(x)`, which raises when `x` is absent. */
  function RemoveValue(lst: seq<nat>, x: nat): (r: Option<seq<nat>>)
    ensures r.None? <==> x !in lst
    ensures r.Some? ==> multiset(r.value) == multiset(lst) - multiset{x}
  {
    if x in lst then Some(RemoveFirst(lst, x)) else None
  }

  /** `for g in groups: spaces[g].remove(row)`. */
  function RemoveFromEach(spaces: map<nat, seq<nat>>, groups: seq<nat>, row: nat): (r: Option<map<nat, seq<nat>>>)
    decreases |groups|
  {
    if |groups| == 0 then Some(spaces)
    else if groups[0] !in spaces then None
    else match RemoveValue(spaces[groups[0]], row)
      case None => None
      case Some(l) => RemoveFromEach(spaces[groups[0] := l], groups[1..], row)
  }

  /** Sets each listed cell to empty, in order. */
  function ClearFields(m: Matrix, fields: seq<Field>): (r: Matrix)
    requires FieldsInMatrix(m, fields)
    ensures SameShape(r, m)
    ensures forall p: Field :: InMatrix(m, p) ==> At(r, p) == (if p in fields then None else At(m, p))
    decreases |fields|
  {
    if |fields| == 0 then m
    else
      var last := fields[|fields| - 1];
      var m1 := ClearFields(m, fields[..|fields| - 1]);
      assert InMatrix(m, last);
      assert fields == fields[..|fields| - 1] + [last];
      m1[last.0 := m1[last.0][last.1 := None]]
  }

  /** `for row in rows: lst.remove(row)`, raising at the first row that is missing. */
  function RemoveRows(lst: seq<nat>, rows: seq<nat>): (r: Option<seq<nat>>)
    ensures r.Some? ==> multiset(r.value) == multiset(lst) - multiset(rows)
    decreases |rows|
  {
    if |rows| == 0 then Some(lst)
    else match RemoveValue(lst, rows[0])
      case None => None
      case Some(l1) =>
        var rest := RemoveRows(l1, rows[1..]);
        assert multiset(rows) == multiset{rows[0]} + multiset(rows[1..]) by {
          assert rows == [rows[0]] + rows[1..];
        }
        SubtractTwice(multiset(lst), multiset{rows[0]}, multiset(rows[1..]));
        rest
  }

  /** Taking `a` away and then `b` is taking away `a + b`. */
  lemma SubtractTwice(m: multiset<nat>, a: multiset<nat>, b: multiset<nat>)
    ensures (m - a) - b == m - (a + b)
  {
    forall y ensures ((m - a) - b)[y] == (m - (a + b))[y] { }
  }

  /** `for row in rows: for g in groups: spaces[g].remove(row)`. */
  function RemoveRowsFromEach(spaces: map<nat, seq<nat>>, groups: seq<nat>, rows: seq<nat>): (r: Option<map<nat, seq<nat>>>)
    decreases |rows|
  {
    if |rows| == 0 then Some(spaces)
    else match RemoveFromEach(spaces, groups, rows[0])
      case None => None
      case Some(s1) => RemoveRowsFromEach(s1, groups, rows[1..])
  }

  /** The release loop over the class's old fields: each goes back to `free`, its cell is
      emptied, and its row leaves each group's and the teacher's busy list (a missing
      entry raises). The group lists and the teacher's list are separate structures, so
      the loop succeeds exactly when each of the two sequences of removals does, and its
      result is the pair of their results. */
  function Release(ge: map<nat, seq<nat>>, te: map<string, seq<nat>>, c: Class, fields: seq<Field>)
    : (r: Option<(map<nat, seq<nat>>, map<string, seq<nat>>)>)
    ensures r.Some? && |fields| > 0 ==> c.teacher in te && c.teacher in r.value.1
    ensures r.Some? && |fields| > 0 ==>
              multiset(r.value.1[c.teacher]) == multiset(te[c.teacher]) - multiset(Rows(fields))
    ensures r.Some? ==> forall t :: t != c.teacher && t in te ==> t in r.value.1 && r.value.1[t] == te[t]
  {
    if |fields| == 0 then Some((ge, te))
    else if c.teacher !in te then None
    else match (RemoveRowsFromEach(ge, c.groups, Rows(fields)), RemoveRows(te[c.teacher], Rows(fields)))
      case (Some(ge1), Some(tl)) => Some((ge1, te[c.teacher := tl]))
      case _ => None
  }

  /** The rows of a list of fields. */
  function Rows(fields: seq<Field>): (r: seq<nat>)
    ensures |r| == |fields| && forall i :: 0 <= i < |fields| ==> r[i] == fields[i].0
  {
    seq(|fields|, i requires 0 <= i < |fields| => fields[i].0)
  }

  /** `for g in groups: insert_order(...)` and each group's busy list gains the new rows. */
  function Claim(ge: map<nat, seq<nat>>, order: map<OrderKey, StartTimes>, c: Class, start: nat)
    : (r: Option<(map<nat, seq<nat>>, map<OrderKey, StartTimes>)>)
    ensures r.Some? ==> forall g :: g in c.groups ==> (c.subject, g) in order
    ensures r.Some? ==> r.value.1.Keys == order.Keys
    ensures r.Some? ==> forall g :: g in c.groups ==> r.value.1[(c.subject, g)] == SetStart(order[(c.subject, g)], c.kind, start)
    ensures r.Some? ==> forall k :: k in order && (forall g :: g in c.groups ==> k != (c.subject, g)) ==> r.value.1[k] == order[k]
    decreases |c.groups|
  {
    if |c.groups| == 0 then Some((ge, order))
    else
      var g := c.groups[0];
      match InsertOrder(order, c.subject, g, c.kind, start)
      case None => None
      case Some(o1) =>
        if g !in ge then None
        else
          var rest := Claim(ge[g := ge[g] + Rows(Block(start, c.duration, 0))], o1, c.(groups := c.groups[1..]), start);
          assert forall x :: x in c.groups <==> x == g || x in c.groups[1..] by {
            assert c.groups == [g] + c.groups[1..];
          }
          rest
  }

  /** `mutate_ideal_spot(matrix, data, ind_class, ...)`. A class not in `filled` is left
      alone; otherwise the free list is scanned for the first start field that fits, and
      if there is one the class moves there: its old fields are released, the target block
      is claimed in the matrix, `filled`, `free`, the busy lists and the start times.
      A busy-list or start-time entry the release or claim needs but cannot find raises,
      which is `None`. */
  function MutateIdealSpot(st: GaState, classes: seq<Class>, idx: nat): (r: Option<GaState>)
    requires idx < |classes| && UniqueKeys(st.filled)
    requires FreeInMatrix(st.matrix, st.free) && FilledInMatrix(st.matrix, st.filled)
    ensures !HasKey(st.filled, idx) ==> r == Some(st)
    ensures FindSpot(st.matrix, st.free, classes, idx, 0).None? ==> r == Some(st)
    ensures r.None? ==> HasKey(st.filled, idx) && FindSpot(st.matrix, st.free, classes, idx, 0).Some?
    ensures r.Some? ==> UniqueKeys(r.value.filled) && SameShape(r.value.matrix, st.matrix)
    ensures r.Some? && HasKey(st.filled, idx) && FindSpot(st.matrix, st.free, classes, idx, 0).Some? ==>
              var c := classes[idx];
              var start := st.free[FindSpot(st.matrix, st.free, classes, idx, 0).value];
              var target := Block(start.0, c.duration, start.1);
              var previous := FieldsOf(st.filled, idx);
              && (c.duration > 0 ==> Get(r.value.filled, idx) == Some(target))
              && (c.duration == 0 ==> !HasKey(r.value.filled, idx))
              && (forall k :: k != idx ==> Get(r.value.filled, k) == Get(st.filled, k))
              && multiset(r.value.free) == multiset(st.free) + multiset(previous) - multiset(target)
              && (forall p: Field :: InMatrix(st.matrix, p) ==>
                    At(r.value.matrix, p) == (if p in target then Some(idx) else if p in previous then None else At(st.matrix, p)))
  {
    if !HasKey(st.filled, idx) then Some(st)
    else match FindSpot(st.matrix, st.free, classes, idx, 0)
      case None => Some(st)
      case Some(k) =>
        var c := classes[idx];
        var start := st.free[k];
        var target := Block(start.0, c.duration, start.1);
        var previous := FieldsOf(st.filled, idx);
        assert FieldsInMatrix(st.matrix, previous) by {
          var i := Find(st.filled, idx).value;
          assert FieldsInMatrix(st.matrix, st.filled[i].1);
        }
        match Release(st.groupsEmpty, st.teachersEmpty, c, previous)
        case None => None
        case Some((ge1, te1)) =>
          match Claim(ge1, st.order, c, start.0)
          case None => None
          case Some((ge2, order2)) =>
            if c.duration > 0 && c.teacher !in te1 then None
            else
              var te2 := if c.duration > 0 then te1[c.teacher := te1[c.teacher] + Rows(target)] else te1;
              var filled1 := Pop(st.filled, idx);
              var filled2 := if c.duration > 0 then Extend(filled1, idx, target) else filled1;
              assert c.duration > 0 ==> Get(filled2, idx) == Some(target) by {
                if c.duration > 0 { MoveEntry(st.filled, idx, target); }
              }
              assert forall p :: p in target ==> p in st.free;
              MoveCells(st.matrix, previous, target, idx);
              var m2 := WriteFields(ClearFields(st.matrix, previous), target, idx);
              Some(GaState(m2, RemoveAll(st.free + previous, target), filled2, ge2, te2, order2))
  }

  /** The class's entry, popped and appended again with the target fields. */
  lemma MoveEntry(f: Filled, idx: nat, target: seq<Field>)
    requires UniqueKeys(f)
    ensures Get(Extend(Pop(f, idx), idx, target), idx) == Some(target)
  {
    var f1 := Pop(f, idx);
    var f2 := Extend(f1, idx, target);
    assert Get(f1, idx).None?;
    assert FieldsOf(f2, idx) == [] + target == target;
    assert Get(f2, idx).Some?;
  }

  /** Clearing the old fields and writing the new ones: the new fields show the class,
      the old ones not among them are empty, every other cell is unchanged. */
  lemma MoveCells(m: Matrix, previous: seq<Field>, target: seq<Field>, idx: nat)
    requires FieldsInMatrix(m, previous) && forall p :: p in target ==> InMatrix(m, p)
    ensures FieldsInMatrix(ClearFields(m, previous), target)
    ensures SameShape(WriteFields(ClearFields(m, previous), target, idx), m)
    ensures forall p: Field :: InMatrix(m, p) ==>
              At(WriteFields(ClearFields(m, previous), target, idx), p)
              == (if p in target then Some(idx) else if p in previous then None else At(m, p))
  {
    var m1 := ClearFields(m, previous);
    forall i | 0 <= i < |target| ensures InMatrix(m1, target[i]) {
      assert target[i] in target;
    }
    var m2 := WriteFields(m1, target, idx);
    forall p: Field | InMatrix(m, p)
      ensures At(m2, p) == (if p in target then Some(idx) else if p in previous then None else At(m, p))
    {
      assert InMatrix(m1, p);
    }
  }

  /** Every field `filled` lists for a class shows that class in the matrix. */
  ghost predicate Consistent(m: Matrix, f: Filled) {
    forall k: nat, p :: HasKey(f, k) && p in FieldsOf(f, k) ==> InMatrix(m, p) && At(m, p) == Some(k)
  }

  /** No field listed in `filled` is also on the free list. */
  ghost predicate FreeApart(free: seq<Field>, f: Filled) {
    forall k: nat, p :: HasKey(f, k) && p in FieldsOf(f, k) ==> p !in free
  }

  /** Moving a class keeps the matrix and `filled` in agreement: the moved class shows
      exactly at its new fields, and no other class's fields are touched. */
  lemma MutateKeepsConsistent(st: GaState, classes: seq<Class>, idx: nat)
    requires idx < |classes| && UniqueKeys(st.filled)
    requires FreeInMatrix(st.matrix, st.free) && FilledInMatrix(st.matrix, st.filled)
    requires Consistent(st.matrix, st.filled) && FreeApart(st.free, st.filled)
    ensures var r := MutateIdealSpot(st, classes, idx);
            r.Some? ==> Consistent(r.value.matrix, r.value.filled)
  {
    var r := MutateIdealSpot(st, classes, idx);
    var spot := FindSpot(st.matrix, st.free, classes, idx, 0);
    if r.Some? && HasKey(st.filled, idx) && spot.Some? {
      var c := classes[idx];
      var start := st.free[spot.value];
      var target := Block(start.0, c.duration, start.1);
      assert SpotFits(st.matrix, st.free, classes, idx, start);
      MoveKeepsConsistent(st.matrix, st.filled, st.free, r.value.matrix, r.value.filled, idx, target);
    }
  }

  /** The step behind `MutateKeepsConsistent`, from the move's postcondition alone. */
  lemma MoveKeepsConsistent(m: Matrix, f: Filled, free: seq<Field>, m': Matrix, f': Filled, idx: nat, target: seq<Field>)
    requires Consistent(m, f) && FreeApart(free, f) && FreeInMatrix(m, free) && SameShape(m', m)
    requires forall p :: p in target ==> p in free
    requires Get(f', idx) == Some(target) || !HasKey(f', idx)
    requires forall k :: k != idx ==> Get(f', k) == Get(f, k)
    requires forall p: Field :: InMatrix(m, p) ==>
               At(m', p) == (if p in target then Some(idx) else if p in FieldsOf(f, idx) then None else At(m, p))
    ensures Consistent(m', f')
  {
    forall k: nat, p | HasKey(f', k) && p in FieldsOf(f', k)
      ensures InMatrix(m', p) && At(m', p) == Some(k)
    {
      if k == idx {
        assert Get(f', idx) == Some(target);
        assert p in free;
      } else {
        assert Get(f', k) == Get(f, k);
        OneOwner(m, f, k, idx, p);
      }
    }
  }

  /** In a consistent matrix a field is listed under one class only. */
  lemma OneOwner(m: Matrix, f: Filled, k: nat, j: nat, p: Field)
    requires Consistent(m, f) && HasKey(f, k) && p in FieldsOf(f, k)
    ensures InMatrix(m, p) && At(m, p) == Some(k)
    ensures p in FieldsOf(f, j) ==> j == k
  {
    if p in FieldsOf(f, j) {
      assert HasKey(f, j);
    }
  }
}
