/** The bookkeeping every placement routine shares: the `filled` dictionary from class
    index to the matrix fields the class occupies, the `free` list of unused fields,
    and the final pass that writes `filled` into the matrix.

    `filled` is a Python dict, whose iteration order is insertion order; when two
    classes claim the same field the later one in that order is the one the matrix
    shows. It is therefore an association list here, not a map. */
module Timetable {
  import opened Model

  type Entry = (nat, seq<Field>)
  type Filled = seq<Entry>

  predicate UniqueKeys(f: Filled) {
    forall i, j :: 0 <= i < j < |f| ==> f[i].0 != f[j].0
  }

  predicate HasKey(f: Filled, k: nat) {
    exists i :: 0 <= i < |f| && f[i].0 == k
  }

  /** Position of key `k`, if present. */
  function Find(f: Filled, k: nat): (r: Option<nat>)
    ensures r.Some? ==> r.value < |f| && f[r.value].0 == k && forall i :: 0 <= i < r.value ==> f[i].0 != k
    ensures r.None? <==> !HasKey(f, k)
    decreases |f|
  {
    if |f| == 0 then None
    else if f[0].0 == k then Some(0)
    else match Find(f[1..], k)
      case None => None
      case Some(i) => Some(i + 1)
  }

  /** `filled.get(k)`. */
  function Get(f: Filled, k: nat): (r: Option<seq<Field>>)
    ensures r.Some? <==> HasKey(f, k)
    ensures UniqueKeys(f) ==> forall i :: 0 <= i < |f| && f[i].0 == k ==> r == Some(f[i].1)
  {
    match Find(f, k)
    case None => None
    case Some(i) => Some(f[i].1)
  }

  /** `filled.get(k, [])`. */
  function FieldsOf(f: Filled, k: nat): seq<Field> {
    match Get(f, k)
    case None => []
    case Some(v) => v
  }

  /** `filled[k] = v`: an existing key keeps its position, a new key goes last. */
  function Put(f: Filled, k: nat, v: seq<Field>): (r: Filled)
    requires UniqueKeys(f)
    ensures UniqueKeys(r)
    ensures Get(r, k) == Some(v)
    ensures forall k' :: k' != k ==> Get(r, k') == Get(f, k')
    ensures HasKey(f, k) ==> |r| == |f| && forall i :: 0 <= i < |f| ==> r[i].0 == f[i].0
    ensures !HasKey(f, k) ==> r == f + [(k, v)]
  {
    match Find(f, k)
    case None =>
      var r := f + [(k, v)];
      assert UniqueKeys(r) && r[|f|] == (k, v);
      assert forall k' :: k' != k ==> (HasKey(r, k') <==> HasKey(f, k')) by {
        forall k' | k' != k && HasKey(r, k') ensures HasKey(f, k') {
          var i :| 0 <= i < |r| && r[i].0 == k';
        }
        forall k' | k' != k && HasKey(f, k') ensures HasKey(r, k') {
          var i :| 0 <= i < |f| && f[i].0 == k';
          assert r[i] == f[i];
        }
      }
      r
    case Some(i) =>
      var r := f[i := (k, v)];
      assert UniqueKeys(r) && r[i] == (k, v);
      assert forall k' :: HasKey(r, k') <==> HasKey(f, k') by {
        forall k' | HasKey(r, k') ensures HasKey(f, k') {
          var j :| 0 <= j < |r| && r[j].0 == k';
          assert f[j].0 == k';
        }
        forall k' | HasKey(f, k') ensures HasKey(r, k') {
          var j :| 0 <= j < |f| && f[j].0 == k';
          assert r[j].0 == k';
        }
      }
      r
  }

  /** `filled.pop(k, None)`: the entry goes, the others keep their relative order. */
  function Pop(f: Filled, k: nat): (r: Filled)
    requires UniqueKeys(f)
    ensures UniqueKeys(r)
    ensures !HasKey(r, k)
    ensures forall k' :: k' != k ==> Get(r, k') == Get(f, k')
    ensures HasKey(f, k) ==> |r| == |f| - 1
    ensures !HasKey(f, k) ==> r == f
  {
    match Find(f, k)
    case None => f
    case Some(i) =>
      DropKeeps(f, i);
      f[..i] + f[i + 1..]
  }

  /** Dropping position `i` removes its key and leaves every other key's entry as it was. */
  lemma DropKeeps(f: Filled, i: nat)
    requires UniqueKeys(f) && i < |f|
    ensures UniqueKeys(f[..i] + f[i + 1..])
    ensures !HasKey(f[..i] + f[i + 1..], f[i].0)
    ensures forall k' :: k' != f[i].0 ==> Get(f[..i] + f[i + 1..], k') == Get(f, k')
  {
    DropUnique(f, i);
    forall k' | k' != f[i].0 ensures Get(f[..i] + f[i + 1..], k') == Get(f, k') {
      DropOther(f, i, k');
    }
  }

  /** Dropping a position keeps the keys distinct and removes that position's key. */
  lemma DropUnique(f: Filled, i: nat)
    requires UniqueKeys(f) && i < |f|
    ensures UniqueKeys(f[..i] + f[i + 1..])
    ensures !HasKey(f[..i] + f[i + 1..], f[i].0)
  {
    var r := f[..i] + f[i + 1..];
    assert forall j :: 0 <= j < |r| ==> r[j] == f[if j < i then j else j + 1];
  }

  /** Dropping a position leaves the entry of any other key as it was. */
  lemma DropOther(f: Filled, i: nat, k: nat)
    requires UniqueKeys(f) && i < |f| && k != f[i].0
    ensures Get(f[..i] + f[i + 1..], k) == Get(f, k)
  {
    var r := f[..i] + f[i + 1..];
    DropUnique(f, i);
    if HasKey(f, k) {
      var j :| 0 <= j < |f| && f[j].0 == k;
      assert r[if j < i then j else j - 1] == f[j];
    }
  }

  /** `filled.setdefault(k, []).append(f)` for each field in turn. */
  function Extend(f: Filled, k: nat, fields: seq<Field>): (r: Filled)
    requires UniqueKeys(f)
    ensures UniqueKeys(r)
    ensures FieldsOf(r, k) == FieldsOf(f, k) + fields && HasKey(r, k)
    ensures forall k' :: k' != k ==> Get(r, k') == Get(f, k')
  {
    Put(f, k, FieldsOf(f, k) + fields)
  }

  /** Extending one key loses no field of any key. */
  lemma ExtendGrows(f: Filled, k: nat, fields: seq<Field>)
    requires UniqueKeys(f)
    ensures forall k', x :: x in FieldsOf(f, k') ==> x in FieldsOf(Extend(f, k, fields), k')
  {
    var r := Extend(f, k, fields);
    forall k', x | x in FieldsOf(f, k') ensures x in FieldsOf(r, k') {
      if k' != k {
        assert Get(r, k') == Get(f, k');
      }
    }
  }

  // ---------------------------------------------------------------------------
  // The free list
  // ---------------------------------------------------------------------------

  function IndexOf<T(==)>(xs: seq<T>, x: T): (i: nat)
    requires x in xs
    ensures i < |xs| && xs[i] == x && forall j :: 0 <= j < i ==> xs[j] != x
  {
    if xs[0] == x then 0 else 1 + IndexOf(xs[1..], x)
  }

  /** `if x in xs: xs.remove(x)`: the first occurrence goes, nothing else moves. */
  function RemoveFirst<T(==)>(xs: seq<T>, x: T): (r: seq<T>)
    ensures x in xs ==> multiset(r) == multiset(xs) - multiset{x}
    ensures x !in xs ==> r == xs
    ensures x in xs ==> |r| == |xs| - 1 && r == xs[..IndexOf(xs, x)] + xs[IndexOf(xs, x) + 1..]
  {
    if x !in xs then xs
    else
      var i := IndexOf(xs, x);
      assert xs == xs[..i] + [xs[i]] + xs[i + 1..];
      xs[..i] + xs[i + 1..]
  }

  /** `for each field: if field in free: free.remove(field)`. */
  function RemoveAll(free: seq<Field>, fields: seq<Field>): (r: seq<Field>)
    ensures multiset(r) == multiset(free) - multiset(fields)
    decreases |fields|
  {
    if |fields| == 0 then free
    else
      assert fields == [fields[0]] + fields[1..];
      RemoveAll(RemoveFirst(free, fields[0]), fields[1..])
  }

  /** The fields a session of `duration` slots occupies from `row` on in column `col`. */
  function Block(row: nat, duration: nat, col: nat): (r: seq<Field>)
    ensures |r| == duration
    ensures forall i :: 0 <= i < duration ==> r[i] == (row + i, col)
  {
    seq(duration, i requires 0 <= i < duration => ((row + i) as nat, col))
  }

  // ---------------------------------------------------------------------------
  // Filling the matrix
  // ---------------------------------------------------------------------------

  predicate SameShape(a: Matrix, b: Matrix) {
    |a| == |b| && forall r :: 0 <= r < |a| ==> |a[r]| == |b[r]|
  }

  predicate FieldsInMatrix(m: Matrix, fields: seq<Field>) {
    forall i :: 0 <= i < |fields| ==> InMatrix(m, fields[i])
  }

  predicate FilledInMatrix(m: Matrix, f: Filled) {
    forall i :: 0 <= i < |f| ==> FieldsInMatrix(m, f[i].1)
  }

  /** `matrix[row][col] = k` for each field of one class. */
  function WriteFields(m: Matrix, fields: seq<Field>, k: nat): (r: Matrix)
    requires FieldsInMatrix(m, fields)
    ensures SameShape(r, m)
    ensures forall x: nat, y: nat :: x < |m| && y < |m[x]| ==>
              r[x][y] == (if (x, y) in fields then Some(k) else m[x][y])
    decreases |fields|
  {
    if |fields| == 0 then m
    else
      var last := fields[|fields| - 1];
      var m1 := WriteFields(m, fields[..|fields| - 1], k);
      assert InMatrix(m, last);
      assert fields == fields[..|fields| - 1] + [last];
      m1[last.0 := m1[last.0][last.1 := Some(k)]]
  }

  /** The last entry of `f` whose fields contain `(x, y)`. */
  predicate LastWriter(f: Filled, i: nat, x: nat, y: nat) {
    i < |f| && (x, y) in f[i].1 && forall j :: i < j < |f| ==> (x, y) !in f[j].1
  }

  /** `for index, fields in filled.items(): matrix[row][col] = index`: a field claimed by
      some class shows the class that claims it last in `filled`'s order; an unclaimed
      field keeps its old content. */
  function FillMatrix(m: Matrix, f: Filled): (r: Matrix)
    requires FilledInMatrix(m, f)
    ensures SameShape(r, m)
    ensures forall x: nat, y: nat, i: nat :: x < |m| && y < |m[x]| && LastWriter(f, i, x, y) ==> r[x][y] == Some(f[i].0)
    ensures forall x: nat, y: nat :: x < |m| && y < |m[x]| && (forall i :: 0 <= i < |f| ==> (x, y) !in f[i].1) ==>
              r[x][y] == m[x][y]
    decreases |f|
  {
    if |f| == 0 then m
    else
      var n := |f| - 1;
      var m1 := FillMatrix(m, f[..n]);
      assert FilledInMatrix(m, f[..n]);
      assert forall x: nat, y: nat, i: nat :: x < |m| && y < |m[x]| && i < n && LastWriter(f, i, x, y) ==> LastWriter(f[..n], i, x, y);
      WriteFields(m1, f[n].1, f[n].0)
  }

  /** With no field claimed twice, every claimed field shows its one claimant. */
  lemma FillDisjoint(m: Matrix, f: Filled, i: nat, x: nat, y: nat)
    requires FilledInMatrix(m, f)
    requires forall a, b :: 0 <= a < b < |f| ==> forall p :: p in f[a].1 ==> p !in f[b].1
    requires i < |f| && (x, y) in f[i].1
    ensures x < |m| && y < |m[x]|
    ensures FillMatrix(m, f)[x][y] == Some(f[i].0)
  {
    var k :| 0 <= k < |f[i].1| && f[i].1[k] == (x, y);
    assert InMatrix(m, f[i].1[k]);
    assert LastWriter(f, i, x, y);
  }

  /** A cell that filling changed shows a class that has an entry in `filled`. */
  lemma FillShowsFilled(m: Matrix, f: Filled)
    requires FilledInMatrix(m, f)
    ensures forall x, y :: 0 <= x < |m| && 0 <= y < |m[x]| && FillMatrix(m, f)[x][y] != m[x][y] ==>
              FillMatrix(m, f)[x][y].Some? && HasKey(f, FillMatrix(m, f)[x][y].value)
  {
    var r := FillMatrix(m, f);
    forall x: nat, y: nat | x < |m| && y < |m[x]| && r[x][y] != m[x][y]
      ensures r[x][y].Some? && HasKey(f, r[x][y].value)
    {
      var w :| 0 <= w < |f| && (x, y) in f[w].1;
      var i := LastClaim(f, x, y);
    }
  }

  /** Cell `x` of `m` shows a class whose entry in `f` claims `x`. */
  predicate ShowsClaimant(m: Matrix, f: Filled, x: Field) {
    InMatrix(m, x) && m[x.0][x.1].Some? && x in FieldsOf(f, m[x.0][x.1].value)
  }

  /** A field some class claims shows, once filled in, a class that claims it, and the
      class itself when no other class claims it. */
  lemma FillShowsClaimant(m: Matrix, f: Filled, k: nat, x: Field)
    requires UniqueKeys(f) && FilledInMatrix(m, f) && x in FieldsOf(f, k)
    ensures ShowsClaimant(FillMatrix(m, f), f, x)
    ensures (forall k' :: k' != k ==> x !in FieldsOf(f, k')) ==> FillMatrix(m, f)[x.0][x.1] == Some(k)
  {
    var i :| 0 <= i < |f| && f[i].0 == k;
    assert FieldsOf(f, k) == f[i].1;
    var j := LastClaim(f, x.0, x.1);
    assert FieldsOf(f, f[j].0) == f[j].1;
    var n :| 0 <= n < |f[j].1| && f[j].1[n] == x;
    assert InMatrix(m, f[j].1[n]);
  }

  /** The last entry claiming a field, for a field some entry claims. */
  function LastClaim(f: Filled, x: nat, y: nat): (i: nat)
    requires exists i :: 0 <= i < |f| && (x, y) in f[i].1
    ensures LastWriter(f, i, x, y)
    decreases |f|
  {
    var n := |f| - 1;
    if (x, y) in f[n].1 then n
    else
      var w :| 0 <= w < |f| && (x, y) in f[w].1;
      assert f[..n][w] == f[w];
      LastClaim(f[..n], x, y)
  }

  // ---------------------------------------------------------------------------
  // Bounds
  // ---------------------------------------------------------------------------

  /** Every field of `filled` lies inside a `rows` by `cols` matrix. */
  ghost predicate FilledWithin(f: Filled, rows: nat, cols: nat) {
    forall k, x :: HasKey(f, k) && x in FieldsOf(f, k) ==> x.0 < rows && x.1 < cols
  }

  /** Extending `filled` with fields inside the matrix keeps all of it inside. */
  lemma ExtendWithin(f: Filled, k: nat, fields: seq<Field>, rows: nat, cols: nat)
    requires UniqueKeys(f) && FilledWithin(f, rows, cols)
    requires forall x :: x in fields ==> x.0 < rows && x.1 < cols
    ensures FilledWithin(Extend(f, k, fields), rows, cols)
  {
    var r := Extend(f, k, fields);
    forall k', x | HasKey(r, k') && x in FieldsOf(r, k')
      ensures x.0 < rows && x.1 < cols
    {
      if k' != k {
        assert Get(r, k') == Get(f, k');
      }
    }
  }

  /** A `filled` whose fields lie within the matrix's bounds can be written into it. */
  lemma WithinIsInMatrix(m: Matrix, f: Filled, cols: nat)
    requires UniqueKeys(f) && FilledWithin(f, |m|, cols)
    requires forall x :: 0 <= x < |m| ==> |m[x]| == cols
    ensures FilledInMatrix(m, f)
  {
    forall i | 0 <= i < |f|
      ensures FieldsInMatrix(m, f[i].1)
    {
      assert Get(f, f[i].0) == Some(f[i].1);
      assert FieldsOf(f, f[i].0) == f[i].1;
    }
  }
}
