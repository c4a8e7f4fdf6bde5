/** How scheduler.py decides which lab room a lab class is booked into:
    `build_lab_map_from_config`, the `subject_to_lab_name` map that
    `schedule_labs_first` builds beside it, the expected-name lookup and the
    name-matching search over the lab pool. */
module LabMap {
  import opened Model
  import opened Text
  import opened ConfigAdapter

  // ---------------------------------------------------------------------------
  // Dictionaries with string keys
  // ---------------------------------------------------------------------------

  /** A Python dict with string keys, as its items in insertion order. */
  type Dict<V> = seq<(string, V)>

  predicate DistinctKeys<V>(d: Dict<V>) {
    forall i, j :: 0 <= i < j < |d| ==> d[i].0 != d[j].0
  }

  predicate HasName<V>(d: Dict<V>, k: string) {
    exists i :: 0 <= i < |d| && d[i].0 == k
  }

  /** Position of key `k`, if present. */
  function KeyIndex<V>(d: Dict<V>, k: string): (r: Option<nat>)
    ensures r.Some? ==> r.value < |d| && d[r.value].0 == k && forall i :: 0 <= i < r.value ==> d[i].0 != k
    ensures r.None? <==> !HasName(d, k)
    decreases |d|
  {
    if |d| == 0 then None
    else if d[0].0 == k then Some(0)
    else match KeyIndex(d[1..], k)
      case None => None
      case Some(i) => Some(i + 1)
  }

  /** `d.get(k)`. */
  function Lookup<V>(d: Dict<V>, k: string): (r: Option<V>)
    ensures r.Some? <==> HasName(d, k)
    ensures DistinctKeys(d) ==> forall i :: 0 <= i < |d| && d[i].0 == k ==> r == Some(d[i].1)
  {
    match KeyIndex(d, k)
    case None => None
    case Some(i) => Some(d[i].1)
  }

  /** `d[k] = v`: an existing key keeps its place and takes the new value, a new key goes last. */
  function Assign<V>(d: Dict<V>, k: string, v: V): (r: Dict<V>)
    requires DistinctKeys(d)
    ensures DistinctKeys(r)
    ensures Lookup(r, k) == Some(v)
    ensures forall k' :: k' != k ==> Lookup(r, k') == Lookup(d, k')
    ensures forall k' :: HasName(r, k') <==> HasName(d, k') || k' == k
    ensures |r| == if HasName(d, k) then |d| else |d| + 1
  {
    match KeyIndex(d, k)
    case None =>
      var r := d + [(k, v)];
      assert DistinctKeys(r) && r[|d|] == (k, v);
      assert forall k' :: HasName(r, k') <==> HasName(d, k') || k' == k by {
        forall k' | HasName(r, k') && k' != k ensures HasName(d, k') {
          var i :| 0 <= i < |r| && r[i].0 == k';
        }
        forall k' | HasName(d, k') ensures HasName(r, k') {
          var i :| 0 <= i < |d| && d[i].0 == k';
          assert r[i] == d[i];
        }
      }
      forall k' | k' != k && HasName(r, k')
        ensures Lookup(r, k') == Lookup(d, k')
      {
        var i :| 0 <= i < |d| && d[i].0 == k';
        assert r[i] == d[i];
      }
      r
    case Some(i) =>
      var r := d[i := (k, v)];
      assert DistinctKeys(r) && r[i] == (k, v);
      assert forall k' :: HasName(r, k') <==> HasName(d, k') by {
        forall k' | HasName(r, k') ensures HasName(d, k') {
          var j :| 0 <= j < |r| && r[j].0 == k';
          assert d[j].0 == k';
        }
        forall k' | HasName(d, k') ensures HasName(r, k') {
          var j :| 0 <= j < |d| && d[j].0 == k';
          assert r[j].0 == k';
        }
      }
      forall k' | k' != k && HasName(r, k')
        ensures Lookup(r, k') == Lookup(d, k')
      {
        var j :| 0 <= j < |d| && d[j].0 == k';
        assert r[j] == d[j];
      }
      r
  }

  // ---------------------------------------------------------------------------
  // build_lab_map_from_config
  // ---------------------------------------------------------------------------

  /** `int(labs) > 0 and name`: the subjects that get a lab-map entry. */
  predicate HasLabs(s: SubjectConfig) {
    s.labs > 0 && s.name != ""
  }

  /** `subj.get('lab_name', '').strip()`. */
  function StrippedLabName(s: SubjectConfig): string {
    Strip(s.labName)
  }

  /** `lab_name if lab_name else subject_name`: the key of a subject's lab-map entry. */
  function LabClassSubject(s: SubjectConfig): string {
    if StrippedLabName(s) != "" then StrippedLabName(s) else s.name
  }

  /** How many subjects of `subjects` carry labs: the running `subject_lab_index`. */
  function LabCount(subjects: seq<SubjectConfig>): nat
    decreases |subjects|
  {
    if |subjects| == 0 then 0
    else LabCount(subjects[..|subjects| - 1]) + (if HasLabs(subjects[|subjects| - 1]) then 1 else 0)
  }

  /** Room `i` is a lab called `x`. */
  predicate LabNamed(rooms: seq<Room>, i: int, x: string) {
    0 <= i < |rooms| && rooms[i].kind == LabTag && rooms[i].name == x
  }

  /** Names of the lab (`'r'`) rooms in index order: `lab_room_names`, and also the
      `lab_names_list` of `schedule_labs_first`. */
  function LabRoomNames(rooms: seq<Room>): (r: seq<string>)
    ensures forall x :: x in r <==> exists i :: LabNamed(rooms, i, x)
    decreases |rooms|
  {
    if |rooms| == 0 then []
    else
      var rest := LabRoomNames(rooms[1..]);
      var r := (if rooms[0].kind == LabTag then [rooms[0].name] else []) + rest;
      forall x | x in r ensures exists i :: LabNamed(rooms, i, x) {
        if x in rest {
          var i :| LabNamed(rooms[1..], i, x);
          assert LabNamed(rooms, i + 1, x);
        } else {
          assert LabNamed(rooms, 0, x);
        }
      }
      forall x | exists i :: LabNamed(rooms, i, x) ensures x in r {
        var i :| LabNamed(rooms, i, x);
        if i > 0 { assert LabNamed(rooms[1..], i - 1, x); }
      }
      r
  }

  /** The room name the lab-bearing subject number `k` (counting from 0) is mapped to:
      its own stripped `lab_name`; else a non-empty `lab_names[k]`; else, when room
      data is given, the name of the k-th lab room; else `Lab-{k+1}`. */
  function LabRoomFor(s: SubjectConfig, labNames: seq<string>, rooms: Option<seq<Room>>, k: nat): string {
    if StrippedLabName(s) != "" then StrippedLabName(s)
    else if k < |labNames| && labNames[k] != "" then labNames[k]
    else if rooms.Some? && k < |LabRoomNames(rooms.value)| then LabRoomNames(rooms.value)[k]
    else "Lab-" + NatToString(k + 1)
  }

  /** Subject `i` carries labs and no later lab-bearing subject has the same key, so its
      value is the one left in the map. */
  predicate LastWithKey(subjects: seq<SubjectConfig>, i: nat) {
    i < |subjects| && HasLabs(subjects[i])
    && forall j :: i < j < |subjects| && HasLabs(subjects[j]) ==> LabClassSubject(subjects[j]) != LabClassSubject(subjects[i])
  }

  /** Subject `i` is a lab-bearing subject whose key is `key`. */
  predicate KeyedBy(subjects: seq<SubjectConfig>, i: int, key: string) {
    0 <= i < |subjects| && HasLabs(subjects[i]) && LabClassSubject(subjects[i]) == key
  }

  ghost predicate IsLabKey(subjects: seq<SubjectConfig>, key: string) {
    exists i :: KeyedBy(subjects, i, key)
  }

  /** `build_lab_map_from_config`, one subject at a time in list order. */
  function BuildLabMap(subjects: seq<SubjectConfig>, labNames: seq<string>, rooms: Option<seq<Room>>): (r: Dict<string>)
    ensures DistinctKeys(r)
    ensures |r| <= LabCount(subjects)
    decreases |subjects|
  {
    if |subjects| == 0 then []
    else
      var n := |subjects| - 1;
      var init := subjects[..n];
      var s := subjects[n];
      var prev := BuildLabMap(init, labNames, rooms);
      if HasLabs(s) then Assign(prev, LabClassSubject(s), LabRoomFor(s, labNames, rooms, LabCount(init))) else prev
  }

  /** The map has a key exactly for each lab-bearing subject's key (`lab_name` or else
      the subject name); subjects without labs or without a name get none. */
  lemma {:induction false} LabMapKeys(subjects: seq<SubjectConfig>, labNames: seq<string>, rooms: Option<seq<Room>>)
    ensures forall key :: HasName(BuildLabMap(subjects, labNames, rooms), key) <==> IsLabKey(subjects, key)
    decreases |subjects|
  {
    if |subjects| > 0 {
      var n := |subjects| - 1;
      var init := subjects[..n];
      var s := subjects[n];
      LabMapKeys(init, labNames, rooms);
      LabKeysSnoc(subjects);
      var prev := BuildLabMap(init, labNames, rooms);
      assert forall key :: HasName(BuildLabMap(subjects, labNames, rooms), key) <==>
                             HasName(prev, key) || (HasLabs(s) && key == LabClassSubject(s));
    }
  }

  /** The keys of a list are those of all but its last subject, plus the last one's. */
  lemma LabKeysSnoc(subjects: seq<SubjectConfig>)
    requires |subjects| > 0
    ensures forall key :: IsLabKey(subjects, key) <==>
              IsLabKey(subjects[..|subjects| - 1], key) || KeyedBy(subjects, |subjects| - 1, key)
  {
    var n := |subjects| - 1;
    var init := subjects[..n];
    forall key | IsLabKey(subjects, key) ensures IsLabKey(init, key) || KeyedBy(subjects, n, key) {
      var i :| KeyedBy(subjects, i, key);
      if i < n {
        assert init[i] == subjects[i];
        assert KeyedBy(init, i, key);
      } else {
        assert i == n;
      }
    }
    forall key | IsLabKey(init, key) ensures IsLabKey(subjects, key) {
      var i :| KeyedBy(init, i, key);
      assert init[i] == subjects[i];
      assert KeyedBy(subjects, i, key);
    }
    forall key | KeyedBy(subjects, n, key) ensures IsLabKey(subjects, key) {
    }
  }

  /** The value under a key is the room chosen for the last subject with that key,
      numbered by how many lab-bearing subjects precede it. */
  lemma {:induction false} LabMapValues(subjects: seq<SubjectConfig>, labNames: seq<string>, rooms: Option<seq<Room>>, i: nat)
    requires LastWithKey(subjects, i)
    ensures Lookup(BuildLabMap(subjects, labNames, rooms), LabClassSubject(subjects[i]))
            == Some(LabRoomFor(subjects[i], labNames, rooms, LabCount(subjects[..i])))
    decreases |subjects|
  {
    hide BuildLabMap;
    hide LabRoomFor;
    var n := |subjects| - 1;
    var init := subjects[..n];
    var key := LabClassSubject(subjects[i]);
    var v := LabRoomFor(subjects[i], labNames, rooms, LabCount(subjects[..i]));
    if i < n {
      LastWithKeyInit(subjects, i);
      LabMapValues(init, labNames, rooms, i);
      LabMapStep(subjects, labNames, rooms, key);
    } else {
      assert i == n && subjects[..i] == init;
      LabMapLast(subjects, labNames, rooms);
    }
  }

  /** Subject `i`, last with its key, stays last with it once a later subject is dropped. */
  lemma LastWithKeyInit(subjects: seq<SubjectConfig>, i: nat)
    requires LastWithKey(subjects, i) && i < |subjects| - 1
    ensures var init := subjects[..|subjects| - 1];
            LastWithKey(init, i) && init[i] == subjects[i] && init[..i] == subjects[..i]
  {
  }

  /** A last subject without labs, or with another key, leaves the lookup of `key` alone. */
  lemma LabMapStep(subjects: seq<SubjectConfig>, labNames: seq<string>, rooms: Option<seq<Room>>, key: string)
    requires |subjects| > 0
    requires HasLabs(subjects[|subjects| - 1]) ==> LabClassSubject(subjects[|subjects| - 1]) != key
    ensures Lookup(BuildLabMap(subjects, labNames, rooms), key)
            == Lookup(BuildLabMap(subjects[..|subjects| - 1], labNames, rooms), key)
  {
  }

  /** A lab-bearing last subject sets its key to its own room. */
  lemma LabMapLast(subjects: seq<SubjectConfig>, labNames: seq<string>, rooms: Option<seq<Room>>)
    requires |subjects| > 0 && HasLabs(subjects[|subjects| - 1])
    ensures var n := |subjects| - 1;
            Lookup(BuildLabMap(subjects, labNames, rooms), LabClassSubject(subjects[n]))
            == Some(LabRoomFor(subjects[n], labNames, rooms, LabCount(subjects[..n])))
  {
  }

  /** When the lab-bearing subjects have pairwise different keys, the map has exactly
      one entry per lab-bearing subject. */
  lemma {:induction false} OneEntryPerLabSubject(subjects: seq<SubjectConfig>, labNames: seq<string>, rooms: Option<seq<Room>>)
    requires forall i, j :: 0 <= i < j < |subjects| && HasLabs(subjects[i]) && HasLabs(subjects[j]) ==>
               LabClassSubject(subjects[i]) != LabClassSubject(subjects[j])
    ensures |BuildLabMap(subjects, labNames, rooms)| == LabCount(subjects)
    decreases |subjects|
  {
    if |subjects| > 0 {
      var n := |subjects| - 1;
      var init := subjects[..n];
      OneEntryPerLabSubject(init, labNames, rooms);
      var prev := BuildLabMap(init, labNames, rooms);
      LabMapKeys(init, labNames, rooms);

    }
  }

  /** Rooms laid out as `_build_classrooms` lays them out: `nc` classrooms, then labs. */
  predicate BuiltLayout(rooms: seq<Room>, nc: nat, labNames: seq<string>) {
    nc <= |rooms|
    && (forall i :: 0 <= i < nc ==> rooms[i].kind == ClassroomTag)
    && (forall i :: nc <= i < |rooms| ==> rooms[i] == Room(LabRoomName(labNames, i - nc), LabTag))
  }

  /** The lab room names of a built layout are the generated lab names, in order. */
  lemma {:induction false} BuiltLabRoomNames(rooms: seq<Room>, nc: nat, labNames: seq<string>)
    requires BuiltLayout(rooms, nc, labNames)
    ensures |LabRoomNames(rooms)| == |rooms| - nc
    ensures forall k :: 0 <= k < |rooms| - nc ==> LabRoomNames(rooms)[k] == LabRoomName(labNames, k)
    decreases |rooms|
  {
    if nc > 0 {
      assert LabRoomNames(rooms) == LabRoomNames(rooms[1..]);
      assert BuiltLayout(rooms[1..], nc - 1, labNames) by {
        forall i | nc - 1 <= i < |rooms[1..]| ensures rooms[1..][i] == Room(LabRoomName(labNames, i - (nc - 1)), LabTag) {
          assert rooms[1..][i] == rooms[i + 1];
        }
      }
      BuiltLabRoomNames(rooms[1..], nc - 1, labNames);
    } else if |rooms| > 0 {
      var last := |rooms| - 1;
      LabRoomNamesSnoc(rooms[..last], rooms[last]);
      assert rooms[..last] + [rooms[last]] == rooms;
      BuiltLabRoomNames(rooms[..last], 0, labNames);
    }
  }

  /** Appending a room appends its name when it is a lab. */
  lemma {:induction false} LabRoomNamesSnoc(rooms: seq<Room>, x: Room)
    ensures LabRoomNames(rooms + [x]) == LabRoomNames(rooms) + (if x.kind == LabTag then [x.name] else [])
    decreases |rooms|
  {
    if |rooms| > 0 {
      assert (rooms + [x])[1..] == rooms[1..] + [x];
      LabRoomNamesSnoc(rooms[1..], x);
    } else {
      assert (rooms + [x])[1..] == [];
    }
  }

  /** `LabRoomNames` lists the lab rooms' names in index order: entry `j` is the name of
      the j-th lab room. */
  lemma LabRoomNamesInOrder(rooms: seq<Room>)
    ensures var idx := RoomsOfType(rooms, LabTag);
            && |LabRoomNames(rooms)| == |idx|
            && forall j :: 0 <= j < |idx| ==> idx[j] < |rooms| && LabRoomNames(rooms)[j] == rooms[idx[j]].name
  {
    var idx := RoomsOfType(rooms, LabTag);
    assert LabIndexList(rooms, idx);
    NamesAlong(rooms, idx);
  }

  /** `idx` lists exactly the indices of the lab rooms, ascending. */
  ghost predicate LabIndexList(rooms: seq<Room>, idx: seq<nat>) {
    && (forall x: nat :: x in idx <==> x < |rooms| && rooms[x].kind == LabTag)
    && (forall i, j :: 0 <= i < j < |idx| ==> idx[i] < idx[j])
  }

  /** Names along any ascending list of exactly the lab indices. */
  lemma {:induction false} NamesAlong(rooms: seq<Room>, idx: seq<nat>)
    requires LabIndexList(rooms, idx)
    ensures |LabRoomNames(rooms)| == |idx|
    ensures forall j :: 0 <= j < |idx| ==> idx[j] < |rooms| && LabRoomNames(rooms)[j] == rooms[idx[j]].name
    decreases |rooms|
  {
    IndicesInRange(rooms, idx);
    assert |idx| > 0 ==> idx[0] < |rooms|;
    if |rooms| > 0 {
      var n := |rooms| - 1;
      var init := rooms[..n];
      var x := rooms[n];
      assert rooms == init + [x];
      LabRoomNamesSnoc(init, x);
      if x.kind == LabTag {
        DropLastLab(rooms, idx);
        NamesAlong(init, idx[..|idx| - 1]);
      } else {
        DropLastOther(rooms, idx);
        NamesAlong(init, idx);
      }
    }
  }

  lemma IndicesInRange(rooms: seq<Room>, idx: seq<nat>)
    requires LabIndexList(rooms, idx)
    ensures forall j :: 0 <= j < |idx| ==> idx[j] < |rooms| && rooms[idx[j]].kind == LabTag
  {
    forall j | 0 <= j < |idx| ensures idx[j] < |rooms| && rooms[idx[j]].kind == LabTag {
      assert idx[j] in idx;
    }
  }

  /** A last room that is a lab is the last index; the others index the rest. */
  lemma DropLastLab(rooms: seq<Room>, idx: seq<nat>)
    requires LabIndexList(rooms, idx) && |rooms| > 0 && rooms[|rooms| - 1].kind == LabTag
    ensures |idx| > 0 && idx[|idx| - 1] == |rooms| - 1
    ensures LabIndexList(rooms[..|rooms| - 1], idx[..|idx| - 1])
  {
    var n := |rooms| - 1;
    assert n in idx;
    var last := |idx| - 1;
    assert idx[last] == n by {
      var k :| 0 <= k < |idx| && idx[k] == n;
      assert idx[last] in idx;
    }
    var pre := idx[..last];
    assert idx == pre + [n];
    forall y: nat ensures y in pre <==> y < n && rooms[..n][y].kind == LabTag {
      if y in pre {
        var k :| 0 <= k < last && pre[k] == y;
      }
    }
  }

  /** A last room that is not a lab leaves the same indices for the rest. */
  lemma DropLastOther(rooms: seq<Room>, idx: seq<nat>)
    requires LabIndexList(rooms, idx) && |rooms| > 0 && rooms[|rooms| - 1].kind != LabTag
    ensures LabIndexList(rooms[..|rooms| - 1], idx)
  {
  }

  /** A subject without its own `lab_name`, numbered `k` among the lab-bearing subjects,
      is mapped to the name `_build_classrooms` gave the k-th lab room, whenever that
      room exists: the two files agree on lab room names. */
  lemma LabMapNamesBuiltRoom(s: SubjectConfig, labNames: seq<string>, rooms: seq<Room>, nc: nat, k: nat)
    requires BuiltLayout(rooms, nc, labNames)
    requires StrippedLabName(s) == "" && k < |rooms| - nc
    ensures LabRoomFor(s, labNames, Some(rooms), k) == rooms[nc + k].name
    ensures rooms[nc + k].kind == LabTag
  {
    BuiltLabRoomNames(rooms, nc, labNames);
  }

  // ---------------------------------------------------------------------------
  // subject_to_lab_name and the expected room name of a lab class
  // ---------------------------------------------------------------------------

  /** The lab name `schedule_labs_first` records for a lab-bearing subject: its stripped
      `lab_name`, or the subject name with " Lab" appended. */
  function SubjectLabName(s: SubjectConfig): string {
    if StrippedLabName(s) != "" then StrippedLabName(s) else s.name + " Lab"
  }

  /** `subject_to_lab_name`: subject name to lab name, one entry per lab-bearing subject name. */
  function SubjectToLabName(subjects: seq<SubjectConfig>): (r: Dict<string>)
    ensures DistinctKeys(r)
    ensures |r| <= LabCount(subjects)
    decreases |subjects|
  {
    if |subjects| == 0 then []
    else
      var n := |subjects| - 1;
      var prev := SubjectToLabName(subjects[..n]);
      if HasLabs(subjects[n]) then Assign(prev, subjects[n].name, SubjectLabName(subjects[n])) else prev
  }

  /** Subject `i` carries labs and is called `name`. */
  predicate NamedLab(subjects: seq<SubjectConfig>, i: int, name: string) {
    0 <= i < |subjects| && HasLabs(subjects[i]) && subjects[i].name == name
  }

  ghost predicate IsLabSubject(subjects: seq<SubjectConfig>, name: string) {
    exists i :: NamedLab(subjects, i, name)
  }

  /** `subject_to_lab_name` has a key exactly for each lab-bearing subject's name. */
  lemma {:induction false} SubjectToLabNameKeys(subjects: seq<SubjectConfig>)
    ensures forall name :: HasName(SubjectToLabName(subjects), name) <==> IsLabSubject(subjects, name)
    decreases |subjects|
  {
    if |subjects| > 0 {
      var n := |subjects| - 1;
      var init := subjects[..n];
      SubjectToLabNameKeys(init);
      LabSubjectsSnoc(subjects);
    }
  }

  /** The lab-bearing names of a list are those of all but its last subject, plus the last one's. */
  lemma LabSubjectsSnoc(subjects: seq<SubjectConfig>)
    requires |subjects| > 0
    ensures forall name :: IsLabSubject(subjects, name) <==>
              IsLabSubject(subjects[..|subjects| - 1], name) || NamedLab(subjects, |subjects| - 1, name)
  {
    var n := |subjects| - 1;
    var init := subjects[..n];
    forall name | IsLabSubject(subjects, name) ensures IsLabSubject(init, name) || NamedLab(subjects, n, name) {
      var i :| NamedLab(subjects, i, name);
      if i < n {
        assert NamedLab(init, i, name);
      }
    }
    forall name | IsLabSubject(init, name) ensures IsLabSubject(subjects, name) {
      var i :| NamedLab(init, i, name);
      assert NamedLab(subjects, i, name);
    }
  }

  /** The lab name under a subject name is that of the last lab-bearing subject so named. */
  lemma {:induction false} SubjectToLabNameValues(subjects: seq<SubjectConfig>, i: nat)
    requires i < |subjects| && HasLabs(subjects[i])
    requires forall j :: i < j < |subjects| ==> !NamedLab(subjects, j, subjects[i].name)
    ensures Lookup(SubjectToLabName(subjects), subjects[i].name) == Some(SubjectLabName(subjects[i]))
    decreases |subjects|
  {
    var n := |subjects| - 1;
    var init := subjects[..n];
    var name := subjects[i].name;
    if i < n {
      assert init[i] == subjects[i];
      forall j | i < j < |init| ensures !NamedLab(init, j, name) {
        assert !NamedLab(subjects, j, name);
      }
      SubjectToLabNameValues(init, i);
      assert !NamedLab(subjects, n, name);
      SubjectToLabNameStep(subjects, name);
    } else {
      SubjectToLabNameLast(subjects);
    }
  }

  /** A last subject without labs, or with another name, leaves the lookup of `name` alone. */
  lemma SubjectToLabNameStep(subjects: seq<SubjectConfig>, name: string)
    requires |subjects| > 0 && !NamedLab(subjects, |subjects| - 1, name)
    ensures Lookup(SubjectToLabName(subjects), name) == Lookup(SubjectToLabName(subjects[..|subjects| - 1]), name)
  {
  }

  /** A lab-bearing last subject sets its name to its own lab name. */
  lemma SubjectToLabNameLast(subjects: seq<SubjectConfig>)
    requires |subjects| > 0 && HasLabs(subjects[|subjects| - 1])
    ensures var s := subjects[|subjects| - 1];
            Lookup(SubjectToLabName(subjects), s.name) == Some(SubjectLabName(s))
  {
  }

  /** `build_lab_map_from_config` and `subject_to_lab_name` are empty together: both
      exactly when no subject carries labs, which is when `schedule_labs_first` returns
      without placing anything. */
  lemma {:induction false} MapsEmptyTogether(subjects: seq<SubjectConfig>, labNames: seq<string>, rooms: Option<seq<Room>>)
    ensures |BuildLabMap(subjects, labNames, rooms)| == 0 <==> LabCount(subjects) == 0
    ensures |SubjectToLabName(subjects)| == 0 <==> LabCount(subjects) == 0
    decreases |subjects|
  {
    if |subjects| > 0 {
      var n := |subjects| - 1;
      MapsEmptyTogether(subjects[..n], labNames, rooms);
    }
  }

  /** The first original subject whose lab name is `name` (the reverse lookup loop). */
  function ReverseLookup(s2l: Dict<string>, name: string): (r: Option<string>)
    ensures r.Some? <==> exists i :: 0 <= i < |s2l| && s2l[i].1 == name
    ensures r.Some? ==> exists i :: 0 <= i < |s2l| && s2l[i].1 == name && s2l[i].0 == r.value
    decreases |s2l|
  {
    if |s2l| == 0 then None
    else if s2l[0].1 == name then Some(s2l[0].0)
    else
      var r := ReverseLookup(s2l[1..], name);
      assert (exists i :: 0 <= i < |s2l| && s2l[i].1 == name) ==> (exists i :: 0 <= i < |s2l[1..]| && s2l[1..][i].1 == name) by {
        if exists i :: 0 <= i < |s2l| && s2l[i].1 == name {
          var i :| 0 <= i < |s2l| && s2l[i].1 == name;
          assert s2l[1..][i - 1] == s2l[i];
        }
      }
      assert r.Some? ==> exists i :: 0 <= i < |s2l| && s2l[i].1 == name && s2l[i].0 == r.value by {
        if r.Some? {
          var i :| 0 <= i < |s2l[1..]| && s2l[1..][i].1 == name && s2l[1..][i].0 == r.value;
          assert s2l[i + 1] == s2l[1..][i];
        }
      }
      r
  }

  /** Python truthiness of an optional string: present and non-empty. */
  predicate Truthy(v: Option<string>) {
    v.Some? && v.value != ""
  }

  /** `v or default`. */
  function OrElse(v: Option<string>, default: string): (r: string)
    ensures Truthy(v) ==> r == v.value
    ensures !Truthy(v) ==> r == default
  {
    if Truthy(v) then v.value else default
  }

  /** `expected_lab_name` of a lab class with subject `subject`: the lab map's value,
      else (through the reverse lookup) the map's value for the lab name or the lab
      name itself, else the subject. */
  function ExpectedLabName(labMap: Dict<string>, s2l: Dict<string>, subject: string): string {
    var e := Lookup(labMap, subject);
    if Truthy(e) then e.value
    else
      var e2 := match ReverseLookup(s2l, subject)
        case None => e
        case Some(_) => Some(OrElse(Lookup(labMap, subject), subject));
      OrElse(e2, subject)
  }

  /** The reverse lookup never changes the outcome: a lab class expects the lab map's
      room when it has a non-empty one, and a room named after its own subject otherwise. */
  lemma ExpectedLabNameIsMapOrSubject(labMap: Dict<string>, s2l: Dict<string>, subject: string)
    ensures ExpectedLabName(labMap, s2l, subject) ==
            (if Truthy(Lookup(labMap, subject)) then Lookup(labMap, subject).value else subject)
  {
  }

  // ---------------------------------------------------------------------------
  // The lab room of a lab class
  // ---------------------------------------------------------------------------

  /** `room.name == expected or expected in room.name or room.name in expected`. */
  predicate NameMatches(roomName: string, expected: string) {
    roomName == expected || Contains(roomName, expected) || Contains(expected, roomName)
  }

  predicate IsLab(rooms: seq<Room>, i: nat) {
    i < |rooms| && rooms[i].kind == LabTag
  }

  /** The first lab room at index `j` or later whose name matches `expected`. */
  function FirstMatchingLab(rooms: seq<Room>, expected: string, j: nat): (r: Option<nat>)
    ensures r.Some? ==> j <= r.value && IsLab(rooms, r.value) && NameMatches(rooms[r.value].name, expected)
    ensures r.Some? ==> forall i :: j <= i < r.value && IsLab(rooms, i) ==> !NameMatches(rooms[i].name, expected)
    ensures r.None? ==> forall i :: j <= i < |rooms| && IsLab(rooms, i) ==> !NameMatches(rooms[i].name, expected)
    decreases |rooms| - j
  {
    if j >= |rooms| then None
    else if IsLab(rooms, j) && NameMatches(rooms[j].name, expected) then Some(j)
    else FirstMatchingLab(rooms, expected, j + 1)
  }

  /** The first lab room at index `j` or later. */
  function FirstLab(rooms: seq<Room>, j: nat): (r: Option<nat>)
    ensures r.Some? ==> j <= r.value && IsLab(rooms, r.value) && forall i :: j <= i < r.value ==> !IsLab(rooms, i)
    ensures r.None? ==> forall i :: j <= i < |rooms| ==> !IsLab(rooms, i)
    decreases |rooms| - j
  {
    if j >= |rooms| then None
    else if IsLab(rooms, j) then Some(j)
    else FirstLab(rooms, j + 1)
  }

  /** The lab room a lab class is booked into: the first lab, in index order, whose
      name matches the expected name; failing that the first lab of all; nothing when
      there are no labs. */
  function ChooseLabRoom(rooms: seq<Room>, expected: string): (r: Option<nat>)
    ensures r.None? <==> forall i :: 0 <= i < |rooms| ==> !IsLab(rooms, i)
    ensures r.Some? ==> IsLab(rooms, r.value)
    ensures r.Some? && NameMatches(rooms[r.value].name, expected) ==>
              forall i :: 0 <= i < r.value && IsLab(rooms, i) ==> !NameMatches(rooms[i].name, expected)
    ensures r.Some? && !NameMatches(rooms[r.value].name, expected) ==>
              (forall i :: 0 <= i < |rooms| && IsLab(rooms, i) ==> !NameMatches(rooms[i].name, expected))
              && forall i :: 0 <= i < r.value ==> !IsLab(rooms, i)
  {
    match FirstMatchingLab(rooms, expected, 0)
    case Some(i) => Some(i)
    case None => FirstLab(rooms, 0)
  }

  /** A lab room whose name is exactly the expected name is found, unless an earlier
      lab room's name matches as a substring either way. */
  lemma ExactNameFound(rooms: seq<Room>, expected: string, i: nat)
    requires IsLab(rooms, i) && rooms[i].name == expected
    ensures ChooseLabRoom(rooms, expected).Some?
    ensures ChooseLabRoom(rooms, expected).value <= i
    ensures NameMatches(rooms[ChooseLabRoom(rooms, expected).value].name, expected)
  {
  }
}
