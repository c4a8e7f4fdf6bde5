/** `_audit_schedule` of webapp/app.py: after scheduling, compare the sessions each
    (groups, subject, type) needs with the sessions placed, and compare each group's
    load with the weekly slots the day's labels leave usable. */
module Audit {
  import opened Model
  import opened Timetable

  // ---------------------------------------------------------------------------
  // Counting dictionaries
  // ---------------------------------------------------------------------------

  /** A counting dictionary: keys in first-seen order with their counts. */
  type Counts<K> = seq<(K, nat)>

  predicate DistinctKeys<K(==,!new)>(t: Counts<K>) {
    forall i, j :: 0 <= i < j < |t| ==> t[i].0 != t[j].0
  }

  /** `d.get(k, 0)`. */
  function Count<K(==,!new)>(t: Counts<K>, k: K): nat
    decreases |t|
  {
    if |t| == 0 then 0 else if t[0].0 == k then t[0].1 else Count(t[1..], k)
  }

  predicate Listed<K(==,!new)>(t: Counts<K>, k: K) {
    exists i :: 0 <= i < |t| && t[i].0 == k
  }

  /** `d[k] = d.get(k, 0) + 1`. */
  function Bump<K(==,!new)>(t: Counts<K>, k: K): (r: Counts<K>)
    ensures forall x :: Count(r, x) == Count(t, x) + (if x == k then 1 else 0)
    ensures forall x :: Listed(r, x) <==> Listed(t, x) || x == k
    ensures DistinctKeys(t) ==> DistinctKeys(r)
    decreases |t|
  {
    if |t| == 0 then
      var r := [(k, 1)];
      assert r[0].0 == k;
      r
    else if t[0].0 == k then
      var r := [(k, t[0].1 + 1)] + t[1..];
      assert r[1..] == t[1..];
      forall x ensures Listed(r, x) <==> Listed(t, x) || x == k {
        if Listed(t, x) {
          var i :| 0 <= i < |t| && t[i].0 == x;
          assert r[i].0 == x;
        }
        if Listed(r, x) {
          var i :| 0 <= i < |r| && r[i].0 == x;
          assert t[i].0 == x;
        }
      }
      r
    else
      var rest := Bump(t[1..], k);
      var r := [t[0]] + rest;
      forall x ensures Listed(r, x) <==> Listed(t, x) || x == k {
        if Listed(t, x) {
          var i :| 0 <= i < |t| && t[i].0 == x;
          if i > 0 {
            assert t[1..][i - 1].0 == x;
            assert Listed(rest, x);
            var j :| 0 <= j < |rest| && rest[j].0 == x;
            assert r[j + 1].0 == x;
          } else {
            assert r[0].0 == x;
          }
        }
        if x == k {
          assert Listed(rest, x);
          var j :| 0 <= j < |rest| && rest[j].0 == x;
          assert r[j + 1].0 == x;
        }
        if Listed(r, x) {
          var i :| 0 <= i < |r| && r[i].0 == x;
          if i > 0 {
            assert rest[i - 1].0 == x;
            if x != k {
              assert Listed(t[1..], x);
              var j :| 0 <= j < |t[1..]| && t[1..][j].0 == x;
              assert t[j + 1].0 == x;
            }
          } else {
            assert t[0].0 == x;
          }
        }
      }
      forall i, j | 0 <= i < j < |r| && DistinctKeys(t) ensures r[i].0 != r[j].0 {
        if i == 0 {
          assert !Listed(t[1..], t[0].0);
          assert Listed(rest, r[j].0) by { assert rest[j - 1] == r[j]; }
        }
      }
      r
  }

  /** Counting the keys of `xs` into a dictionary, as the audit's loops do. */
  function Tally<K(==,!new)>(xs: seq<K>): (r: Counts<K>)
    ensures forall x :: Count(r, x) == multiset(xs)[x]
    ensures forall x :: Listed(r, x) <==> x in xs
    ensures DistinctKeys(r)
    decreases |xs|
  {
    if |xs| == 0 then []
    else
      var n := |xs| - 1;
      assert xs == xs[..n] + [xs[n]];
      Bump(Tally(xs[..n]), xs[n])
  }

  // ---------------------------------------------------------------------------
  // Missing sessions
  // ---------------------------------------------------------------------------

  /** The key sessions are counted under: the groups, the subject, the type. */
  datatype Key = Key(groups: seq<nat>, subject: string, kind: char)

  function KeyOf(c: Class): Key {
    Key(c.groups, c.subject, c.kind)
  }

  /** The warnings; each carries what the printed message shows, and the key or group
      it is about. */
  datatype AuditWarning =
    | Missing(key: Key, missing: nat)
    | OverCapacity(group: nat, needs: nat, slots: nat)

  function RequiredKeys(classes: seq<Class>): (r: seq<Key>)
    ensures |r| == |classes| && forall i :: 0 <= i < |classes| ==> r[i] == KeyOf(classes[i])
  {
    seq(|classes|, i requires 0 <= i < |classes| => KeyOf(classes[i]))
  }

  /** Every key of `filled` is a class. */
  predicate KeysAreClasses(classes: seq<Class>, filled: Filled) {
    forall i :: 0 <= i < |filled| ==> filled[i].0 < |classes|
  }

  /** The key of each entry of `filled`, in the dictionary's order. */
  function AssignedKeys(classes: seq<Class>, filled: Filled): (r: seq<Key>)
    requires KeysAreClasses(classes, filled)
    ensures |r| == |filled| && forall i :: 0 <= i < |filled| ==> r[i] == KeyOf(classes[filled[i].0])
  {
    seq(|filled|, i requires 0 <= i < |filled| => KeyOf(classes[filled[i].0]))
  }

  /** Key `i` of `required` was placed fewer times than needed. */
  predicate Short(required: Counts<Key>, placed: Counts<Key>, i: nat)
    requires i < |required|
  {
    Count(placed, required[i].0) < required[i].1
  }

  function MissingAt(required: Counts<Key>, placed: Counts<Key>, i: nat): AuditWarning
    requires i < |required| && Short(required, placed, i)
  {
    Missing(required[i].0, required[i].1 - Count(placed, required[i].0))
  }

  /** The loop over `required` from entry `i`: a warning for each key placed fewer times
      than needed. */
  function MissingFrom(required: Counts<Key>, placed: Counts<Key>, i: nat): (r: seq<AuditWarning>)
    ensures forall w :: w in r ==> exists j :: i <= j < |required| && Short(required, placed, j) && w == MissingAt(required, placed, j)
    ensures forall j :: i <= j < |required| && Short(required, placed, j) ==> MissingAt(required, placed, j) in r
    decreases |required| - i
  {
    if i >= |required| then []
    else (if Short(required, placed, i) then [MissingAt(required, placed, i)] else []) + MissingFrom(required, placed, i + 1)
  }

  /** The missing-session warnings: one per key needed more often than placed, naming the
      shortfall. */
  function MissingWarnings(classes: seq<Class>, filled: Filled): (r: seq<AuditWarning>)
    requires KeysAreClasses(classes, filled)
    ensures forall w :: w in r ==> w.Missing?
    ensures forall k :: (exists w :: w in r && w.key == k) <==>
      multiset(AssignedKeys(classes, filled))[k] < multiset(RequiredKeys(classes))[k]
    ensures forall w :: w in r ==>
      w.missing == multiset(RequiredKeys(classes))[w.key] - multiset(AssignedKeys(classes, filled))[w.key]
  {
    var required := RequiredKeys(classes);
    var placed := AssignedKeys(classes, filled);
    var r := MissingFrom(Tally(required), Tally(placed), 0);
    MissingSound(required, placed);
    MissingComplete(required, placed);
    r
  }

  /** Every warning of the loop names a key short of its need, and the exact shortfall. */
  lemma MissingSound(required: seq<Key>, placed: seq<Key>)
    ensures forall w :: w in MissingFrom(Tally(required), Tally(placed), 0) ==>
      w.Missing? && multiset(placed)[w.key] < multiset(required)[w.key] &&
      w.missing == multiset(required)[w.key] - multiset(placed)[w.key]
  {
    var tr := Tally(required);
    var tp := Tally(placed);
    forall w | w in MissingFrom(tr, tp, 0)
      ensures w.Missing? && multiset(placed)[w.key] < multiset(required)[w.key]
      ensures w.missing == multiset(required)[w.key] - multiset(placed)[w.key]
    {
      var i :| 0 <= i < |tr| && Short(tr, tp, i) && w == MissingAt(tr, tp, i);
      CountAt(tr, i);
    }
  }

  /** Every key short of its need gets a warning. */
  lemma MissingComplete(required: seq<Key>, placed: seq<Key>)
    ensures forall k :: multiset(placed)[k] < multiset(required)[k] ==>
      exists w :: w in MissingFrom(Tally(required), Tally(placed), 0) && w.key == k
  {
    var tr := Tally(required);
    var tp := Tally(placed);
    forall k | multiset(placed)[k] < multiset(required)[k]
      ensures exists w :: w in MissingFrom(tr, tp, 0) && w.key == k
    {
      assert k in required;
      assert Listed(tr, k);
      var i :| 0 <= i < |tr| && tr[i].0 == k;
      CountAt(tr, i);
      assert MissingAt(tr, tp, i) in MissingFrom(tr, tp, 0);
    }
  }

  // ---------------------------------------------------------------------------
  // Group load
  // ---------------------------------------------------------------------------

  /** Slots a day leaves for teaching: two breaks out of five or more labels, otherwise one. */
  function UsableSlots(labelCount: nat): nat {
    if labelCount >= 5 then labelCount - 2 else if labelCount >= 1 then labelCount - 1 else 0
  }

  function WeeklySlots(labelCount: nat): nat {
    TeachingDays * UsableSlots(labelCount)
  }

  /** Each group of each class, in order, once per listing. */
  function GroupListings(classes: seq<Class>): (r: seq<nat>)
    ensures forall g :: multiset(r)[g] == Listings(classes, g)
    decreases |classes|
  {
    if |classes| == 0 then []
    else
      var n := |classes| - 1;
      GroupListings(classes[..n]) + classes[n].groups
  }

  /** How many times group `g` is listed over all classes. */
  function Listings(classes: seq<Class>, g: nat): nat
    decreases |classes|
  {
    if |classes| == 0 then 0 else Listings(classes[..|classes| - 1], g) + multiset(classes[|classes| - 1].groups)[g]
  }

  function OverAt(totals: Counts<nat>, weekly: nat, i: nat): AuditWarning
    requires i < |totals|
  {
    OverCapacity(totals[i].0, totals[i].1, weekly)
  }

  /** The loop over the groups from entry `i`: a warning for each group whose sessions
      exceed the week. */
  function OverFrom(totals: Counts<nat>, weekly: nat, i: nat): (r: seq<AuditWarning>)
    ensures forall w :: w in r ==> exists j :: i <= j < |totals| && totals[j].1 > weekly && w == OverAt(totals, weekly, j)
    ensures forall j :: i <= j < |totals| && totals[j].1 > weekly ==> OverAt(totals, weekly, j) in r
    decreases |totals| - i
  {
    if i >= |totals| then []
    else (if totals[i].1 > weekly then [OverAt(totals, weekly, i)] else []) + OverFrom(totals, weekly, i + 1)
  }

  /** The capacity warnings: one per group listed more often than the week has usable
      slots, naming its sessions and the slots. */
  function OverWarnings(classes: seq<Class>, labelCount: nat): (r: seq<AuditWarning>)
    ensures forall w :: w in r ==> w.OverCapacity? && w.needs == Listings(classes, w.group) && w.slots == WeeklySlots(labelCount)
    ensures forall g: nat :: (exists w :: w in r && w.group == g) <==> Listings(classes, g) > WeeklySlots(labelCount)
  {
    var totals := Tally(GroupListings(classes));
    var weekly := WeeklySlots(labelCount);
    var r := OverFrom(totals, weekly, 0);
    forall w | w in r ensures w.OverCapacity? && w.needs == Listings(classes, w.group) && w.slots == weekly {
      var i :| 0 <= i < |totals| && totals[i].1 > weekly && w == OverAt(totals, weekly, i);
      CountAt(totals, i);
    }
    forall g: nat ensures (exists w :: w in r && w.group == g) <==> Listings(classes, g) > weekly {
      if Listings(classes, g) > weekly {
        assert g in GroupListings(classes);
        assert Listed(totals, g);
        var i :| 0 <= i < |totals| && totals[i].0 == g;
        CountAt(totals, i);
        assert OverAt(totals, weekly, i) in r;
      }
    }
    r
  }

  // ---------------------------------------------------------------------------
  // The audit
  // ---------------------------------------------------------------------------

  /** `_audit_schedule`, with the number of labels of the configured day (built with the
      default break lengths): the missing-session warnings, then the capacity warnings. */
  function AuditSchedule(classes: seq<Class>, filled: Filled, labelCount: nat): (r: seq<AuditWarning>)
    requires KeysAreClasses(classes, filled)
    ensures forall k ::
      (exists w :: w in r && w.Missing? && w.key == k) <==>
      multiset(AssignedKeys(classes, filled))[k] < multiset(RequiredKeys(classes))[k]
    ensures forall g: nat ::
      (exists w :: w in r && w.OverCapacity? && w.group == g) <==> Listings(classes, g) > WeeklySlots(labelCount)
  {
    var missing := MissingWarnings(classes, filled);
    var over := OverWarnings(classes, labelCount);
    var r := missing + over;
    forall w | w in r && w.Missing? ensures w in missing {}
    forall w | w in r && w.OverCapacity? ensures w in over {}
    r
  }

  /** In a dictionary with distinct keys, the count of a listed key is its entry's. */
  lemma {:induction false} CountAt<K(!new)>(t: Counts<K>, i: nat)
    requires DistinctKeys(t) && i < |t|
    ensures Count(t, t[i].0) == t[i].1
    decreases i
  {
    if i > 0 {
      assert t[0].0 != t[i].0;
      assert t[1..][i - 1] == t[i];
      CountAt(t[1..], i - 1);
    }
  }
}
