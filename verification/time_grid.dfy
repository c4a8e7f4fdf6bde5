/** The time grid of the web front ends: the hourly labels of a teaching day, built
    from the configured start and end times (webapp/app.py and api/routers/simple.py),
    and the filter that keeps only the free fields a label stands for. */
module TimeGrid {
  import opened Model
  import opened Text

  // ---------------------------------------------------------------------------
  // Clock times
  // ---------------------------------------------------------------------------

  /** A time of day as `datetime` accepts it. */
  datatype Clock = Clock(hour: int, minute: int)

  predicate ValidClock(c: Clock) {
    0 <= c.hour < 24 && 0 <= c.minute < 60
  }

  /** Minutes after midnight of the reference day. */
  function Minutes(c: Clock): int {
    c.hour * 60 + c.minute
  }

  const SlotMinutes: int := 60
  const ShortBreakSlot: nat := 2
  const LunchSlot: nat := 4

  /** An hourly label, in minutes after midnight of the reference day (a break may be
      negative or run past midnight; `datetime` arithmetic follows it). */
  datatype Label = Label(from: int, to: int)

  // ---------------------------------------------------------------------------
  // The reference layout of the labels
  // ---------------------------------------------------------------------------

  /** The slot number of the `i`-th label: slot 2 is the short break and slot 4 lunch,
      and neither gets a label. */
  function SlotOfLabel(i: nat): (s: nat)
    ensures s != ShortBreakSlot && s != LunchSlot
    ensures i <= s <= i + 2
  {
    if i < 2 then i else if i == 2 then 3 else i + 2
  }

  /** The minutes the breaks before slot `s` add. */
  function BreaksBefore(s: nat, short: int, lunch: int): int {
    (if s > ShortBreakSlot then short else 0) + (if s > LunchSlot then lunch else 0)
  }

  /** Where the `i`-th label starts: `i` hours plus the breaks before its slot. */
  function LabelStart(start: int, short: int, lunch: int, i: nat): int {
    start + SlotMinutes * i + BreaksBefore(SlotOfLabel(i), short, lunch)
  }

  function LabelAt(start: int, short: int, lunch: int, i: nat): Label {
    Label(LabelStart(start, short, lunch, i), LabelStart(start, short, lunch, i) + SlotMinutes)
  }

  /** The `i`-th label is produced: its hour ends by `end`, and the day had not ended
      when each break before it began. */
  predicate Fits(start: int, end: int, short: int, lunch: int, i: nat) {
    && LabelStart(start, short, lunch, i) + SlotMinutes <= end
    && (i >= 2 ==> LabelStart(start, short, lunch, 1) + SlotMinutes < end)
    && (i >= 3 ==> LabelStart(start, short, lunch, 2) + SlotMinutes < end)
  }

  // ---------------------------------------------------------------------------
  // The loop of `_build_time_labels` (webapp/app.py)
  // ---------------------------------------------------------------------------

  /** The `while current < end_time` loop from `current` at slot number `slot`. */
  function Loop(current: int, end: int, slot: nat, short: int, lunch: int): seq<Label>
    decreases (if slot < 5 then 5 - slot else 0), end - current
  {
    if current >= end then []
    else if slot == ShortBreakSlot then Loop(current + short, end, slot + 1, short, lunch)
    else if slot == LunchSlot then Loop(current + lunch, end, slot + 1, short, lunch)
    else if current + SlotMinutes > end then []
    else [Label(current, current + SlotMinutes)] + Loop(current + SlotMinutes, end, slot + 1, short, lunch)
  }

  /** Labels produced before the loop reaches slot number `slot`. */
  function Emitted(slot: nat): nat {
    if slot <= 2 then slot else if slot <= 4 then slot - 1 else slot - 2
  }

  /** Where the loop stands when it reaches slot number `slot`. */
  function Cursor(start: int, short: int, lunch: int, slot: nat): int {
    if slot == ShortBreakSlot then LabelStart(start, short, lunch, 1) + SlotMinutes
    else if slot == LunchSlot then LabelStart(start, short, lunch, 2) + SlotMinutes
    else LabelStart(start, short, lunch, Emitted(slot))
  }

  /** The breaks the loop has passed by slot number `slot` began before the end. */
  predicate Passed(start: int, end: int, short: int, lunch: int, slot: nat) {
    && (slot > ShortBreakSlot ==> LabelStart(start, short, lunch, 1) + SlotMinutes < end)
    && (slot > LunchSlot ==> LabelStart(start, short, lunch, 2) + SlotMinutes < end)
  }

  /** Where the loop stops, the next label of the layout does not fit. */
  lemma LoopStops(start: int, end: int, short: int, lunch: int, slot: nat)
    requires var cur := Cursor(start, short, lunch, slot);
      cur >= end || (slot != ShortBreakSlot && slot != LunchSlot && cur + SlotMinutes > end)
    ensures Loop(Cursor(start, short, lunch, slot), end, slot, short, lunch) == []
    ensures !Fits(start, end, short, lunch, Emitted(slot))
  {
    if slot != ShortBreakSlot && slot != LunchSlot {
      assert LabelStart(start, short, lunch, Emitted(slot)) == Cursor(start, short, lunch, slot);
    }
  }

  /** From slot number `slot` on, the loop emits exactly the next labels of the layout
      that fit and stops at the first that does not. */
  predicate LayoutFrom(start: int, end: int, short: int, lunch: int, slot: nat) {
    LayoutOf(start, end, short, lunch, Emitted(slot), Loop(Cursor(start, short, lunch, slot), end, slot, short, lunch))
  }

  /** `r` is the run of the layout's labels from number `k` on that fit, up to the
      first that does not. */
  predicate LayoutOf(start: int, end: int, short: int, lunch: int, k: nat, r: seq<Label>) {
    && (forall i :: k <= i < k + |r| ==> r[i - k] == LabelAt(start, short, lunch, i) && Fits(start, end, short, lunch, i))
    && !Fits(start, end, short, lunch, k + |r|)
  }

  /** From any point it reaches, the loop emits exactly the next labels of the layout
      that fit and stops at the first that does not. */
  lemma {:induction false} LoopLayout(start: int, end: int, short: int, lunch: int, slot: nat)
    requires Passed(start, end, short, lunch, slot)
    ensures LayoutFrom(start, end, short, lunch, slot)
    decreases (if slot < 5 then 5 - slot else 0), end - Cursor(start, short, lunch, slot)
  {
    var cur := Cursor(start, short, lunch, slot);
    if cur >= end || (slot != ShortBreakSlot && slot != LunchSlot && cur + SlotMinutes > end) {
      LoopStops(start, end, short, lunch, slot);
    } else {
      CursorStep(start, short, lunch, slot);
      LoopLayout(start, end, short, lunch, slot + 1);
      if slot == ShortBreakSlot || slot == LunchSlot {
        BreakStep(start, end, short, lunch, slot);
      } else {
        EmitStep(start, end, short, lunch, slot);
      }
    }
  }

  /** At a break slot the loop only moves on: it goes on as from the next slot number. */
  lemma BreakStep(start: int, end: int, short: int, lunch: int, slot: nat)
    requires (slot == ShortBreakSlot || slot == LunchSlot) && Cursor(start, short, lunch, slot) < end
    requires LayoutFrom(start, end, short, lunch, slot + 1)
    ensures LayoutFrom(start, end, short, lunch, slot)
  {
    CursorStep(start, short, lunch, slot);
    var cur := Cursor(start, short, lunch, slot);
    assert Loop(cur, end, slot, short, lunch) == Loop(Cursor(start, short, lunch, slot + 1), end, slot + 1, short, lunch);
  }

  /** At a teaching slot where the next label fits, the loop emits it and goes on as
      from the next slot number. */
  lemma EmitStep(start: int, end: int, short: int, lunch: int, slot: nat)
    requires slot != ShortBreakSlot && slot != LunchSlot && Passed(start, end, short, lunch, slot)
    requires var cur := Cursor(start, short, lunch, slot); cur < end && cur + SlotMinutes <= end
    requires LayoutFrom(start, end, short, lunch, slot + 1)
    ensures LayoutFrom(start, end, short, lunch, slot)
  {
    CursorStep(start, short, lunch, slot);
    PassedBreaks(start, end, short, lunch, slot);
    var cur := Cursor(start, short, lunch, slot);
    LoopEmits(cur, end, slot, short, lunch);
    ShiftLabels(start, end, short, lunch, Emitted(slot), Label(cur, cur + SlotMinutes),
      Loop(cur + SlotMinutes, end, slot + 1, short, lunch));
  }

  /** At a teaching slot with room for an hour, the loop emits that hour first. */
  lemma LoopEmits(current: int, end: int, slot: nat, short: int, lunch: int)
    requires slot != ShortBreakSlot && slot != LunchSlot && current + SlotMinutes <= end
    ensures Loop(current, end, slot, short, lunch)
      == [Label(current, current + SlotMinutes)] + Loop(current + SlotMinutes, end, slot + 1, short, lunch)
  {
  }

  /** The breaks passed before a teaching slot are those before its label. */
  lemma PassedBreaks(start: int, end: int, short: int, lunch: int, slot: nat)
    requires slot != ShortBreakSlot && slot != LunchSlot && Passed(start, end, short, lunch, slot)
    ensures Emitted(slot) >= 2 ==> LabelStart(start, short, lunch, 1) + SlotMinutes < end
    ensures Emitted(slot) >= 3 ==> LabelStart(start, short, lunch, 2) + SlotMinutes < end
  {
  }

  /** Putting the layout's label number `k` in front of the labels from number `k + 1` on
      gives the labels from number `k` on. */
  lemma ShiftLabels(start: int, end: int, short: int, lunch: int, k: nat, x: Label, rest: seq<Label>)
    requires x == LabelAt(start, short, lunch, k)
    requires k >= 2 ==> LabelStart(start, short, lunch, 1) + SlotMinutes < end
    requires k >= 3 ==> LabelStart(start, short, lunch, 2) + SlotMinutes < end
    requires LabelStart(start, short, lunch, k) + SlotMinutes <= end
    requires LayoutOf(start, end, short, lunch, k + 1, rest)
    ensures LayoutOf(start, end, short, lunch, k, [x] + rest)
  {
    var r := [x] + rest;
    assert Fits(start, end, short, lunch, k);
    forall i | k < i < k + |r|
      ensures r[i - k] == LabelAt(start, short, lunch, i)
    {
      assert r[i - k] == rest[i - (k + 1)];
    }
  }

  /** How the loop's position moves from one slot number to the next. */
  lemma CursorStep(start: int, short: int, lunch: int, slot: nat)
    ensures slot == ShortBreakSlot ==> Cursor(start, short, lunch, slot + 1) == Cursor(start, short, lunch, slot) + short
    ensures slot == LunchSlot ==> Cursor(start, short, lunch, slot + 1) == Cursor(start, short, lunch, slot) + lunch
    ensures slot == ShortBreakSlot || slot == LunchSlot ==> Emitted(slot + 1) == Emitted(slot)
    ensures slot != ShortBreakSlot && slot != LunchSlot ==>
      && LabelStart(start, short, lunch, Emitted(slot)) == Cursor(start, short, lunch, slot)
      && Cursor(start, short, lunch, slot + 1) == Cursor(start, short, lunch, slot) + SlotMinutes
      && Emitted(slot + 1) == Emitted(slot) + 1
  {
  }

  /** `_build_time_labels` of webapp/app.py: one-hour labels from `start`, slots 2 and 4
      spent on the short break and on lunch, until the next hour would end after `end`. */
  function TimeLabels(start: Clock, end: Clock, short: int, lunch: int): (r: seq<Label>)
    requires ValidClock(start) && ValidClock(end)
    ensures forall i :: 0 <= i < |r| ==>
      r[i] == LabelAt(Minutes(start), short, lunch, i) && Fits(Minutes(start), Minutes(end), short, lunch, i)
    ensures !Fits(Minutes(start), Minutes(end), short, lunch, |r|)
  {
    LoopLayout(Minutes(start), Minutes(end), short, lunch, 0);
    assert Emitted(0) == 0 && Cursor(Minutes(start), short, lunch, 0) == Minutes(start);
    Loop(Minutes(start), Minutes(end), 0, short, lunch)
  }

  /** Each label is one hour long and ends by the end of the day; with breaks that do not
      run backwards, each label ends before the next begins. */
  lemma LabelsInOrder(start: Clock, end: Clock, short: int, lunch: int, i: nat)
    requires ValidClock(start) && ValidClock(end)
    requires i < |TimeLabels(start, end, short, lunch)|
    ensures var r := TimeLabels(start, end, short, lunch);
      && r[i].to == r[i].from + SlotMinutes && r[i].to <= Minutes(end)
      && (short >= 0 && lunch >= 0 && i + 1 < |r| ==> r[i].to <= r[i + 1].from)
  {
    var r := TimeLabels(start, end, short, lunch);
    if short >= 0 && lunch >= 0 && i + 1 < |r| {
      assert BreaksBefore(SlotOfLabel(i), short, lunch) <= BreaksBefore(SlotOfLabel(i + 1), short, lunch);
    }
  }

  /** `HH:MM` of a point in time, the hour taken modulo a day as `datetime` shows it. */
  function ClockText(t: int): (s: string)
    ensures |s| == 5 && s[2] == ':'
    ensures AllDigits(s[..2]) && ParseNat(s[..2]) == (t / 60) % 24
    ensures AllDigits(s[3..]) && ParseNat(s[3..]) == t % 60
  {
    var h := ZeroPad2((t / 60) % 24);
    var m := ZeroPad2(t % 60);
    assert (h + ":" + m)[..2] == h;
    assert (h + ":" + m)[3..] == m;
    h + ":" + m
  }

  /** The text of a label, `HH:MM-HH:MM`; both times can be read back from it. */
  function LabelText(l: Label): (s: string)
    ensures |s| == 11 && s[5] == '-'
    ensures s[..5] == ClockText(l.from) && s[6..] == ClockText(l.to)
  {
    ClockText(l.from) + "-" + ClockText(l.to)
  }

  // ---------------------------------------------------------------------------
  // `_build_time_labels` of api/routers/simple.py
  // ---------------------------------------------------------------------------

  /** The label of hour `h`, minutes `minute` at both ends; the hour is not wrapped. */
  function HourLabel(h: int, minute: int): string {
    ZeroPad2(h) + ":" + ZeroPad2(minute) + "-" + ZeroPad2(h + 1) + ":" + ZeroPad2(minute)
  }

  /** The values the counter of the `while h < eh` loop takes, from hour `h`. */
  function LoopHours(h: int, endHour: int): (r: seq<int>)
    ensures |r| == if h < endHour then endHour - h else 0
    ensures forall i :: 0 <= i < |r| ==> r[i] == h + i
    decreases endHour - h
  {
    if h < endHour then [h] + LoopHours(h + 1, endHour) else []
  }

  /** The `while h < eh` loop from hour `h`: one label per pass. */
  function HourLabels(h: int, endHour: int, minute: int): (r: seq<string>)
    ensures |r| == if h < endHour then endHour - h else 0
    ensures forall i :: 0 <= i < |r| ==> r[i] == HourLabel(h + i, minute)
  {
    var hours := LoopHours(h, endHour);
    seq(|hours|, i requires 0 <= i < |hours| => HourLabel(hours[i], minute))
  }

  /** `_build_time_labels` of the simple router: one label per whole hour from the start
      hour up to the end hour, the end minutes ignored. */
  function SimpleTimeLabels(startHour: int, startMinute: int, endHour: int): (r: seq<string>)
    ensures |r| == if startHour < endHour then endHour - startHour else 0
    ensures forall i :: 0 <= i < |r| ==> r[i] == HourLabel(startHour + i, startMinute)
  {
    HourLabels(startHour, endHour, startMinute)
  }

  /** A label of the simple router names its hour and the next: both read back from the text. */
  lemma HourLabelReadsBack(h: nat, minute: nat)
    requires h + 1 < 100 && minute < 100
    ensures var s := HourLabel(h, minute);
      |s| == 11 && s[2] == ':' && s[5] == '-' && s[8] == ':'
      && ParseNat(s[..2]) == h && ParseNat(s[3..5]) == minute && ParseNat(s[6..8]) == h + 1 && ParseNat(s[9..]) == minute
  {
    var s := HourLabel(h, minute);
    assert s[..2] == ZeroPad2(h);
    assert s[3..5] == ZeroPad2(minute);
    assert s[6..8] == ZeroPad2(h + 1);
    assert s[9..] == ZeroPad2(minute);
  }

  // ---------------------------------------------------------------------------
  // The free-row filter of `_run_schedule_for_config` (webapp/app.py)
  // ---------------------------------------------------------------------------

  /** `allowed_rows`: row `day*12 + t` for each teaching day and each label index `t`
      other than 2 and 4. */
  function AllowedRows(labelCount: nat): set<nat> {
    set day: nat, t: nat | day < TeachingDays && t < labelCount && t != ShortBreakSlot && t != LunchSlot :: RowOf(day, t)
  }

  /** With at most a day's worth of labels the allowed rows are the label slots of the
      five teaching days, the break slots left out. */
  lemma AllowedRowsShape(labelCount: nat, row: nat)
    requires labelCount <= SlotsPerDay
    ensures row in AllowedRows(labelCount) <==>
      row < RowOf(TeachingDays, 0) && row % SlotsPerDay < labelCount && row % SlotsPerDay != ShortBreakSlot && row % SlotsPerDay != LunchSlot
  {
    if row < RowOf(TeachingDays, 0) && row % SlotsPerDay < labelCount && row % SlotsPerDay != ShortBreakSlot && row % SlotsPerDay != LunchSlot {
      var day, t := row / SlotsPerDay, row % SlotsPerDay;
      assert row == RowOf(day, t);
    }
    if row in AllowedRows(labelCount) {
      var day: nat, t: nat :| day < TeachingDays && t < labelCount && t != ShortBreakSlot && t != LunchSlot && row == RowOf(day, t);
      RowOfInverse(day, t);
    }
  }

  /** `free[:] = [field for field in free if field[0] in allowed_rows]`. */
  function FilterFree(free: seq<Field>, labelCount: nat): (r: seq<Field>)
    ensures forall x :: multiset(r)[x] == if x.0 in AllowedRows(labelCount) then multiset(free)[x] else 0
    ensures forall x :: x in r <==> x in free && x.0 in AllowedRows(labelCount)
  {
    if |free| == 0 then []
    else
      var rest := FilterFree(free[1..], labelCount);
      assert free == [free[0]] + free[1..];
      (if free[0].0 in AllowedRows(labelCount) then [free[0]] else []) + rest
  }

  lemma FilterFreeEmpty(labelCount: nat)
    ensures FilterFree([], labelCount) == []
  {
  }

  /** One step of the filter: the head is kept or dropped, the tail is filtered. */
  lemma FilterFreeHead(free: seq<Field>, labelCount: nat)
    requires |free| > 0
    ensures FilterFree(free, labelCount)
            == (if free[0].0 in AllowedRows(labelCount) then [free[0]] else []) + FilterFree(free[1..], labelCount)
  {
  }

  /** The filter keeps a single field exactly when its row is allowed. */
  lemma FilterFreeSingle(x: Field, labelCount: nat)
    ensures FilterFree([x], labelCount) == if x.0 in AllowedRows(labelCount) then [x] else []
  {
    assert [x][1..] == [];
  }

  /** The filter works piecewise: filtering a concatenation concatenates the filtered
      parts. With `FilterFreeSingle` this fixes the result as the kept fields in their
      original order, as the list comprehension does. */
  lemma {:induction false} FilterFreeAppend(a: seq<Field>, b: seq<Field>, labelCount: nat)
    ensures FilterFree(a + b, labelCount) == FilterFree(a, labelCount) + FilterFree(b, labelCount)
    decreases |a|
  {
    if |a| == 0 {
      assert a + b == b;
      FilterFreeEmpty(labelCount);
    } else {
      hide FilterFree;
      var ab := a + b;
      assert ab[0] == a[0] && ab[1..] == a[1..] + b;
      FilterFreeHead(ab, labelCount);
      FilterFreeAppend(a[1..], b, labelCount);
      FilterFreeHead(a, labelCount);
      ConcatShift(FilterFree(ab, labelCount), FilterFree(a, labelCount), FilterFree(b, labelCount),
                  FilterFree(a[1..], labelCount), if a[0].0 in AllowedRows(labelCount) then [a[0]] else []);
    }
  }

  /** `ab` is `h` then `t` then `tb`, and `a` is `h` then `t`: so `ab` is `a` then `tb`. */
  lemma ConcatShift<T>(ab: seq<T>, a: seq<T>, tb: seq<T>, t: seq<T>, h: seq<T>)
    requires ab == h + (t + tb) && a == h + t
    ensures ab == a + tb
  {
  }

}
