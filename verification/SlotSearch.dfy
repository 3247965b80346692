/**
 The search for the next free weekly posting slot.

 Instants are nanoseconds since the zero time of Go's time package (January 1 of year 1, a Monday); a
 location is a fixed offset from UTC in whole minutes. Schedule columns are read as local times.
 */
module SlotSearch {
  import opened Wrappers

  type Instant = int

  const MINUTE: int := 60_000_000_000
  const HORIZON_DAYS: int := 30

  /** The rows that the schedule handlers let in. */
  type Schedule = s: ScheduleRow | 0 <= s.weekday < 7 && 0 <= s.hour < 24 && 0 <= s.minute < 60
    witness ScheduleRow("", 0, 0, 0)

  datatype ScheduleRow = ScheduleRow(id: string, weekday: int, hour: int, minute: int)

  /** What is fixed during one search: the current time and the offset of the location. */
  datatype Clock = Clock(now: Instant, offset: int)

  /** The number of the local day that contains `now`. */
  function Today(c: Clock): int {
    (c.now / MINUTE + c.offset) / 1440
  }

  /** time.Date(year, month, day, hour, minute, 0, 0, loc) for a day given by its number. */
  function LocalTime(c: Clock, day: int, hour: int, minute: int): Instant {
    (day * 1440 + hour * 60 + minute - c.offset) * MINUTE
  }

  /** 0 is Sunday; day 0 is a Monday. */
  function Weekday(day: int): int {
    (day + 1) % 7
  }

  predicate SameMinute(a: Instant, b: Instant) {
    a / MINUTE == b / MINUTE
  }

  predicate Occupied(posts: seq<Instant>, slot: Instant) {
    exists i :: 0 <= i < |posts| && SameMinute(posts[i], slot)
  }

  method IsSlotOccupied(posts: seq<Instant>, slot: Instant) returns (occupied: bool)
    ensures occupied == Occupied(posts, slot)
  {
    for i := 0 to |posts|
      invariant !Occupied(posts[..i], slot)
    {
      if SameMinute(posts[i], slot) {
        return true;
      }
    }
    occupied := false;
  }

  function SlotTime(c: Clock, day: int, s: Schedule): Instant {
    LocalTime(c, Today(c) + day, s.hour, s.minute)
  }

  /** The schedule has a slot on this day of the horizon, still ahead. */
  predicate HasSlot(c: Clock, day: int, s: Schedule) {
    0 <= day < HORIZON_DAYS && Weekday(Today(c) + day) == s.weekday && SlotTime(c, day, s) > c.now
  }

  /** All slots ahead of `now` within the horizon. */
  ghost function Slots(c: Clock, schedules: seq<Schedule>): set<Instant> {
    set day, s | 0 <= day < HORIZON_DAYS && s in schedules && HasSlot(c, day, s) :: SlotTime(c, day, s)
  }

  /** The slots whose minute no post is scheduled in. */
  ghost function FreeSlots(c: Clock, schedules: seq<Schedule>, posts: seq<Instant>): set<Instant> {
    set t | t in Slots(c, schedules) && !Occupied(posts, t)
  }

  // ----- what a slot is on the clock of the location -----

  /** A whole minute that shows the hour, the minute and the weekday of the schedule, 0 to 29 days after the day of `now`. */
  ghost predicate IsLocalSlot(c: Clock, t: Instant, s: Schedule) {
    && t % MINUTE == 0
    && (t / MINUTE + c.offset) % 1440 == 60 * s.hour + s.minute
    && ((t / MINUTE + c.offset) / 1440 + 1) % 7 == s.weekday
    && 0 <= (t / MINUTE + c.offset) / 1440 - (c.now / MINUTE + c.offset) / 1440 < 30
  }

  /** Every post is over before the minute of the slot or comes after it. */
  ghost predicate IsFree(posts: seq<Instant>, t: Instant) {
    forall p :: p in posts ==> p < t || p >= t + MINUTE
  }

  lemma MinutesOfDay(day: int, minute: int)
    requires 0 <= minute < 1440
    ensures (day * 1440 + minute) / 1440 == day && (day * 1440 + minute) % 1440 == minute
  {
  }

  lemma MinutesOfInstant(k: int)
    ensures (k * MINUTE) / MINUTE == k && (k * MINUTE) % MINUTE == 0
  {
  }

  lemma SlotTimeIsLocal(c: Clock, day: int, s: Schedule)
    requires HasSlot(c, day, s)
    ensures IsLocalSlot(c, SlotTime(c, day, s), s) && SlotTime(c, day, s) > c.now
  {
    var d, m := Today(c) + day, s.hour * 60 + s.minute;
    MinutesOfInstant(d * 1440 + m - c.offset);
    MinutesOfDay(d, m);
  }

  lemma LocalSlotIsSlotTime(c: Clock, t: Instant, s: Schedule)
    requires IsLocalSlot(c, t, s) && t > c.now
    ensures var day := (t / MINUTE + c.offset) / 1440 - Today(c);
      HasSlot(c, day, s) && t == SlotTime(c, day, s)
  {
    var local := t / MINUTE + c.offset;
    assert local == local / 1440 * 1440 + (60 * s.hour + s.minute);
    assert t == t / MINUTE * MINUTE;
  }

  lemma FreeIffUnoccupied(posts: seq<Instant>, t: Instant)
    requires t % MINUTE == 0
    ensures IsFree(posts, t) <==> !Occupied(posts, t)
  {
    forall p
      ensures SameMinute(p, t) <==> t <= p < t + MINUTE
    {
      MinuteOf(p, t);
    }
    if Occupied(posts, t) {
      var i :| 0 <= i < |posts| && SameMinute(posts[i], t);
      assert posts[i] in posts;
    }
    if !IsFree(posts, t) {
      var p :| p in posts && !(p < t || p >= t + MINUTE);
      var i :| 0 <= i < |posts| && posts[i] == p;
      assert SameMinute(posts[i], t);
    }
  }

  lemma MinuteOf(p: Instant, t: Instant)
    requires t % MINUTE == 0
    ensures SameMinute(p, t) <==> t <= p < t + MINUTE
  {
    assert p == p / MINUTE * MINUTE + p % MINUTE;
    assert t == t / MINUTE * MINUTE;
  }

  /** The free slots, said in local time and without reference to the search. */
  lemma FreeSlotsAre(c: Clock, schedules: seq<Schedule>, posts: seq<Instant>, t: Instant)
    ensures t in FreeSlots(c, schedules, posts) <==>
            t > c.now && IsFree(posts, t) && exists s :: s in schedules && IsLocalSlot(c, t, s)
  {
    if t in FreeSlots(c, schedules, posts) {
      var day, s :| 0 <= day < HORIZON_DAYS && s in schedules && HasSlot(c, day, s) && t == SlotTime(c, day, s);
      SlotTimeIsLocal(c, day, s);
      FreeIffUnoccupied(posts, t);
    }
    if t > c.now && IsFree(posts, t) && exists s :: s in schedules && IsLocalSlot(c, t, s) {
      var s :| s in schedules && IsLocalSlot(c, t, s);
      LocalSlotIsSlotTime(c, t, s);
      FreeIffUnoccupied(posts, t);
    }
  }

  datatype Candidate = Candidate(schedule: Schedule, when: Instant)

  ghost predicate SortedByTime(candidates: seq<Candidate>) {
    forall i, j :: 0 <= i < j < |candidates| ==> candidates[i].when <= candidates[j].when
  }

  function InsertByTime(sorted: seq<Candidate>, x: Candidate): seq<Candidate> {
    if sorted == [] || x.when < sorted[0].when then [x] + sorted
    else [sorted[0]] + InsertByTime(sorted[1..], x)
  }

  lemma {:induction false} InsertAdds(sorted: seq<Candidate>, x: Candidate)
    ensures multiset(InsertByTime(sorted, x)) == multiset(sorted) + multiset{x}
  {
    if sorted != [] && !(x.when < sorted[0].when) {
      InsertAdds(sorted[1..], x);
      assert sorted == [sorted[0]] + sorted[1..];
    }
  }

  lemma {:induction false} InsertKeepsOrder(sorted: seq<Candidate>, x: Candidate)
    requires SortedByTime(sorted)
    ensures SortedByTime(InsertByTime(sorted, x))
  {
    if sorted != [] && !(x.when < sorted[0].when) {
      var tail := sorted[1..];
      var rest := InsertByTime(tail, x);
      InsertKeepsOrder(tail, x);
      InsertAdds(tail, x);
      forall i | 0 <= i < |rest|
        ensures sorted[0].when <= rest[i].when
      {
        assert rest[i] in multiset(rest);
        assert rest[i] == x || rest[i] in tail;
      }
    }
  }

  /** sort.Slice by time; an insertion sort stands for the library's sort. */
  method SortByTime(candidates: seq<Candidate>) returns (sorted: seq<Candidate>)
    ensures SortedByTime(sorted)
    ensures multiset(sorted) == multiset(candidates)
  {
    sorted := [];
    for i := 0 to |candidates|
      invariant SortedByTime(sorted)
      invariant multiset(sorted) == multiset(candidates[..i])
    {
      assert candidates[..i + 1] == candidates[..i] + [candidates[i]];
      InsertAdds(sorted, candidates[i]);
      InsertKeepsOrder(sorted, candidates[i]);
      sorted := InsertByTime(sorted, candidates[i]);
    }
    assert candidates[..|candidates|] == candidates;
  }

  /** One day of the search: the free slots of the day, in schedule order. */
  method DayCandidates(c: Clock, schedules: seq<Schedule>, posts: seq<Instant>, day: int) returns (candidates: seq<Candidate>)
    requires 0 <= day < HORIZON_DAYS
    ensures forall x :: x in candidates ==>
      x.schedule in schedules && HasSlot(c, day, x.schedule) && x.when == SlotTime(c, day, x.schedule) && !Occupied(posts, x.when)
    ensures forall s :: s in schedules && HasSlot(c, day, s) && !Occupied(posts, SlotTime(c, day, s)) ==>
      Candidate(s, SlotTime(c, day, s)) in candidates
  {
    candidates := [];
    for i := 0 to |schedules|
      invariant forall x :: x in candidates ==>
        x.schedule in schedules && HasSlot(c, day, x.schedule) && x.when == SlotTime(c, day, x.schedule) && !Occupied(posts, x.when)
      invariant forall s :: s in schedules[..i] && HasSlot(c, day, s) && !Occupied(posts, SlotTime(c, day, s)) ==>
        Candidate(s, SlotTime(c, day, s)) in candidates
    {
      var s := schedules[i];
      if s.weekday != Weekday(Today(c) + day) {
        continue;
      }
      var slot := LocalTime(c, Today(c) + day, s.hour, s.minute);
      if !(slot > c.now) {
        continue;
      }
      var occupied := IsSlotOccupied(posts, slot);
      if occupied {
        continue;
      }
      candidates := candidates + [Candidate(s, slot)];
    }
    assert schedules[..|schedules|] == schedules;
  }

  /** Slots of an earlier day come before slots of a later one. */
  lemma EarlierDayEarlierSlot(c: Clock, d: int, s: Schedule, e: int, t: Schedule)
    requires d < e
    ensures SlotTime(c, d, s) < SlotTime(c, e, t)
  {
  }

  /**
   The search returns the least free slot together with a schedule that has it, and nothing exactly when
   no slot is free.
   */
  method FindNextConfiguredScheduleSlotTime(c: Clock, schedules: seq<Schedule>, posts: seq<Instant>)
    returns (found: Option<Candidate>)
    ensures found.None? <==> FreeSlots(c, schedules, posts) == {}
    ensures found.Some? ==>
      && found.value.when in FreeSlots(c, schedules, posts)
      && (forall t :: t in FreeSlots(c, schedules, posts) ==> found.value.when <= t)
      && found.value.schedule in schedules
      && (exists day :: HasSlot(c, day, found.value.schedule) && found.value.when == SlotTime(c, day, found.value.schedule))
    ensures found.Some? ==>
      found.value.when > c.now && IsFree(posts, found.value.when) && IsLocalSlot(c, found.value.when, found.value.schedule)
    ensures forall t, s :: s in schedules && IsLocalSlot(c, t, s) && t > c.now && IsFree(posts, t) ==>
      found.Some? && found.value.when <= t
  {
    forall t
      ensures t in FreeSlots(c, schedules, posts) <==>
              t > c.now && IsFree(posts, t) && exists s :: s in schedules && IsLocalSlot(c, t, s)
    {
      FreeSlotsAre(c, schedules, posts, t);
    }
    if |schedules| == 0 {
      return None;
    }
    for day := 0 to HORIZON_DAYS
      invariant forall d, s :: 0 <= d < day && s in schedules && HasSlot(c, d, s) ==> Occupied(posts, SlotTime(c, d, s))
    {
      var candidates := DayCandidates(c, schedules, posts, day);
      var sorted := SortByTime(candidates);
      SameElements(sorted, candidates);
      if |sorted| > 0 {
        assert sorted[0] in candidates;
        LeastOfDayIsLeast(c, schedules, posts, day, sorted);
        SlotTimeIsLocal(c, day, sorted[0].schedule);
        return Some(sorted[0]);
      }
      assert candidates == [];
    }
    found := None;
  }

  lemma SameElements<T>(a: seq<T>, b: seq<T>)
    requires multiset(a) == multiset(b)
    ensures |a| == |b|
    ensures forall x :: x in a <==> x in b
  {
    assert |multiset(a)| == |a| && |multiset(b)| == |b|;
    forall x
      ensures x in a <==> x in b
    {
      assert x in a <==> x in multiset(a);
      assert x in b <==> x in multiset(b);
    }
  }

  lemma LeastOfDayIsLeast(c: Clock, schedules: seq<Schedule>, posts: seq<Instant>, day: int, sorted: seq<Candidate>)
    requires 0 <= day < HORIZON_DAYS && sorted != [] && SortedByTime(sorted)
    requires forall x :: x in sorted ==>
      x.schedule in schedules && HasSlot(c, day, x.schedule) && x.when == SlotTime(c, day, x.schedule) && !Occupied(posts, x.when)
    requires forall s :: s in schedules && HasSlot(c, day, s) && !Occupied(posts, SlotTime(c, day, s)) ==>
      Candidate(s, SlotTime(c, day, s)) in sorted
    requires forall d, s :: 0 <= d < day && s in schedules && HasSlot(c, d, s) ==> Occupied(posts, SlotTime(c, d, s))
    ensures sorted[0].when in FreeSlots(c, schedules, posts)
    ensures forall t :: t in FreeSlots(c, schedules, posts) ==> sorted[0].when <= t
  {
    var first := sorted[0];
    assert first in sorted;
    assert first.when in Slots(c, schedules);
    forall t | t in FreeSlots(c, schedules, posts)
      ensures first.when <= t
    {
      var d, s :| 0 <= d < HORIZON_DAYS && s in schedules && HasSlot(c, d, s) && t == SlotTime(c, d, s);
      if d == day {
        var x := Candidate(s, t);
        assert x in sorted;
        var k :| 0 <= k < |sorted| && sorted[k] == x;
      } else if d > day {
        EarlierDayEarlierSlot(c, day, first.schedule, d, s);
      }
    }
  }
}
