/** What repeated searches and bookings amount to, and how many bookings are guaranteed to fit. */
module SlotBooking {
  import opened Wrappers
  import Ids
  import opened SlotSearch

  // ----- what the answer depends on -----

  lemma WholeMinutes(k: int, l: int)
    ensures SameMinute(k * MINUTE, l * MINUTE) <==> k == l
  {
  }

  /** Whole-minute slots share a minute only when they are equal. */
  lemma SlotsAreWholeMinutes(c: Clock, schedules: seq<Schedule>, t: Instant, u: Instant)
    requires t in Slots(c, schedules) && u in Slots(c, schedules)
    ensures SameMinute(t, u) <==> t == u
  {
    var d, s :| 0 <= d < HORIZON_DAYS && s in schedules && HasSlot(c, d, s) && t == SlotTime(c, d, s);
    var e, r :| 0 <= e < HORIZON_DAYS && r in schedules && HasSlot(c, e, r) && u == SlotTime(c, e, r);
    WholeMinutes((Today(c) + d) * 1440 + s.hour * 60 + s.minute - c.offset,
                 (Today(c) + e) * 1440 + r.hour * 60 + r.minute - c.offset);
  }

  /** The order and repetition of schedules and posts do not matter. */
  lemma OrderDoesNotMatter(c: Clock, schedules: seq<Schedule>, schedules': seq<Schedule>, posts: seq<Instant>, posts': seq<Instant>)
    requires forall s :: s in schedules <==> s in schedules'
    requires forall p :: p in posts <==> p in posts'
    ensures FreeSlots(c, schedules, posts) == FreeSlots(c, schedules', posts')
  {
    assert Slots(c, schedules) == Slots(c, schedules');
    forall t
      ensures Occupied(posts, t) <==> Occupied(posts', t)
    {
      OccupiedByMember(posts, t);
      OccupiedByMember(posts', t);
    }
  }

  lemma OccupiedByMember(posts: seq<Instant>, t: Instant)
    ensures Occupied(posts, t) <==> exists p :: p in posts && SameMinute(p, t)
  {
    if p :| p in posts && SameMinute(p, t) {
      var i :| 0 <= i < |posts| && posts[i] == p;
    }
  }

  const LOOK_BACK: int := 1440 * MINUTE

  /** The query's condition on scheduled_at. */
  function RecentPosts(c: Clock, posts: seq<Instant>): seq<Instant> {
    if posts == [] then []
    else (if posts[0] >= c.now - LOOK_BACK then [posts[0]] else []) + RecentPosts(c, posts[1..])
  }

  lemma {:induction false} RecentPostsMembers(c: Clock, posts: seq<Instant>)
    ensures forall p :: p in RecentPosts(c, posts) <==> p in posts && p >= c.now - LOOK_BACK
  {
    if posts != [] {
      RecentPostsMembers(c, posts[1..]);
      assert posts == [posts[0]] + posts[1..];
    }
  }

  /** Leaving out the posts that are more than a day old changes nothing. */
  lemma OldPostsDoNotMatter(c: Clock, schedules: seq<Schedule>, posts: seq<Instant>)
    ensures FreeSlots(c, schedules, RecentPosts(c, posts)) == FreeSlots(c, schedules, posts)
  {
    forall t | t in Slots(c, schedules)
      ensures Occupied(RecentPosts(c, posts), t) <==> Occupied(posts, t)
    {
      RecentPostsMembers(c, posts);
      OccupiedByMember(posts, t);
      OccupiedByMember(RecentPosts(c, posts), t);
    }
  }

  // ----- booking until nothing is free -----

  /** Booking a free slot takes exactly that slot away. */
  lemma BookingTakesOneSlot(c: Clock, schedules: seq<Schedule>, posts: seq<Instant>, t: Instant)
    requires t in FreeSlots(c, schedules, posts)
    ensures FreeSlots(c, schedules, posts + [t]) == FreeSlots(c, schedules, posts) - {t}
  {
    forall u | u in Slots(c, schedules)
      ensures Occupied(posts + [t], u) <==> Occupied(posts, u) || u == t
    {
      SlotsAreWholeMinutes(c, schedules, t, u);
      if Occupied(posts, u) {
        var i :| 0 <= i < |posts| && SameMinute(posts[i], u);
        assert (posts + [t])[i] == posts[i];
      }
      assert (posts + [t])[|posts|] == t;
    }
  }

  /** `booked` holds, in increasing order, slots that were free and come before all that still are. */
  ghost predicate BookedOk(free: set<Instant>, booked: seq<Instant>, left: set<Instant>) {
    && (forall i, j :: 0 <= i < j < |booked| ==> booked[i] < booked[j])
    && (forall i, u :: 0 <= i < |booked| && u in left ==> booked[i] < u)
    && (forall t :: t in free <==> t in booked || t in left)
    && |booked| + |left| == |free|
  }

  lemma BookedNext(free: set<Instant>, booked: seq<Instant>, left: set<Instant>, t: Instant)
    requires BookedOk(free, booked, left) && t in left && forall u :: u in left ==> t <= u
    ensures BookedOk(free, booked + [t], left - {t})
  {
    var more := booked + [t];
    forall x
      ensures x in free <==> x in more || x in left - {t}
    {
      assert x in more <==> x in booked || x == t;
    }
  }

  /** Asks for a slot and books it, again and again, until the search comes back empty. */
  method BookEverySlot(c: Clock, schedules: seq<Schedule>, posts: seq<Instant>) returns (booked: seq<Instant>)
    ensures forall i, j :: 0 <= i < j < |booked| ==> booked[i] < booked[j]
    ensures forall t :: t in booked <==> t in FreeSlots(c, schedules, posts)
    ensures |booked| == |FreeSlots(c, schedules, posts)|
    ensures FreeSlots(c, schedules, posts + booked) == {}
  {
    booked := [];
    ghost var free := FreeSlots(c, schedules, posts);
    assert posts + booked == posts;
    while true
      invariant BookedOk(free, booked, FreeSlots(c, schedules, posts + booked))
      decreases |FreeSlots(c, schedules, posts + booked)|
    {
      ghost var left := FreeSlots(c, schedules, posts + booked);
      var found := FindNextConfiguredScheduleSlotTime(c, schedules, posts + booked);
      if found.None? {
        return;
      }
      var t := found.value.when;
      BookingTakesOneSlot(c, schedules, posts + booked, t);
      BookedNext(free, booked, left, t);
      assert posts + booked + [t] == posts + (booked + [t]);
      booked := booked + [t];
    }
  }

  // ----- how many slots there are -----

  lemma DaysUntil(from: int, weekday: int)
    requires 0 <= weekday < 7
    ensures (from + (weekday - from % 7) % 7) % 7 == weekday
  {
  }

  /** How far into the horizon the weekday of the schedule first comes up. */
  function FirstDay(c: Clock, s: Schedule): (d: int)
    ensures 0 <= d < 7 && Weekday(Today(c) + d) == s.weekday
  {
    DaysUntil(Today(c) + 1, s.weekday);
    (s.weekday - Weekday(Today(c))) % 7
  }

  ghost function SlotsOf(c: Clock, s: Schedule): set<Instant> {
    set day | 0 <= day < HORIZON_DAYS && HasSlot(c, day, s) :: SlotTime(c, day, s)
  }

  /**
   A schedule has four slots in the horizon, and a fifth when its weekday is tomorrow's, or is today's
   and its time is still ahead.
   */
  function SlotCount(c: Clock, s: Schedule): nat {
    4 + if FirstDay(c, s) == 1 || (FirstDay(c, s) == 0 && SlotTime(c, 0, s) > c.now) then 1 else 0
  }

  lemma LaterDaysAreAhead(c: Clock, day: int, s: Schedule)
    requires day >= 1
    ensures SlotTime(c, day, s) > c.now
  {
  }

  /** The weekday of the schedule comes up on `FirstDay` and then every seven days. */
  lemma WeekdayRecurs(c: Clock, s: Schedule, day: int)
    requires 0 <= day < HORIZON_DAYS
    ensures var r := FirstDay(c, s);
      Weekday(Today(c) + day) == s.weekday <==> day == r || day == r + 7 || day == r + 14 || day == r + 21 || day == r + 28
  {
  }

  /** The slots of a schedule that first comes up on day r, one week after the other. */
  ghost function SlotsFrom(c: Clock, s: Schedule, r: int): set<Instant> {
    {SlotTime(c, r + 7, s), SlotTime(c, r + 14, s), SlotTime(c, r + 21, s)}
    + (if r > 0 || SlotTime(c, 0, s) > c.now then {SlotTime(c, r, s)} else {})
    + (if r + 28 < HORIZON_DAYS then {SlotTime(c, r + 28, s)} else {})
  }

  ghost function WeeklySlots(c: Clock, s: Schedule): set<Instant> {
    SlotsFrom(c, s, FirstDay(c, s))
  }

  lemma SlotIsWeekly(c: Clock, s: Schedule, day: int)
    requires HasSlot(c, day, s)
    ensures SlotTime(c, day, s) in WeeklySlots(c, s)
  {
    WeekdayRecurs(c, s, day);
  }

  lemma WeeklyIsSlot(c: Clock, s: Schedule, weeks: int)
    requires 0 <= weeks <= 4 && FirstDay(c, s) + 7 * weeks < HORIZON_DAYS
    requires FirstDay(c, s) + 7 * weeks == 0 ==> SlotTime(c, 0, s) > c.now
    ensures SlotTime(c, FirstDay(c, s) + 7 * weeks, s) in SlotsOf(c, s)
  {
    var day := FirstDay(c, s) + 7 * weeks;
    WeekdayRecurs(c, s, day);
    if day >= 1 {
      LaterDaysAreAhead(c, day, s);
    }
    assert HasSlot(c, day, s);
  }

  lemma SlotsOfIsWeekly(c: Clock, s: Schedule)
    ensures SlotsOf(c, s) == WeeklySlots(c, s)
  {
    forall day | 0 <= day < HORIZON_DAYS && HasSlot(c, day, s)
      ensures SlotTime(c, day, s) in WeeklySlots(c, s)
    {
      SlotIsWeekly(c, s, day);
    }
    var r := FirstDay(c, s);
    if r > 0 || SlotTime(c, 0, s) > c.now {
      WeeklyIsSlot(c, s, 0);
    }
    WeeklyIsSlot(c, s, 1);
    WeeklyIsSlot(c, s, 2);
    WeeklyIsSlot(c, s, 3);
    if r + 28 < HORIZON_DAYS {
      WeeklyIsSlot(c, s, 4);
    }
  }

  lemma SlotsFromCount(c: Clock, s: Schedule, r: int)
    requires 0 <= r < 7
    ensures |SlotsFrom(c, s, r)| == 4 + if r == 1 || (r == 0 && SlotTime(c, 0, s) > c.now) then 1 else 0
  {
    EarlierDayEarlierSlot(c, r, s, r + 7, s);
    EarlierDayEarlierSlot(c, r + 7, s, r + 14, s);
    EarlierDayEarlierSlot(c, r + 14, s, r + 21, s);
    EarlierDayEarlierSlot(c, r + 21, s, r + 28, s);
    DistinctTimes(SlotTime(c, r, s), SlotTime(c, r + 7, s), SlotTime(c, r + 14, s), SlotTime(c, r + 21, s), SlotTime(c, r + 28, s),
                  r > 0 || SlotTime(c, 0, s) > c.now, r + 28 < HORIZON_DAYS);
  }

  lemma SlotCountIs(c: Clock, s: Schedule)
    ensures |SlotsOf(c, s)| == SlotCount(c, s)
  {
    SlotsOfIsWeekly(c, s);
    SlotsFromCount(c, s, FirstDay(c, s));
  }

  lemma DistinctTimes(t0: Instant, t1: Instant, t2: Instant, t3: Instant, t4: Instant, first: bool, last: bool)
    requires t0 < t1 < t2 < t3 < t4
    ensures |{t1, t2, t3} + (if first then {t0} else {}) + (if last then {t4} else {})| ==
            3 + (if first then 1 else 0) + (if last then 1 else 0)
  {
  }

  ghost predicate DifferentSlots(schedules: seq<Schedule>) {
    forall i, j :: 0 <= i < j < |schedules| ==>
      (schedules[i].weekday, schedules[i].hour, schedules[i].minute) != (schedules[j].weekday, schedules[j].hour, schedules[j].minute)
  }

  function TotalSlots(c: Clock, schedules: seq<Schedule>): nat {
    if schedules == [] then 0 else SlotCount(c, schedules[0]) + TotalSlots(c, schedules[1..])
  }

  lemma {:induction false} TotalAtLeastFourEach(c: Clock, schedules: seq<Schedule>)
    ensures 4 * |schedules| <= TotalSlots(c, schedules) <= 5 * |schedules|
  {
    if schedules != [] {
      TotalAtLeastFourEach(c, schedules[1..]);
    }
  }

  /** A minute of the week-independent calendar determines its day and its time of day. */
  lemma MinuteDetermines(d: int, h: int, m: int, e: int, k: int, n: int)
    requires 0 <= h < 24 && 0 <= m < 60 && 0 <= k < 24 && 0 <= n < 60
    requires d * 1440 + h * 60 + m == e * 1440 + k * 60 + n
    ensures d == e && h == k && m == n
  {
  }

  lemma SameTimeSameSlot(c: Clock, d: int, s: Schedule, e: int, r: Schedule)
    requires SlotTime(c, d, s) == SlotTime(c, e, r)
    ensures d == e && s.hour == r.hour && s.minute == r.minute
  {
    MinuteDetermines(Today(c) + d, s.hour, s.minute, Today(c) + e, r.hour, r.minute);
  }

  /** Schedules that differ in weekday, hour or minute share no slot. */
  lemma DifferentSchedulesDifferentSlots(c: Clock, s: Schedule, r: Schedule)
    requires (s.weekday, s.hour, s.minute) != (r.weekday, r.hour, r.minute)
    ensures SlotsOf(c, s) !! SlotsOf(c, r)
  {
    forall d, e | HasSlot(c, d, s) && HasSlot(c, e, r)
      ensures SlotTime(c, d, s) != SlotTime(c, e, r)
    {
      if SlotTime(c, d, s) == SlotTime(c, e, r) {
        SameTimeSameSlot(c, d, s, e, r);
      }
    }
  }

  lemma SlotOwner(c: Clock, schedules: seq<Schedule>, t: Instant) returns (i: nat)
    requires t in Slots(c, schedules)
    ensures i < |schedules| && t in SlotsOf(c, schedules[i])
  {
    var e, r :| 0 <= e < HORIZON_DAYS && r in schedules && HasSlot(c, e, r) && t == SlotTime(c, e, r);
    i :| 0 <= i < |schedules| && schedules[i] == r;
  }

  lemma {:induction false} TotalSlotsIs(c: Clock, schedules: seq<Schedule>)
    requires DifferentSlots(schedules)
    ensures |Slots(c, schedules)| == TotalSlots(c, schedules)
  {
    if schedules == [] {
      assert Slots(c, schedules) == {};
    } else {
      var s, rest := schedules[0], schedules[1..];
      assert schedules == [s] + rest;
      assert DifferentSlots(rest) by {
        assert forall i :: 0 <= i < |rest| ==> rest[i] == schedules[i + 1];
      }
      TotalSlotsIs(c, rest);
      SlotCountIs(c, s);
      forall t | t in Slots(c, rest)
        ensures t !in SlotsOf(c, s)
      {
        var i := SlotOwner(c, rest, t);
        assert rest[i] == schedules[i + 1];
        DifferentSchedulesDifferentSlots(c, s, rest[i]);
      }
      assert Slots(c, schedules) == SlotsOf(c, s) + Slots(c, rest);
    }
  }

  ghost function TakenSlots(c: Clock, schedules: seq<Schedule>, posts: seq<Instant>): set<Instant> {
    set t | t in Slots(c, schedules) && Occupied(posts, t)
  }

  /** A post takes at most one slot. */
  lemma {:induction false} PostsTakeFewSlots(c: Clock, schedules: seq<Schedule>, posts: seq<Instant>)
    ensures |TakenSlots(c, schedules, posts)| <= |posts|
  {
    if posts == [] {
      assert TakenSlots(c, schedules, posts) == {};
    } else {
      var n := |posts| - 1;
      var before := TakenSlots(c, schedules, posts[..n]);
      PostsTakeFewSlots(c, schedules, posts[..n]);
      assert posts == posts[..n] + [posts[n]];
      if t :| t in Slots(c, schedules) && SameMinute(posts[n], t) {
        forall u | u in TakenSlots(c, schedules, posts)
          ensures u in before || u == t
        {
          SlotsAreWholeMinutes(c, schedules, t, u);
          var i :| 0 <= i < |posts| && SameMinute(posts[i], u);
          assert i < n ==> posts[..n][i] == posts[i];
        }
        Ids.SubsetSize(TakenSlots(c, schedules, posts), before + {t});
      } else {
        forall u | u in TakenSlots(c, schedules, posts)
          ensures u in before
        {
          var i :| 0 <= i < |posts| && SameMinute(posts[i], u);
          assert i < n ==> posts[..n][i] == posts[i];
        }
        Ids.SubsetSize(TakenSlots(c, schedules, posts), before);
      }
    }
  }

  /**
   The guarantee: with n different schedules and fewer posts than slots, in particular fewer than 4n, the
   search finds a slot.
   */
  lemma FewPostsLeaveASlot(c: Clock, schedules: seq<Schedule>, posts: seq<Instant>)
    requires DifferentSlots(schedules)
    ensures |FreeSlots(c, schedules, posts)| >= TotalSlots(c, schedules) - |posts|
    ensures |posts| < TotalSlots(c, schedules) ==> FreeSlots(c, schedules, posts) != {}
    ensures |posts| < 4 * |schedules| ==> FreeSlots(c, schedules, posts) != {}
  {
    TotalSlotsIs(c, schedules);
    TotalAtLeastFourEach(c, schedules);
    PostsTakeFewSlots(c, schedules, posts);
    assert Slots(c, schedules) == FreeSlots(c, schedules, posts) + TakenSlots(c, schedules, posts);
  }

  /** The bound is sharp: booking from an empty calendar gives exactly `TotalSlots` posts and then nothing. */
  method BookFromScratch(c: Clock, schedules: seq<Schedule>) returns (booked: seq<Instant>)
    requires DifferentSlots(schedules)
    ensures |booked| == TotalSlots(c, schedules)
    ensures FreeSlots(c, schedules, booked) == {}
  {
    booked := BookEverySlot(c, schedules, []);
    assert [] + booked == booked;
    TotalSlotsIs(c, schedules);
    assert FreeSlots(c, schedules, []) == Slots(c, schedules);
  }
}
