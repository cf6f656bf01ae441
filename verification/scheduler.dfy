/** GameManager.cs: the tick clock with its TICK/DAY/WEEK events, the game-speed level and
    pause flag, the job and shop searches over subscribed delegates, and the write-once
    Singleton instance. Delegates, entities, companies and shops are opaque ids; what a
    delegate answers when invoked is an oracle parameter. */
module Scheduler {
  import opened Wrappers
  import opened Enums

  /** A subscribed delegate. */
  type Delegate = nat
  /** The entity (wallet) a search is made for. */
  type Entity = nat
  /** A company or a shop a delegate hands back. */
  type Business = nat

  const TicksPerDay: int := 24
  const DaysPerWeek: int := 7

  // ---------------------------------------------------------------------------------------------
  // Invocation lists

  /** The index of the last occurrence of d. */
  function LastIndex(s: seq<Delegate>, d: Delegate): (k: nat)
    requires d in s
    ensures k < |s| && s[k] == d && forall j :: k < j < |s| ==> s[j] != d
  {
    if s[|s| - 1] == d then |s| - 1 else LastIndex(s[..|s| - 1], d)
  }

  /** `event -= d`: Delegate.Remove takes out the last occurrence of d, if any. */
  function RemoveLast(s: seq<Delegate>, d: Delegate): (r: seq<Delegate>)
    ensures d !in s ==> r == s
    ensures d in s ==> |r| == |s| - 1 && multiset(r) == multiset(s) - multiset{d}
  {
    if d in s then
      var k := LastIndex(s, d);
      assert s == s[..k] + [d] + s[k + 1..];
      s[..k] + s[k + 1..]
    else s
  }

  /** One pass of the foreach in AddToEvent(type, beingAdded, thing): remove the delegate, or add
      it unless the invocation list already contains it. */
  function Subscribe(s: seq<Delegate>, beingAdded: bool, d: Delegate): seq<Delegate>
  {
    if !beingAdded then RemoveLast(s, d)
    else if d in s then s
    else s + [d]
  }

  /** The invocation list after AddToEvent has gone through all of `things`, in order. */
  function SubscribeAll(s: seq<Delegate>, beingAdded: bool, things: seq<Delegate>): seq<Delegate>
    decreases |things|
  {
    if |things| == 0 then s
    else Subscribe(SubscribeAll(s, beingAdded, things[..|things| - 1]), beingAdded, things[|things| - 1])
  }

  /** Dropping one position keeps a list free of duplicates. */
  lemma DropKeepsNoDuplicates(s: seq<Delegate>, k: nat)
    requires NoDuplicates(s) && k < |s|
    ensures NoDuplicates(s[..k] + s[k + 1..])
  {
    var r := s[..k] + s[k + 1..];
    forall i, j | 0 <= i < j < |r| ensures r[i] != r[j] {
      var i', j' := if i < k then i else i + 1, if j < k then j else j + 1;
      assert r[i] == s[i'] && r[j] == s[j'];
    }
  }

  /** With no delegate subscribed twice beforehand, removing d leaves exactly the others. */
  lemma RemoveLastMembers(s: seq<Delegate>, d: Delegate, x: Delegate)
    requires NoDuplicates(s)
    ensures NoDuplicates(RemoveLast(s, d))
    ensures x in RemoveLast(s, d) <==> x in s && x != d
  {
    if d in s {
      var k := LastIndex(s, d);
      DropKeepsNoDuplicates(s, k);
      assert s == s[..k] + [d] + s[k + 1..];
      if x in s && x != d {
        var i :| 0 <= i < |s| && s[i] == x;
        if i < k {
          assert s[..k][i] == x;
        } else {
          assert s[k + 1..][i - k - 1] == x;
        }
      }
    }
  }

  /** Adding through AddToEvent never subscribes a delegate twice, and subscribes exactly the
      delegates already there and the ones passed. */
  lemma {:induction false} SubscribeAllAdds(s: seq<Delegate>, things: seq<Delegate>, x: Delegate)
    requires NoDuplicates(s)
    ensures NoDuplicates(SubscribeAll(s, true, things))
    ensures x in SubscribeAll(s, true, things) <==> x in s || x in things
    decreases |things|
  {
    if |things| > 0 {
      var init := things[..|things| - 1];
      var d := things[|things| - 1];
      SubscribeAllAdds(s, init, x);
      SubscribeAllAdds(s, init, d);
      var before := SubscribeAll(s, true, init);
      if d !in before {
        forall i, j | 0 <= i < j < |before + [d]| ensures (before + [d])[i] != (before + [d])[j] {
          if j == |before| {
            assert before[i] in before;
          }
        }
      }
      assert things == init + [d];
    }
  }

  /** Removing through AddToEvent, from a list without duplicates, keeps it so and leaves
      exactly the delegates not passed. */
  lemma {:induction false} SubscribeAllRemoves(s: seq<Delegate>, things: seq<Delegate>, x: Delegate)
    requires NoDuplicates(s)
    ensures NoDuplicates(SubscribeAll(s, false, things))
    ensures x in SubscribeAll(s, false, things) <==> x in s && x !in things
    decreases |things|
  {
    if |things| > 0 {
      var init := things[..|things| - 1];
      var d := things[|things| - 1];
      SubscribeAllRemoves(s, init, x);
      RemoveLastMembers(SubscribeAll(s, false, init), d, x);
      assert things == init + [d];
    }
  }

  /** Adding delegates that are all subscribed already changes nothing. */
  lemma {:induction false} SubscribeAllPresent(s: seq<Delegate>, things: seq<Delegate>)
    requires forall i :: 0 <= i < |things| ==> things[i] in s
    ensures SubscribeAll(s, true, things) == s
    decreases |things|
  {
    if |things| > 0 {
      SubscribeAllPresent(s, things[..|things| - 1]);
      assert things[|things| - 1] in s;
    }
  }

  /** Subscribing the same delegates again is a no-op: adding is idempotent. */
  lemma SubscribeAllIdempotent(s: seq<Delegate>, things: seq<Delegate>)
    requires NoDuplicates(s)
    ensures SubscribeAll(SubscribeAll(s, true, things), true, things) == SubscribeAll(s, true, things)
  {
    var once := SubscribeAll(s, true, things);
    forall i | 0 <= i < |things| ensures things[i] in once {
      SubscribeAllAdds(s, things, things[i]);
    }
    SubscribeAllPresent(once, things);
  }

  /** Passing the same delegate twice in one call subscribes it once. */
  lemma SubscribeTwiceInOneCall(s: seq<Delegate>, d: Delegate)
    ensures SubscribeAll(s, true, [d, d]) == SubscribeAll(s, true, [d])
    ensures d in SubscribeAll(s, true, [d])
  {
    assert [d, d][..1] == [d];
    assert [d][..0] == [];
  }

  // ---------------------------------------------------------------------------------------------
  // The clock

  /** The ticks and days counters. */
  datatype Clock = Clock(ticks: int, days: int)

  /** What one round of the Tick coroutine fires from clock c: TICK, then DAY when the new tick
      count is a whole day, then WEEK when that new day count is a whole week. */
  function Fired(c: Clock): seq<EventKind>
  {
    if (c.ticks + 1) % TicksPerDay != 0 then [TICK]
    else if (c.days + 1) % DaysPerWeek != 0 then [TICK, DAY]
    else [TICK, DAY, WEEK]
  }

  /** TICK always fires first; DAY fires exactly on a whole day; WEEK exactly on a whole day
      that is also a whole week, and then all three fire in that order. */
  lemma FiredSpec(c: Clock)
    ensures |Fired(c)| > 0 && Fired(c)[0] == TICK
    ensures DAY in Fired(c) <==> (c.ticks + 1) % TicksPerDay == 0
    ensures WEEK in Fired(c) <==> (c.ticks + 1) % TicksPerDay == 0 && (c.days + 1) % DaysPerWeek == 0
    ensures WEEK in Fired(c) ==> Fired(c) == [TICK, DAY, WEEK]
  {
  }

  /** The clock after one round. */
  function Next(c: Clock): Clock
  {
    var t := c.ticks + 1;
    Clock(t, if t % TicksPerDay == 0 then c.days + 1 else c.days)
  }

  /** The clock after n rounds. */
  function After(c: Clock, n: nat): Clock
  {
    if n == 0 then c else Next(After(c, n - 1))
  }

  /** Everything n rounds fire, in order. */
  function Schedule(c: Clock, n: nat): seq<EventKind>
  {
    if n == 0 then [] else Schedule(c, n - 1) + Fired(After(c, n - 1))
  }

  /** How many of the events are of kind k. */
  function Count(s: seq<EventKind>, k: EventKind): nat
  {
    if |s| == 0 then 0 else Count(s[..|s| - 1], k) + (if s[|s| - 1] == k then 1 else 0)
  }

  /** C#'s `%` on int truncates toward zero, so a negative left operand gives a non-positive
      remainder. */
  function CsRem(a: int, b: int): (r: int)
    requires b > 0
    ensures a >= 0 ==> 0 <= r < b && r == a % b
    ensures a < 0 ==> -b < r <= 0
  {
    if a >= 0 then a % b else -((-a) % b)
  }

  /** Counts add up over a concatenation. */
  lemma {:induction false} CountAppend(s: seq<EventKind>, t: seq<EventKind>, k: EventKind)
    ensures Count(s + t, k) == Count(s, k) + Count(t, k)
    decreases |t|
  {
    if |t| > 0 {
      CountAppend(s, t[..|t| - 1], k);
      assert (s + t)[..|s + t| - 1] == s + t[..|t| - 1];
    } else {
      assert s + t == s;
    }
  }

  /** A tick ends a day exactly when its count is a multiple of 24. */
  lemma NextDayStep(t: int)
    ensures (t + 1) / TicksPerDay - t / TicksPerDay == if (t + 1) % TicksPerDay == 0 then 1 else 0
  {
  }

  /** A day count increases by one week exactly when the new count is a multiple of 7. */
  lemma NextWeekStep(d: int)
    ensures (d + 1) / DaysPerWeek - d / DaysPerWeek == if (d + 1) % DaysPerWeek == 0 then 1 else 0
  {
  }

  /** One round fires TICK once, DAY when the day counter moves and WEEK when a week is
      crossed. */
  lemma FiredCounts(c: Clock)
    ensures Count(Fired(c), TICK) == 1
    ensures Count(Fired(c), DAY) == Next(c).days - c.days
    ensures Count(Fired(c), WEEK) == Next(c).days / DaysPerWeek - c.days / DaysPerWeek
  {
    NextWeekStep(c.days);
    assert [TICK, DAY, WEEK][..2] == [TICK, DAY];
    assert [TICK, DAY][..1] == [TICK];
    assert [TICK][..0] == [];
  }

  /** n rounds from any clock: ticks grow by n, and days count the whole days the ticks have
      crossed. */
  lemma {:induction false} AfterCounts(c: Clock, n: nat)
    ensures After(c, n).ticks == c.ticks + n
    ensures After(c, n).days == c.days + (c.ticks + n) / TicksPerDay - c.ticks / TicksPerDay
  {
    if n > 0 {
      AfterCounts(c, n - 1);
      NextDayStep(c.ticks + n - 1);
    }
  }

  /** n rounds fire TICK n times, DAY once per day counted and WEEK once per week the day
      counter crosses. */
  lemma {:induction false} ScheduleCounts(c: Clock, n: nat)
    ensures Count(Schedule(c, n), TICK) == n
    ensures Count(Schedule(c, n), DAY) == After(c, n).days - c.days
    ensures Count(Schedule(c, n), WEEK) == After(c, n).days / DaysPerWeek - c.days / DaysPerWeek
  {
    if n > 0 {
      ScheduleCounts(c, n - 1);
      var b := After(c, n - 1);
      var before, round := Schedule(c, n - 1), Fired(b);
      assert Schedule(c, n) == before + round;
      assert After(c, n) == Next(b);
      FiredCounts(b);
      CountAppend(before, round, TICK);
      CountAppend(before, round, DAY);
      CountAppend(before, round, WEEK);
    }
  }

  /** DAY fires once per whole day the tick count crosses. */
  lemma DaysCrossed(c: Clock, n: nat)
    ensures Count(Schedule(c, n), DAY) == (c.ticks + n) / TicksPerDay - c.ticks / TicksPerDay
  {
    ScheduleCounts(c, n);
    AfterCounts(c, n);
  }

  /** A week of play from a midnight that starts a week: 168 ticks, 7 days, 1 week. */
  lemma OneWeek(c: Clock)
    requires c.ticks >= 0 && c.ticks % (TicksPerDay * DaysPerWeek) == 0 && c.days == c.ticks / TicksPerDay
    ensures Count(Schedule(c, 168), TICK) == 168
    ensures Count(Schedule(c, 168), DAY) == 7
    ensures Count(Schedule(c, 168), WEEK) == 1
  {
    ScheduleCounts(c, 168);
    AfterCounts(c, 168);
    var w := c.ticks / 168;
    assert c.ticks == 168 * w;
    assert c.ticks / TicksPerDay == 7 * w;
    assert (c.ticks + 168) / TicksPerDay == 7 * w + 7;
    assert c.days / DaysPerWeek == w;
    assert (c.days + 7) / DaysPerWeek == w + 1;
  }

  // ---------------------------------------------------------------------------------------------
  // Game speed

  /** TickRateUP: one level faster unless at the top level or paused. */
  function RaisedLevel(level: int, maxLevel: int, paused: bool): int
  {
    if level == maxLevel || paused then level else level + 1
  }

  /** TickRateDOWN: one level slower unless at level 1 or paused. */
  function LoweredLevel(level: int, paused: bool): int
  {
    if level == 1 || paused then level else level - 1
  }

  /** The level stays in [1, maxTickIncreaseLevel]; paused, neither button changes it. */
  lemma LevelStaysInRange(level: int, maxLevel: int, paused: bool)
    requires 1 <= level <= maxLevel
    ensures 1 <= RaisedLevel(level, maxLevel, paused) <= maxLevel
    ensures 1 <= LoweredLevel(level, paused) <= maxLevel
    ensures paused ==> RaisedLevel(level, maxLevel, paused) == level && LoweredLevel(level, paused) == level
  {
  }

  /** Faster then slower, below the top level and unpaused, returns to the same level. */
  lemma RaiseThenLower(level: int, maxLevel: int)
    requires 1 <= level < maxLevel
    ensures LoweredLevel(RaisedLevel(level, maxLevel, false), false) == level
  {
  }

  /** With a top level below 1 the `==` test never stops TickRateUP: the level grows past it. */
  lemma LevelUnboundedBelowOne(level: int, maxLevel: int)
    requires maxLevel < 1 <= level
    ensures RaisedLevel(level, maxLevel, false) == level + 1 > maxLevel
  {
  }

  // ---------------------------------------------------------------------------------------------
  // Job and shop searches

  /** What a GameManagerDelegate answers: its bool? result and its out company. */
  datatype JobReply = JobReply(answer: Option<bool>, company: Business)

  /** What a BusinessDelegate answers: its out response, and its result `as Shop` (None when the
      business is not a shop). */
  datatype ShopReply = ShopReply(response: bool, shop: Option<Business>)

  /** The success list LookForWork builds: the company of every delegate that answers true, in
      invocation order (a delegate subscribed twice is asked twice). */
  function Hired(workers: seq<Delegate>, num: int, reply: (Delegate, int) -> JobReply): (r: seq<Business>)
    ensures |r| <= |workers|
    ensures |r| == 0 <==> forall i :: 0 <= i < |workers| ==> reply(workers[i], num).answer != Some(true)
  {
    if |workers| == 0 then []
    else
      var w := workers[|workers| - 1];
      Hired(workers[..|workers| - 1], num, reply) + (if reply(w, num).answer == Some(true) then [reply(w, num).company] else [])
  }

  /** Every hired company is the company of a delegate that answered true, and back. */
  lemma {:induction false} HiredMembers(workers: seq<Delegate>, num: int, reply: (Delegate, int) -> JobReply, c: Business)
    ensures c in Hired(workers, num, reply) <==>
              exists i :: 0 <= i < |workers| && reply(workers[i], num).answer == Some(true) && reply(workers[i], num).company == c
    decreases |workers|
  {
    if |workers| > 0 {
      var init := workers[..|workers| - 1];
      HiredMembers(init, num, reply, c);
      if exists i :: 0 <= i < |init| && reply(init[i], num).answer == Some(true) && reply(init[i], num).company == c {
        var i :| 0 <= i < |init| && reply(init[i], num).answer == Some(true) && reply(init[i], num).company == c;
        assert workers[i] == init[i];
      }
      if exists i :: 0 <= i < |workers| && reply(workers[i], num).answer == Some(true) && reply(workers[i], num).company == c {
        var i :| 0 <= i < |workers| && reply(workers[i], num).answer == Some(true) && reply(workers[i], num).company == c;
        if i < |init| {
          assert init[i] == workers[i];
        }
      }
    }
  }

  /** Some subscribed shop accepts and is a shop. */
  ghost predicate SomeShopAccepts(shops: seq<Delegate>, reply: Delegate -> ShopReply)
  {
    exists i :: 0 <= i < |shops| && reply(shops[i]).response && reply(shops[i]).shop.Some?
  }

  /** Every accepting business is a shop. */
  ghost predicate AcceptorsAreShops(shops: seq<Delegate>, reply: Delegate -> ShopReply)
  {
    forall i :: 0 <= i < |shops| && reply(shops[i]).response ==> reply(shops[i]).shop.Some?
  }

  // ---------------------------------------------------------------------------------------------
  // The manager

  class GameManager {
    var onTick: seq<Delegate>
    var onDay: seq<Delegate>
    var onWeek: seq<Delegate>
    /** The HireAWorker and GoToShop events. */
    var hireAWorker: seq<Delegate>
    var goToShop: seq<Delegate>
    var ticks: int
    var days: int
    var tickRateLevel: int
    const maxTickIncreaseLevel: int
    /** Time.timeScale != 1: set by PauseTicks, cleared by ResumeTicks. */
    var paused: bool
    /** tempEntity, the reference AskForDetails hands out (None is null). */
    var tempEntity: Option<Entity>

    /** The counters the scheduler keeps: no negative clock, and a level of at least 1. */
    ghost predicate Valid()
      reads this
    {
      ticks >= 0 && days >= 0 && tickRateLevel >= 1
    }

    constructor (maxTickIncreaseLevel: int)
      ensures Valid() && ticks == 0 && days == 0 && tickRateLevel == 1 && !paused
      ensures onTick == [] && onDay == [] && onWeek == [] && hireAWorker == [] && goToShop == []
      ensures this.maxTickIncreaseLevel == maxTickIncreaseLevel && tempEntity == None
    {
      onTick, onDay, onWeek := [], [], [];
      hireAWorker, goToShop := [], [];
      ticks, days, tickRateLevel := 0, 0, 1;
      this.maxTickIncreaseLevel := maxTickIncreaseLevel;
      paused := false;
      tempEntity := None;
    }

    function Subscribers(kind: EventKind): seq<Delegate>
      reads this
    {
      match kind
      case TICK => onTick
      case DAY => onDay
      case WEEK => onWeek
    }

    /** The clock the counters hold. */
    function Time(): Clock
      reads this
    {
      Clock(ticks, days)
    }

    /** TimeOfDay: ticks % ticksPerDay, the hour of the current day. */
    function TimeOfDay(): (r: int)
      reads this
      ensures ticks >= 0 ==> 0 <= r < TicksPerDay && r == ticks % TicksPerDay
    {
      CsRem(ticks, TicksPerDay)
    }

    /** AddToEvent(type, beingAdded, thing): subscribe or unsubscribe each delegate in turn on
      the chosen event; the other events and all else stay as they were. */
    method AddToEvent(kind: EventKind, beingAdded: bool, things: seq<Delegate>)
      modifies this
      ensures Subscribers(kind) == SubscribeAll(old(Subscribers(kind)), beingAdded, things)
      ensures forall k :: k != kind ==> Subscribers(k) == old(Subscribers(k))
      ensures hireAWorker == old(hireAWorker) && goToShop == old(goToShop) && tempEntity == old(tempEntity)
      ensures ticks == old(ticks) && days == old(days) && tickRateLevel == old(tickRateLevel) && paused == old(paused)
    {
      for i := 0 to |things|
        invariant Subscribers(kind) == SubscribeAll(old(Subscribers(kind)), beingAdded, things[..i])
        invariant forall k :: k != kind ==> Subscribers(k) == old(Subscribers(k))
        invariant hireAWorker == old(hireAWorker) && goToShop == old(goToShop) && tempEntity == old(tempEntity)
        invariant ticks == old(ticks) && days == old(days) && tickRateLevel == old(tickRateLevel) && paused == old(paused)
      {
        assert things[..i + 1][..i] == things[..i];
        SetSubscribers(kind, Subscribe(Subscribers(kind), beingAdded, things[i]));
      }
      assert things[..|things|] == things;
    }

    /** Writes the invocation list of one event (`OnTick += del` and the like). */
    method SetSubscribers(kind: EventKind, list: seq<Delegate>)
      modifies this
      ensures Subscribers(kind) == list
      ensures forall k :: k != kind ==> Subscribers(k) == old(Subscribers(k))
      ensures hireAWorker == old(hireAWorker) && goToShop == old(goToShop) && tempEntity == old(tempEntity)
      ensures ticks == old(ticks) && days == old(days) && tickRateLevel == old(tickRateLevel) && paused == old(paused)
    {
      match kind
      case TICK => onTick := list;
      case DAY => onDay := list;
      case WEEK => onWeek := list;
    }

    /** AddToEvent(GameManagerDelegate): HireAWorker += thing (no duplicate check) or -= thing. */
    method AddWorker(thing: Delegate, beingAdded: bool)
      modifies this
      ensures hireAWorker == if beingAdded then old(hireAWorker) + [thing] else RemoveLast(old(hireAWorker), thing)
      ensures onTick == old(onTick) && onDay == old(onDay) && onWeek == old(onWeek) && goToShop == old(goToShop)
      ensures ticks == old(ticks) && days == old(days) && tickRateLevel == old(tickRateLevel)
      ensures paused == old(paused) && tempEntity == old(tempEntity)
    {
      if beingAdded {
        hireAWorker := hireAWorker + [thing];
        return;
      }
      hireAWorker := RemoveLast(hireAWorker, thing);
    }

    /** AddToEvent(BusinessDelegate): GoToShop += thing (no duplicate check) or -= thing. */
    method AddShop(thing: Delegate, beingAdded: bool)
      modifies this
      ensures goToShop == if beingAdded then old(goToShop) + [thing] else RemoveLast(old(goToShop), thing)
      ensures onTick == old(onTick) && onDay == old(onDay) && onWeek == old(onWeek) && hireAWorker == old(hireAWorker)
      ensures ticks == old(ticks) && days == old(days) && tickRateLevel == old(tickRateLevel)
      ensures paused == old(paused) && tempEntity == old(tempEntity)
    {
      if beingAdded {
        goToShop := goToShop + [thing];
        return;
      }
      goToShop := RemoveLast(goToShop, thing);
    }

    /** One round of the Tick coroutine after its wait: count the tick and fire OnTick; on a
      whole day count the day and fire OnDay; on a whole week fire OnWeek. `calls` lists the
      subscribers invoked, in order. */
    method Tick() returns (fired: seq<EventKind>, calls: seq<Delegate>)
      requires Valid()
      modifies this
      ensures Valid() && Time() == Next(old(Time())) && fired == Fired(old(Time()))
      ensures calls == onTick + (if DAY in fired then onDay else []) + (if WEEK in fired then onWeek else [])
      ensures TimeOfDay() == (old(TimeOfDay()) + 1) % TicksPerDay
      ensures DAY in fired <==> TimeOfDay() == 0
      ensures onTick == old(onTick) && onDay == old(onDay) && onWeek == old(onWeek)
      ensures hireAWorker == old(hireAWorker) && goToShop == old(goToShop)
      ensures tickRateLevel == old(tickRateLevel) && paused == old(paused) && tempEntity == old(tempEntity)
    {
      ticks := ticks + 1;
      fired, calls := [TICK], onTick;
      if ticks % TicksPerDay == 0 {
        days := days + 1;
        fired, calls := fired + [DAY], calls + onDay;
        if days % DaysPerWeek == 0 {
          fired, calls := fired + [WEEK], calls + onWeek;
        }
      }
    }

    /** The Tick coroutine's while loop run for n rounds: it fires the schedule of n rounds. */
    method RunTicks(n: nat) returns (fired: seq<EventKind>)
      requires Valid()
      modifies this
      ensures Valid() && Time() == After(old(Time()), n) && fired == Schedule(old(Time()), n)
      ensures onTick == old(onTick) && onDay == old(onDay) && onWeek == old(onWeek)
      ensures hireAWorker == old(hireAWorker) && goToShop == old(goToShop)
      ensures tickRateLevel == old(tickRateLevel) && paused == old(paused) && tempEntity == old(tempEntity)
    {
      fired := [];
      for i := 0 to n
        invariant Valid() && Time() == After(old(Time()), i) && fired == Schedule(old(Time()), i)
        invariant onTick == old(onTick) && onDay == old(onDay) && onWeek == old(onWeek)
        invariant hireAWorker == old(hireAWorker) && goToShop == old(goToShop)
        invariant tickRateLevel == old(tickRateLevel) && paused == old(paused) && tempEntity == old(tempEntity)
      {
        var round, _ := Tick();
        fired := fired + round;
      }
    }

    /** TickRateUP: the level rises by one unless it is at maxTickIncreaseLevel or the game is
      paused. */
    method TickRateUP()
      modifies this
      ensures tickRateLevel == RaisedLevel(old(tickRateLevel), maxTickIncreaseLevel, paused)
      ensures paused == old(paused) && ticks == old(ticks) && days == old(days) && tempEntity == old(tempEntity)
      ensures onTick == old(onTick) && onDay == old(onDay) && onWeek == old(onWeek)
      ensures hireAWorker == old(hireAWorker) && goToShop == old(goToShop)
    {
      if tickRateLevel == maxTickIncreaseLevel || paused {
        return;
      }
      tickRateLevel := tickRateLevel + 1;
    }

    /** TickRateDOWN: the level falls by one unless it is 1 or the game is paused. */
    method TickRateDOWN()
      modifies this
      ensures tickRateLevel == LoweredLevel(old(tickRateLevel), paused)
      ensures paused == old(paused) && ticks == old(ticks) && days == old(days) && tempEntity == old(tempEntity)
      ensures onTick == old(onTick) && onDay == old(onDay) && onWeek == old(onWeek)
      ensures hireAWorker == old(hireAWorker) && goToShop == old(goToShop)
    {
      if tickRateLevel == 1 || paused {
        return;
      }
      tickRateLevel := tickRateLevel - 1;
    }

    /** PauseTicks: Time.timeScale = 0. */
    method PauseTicks()
      modifies this
      ensures paused && tickRateLevel == old(tickRateLevel) && ticks == old(ticks) && days == old(days)
      ensures onTick == old(onTick) && onDay == old(onDay) && onWeek == old(onWeek)
      ensures hireAWorker == old(hireAWorker) && goToShop == old(goToShop) && tempEntity == old(tempEntity)
    {
      paused := true;
    }

    /** ResumeTicks: Time.timeScale = 1. */
    method ResumeTicks()
      modifies this
      ensures !paused && tickRateLevel == old(tickRateLevel) && ticks == old(ticks) && days == old(days)
      ensures onTick == old(onTick) && onDay == old(onDay) && onWeek == old(onWeek)
      ensures hireAWorker == old(hireAWorker) && goToShop == old(goToShop) && tempEntity == old(tempEntity)
    {
      paused := false;
    }

    /** TogglePause: pause when running, resume when paused. */
    method TogglePause()
      modifies this
      ensures paused == !old(paused) && tickRateLevel == old(tickRateLevel) && ticks == old(ticks) && days == old(days)
      ensures onTick == old(onTick) && onDay == old(onDay) && onWeek == old(onWeek)
      ensures hireAWorker == old(hireAWorker) && goToShop == old(goToShop) && tempEntity == old(tempEntity)
    {
      if !paused {
        PauseTicks();
      } else {
        ResumeTicks();
      }
    }

    /** LookForWork: ask every HireAWorker delegate in turn, collect the companies that say
      yes, and pick one of them (`pick` stands for Random.Range). tempEntity is cleared only
      on success. */
    method LookForWork(num: int, wallet: Entity, reply: (Delegate, int) -> JobReply, pick: nat)
      returns (ok: bool, company: Option<Business>)
      modifies this
      ensures ok <==> company.Some?
      ensures ok <==> exists i :: 0 <= i < |hireAWorker| && reply(hireAWorker[i], num).answer == Some(true)
      ensures ok ==> company.value in Hired(hireAWorker, num, reply)
      ensures tempEntity == if ok then None else Some(wallet)
      ensures onTick == old(onTick) && onDay == old(onDay) && onWeek == old(onWeek)
      ensures hireAWorker == old(hireAWorker) && goToShop == old(goToShop)
      ensures ticks == old(ticks) && days == old(days) && tickRateLevel == old(tickRateLevel) && paused == old(paused)
    {
      company := None;
      tempEntity := Some(wallet);
      if |hireAWorker| == 0 {
        return false, None;
      }
      var success: seq<Business> := [];
      for i := 0 to |hireAWorker|
        invariant success == Hired(hireAWorker[..i], num, reply)
      {
        var d := hireAWorker[i];
        assert hireAWorker[..i + 1][..i] == hireAWorker[..i];
        var answer := reply(d, num);
        if answer.answer.Some? && answer.answer.value == true {
          success := success + [answer.company];
        }
      }
      assert hireAWorker[..|hireAWorker|] == hireAWorker;
      if |success| == 0 {
        return false, None;
      }
      var selection := pick % |success|;
      company := Some(success[selection]);
      tempEntity := None;
      return true, company;
    }

    /** GotToTheShop: keep picking a subscribed shop at random (`pick(n)` stands for the n-th
      Random.Range), dropping each one that refuses, until one accepts or none is left. An
      accepting business that is not a Shop ends the search with no shop. tempEntity is
      cleared only on success. */
    method GotToTheShop(wallet: Entity, reply: Delegate -> ShopReply, pick: nat -> nat)
      returns (ok: bool, shop: Option<Business>)
      modifies this
      ensures ok <==> shop.Some?
      ensures ok ==> exists i :: 0 <= i < |goToShop| && reply(goToShop[i]).response && reply(goToShop[i]).shop == shop
      ensures ok ==> SomeShopAccepts(goToShop, reply)
      ensures AcceptorsAreShops(goToShop, reply) ==> (ok <==> SomeShopAccepts(goToShop, reply))
      ensures tempEntity == if ok then None else Some(wallet)
      ensures onTick == old(onTick) && onDay == old(onDay) && onWeek == old(onWeek)
      ensures hireAWorker == old(hireAWorker) && goToShop == old(goToShop)
      ensures ticks == old(ticks) && days == old(days) && tickRateLevel == old(tickRateLevel) && paused == old(paused)
    {
      tempEntity := Some(wallet);
      shop := None;
      if |goToShop| == 0 {
        return false, None;
      }
      var shopList := goToShop;
      var thing: Option<Business> := None;
      var n := 0;
      while |shopList| > 0
        invariant forall j :: 0 <= j < |shopList| ==> shopList[j] in goToShop
        invariant forall i :: 0 <= i < |goToShop| && reply(goToShop[i]).response ==> goToShop[i] in shopList
        decreases |shopList|
      {
        var selection := pick(n) % |shopList|;
        var answer := reply(shopList[selection]);
        if !answer.response {
          ghost var before := shopList;
          shopList := shopList[..selection] + shopList[selection + 1..];
          forall i | 0 <= i < |goToShop| && reply(goToShop[i]).response ensures goToShop[i] in shopList {
            var j :| 0 <= j < |before| && before[j] == goToShop[i];
            if j < selection {
              assert shopList[j] == before[j];
            } else {
              assert j != selection;
              assert shopList[j - 1] == before[j];
            }
          }
        } else {
          thing := answer.shop;
          var j :| 0 <= j < |goToShop| && goToShop[j] == shopList[selection];
          if thing.None? {
            assert !AcceptorsAreShops(goToShop, reply) by {
              assert reply(goToShop[j]).response && reply(goToShop[j]).shop.None?;
            }
            return false, None;
          }
          tempEntity := None;
          assert reply(goToShop[j]).response && reply(goToShop[j]).shop == thing;
          return true, thing;
        }
        n := n + 1;
      }
      return false, None;
    }
  }

  /** Pausing twice with TogglePause restores the pause state. */
  method TogglePauseTwice(g: GameManager)
    modifies g
    ensures g.paused == old(g.paused) && g.tickRateLevel == old(g.tickRateLevel)
  {
    g.TogglePause();
    g.TogglePause();
  }

  // ---------------------------------------------------------------------------------------------
  // Singleton<T>.Instance

  class Singleton {
    var instance: Option<nat>
    /** The objects the setter has passed to Destroy. */
    var destroyed: seq<nat>

    constructor ()
      ensures instance == None && destroyed == []
    {
      instance := None;
      destroyed := [];
    }

    /** The Instance setter: once an instance is set, a new value is destroyed instead. */
    method SetInstance(value: nat)
      modifies this
      ensures old(instance).Some? ==> instance == old(instance) && destroyed == old(destroyed) + [value]
      ensures old(instance).None? ==> instance == Some(value) && destroyed == old(destroyed)
    {
      if instance.Some? {
        destroyed := destroyed + [value];
        return;
      }
      instance := Some(value);
    }
  }

  /** The first assignment to Instance sticks: a second one only destroys its value. */
  method SetInstanceTwice(s: Singleton, first: nat, second: nat)
    requires s.instance == None
    modifies s
    ensures s.instance == Some(first) && s.destroyed == old(s.destroyed) + [second]
  {
    s.SetInstance(first);
    s.SetInstance(second);
  }
}
