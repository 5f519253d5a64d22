/** The two-tier request scheduler: a transition system over lanes, and the class that refines it. */
module PriorityQueues {

  datatype Tier = Critical | Low

  /** A queued request; its task, route and callbacks are identified by id. */
  datatype Item = Item(id: nat, enqueuedAt: int)

  datatype Settings = Settings(concurrency: int, maxQueueWaitMs: int)

  datatype Config = Config(critical: Settings, low: Settings, starvationMs: int) {
    function For(tier: Tier): Settings {
      if tier == Critical then critical else low
    }
  }

  /** A call the scheduler makes: a task is started (after onStarvation, if reported) or a request is timed out. */
  datatype Call =
    | Started(tier: Tier, item: Item, waitedMs: int, reported: bool)
    | TimedOut(tier: Tier, item: Item, waitedMs: int)

  /** One tier: the FIFO queue, what is in flight, and what has completed. */
  datatype Lane = Lane(queue: seq<Item>, running: seq<Item>, finished: seq<Item>)

  datatype State = State(critical: Lane, low: Lane, trace: seq<Call>) {
    function For(tier: Tier): Lane {
      if tier == Critical then critical else low
    }
  }

  /** A reading of the clock for each item that a drain takes from its queue. */
  type Clock = Item -> int

  datatype Event =
    | Enqueue(tier: Tier, item: Item, clock: Clock)
    | Complete(tier: Tier, index: nat, clock: Clock)

  datatype Drained = Drained(lane: Lane, calls: seq<Call>)

  const EMPTY := Lane([], [], [])

  // ----- The transition system -----

  function Take(tier: Tier, lane: Lane, config: Config, clock: Clock): Drained
    requires |lane.queue| > 0
  {
    var item := lane.queue[0];
    var waitedMs := clock(item) - item.enqueuedAt;
    if waitedMs > config.For(tier).maxQueueWaitMs then
      Drained(lane.(queue := lane.queue[1..]), [TimedOut(tier, item, waitedMs)])
    else
      Drained(Lane(lane.queue[1..], lane.running + [item], lane.finished),
              [Started(tier, item, waitedMs, waitedMs >= config.starvationMs)])
  }

  predicate CanTake(tier: Tier, lane: Lane, config: Config) {
    |lane.queue| > 0 && |lane.running| < config.For(tier).concurrency
  }

  function DrainLane(tier: Tier, lane: Lane, config: Config, clock: Clock): Drained
    decreases |lane.queue|
  {
    if CanTake(tier, lane, config) then
      var taken := Take(tier, lane, config, clock);
      var rest := DrainLane(tier, taken.lane, config, clock);
      Drained(rest.lane, taken.calls + rest.calls)
    else
      Drained(lane, [])
  }

  /** Both tiers are drained, the critical one first. */
  function DrainBoth(s: State, config: Config, clock: Clock): State {
    var critical := DrainLane(Critical, s.critical, config, clock);
    var low := DrainLane(Low, s.low, config, clock);
    State(critical.lane, low.lane, s.trace + critical.calls + low.calls)
  }

  function Finish(lane: Lane, index: nat): Lane
    requires index < |lane.running|
  {
    Lane(lane.queue, lane.running[..index] + lane.running[index + 1..], lane.finished + [lane.running[index]])
  }

  /** What the event itself does to a lane, before the drain; a completion of no running task is no event. */
  function Touch(tier: Tier, lane: Lane, e: Event): Lane {
    if e.tier != tier then lane
    else match e
      case Enqueue(_, item, _) => lane.(queue := lane.queue + [item])
      case Complete(_, index, _) => if index < |lane.running| then Finish(lane, index) else lane
  }

  function Step(s: State, e: Event, config: Config): State {
    DrainBoth(State(Touch(Critical, s.critical, e), Touch(Low, s.low, e), s.trace), config, e.clock)
  }

  const START := State(EMPTY, EMPTY, [])

  function Run(config: Config, events: seq<Event>): State {
    if events == [] then START
    else Step(Run(config, events[..|events| - 1]), events[|events| - 1], config)
  }

  // ----- Every reachable lane has used its pool -----

  /** In flight never exceeds the concurrency, and requests wait only while the pool is full. */
  ghost predicate Settled(tier: Tier, lane: Lane, config: Config) {
    var pool := if tier == Critical then config.critical.concurrency else config.low.concurrency;
    && (lane.running == [] || |lane.running| <= pool)
    && (lane.queue == [] || |lane.running| >= pool)
  }

  lemma {:induction false} DrainSettles(tier: Tier, lane: Lane, config: Config, clock: Clock)
    requires lane.running == [] || |lane.running| <= config.For(tier).concurrency
    ensures Settled(tier, DrainLane(tier, lane, config, clock).lane, config)
    decreases |lane.queue|
  {
    if CanTake(tier, lane, config) {
      DrainSettles(tier, Take(tier, lane, config, clock).lane, config, clock);
    }
  }

  lemma SettledIsDrained(tier: Tier, lane: Lane, config: Config, clock: Clock)
    requires Settled(tier, lane, config)
    ensures DrainLane(tier, lane, config, clock) == Drained(lane, [])
  {
  }

  lemma {:induction false} AlwaysSettled(config: Config, events: seq<Event>, tier: Tier)
    ensures Settled(tier, Run(config, events).For(tier), config)
  {
    if events == [] {
    } else {
      var before, e := events[..|events| - 1], events[|events| - 1];
      AlwaysSettled(config, before, tier);
      DrainSettles(tier, Touch(tier, Run(config, before).For(tier), e), config, e.clock);
    }
  }

  // ----- One event, seen by one tier -----

  function CallsOf(trace: seq<Call>, tier: Tier): seq<Call> {
    if trace == [] then []
    else CallsOf(trace[..|trace| - 1], tier) +
         if trace[|trace| - 1].tier == tier then [trace[|trace| - 1]] else []
  }

  lemma {:induction false} CallsOfConcat(a: seq<Call>, b: seq<Call>, tier: Tier)
    ensures CallsOf(a + b, tier) == CallsOf(a, tier) + CallsOf(b, tier)
  {
    if b == [] {
      assert a + b == a;
    } else {
      CallsOfConcat(a, b[..|b| - 1], tier);
      assert (a + b)[..|a + b| - 1] == a + b[..|b| - 1];
    }
  }

  lemma {:induction false} DrainCalls(tier: Tier, lane: Lane, config: Config, clock: Clock, other: Tier)
    ensures CallsOf(DrainLane(tier, lane, config, clock).calls, other) ==
            if other == tier then DrainLane(tier, lane, config, clock).calls else []
    decreases |lane.queue|
  {
    if CanTake(tier, lane, config) {
      var taken := Take(tier, lane, config, clock);
      DrainCalls(tier, taken.lane, config, clock, other);
      CallsOfConcat(taken.calls, DrainLane(tier, taken.lane, config, clock).calls, other);
      CallsOfOne(taken.calls[0], other);
    }
  }

  lemma CallsOfOne(c: Call, tier: Tier)
    ensures CallsOf([c], tier) == if c.tier == tier then [c] else []
  {
    assert CallsOf([], tier) == [];
    assert [c][..0] == [];
  }

  function StepLane(tier: Tier, lane: Lane, e: Event, config: Config): Drained {
    DrainLane(tier, Touch(tier, lane, e), config, e.clock)
  }

  lemma StepSplits(s: State, e: Event, config: Config, tier: Tier)
    ensures Step(s, e, config).For(tier) == StepLane(tier, s.For(tier), e, config).lane
    ensures CallsOf(Step(s, e, config).trace, tier) ==
            CallsOf(s.trace, tier) + StepLane(tier, s.For(tier), e, config).calls
  {
    hide DrainLane, Touch, CallsOf;
    var critical := StepLane(Critical, s.critical, e, config).calls;
    var low := StepLane(Low, s.low, e, config).calls;
    DrainCalls(Critical, Touch(Critical, s.critical, e), config, e.clock, tier);
    DrainCalls(Low, Touch(Low, s.low, e), config, e.clock, tier);
    CallsOfConcat(s.trace + critical, low, tier);
    CallsOfConcat(s.trace, critical, tier);
  }

  // ----- Tier isolation -----

  function EventsOf(events: seq<Event>, tier: Tier): seq<Event> {
    if events == [] then []
    else EventsOf(events[..|events| - 1], tier) +
         if events[|events| - 1].tier == tier then [events[|events| - 1]] else []
  }

  /** Deleting every event of the other tier changes neither this tier's lane nor any call made for it. */
  lemma {:induction false} TierIsolation(config: Config, events: seq<Event>, tier: Tier)
    ensures Run(config, events).For(tier) == Run(config, EventsOf(events, tier)).For(tier)
    ensures CallsOf(Run(config, events).trace, tier) == CallsOf(Run(config, EventsOf(events, tier)).trace, tier)
  {
    hide *;
    if events == [] {
      NoEvents(config, tier);
    } else {
      var before, e := events[..|events| - 1], events[|events| - 1];
      TierIsolation(config, before, tier);
      RunMore(config, before, e);
      assert before + [e] == events;
      EventsOfMore(before, e, tier);
      if e.tier == tier {
        RunMore(config, EventsOf(before, tier), e);
        StepSplits(Run(config, before), e, config, tier);
        StepSplits(Run(config, EventsOf(before, tier)), e, config, tier);
      } else {
        AlwaysSettled(config, before, tier);
        OtherTierStep(Run(config, before), e, config, tier);
      }
    }
  }

  lemma NoEvents(config: Config, tier: Tier)
    ensures EventsOf([], tier) == [] && Run(config, []) == START
  {
  }

  lemma OtherTierStep(s: State, e: Event, config: Config, tier: Tier)
    requires Settled(tier, s.For(tier), config) && e.tier != tier
    ensures Step(s, e, config).For(tier) == s.For(tier)
    ensures CallsOf(Step(s, e, config).trace, tier) == CallsOf(s.trace, tier)
  {
    hide DrainLane, CallsOf, Step, Settled;
    StepSplits(s, e, config, tier);
    SettledIsDrained(tier, s.For(tier), config, e.clock);
  }

  lemma EventsOfMore(events: seq<Event>, e: Event, tier: Tier)
    ensures EventsOf(events + [e], tier) == if e.tier == tier then EventsOf(events, tier) + [e]
      else EventsOf(events, tier)
  {
    assert (events + [e])[..|events|] == events;
  }

  lemma RunMore(config: Config, events: seq<Event>, e: Event)
    ensures Run(config, events + [e]) == Step(Run(config, events), e, config)
  {
    assert (events + [e])[..|events|] == events;
  }

  // ----- FIFO order and conservation -----

  function Arrivals(events: seq<Event>, tier: Tier): seq<Item> {
    if events == [] then []
    else Arrivals(events[..|events| - 1], tier) + ArrivalsOf(events[|events| - 1], tier)
  }

  function ArrivalsOf(e: Event, tier: Tier): seq<Item> {
    if e.Enqueue? && e.tier == tier then [e.item] else []
  }

  function Items(calls: seq<Call>): (items: seq<Item>)
    ensures |items| == |calls| && forall i | 0 <= i < |calls| :: items[i] == calls[i].item
  {
    seq(|calls|, i requires 0 <= i < |calls| => calls[i].item)
  }

  function TimedOutOf(calls: seq<Call>): multiset<Item> {
    if calls == [] then multiset{}
    else if calls[0].TimedOut? then multiset{calls[0].item} + TimedOutOf(calls[1..])
    else TimedOutOf(calls[1..])
  }

  lemma {:induction false} TimedOutOfConcat(a: seq<Call>, b: seq<Call>)
    ensures TimedOutOf(a + b) == TimedOutOf(a) + TimedOutOf(b)
  {
    if a == [] {
      assert a + b == b;
    } else {
      TimedOutOfConcat(a[1..], b);
      assert (a + b)[1..] == a[1..] + b;
    }
  }

  /** The requests a lane has not timed out. */
  function Kept(lane: Lane): multiset<Item> {
    multiset(lane.queue) + multiset(lane.running) + multiset(lane.finished)
  }

  lemma {:induction false} DrainTakesFromTheFront(tier: Tier, lane: Lane, config: Config, clock: Clock)
    ensures var d := DrainLane(tier, lane, config, clock); Items(d.calls) + d.lane.queue == lane.queue
    decreases |lane.queue|
  {
    var d := DrainLane(tier, lane, config, clock);
    if CanTake(tier, lane, config) {
      var taken := Take(tier, lane, config, clock);
      TakesTheFirst(tier, lane, config, clock);
      hide Take, Items;
      DrainTakesFromTheFront(tier, taken.lane, config, clock);
      var rest := DrainLane(tier, taken.lane, config, clock);
      ItemsConcat(taken.calls, rest.calls);
      Regroup(Items(taken.calls), taken.lane.queue, [], Items(rest.calls), rest.lane.queue);
    } else {
      assert Items(d.calls) == [];
    }
  }

  lemma TakesTheFirst(tier: Tier, lane: Lane, config: Config, clock: Clock)
    requires |lane.queue| > 0
    ensures var taken := Take(tier, lane, config, clock);
            |taken.lane.queue| < |lane.queue| && lane.queue == Items(taken.calls) + taken.lane.queue
  {
    var taken := Take(tier, lane, config, clock);
    assert Items(taken.calls) == [lane.queue[0]];
  }

  lemma TakeKeeps(tier: Tier, lane: Lane, config: Config, clock: Clock)
    requires |lane.queue| > 0
    ensures var taken := Take(tier, lane, config, clock); Kept(lane) == Kept(taken.lane) + TimedOutOf(taken.calls)
  {
    var taken := Take(tier, lane, config, clock);
    assert lane.queue == [lane.queue[0]] + lane.queue[1..];
    assert taken.calls[1..] == [];
  }

  lemma {:induction false} DrainKeeps(tier: Tier, lane: Lane, config: Config, clock: Clock)
    ensures var d := DrainLane(tier, lane, config, clock); Kept(lane) == Kept(d.lane) + TimedOutOf(d.calls)
    decreases |lane.queue|
  {
    if CanTake(tier, lane, config) {
      hide Take, Kept, TimedOutOf;
      var taken := Take(tier, lane, config, clock);
      TakeKeeps(tier, lane, config, clock);
      TakesTheFirst(tier, lane, config, clock);
      DrainKeeps(tier, taken.lane, config, clock);
      TimedOutOfConcat(taken.calls, DrainLane(tier, taken.lane, config, clock).calls);
    }
  }

  lemma TouchKeeps(tier: Tier, lane: Lane, e: Event)
    ensures Touch(tier, lane, e).queue == lane.queue + ArrivalsOf(e, tier)
    ensures Kept(Touch(tier, lane, e)) == Kept(lane) + multiset(ArrivalsOf(e, tier))
  {
    if e.tier == tier && e.Complete? && e.index < |lane.running| {
      var k := e.index;
      assert lane.running == lane.running[..k] + [lane.running[k]] + lane.running[k + 1..];
    }
  }

  /** Requests leave a tier in the order in which they arrived, and what has not left is the queue. */
  lemma {:induction false} FirstInFirstOut(config: Config, events: seq<Event>, tier: Tier)
    ensures Arrivals(events, tier) == Items(CallsOf(Run(config, events).trace, tier)) +
      Run(config, events).For(tier).queue
  {
    if events == [] {
      assert CallsOf(START.trace, tier) == [];
    } else {
      hide DrainLane, Touch, CallsOf, Step;
      var before, e := events[..|events| - 1], events[|events| - 1];
      var s := Run(config, before);
      FirstInFirstOut(config, before, tier);
      StepSplits(s, e, config, tier);
      TouchKeeps(tier, s.For(tier), e);
      DrainTakesFromTheFront(tier, Touch(tier, s.For(tier), e), config, e.clock);
      var d := StepLane(tier, s.For(tier), e, config);
      ItemsConcat(CallsOf(s.trace, tier), d.calls);
      Regroup(Items(CallsOf(s.trace, tier)), s.For(tier).queue, ArrivalsOf(e, tier), Items(d.calls), d.lane.queue);
    }
  }

  lemma Regroup(a: seq<Item>, q: seq<Item>, x: seq<Item>, b: seq<Item>, r: seq<Item>)
    requires q + x == b + r
    ensures (a + q) + x == (a + b) + r
  {
    assert (a + q) + x == a + (q + x);
    assert (a + b) + r == a + (b + r);
  }

  lemma ItemsConcat(a: seq<Call>, b: seq<Call>)
    ensures Items(a + b) == Items(a) + Items(b)
  {
  }

  lemma StepKeeps(tier: Tier, lane: Lane, e: Event, config: Config)
    ensures var d := StepLane(tier, lane, e, config);
            Kept(lane) + multiset(ArrivalsOf(e, tier)) == Kept(d.lane) + TimedOutOf(d.calls)
  {
    hide DrainLane, Touch, Kept, TimedOutOf, ArrivalsOf;
    TouchKeeps(tier, lane, e);
    DrainKeeps(tier, Touch(tier, lane, e), config, e.clock);
  }

  /** Every request that arrived is waiting, in flight, finished or timed out, with the right multiplicity. */
  lemma {:induction false} NothingLost(config: Config, events: seq<Event>, tier: Tier)
    ensures multiset(Arrivals(events, tier)) ==
            Kept(Run(config, events).For(tier)) + TimedOutOf(CallsOf(Run(config, events).trace, tier))
  {
    if events == [] {
      assert CallsOf(START.trace, tier) == [];
    } else {
      hide *;
      var before, e := events[..|events| - 1], events[|events| - 1];
      var s := Run(config, before);
      var lane, calls := s.For(tier), CallsOf(s.trace, tier);
      var d := StepLane(tier, lane, e, config);
      assert before + [e] == events;
      NothingLost(config, before, tier);
      RunMore(config, before, e);
      ArrivalsMore(before, e, tier);
      StepSplits(s, e, config, tier);
      StepKeeps(tier, lane, e, config);
      TimedOutOfConcat(calls, d.calls);
      Transfer(multiset(Arrivals(before, tier)), multiset(ArrivalsOf(e, tier)), Kept(lane), TimedOutOf(calls),
               Kept(d.lane), TimedOutOf(d.calls));
    }
  }

  lemma ArrivalsMore(events: seq<Event>, e: Event, tier: Tier)
    ensures Arrivals(events + [e], tier) == Arrivals(events, tier) + ArrivalsOf(e, tier)
    ensures multiset(Arrivals(events + [e], tier)) == multiset(Arrivals(events, tier)) + multiset(ArrivalsOf(e, tier))
  {
    assert (events + [e])[..|events|] == events;
  }

  lemma Transfer(a: multiset<Item>, x: multiset<Item>, kept: multiset<Item>, out: multiset<Item>,
                 kept': multiset<Item>, out': multiset<Item>)
    requires a == kept + out && kept + x == kept' + out'
    ensures a + x == kept' + (out + out')
  {
    forall i: Item
      ensures (a + x)[i] == (kept' + (out + out'))[i]
    {
      assert (kept + x)[i] == (kept' + out')[i];
    }
  }

  /** With distinct requests each one is in exactly one place: none is settled twice, none is forgotten. */
  lemma SettledOnce(config: Config, events: seq<Event>, tier: Tier, item: Item)
    requires forall i, j | 0 <= i < j < |Arrivals(events, tier)| ::
      Arrivals(events, tier)[i] != Arrivals(events, tier)[j]
    requires item in Arrivals(events, tier)
    ensures Kept(Run(config, events).For(tier))[item] + TimedOutOf(CallsOf(Run(config, events).trace, tier))[item] == 1
  {
    hide Run, CallsOf, TimedOutOf, Kept, Arrivals;
    NothingLost(config, events, tier);
    Distinct(Arrivals(events, tier), item);
  }

  lemma {:induction false} Distinct(s: seq<Item>, item: Item)
    requires forall i, j | 0 <= i < j < |s| :: s[i] != s[j]
    ensures multiset(s)[item] == if item in s then 1 else 0
  {
    if s == [] {
    } else {
      Distinct(s[1..], item);
      assert s == [s[0]] + s[1..];
    }
  }

  // ----- Waiting times -----

  /**
   * A task starts only within the tier's limit and is reported from the threshold on;
   * beyond the limit the request is rejected.
   */
  ghost predicate OnTime(c: Call, config: Config) {
    match c
    case Started(tier, _, waitedMs, reported) =>
      waitedMs <= config.For(tier).maxQueueWaitMs && (reported <==> waitedMs >= config.starvationMs)
    case TimedOut(tier, _, waitedMs) => waitedMs > config.For(tier).maxQueueWaitMs
  }

  lemma {:induction false} DrainOnTime(tier: Tier, lane: Lane, config: Config, clock: Clock)
    ensures forall c | c in DrainLane(tier, lane, config, clock).calls :: OnTime(c, config) && c.tier == tier
    decreases |lane.queue|
  {
    if CanTake(tier, lane, config) {
      DrainOnTime(tier, Take(tier, lane, config, clock).lane, config, clock);
    }
  }

  lemma {:induction false} AllOnTime(config: Config, events: seq<Event>)
    ensures forall c | c in Run(config, events).trace :: OnTime(c, config)
  {
    if events == [] {
    } else {
      var before, e := events[..|events| - 1], events[|events| - 1];
      AllOnTime(config, before);
      DrainOnTime(Critical, Touch(Critical, Run(config, before).critical, e), config, e.clock);
      DrainOnTime(Low, Touch(Low, Run(config, before).low, e), config, e.clock);
    }
  }

  /** The call does what the wait of its item, read off the clock, and the limit of its tier demand. */
  ghost predicate Timely(c: Call, config: Config, clock: Clock) {
    var limit := if c.tier == Critical then config.critical.maxQueueWaitMs else config.low.maxQueueWaitMs;
    var waited := clock(c.item) - c.item.enqueuedAt;
    && c.waitedMs == waited && (c.Started? <==> waited <= limit)
    && (c.Started? ==> (c.reported <==> waited >= config.starvationMs))
  }

  /** Call k of a drain is about the k-th request of the queue, and its wait is read off the clock. */
  lemma {:induction false} DrainReadsClock(tier: Tier, lane: Lane, config: Config, clock: Clock, k: nat)
    requires k < |DrainLane(tier, lane, config, clock).calls|
    ensures var c := DrainLane(tier, lane, config, clock).calls[k];
            k < |lane.queue| && c.tier == tier && c.item == lane.queue[k] && Timely(c, config, clock)
    decreases |lane.queue|
  {
    if k > 0 {
      hide Timely;
      DrainReadsClock(tier, Take(tier, lane, config, clock).lane, config, clock, k - 1);
    }
  }

  /** Both tiers' calls of one event, the critical ones first. */
  function CallsIn(s: State, e: Event, config: Config): seq<Call> {
    StepLane(Critical, s.critical, e, config).calls + StepLane(Low, s.low, e, config).calls
  }

  lemma StepAppends(s: State, e: Event, config: Config)
    ensures Step(s, e, config).trace == s.trace + CallsIn(s, e, config)
  {
    hide DrainLane, Touch;
    var low := StepLane(Low, s.low, e, config).calls;
    assert (s.trace + StepLane(Critical, s.critical, e, config).calls) + low == s.trace + CallsIn(s, e, config);
  }

  lemma CallInEvent(s: State, e: Event, config: Config, k: nat)
    requires k < |CallsIn(s, e, config)|
    ensures var c := CallsIn(s, e, config)[k];
            Timely(c, config, e.clock) && c.item in Touch(c.tier, s.For(c.tier), e).queue
    ensures forall j | 0 <= j < k && CallsIn(s, e, config)[k].tier == Critical ::
              CallsIn(s, e, config)[j].tier == Critical
  {
    hide DrainLane, Touch, Timely;
    var n := |StepLane(Critical, s.critical, e, config).calls|;
    forall j | 0 <= j < |CallsIn(s, e, config)|
      ensures CallsIn(s, e, config)[j].tier == if j < n then Critical else Low
    {
      CallAt(s, e, config, j);
    }
    CallAt(s, e, config, k);
  }

  lemma CallAt(s: State, e: Event, config: Config, k: nat)
    requires k < |CallsIn(s, e, config)|
    ensures var c := CallsIn(s, e, config)[k];
            && c.tier == (if k < |StepLane(Critical, s.critical, e, config).calls| then Critical else Low)
            && Timely(c, config, e.clock) && c.item in Touch(c.tier, s.For(c.tier), e).queue
  {
    hide DrainLane, Touch, Timely;
    var n := |StepLane(Critical, s.critical, e, config).calls|;
    if k < n {
      DrainReadsClock(Critical, Touch(Critical, s.critical, e), config, e.clock, k);
    } else {
      DrainReadsClock(Low, Touch(Low, s.low, e), config, e.clock, k - n);
    }
  }

  /**
   * Call k is made by the event that leads from s to t: the item is waiting then, its wait is the event's reading of
   * the clock less the time it was queued at, it is started exactly if that is within its tier's limit and reported
   * exactly if it reaches the threshold. The critical calls of an event come first.
   */
  ghost predicate MadeIn(s: State, t: State, e: Event, config: Config, c: Call, k: nat) {
    && |s.trace| <= k < |t.trace| && t.trace[k] == c
    && Timely(c, config, e.clock) && c.item in Touch(c.tier, s.For(c.tier), e).queue
    && (c.tier == Critical ==> forall j | |s.trace| <= j <= k :: t.trace[j].tier == Critical)
  }

  ghost predicate MadeBy(config: Config, events: seq<Event>, i: nat, c: Call, k: nat)
    requires i < |events|
  {
    MadeIn(Run(config, events[..i]), Run(config, events[..i + 1]), events[i], config, c, k)
  }

  lemma StepMakes(s: State, e: Event, config: Config, k: nat)
    requires |s.trace| <= k < |Step(s, e, config).trace|
    ensures MadeIn(s, Step(s, e, config), e, config, Step(s, e, config).trace[k], k)
  {
    hide Step, Touch, DrainLane, Timely, CallsIn;
    StepAppends(s, e, config);
    CallInEvent(s, e, config, k - |s.trace|);
  }

  lemma MadeEarlier(config: Config, events: seq<Event>, e: Event, i: nat, c: Call, k: nat)
    requires i < |events| && MadeBy(config, events, i, c, k)
    ensures MadeBy(config, events + [e], i, c, k)
  {
    hide MadeIn, Run;
    assert (events + [e])[..i] == events[..i] && (events + [e])[..i + 1] == events[..i + 1];
  }

  lemma MadeLast(config: Config, events: seq<Event>, e: Event, c: Call, k: nat)
    requires MadeIn(Run(config, events), Run(config, events + [e]), e, config, c, k)
    ensures MadeBy(config, events + [e], |events|, c, k)
  {
    hide MadeIn, Run;
    assert (events + [e])[..|events|] == events && (events + [e])[..|events| + 1] == events + [e];
  }

  /** Every call of every run was made by one of its events. */
  lemma {:induction false} WaitsAreRead(config: Config, events: seq<Event>, k: nat) returns (i: nat)
    requires k < |Run(config, events).trace|
    ensures i < |events| && MadeBy(config, events, i, Run(config, events).trace[k], k)
  {
    hide MadeBy, MadeIn, Step;
    var n := |events| - 1;
    var before, e := events[..n], events[n];
    var s, c := Run(config, before), Run(config, events).trace[k];
    assert before + [e] == events;
    StepAppends(s, e, config);
    if k < |s.trace| {
      i := WaitsAreRead(config, before, k);
      MadeEarlier(config, before, e, i, c, k);
    } else {
      i := n;
      StepMakes(s, e, config, k);
      MadeLast(config, before, e, c, k);
    }
  }

  /** While the pool has a free worker a new request starts in the very event that enqueues it. */
  lemma PromptStart(s: State, config: Config, tier: Tier, item: Item, clock: Clock)
    requires Settled(tier, s.For(tier), config) && |s.For(tier).running| < config.For(tier).concurrency
    requires clock(item) - item.enqueuedAt <= config.For(tier).maxQueueWaitMs
    ensures var after := Step(s, Enqueue(tier, item, clock), config);
            && after.For(tier).queue == [] && after.For(tier).running == s.For(tier).running + [item]
            && |CallsOf(after.trace, tier)| == |CallsOf(s.trace, tier)| + 1
  {
    var lane := s.For(tier);
    StepSplits(s, Enqueue(tier, item, clock), config, tier);
    var queued := Lane([item], lane.running, lane.finished);
    assert Touch(tier, lane, Enqueue(tier, item, clock)) == queued;
    var taken := Take(tier, queued, config, clock);
    assert DrainLane(tier, taken.lane, config, clock) == Drained(taken.lane, []);
  }

  // ----- Bounded overtaking -----

  /** While a tier still has a queue, each completion takes at least one request off its front. */
  lemma CompletionAdvances(s: State, e: Event, config: Config, tier: Tier)
    requires Settled(tier, s.For(tier), config)
    requires StepLane(tier, s.For(tier), e, config).lane.queue != []
    ensures |StepLane(tier, s.For(tier), e, config).lane.finished| - |s.For(tier).finished| <=
            |StepLane(tier, s.For(tier), e, config).calls|
  {
    var lane := s.For(tier);
    var touched := Touch(tier, lane, e);
    DrainTakesFromTheFront(tier, touched, config, e.clock);
    DrainKeepsFinished(tier, touched, config, e.clock);
    if |touched.finished| > |lane.finished| {
      assert CanTake(tier, touched, config);
    }
  }

  lemma {:induction false} DrainKeepsFinished(tier: Tier, lane: Lane, config: Config, clock: Clock)
    ensures DrainLane(tier, lane, config, clock).lane.finished == lane.finished
    decreases |lane.queue|
  {
    if CanTake(tier, lane, config) {
      DrainKeepsFinished(tier, Take(tier, lane, config, clock).lane, config, clock);
    }
  }

  function Taken(config: Config, events: seq<Event>, tier: Tier): nat {
    |CallsOf(Run(config, events).trace, tier)|
  }

  function Finished(config: Config, events: seq<Event>, tier: Tier): nat {
    |Run(config, events).For(tier).finished|
  }

  /**
   * As long as some request that had arrived by `events` is still waiting, at least as many requests have been
   * taken since then as tasks have completed: a request with n others ahead of it leaves by the (n+1)st completion.
   */
  lemma {:induction false} BoundedOvertaking(config: Config, events: seq<Event>, more: seq<Event>, tier: Tier)
    requires Taken(config, events + more, tier) < |Arrivals(events, tier)|
    ensures Finished(config, events + more, tier) - Finished(config, events, tier) <=
            Taken(config, events + more, tier) - Taken(config, events, tier)
    decreases |more|
  {
    if more == [] {
      assert events + more == events;
    } else {
      hide *;
      var n := |more| - 1;
      var before, e := events + more[..n], more[n];
      assert before + [e] == events + more;
      StepCounts(config, before, e, tier);
      ArrivalsGrow(events, more, tier);
      BoundedOvertaking(config, events, more[..n], tier);
    }
  }

  lemma {:induction false} ArrivalsGrow(events: seq<Event>, more: seq<Event>, tier: Tier)
    ensures |Arrivals(events, tier)| <= |Arrivals(events + more, tier)|
    decreases |more|
  {
    if more == [] {
      assert events + more == events;
    } else {
      var n := |more| - 1;
      assert (events + more)[..|events + more| - 1] == events + more[..n];
      ArrivalsGrow(events, more[..n], tier);
    }
  }

  lemma StepCounts(config: Config, events: seq<Event>, e: Event, tier: Tier)
    ensures Taken(config, events, tier) <= Taken(config, events + [e], tier)
    ensures Taken(config, events + [e], tier) < |Arrivals(events + [e], tier)| ==>
              Finished(config, events + [e], tier) - Finished(config, events, tier) <=
              Taken(config, events + [e], tier) - Taken(config, events, tier)
  {
    hide DrainLane, Touch, CallsOf, Step, Settled, Run, Arrivals;
    var s := Run(config, events);
    RunMore(config, events, e);
    StepSplits(s, e, config, tier);
    AlwaysSettled(config, events, tier);
    FirstInFirstOut(config, events + [e], tier);
    if StepLane(tier, s.For(tier), e, config).lane.queue != [] {
      CompletionAdvances(s, e, config, tier);
    }
  }

  // ----- The scheduler object -----

  datatype Snapshot = Snapshot(tier: Tier, queued: nat, inFlight: nat, concurrency: int)

  /** The state after one tier was drained. */
  ghost function Put(s: State, tier: Tier, d: Drained): State {
    if tier == Critical then State(d.lane, s.low, s.trace + d.calls) else State(s.critical, d.lane, s.trace + d.calls)
  }

  lemma DrainStep(s: State, tier: Tier, config: Config, clock: Clock)
    requires CanTake(tier, s.For(tier), config)
    ensures var taken := Put(s, tier, Take(tier, s.For(tier), config, clock));
            Put(s, tier, DrainLane(tier, s.For(tier), config, clock)) ==
            Put(taken, tier, DrainLane(tier, taken.For(tier), config, clock))
  {
    hide Take;
    var d := Take(tier, s.For(tier), config, clock);
    var rest := DrainLane(tier, d.lane, config, clock);
    assert s.trace + (d.calls + rest.calls) == (s.trace + d.calls) + rest.calls;
  }

  class PriorityQueue {
    const config: Config
    var queues: map<Tier, seq<Item>>
    var inFlight: map<Tier, int>
    /** The calls made on tasks and callbacks so far, in order. */
    var trace: seq<Call>
    /** The state of the transition system: it also knows which tasks the in-flight counts stand for. */
    ghost var view: State

    ghost predicate Valid()
      reads this
    {
      && queues == map[Critical := view.critical.queue, Low := view.low.queue]
      && inFlight == map[Critical := |view.critical.running|, Low := |view.low.running|]
      && trace == view.trace
    }

    constructor (config: Config)
      ensures Valid() && this.config == config && view == START
    {
      this.config := config;
      queues := map[Critical := [], Low := []];
      inFlight := map[Critical := 0, Low := 0];
      trace := [];
      view := START;
    }

    method Enqueue(tier: Tier, item: Item, clock: Clock)
      requires Valid()
      modifies this
      ensures Valid() && view == Step(old(view), Event.Enqueue(tier, item, clock), config)
    {
      queues := queues[tier := queues[tier] + [item]];
      view := Put(view, tier, Drained(Touch(tier, view.For(tier), Event.Enqueue(tier, item, clock)), []));
      Drain(clock);
    }

    /** The completion callback of a task in flight. */
    method OnComplete(tier: Tier, ghost index: nat, clock: Clock)
      requires Valid() && index < |view.For(tier).running|
      modifies this
      ensures Valid() && view == Step(old(view), Complete(tier, index, clock), config)
    {
      inFlight := inFlight[tier := inFlight[tier] - 1];
      view := Put(view, tier, Drained(Finish(view.For(tier), index), []));
      Drain(clock);
    }

    method Drain(clock: Clock)
      requires Valid()
      modifies this
      ensures Valid() && view == DrainBoth(old(view), config, clock)
    {
      DrainTier(Critical, clock);
      DrainTier(Low, clock);
    }

    method DrainTier(tier: Tier, clock: Clock)
      requires Valid()
      modifies this
      ensures Valid() && view == Put(old(view), tier, DrainLane(tier, old(view).For(tier), config, clock))
    {
      ghost var before := view;
      while |queues[tier]| > 0 && inFlight[tier] < config.For(tier).concurrency
        invariant Valid()
        invariant Put(before, tier, DrainLane(tier, before.For(tier), config, clock)) ==
                  Put(view, tier, DrainLane(tier, view.For(tier), config, clock))
        decreases |queues[tier]|
      {
        DrainStep(view, tier, config, clock);
        TakeOne(tier, clock);
      }
    }

    method TakeOne(tier: Tier, clock: Clock)
      requires Valid() && CanTake(tier, view.For(tier), config)
      modifies this
      ensures Valid() && view == Put(old(view), tier, Take(tier, old(view).For(tier), config, clock))
      ensures |queues[tier]| < |old(queues)[tier]|
      ensures var c := trace[|trace| - 1];
              && trace == old(trace) + [c] && Timely(c, config, clock)
              && c.tier == tier && c.item == old(queues)[tier][0]
              && inFlight[tier] == old(inFlight)[tier] + if c.Started? then 1 else 0
    {
      var item := queues[tier][0];
      view := Put(view, tier, Take(tier, view.For(tier), config, clock));
      queues := queues[tier := queues[tier][1..]];
      var waitedMs := clock(item) - item.enqueuedAt;
      if waitedMs > config.For(tier).maxQueueWaitMs {
        trace := trace + [TimedOut(tier, item, waitedMs)];
        return;
      }
      inFlight := inFlight[tier := inFlight[tier] + 1];
      trace := trace + [Started(tier, item, waitedMs, waitedMs >= config.starvationMs)];
    }

    method GetQueueDepths() returns (depths: seq<Snapshot>)
      requires Valid()
      ensures |depths| == 2 && depths[0].tier == Critical && depths[1].tier == Low
      ensures forall d | d in depths :: d.queued == |view.For(d.tier).queue| && d.inFlight == |view.For(d.tier).running|
      ensures forall d | d in depths :: d.concurrency == config.For(d.tier).concurrency
    {
      depths := [Snapshot(Critical, |queues[Critical]|, inFlight[Critical], config.critical.concurrency),
                 Snapshot(Low, |queues[Low]|, inFlight[Low], config.low.concurrency)];
    }
  }
}
