/** Fixed-window budgets of votes and queries per key, and the quotas they guarantee over time. */
module RateBudget {

  type Key = string

  datatype Operation = Vote | Query

  /** Votes and queries allowed per window of windowMs. */
  datatype Limits = Limits(votes: int, queries: int, windowMs: int) {
    function For(op: Operation): int {
      if op == Vote then votes else queries
    }
  }

  /** What is left in the window that ends at resetAt. */
  datatype Budget = Budget(votes: int, queries: int, resetAt: int) {
    function Left(op: Operation): int {
      if op == Vote then votes else queries
    }

    function Spend(op: Operation): Budget {
      if op == Vote then Budget(votes - 1, queries, resetAt) else Budget(votes, queries - 1, resetAt)
    }
  }

  type Budgets = map<Key, Budget>

  datatype Event =
    | Check(key: Key, op: Operation, now: int)
    | Clear(key: Key)
    | ClearAll

  // ----- The operations on values -----

  /** The budget in force at time now: the running one, or a fresh one when there is none or it has ended. */
  function Current(m: Budgets, limits: Limits, key: Key, now: int): Budget {
    if key in m && now < m[key].resetAt then m[key] else Budget(limits.votes, limits.queries, now + limits.windowMs)
  }

  predicate Grants(m: Budgets, limits: Limits, key: Key, op: Operation, now: int) {
    Current(m, limits, key, now).Left(op) > 0
  }

  function Step(m: Budgets, limits: Limits, e: Event): Budgets {
    match e
    case Check(key, op, now) =>
      var budget := Current(m, limits, key, now);
      m[key := if budget.Left(op) > 0 then budget.Spend(op) else budget]
    case Clear(key) => m - {key}
    case ClearAll => map[]
  }

  function Run(m: Budgets, limits: Limits, events: seq<Event>): Budgets {
    if events == [] then m
    else Step(Run(m, limits, events[..|events| - 1]), limits, events[|events| - 1])
  }

  /** How many of the run's checks of this key and operation with a time in [lo, hi] were allowed. */
  function Allowed(m: Budgets, limits: Limits, events: seq<Event>, key: Key, op: Operation, lo: int, hi: int): nat {
    if events == [] then 0
    else
      var before, e := events[..|events| - 1], events[|events| - 1];
      Allowed(m, limits, before, key, op, lo, hi) +
      if e.Check? && e.key == key && e.op == op && lo <= e.now <= hi &&
        Grants(Run(m, limits, before), limits, key, op, e.now)
      then 1 else 0
  }

  /** The clock never runs backwards, starting from `from`. */
  ghost predicate Monotone(events: seq<Event>, from: int) {
    && (forall i | 0 <= i < |events| && events[i].Check? :: from <= events[i].now)
    && (forall i, j | 0 <= i < j < |events| && events[i].Check? && events[j].Check? :: events[i].now <= events[j].now)
  }

  /** No administrator clears the key. */
  ghost predicate Uncleared(events: seq<Event>, key: Key) {
    forall i | 0 <= i < |events| :: events[i] != Clear(key) && events[i] != ClearAll
  }

  function LastTime(events: seq<Event>, from: int): int {
    if events == [] then from
    else if events[|events| - 1].Check? then events[|events| - 1].now
    else LastTime(events[..|events| - 1], from)
  }

  lemma {:induction false} LastTimeBound(events: seq<Event>, from: int, bound: int)
    requires from <= bound && forall i | 0 <= i < |events| && events[i].Check? :: events[i].now <= bound
    ensures LastTime(events, from) <= bound
  {
    if events == [] {
    } else {
      LastTimeBound(events[..|events| - 1], from, bound);
    }
  }

  lemma MonotoneLast(events: seq<Event>, from: int)
    requires Monotone(events, from) && |events| > 0
    ensures Monotone(events[..|events| - 1], from)
    ensures LastTime(events[..|events| - 1], from) <= LastTime(events, from)
  {
    var before, e := events[..|events| - 1], events[|events| - 1];
    if e.Check? {
      LastTimeBound(before, from, e.now);
    }
  }

  // ----- At most twice the limit in any interval as long as a window -----

  /** Nothing is left beyond the limit, and the window was opened at or before `from`. */
  ghost predicate Opened(m: Budgets, limits: Limits, key: Key, op: Operation, from: int) {
    key in m ==>
      && m[key].Left(op) <= limits.For(op) && (limits.For(op) >= 0 ==> m[key].Left(op) >= 0)
      && m[key].resetAt - limits.windowMs <= from
  }

  function Max0(x: int): nat {
    if x < 0 then 0 else x
  }

  /** What the budget of a key tells about the calls allowed in [lo, lo + window]: s is the start of its window. */
  predicate Accounts(count: int, limit: int, left: int, lo: int, hi: int, s: int, resetAt: int) {
    && left <= limit && (limit >= 0 ==> left >= 0)
    && count <= 2 * Max0(limit)
    && (resetAt <= lo ==> count == 0)
    && (s <= lo ==> count <= limit - left)
    && (lo < s <= hi ==> count <= Max0(limit) + (limit - left))
  }

  ghost predicate Accounted(m: Budgets, limits: Limits, key: Key, op: Operation, count: int, lo: int) {
    if key in m then
      Accounts(count, limits.For(op), m[key].Left(op), lo,
        lo + limits.windowMs, m[key].resetAt - limits.windowMs, m[key].resetAt)
    else count == 0
  }

  lemma StepAccounts(count: int, limit: int, left: int, lo: int, w: int, s: int, resetAt: int, now: int)
    requires w > 0 && resetAt == s + w && s <= now && Accounts(count, limit, left, lo, lo + w, s, resetAt)
    ensures now < resetAt ==>
              var hit := if lo <= now <= lo + w && left > 0 then 1 else 0;
              Accounts(count + hit, limit, if left > 0 then left - 1 else left, lo, lo + w, s, resetAt)
    ensures now >= resetAt ==>
              var hit := if lo <= now <= lo + w && limit > 0 then 1 else 0;
              Accounts(count + hit, limit, if limit > 0 then limit - 1 else limit, lo, lo + w, now, now + w)
  {
  }

  /** The window in force was opened no later than the last check. */
  lemma {:induction false} WindowStarted(m: Budgets, limits: Limits, events: seq<Event>, key: Key, from: int)
    requires limits.windowMs > 0 && Monotone(events, from)
    requires key in m ==> m[key].resetAt - limits.windowMs <= from
    ensures var after := Run(m, limits, events);
            key in after ==> after[key].resetAt - limits.windowMs <= LastTime(events, from)
  {
    if events == [] {
    } else {
      MonotoneLast(events, from);
      WindowStarted(m, limits, events[..|events| - 1], key, from);
    }
  }

  lemma CheckAccounted(m: Budgets, limits: Limits, e: Event, key: Key, op: Operation, count: int, lo: int)
    requires limits.windowMs > 0 && Accounted(m, limits, key, op, count, lo)
    requires e.Check? && (key in m ==> m[key].resetAt - limits.windowMs <= e.now)
    ensures var hit := if e.key == key && e.op == op && lo <= e.now <= lo + limits.windowMs &&
      Grants(m, limits, key, op, e.now) then 1 else 0;
            Accounted(Step(m, limits, e), limits, key, op, count + hit, lo)
  {
    if e.key == key && key in m {
      var b, w := m[key], limits.windowMs;
      StepAccounts(count, limits.For(op), b.Left(op), lo, w, b.resetAt - w, b.resetAt, e.now);
    }
  }

  lemma ClearAccounted(m: Budgets, limits: Limits, e: Event, key: Key, op: Operation, count: int, lo: int)
    requires Accounted(m, limits, key, op, count, lo)
    requires e.Clear? && e.key != key
    ensures Accounted(Step(m, limits, e), limits, key, op, count, lo)
  {
  }

  lemma {:induction false} RunAccounted(m: Budgets, limits: Limits, events: seq<Event>, key: Key, op: Operation,
      from: int, lo: int)
    requires limits.windowMs > 0 && Opened(m, limits, key, op, from)
    requires Monotone(events, from) && Uncleared(events, key)
    ensures Accounted(Run(m, limits, events), limits, key, op,
                      Allowed(m, limits, events, key, op, lo, lo + limits.windowMs), lo)
  {
    if events == [] {
    } else {
      hide Accounted;
      var before, e := events[..|events| - 1], events[|events| - 1];
      MonotoneLast(events, from);
      RunAccounted(m, limits, before, key, op, from, lo);
      var s := Run(m, limits, before);
      var count := Allowed(m, limits, before, key, op, lo, lo + limits.windowMs);
      if e.Check? {
        WindowStarted(m, limits, before, key, from);
        CheckAccounted(s, limits, e, key, op, count, lo);
      } else {
        hide Run;
        ClearAccounted(s, limits, e, key, op, count, lo);
      }
    }
  }

  /**
   * From any earlier state and with a clock that never runs backwards, at most twice the limit of an operation is
   * allowed per key in any interval as long as a window, both ends included.
   */
  lemma AtMostTwice(m: Budgets, limits: Limits, events: seq<Event>, key: Key, op: Operation, from: int, lo: int)
    requires limits.windowMs > 0 && Opened(m, limits, key, op, from)
    requires Monotone(events, from) && Uncleared(events, key)
    ensures Allowed(m, limits, events, key, op, lo, lo + limits.windowMs) <= 2 * Max0(limits.For(op))
  {
    RunAccounted(m, limits, events, key, op, from, lo);
  }

  lemma AllowedMore(m: Budgets, limits: Limits, events: seq<Event>, e: Event, key: Key, op: Operation, lo: int, hi: int)
    ensures Run(m, limits, events + [e]) == Step(Run(m, limits, events), limits, e)
    ensures Allowed(m, limits, events + [e], key, op, lo, hi) ==
            Allowed(m, limits, events, key, op, lo, hi) +
            if e.Check? && e.key == key && e.op == op && lo <= e.now <= hi &&
              Grants(Run(m, limits, events), limits, key, op, e.now)
            then 1 else 0
  {
    assert (events + [e])[..|events|] == events;
  }

  function Copies(e: Event, k: nat): (events: seq<Event>)
    ensures |events| == k && forall i | 0 <= i < k :: events[i] == e
  {
    if k == 0 then [] else Copies(e, k - 1) + [e]
  }

  /** k checks at time now were paid for by the window in force. */
  ghost predicate SpentOf(before: Budgets, after: Budgets, limits: Limits, key: Key, op: Operation, now: int, k: nat) {
    var b, a := Current(before, limits, key, now), Current(after, limits, key, now);
    && a.Left(op) == b.Left(op) - k && a.resetAt == b.resetAt
    && if k > 0 then key in after && after[key] == a else after == before
  }

  lemma NoneSpent(m: Budgets, limits: Limits, key: Key, op: Operation, now: int)
    ensures SpentOf(m, m, limits, key, op, now, 0)
  {
  }

  lemma CheckSpends(before: Budgets, m: Budgets, limits: Limits, key: Key, op: Operation, now: int, k: nat)
    requires limits.windowMs > 0 && SpentOf(before, m, limits, key, op, now, k)
    requires k < Current(before, limits, key, now).Left(op)
    ensures Grants(m, limits, key, op, now)
    ensures SpentOf(before, Step(m, limits, Check(key, op, now)), limits, key, op, now, k + 1)
  {
  }

  /** k checks at one time that the window in force can still pay for. */
  lemma {:induction false} Burst(m: Budgets, limits: Limits, events: seq<Event>, key: Key, op: Operation, now: int,
                                 lo: int, hi: int, k: nat)
    requires limits.windowMs > 0 && lo <= now <= hi && k <= Current(Run(m, limits, events), limits, key, now).Left(op)
    ensures var more := events + Copies(Check(key, op, now), k);
            && SpentOf(Run(m, limits, events), Run(m, limits, more), limits, key, op, now, k)
            && Allowed(m, limits, more, key, op, lo, hi) == Allowed(m, limits, events, key, op, lo, hi) + k
  {
    var e := Check(key, op, now);
    hide Run, Allowed, Step, Current, SpentOf, Grants;
    if k == 0 {
      assert events + Copies(e, 0) == events;
      NoneSpent(Run(m, limits, events), limits, key, op, now);
    } else {
      Burst(m, limits, events, key, op, now, lo, hi, k - 1);
      var rest := events + Copies(e, k - 1);
      CheckSpends(Run(m, limits, events), Run(m, limits, rest), limits, key, op, now, k - 1);
      AllowedMore(m, limits, rest, e, key, op, lo, hi);
      assert rest + [e] == events + Copies(e, k);
    }
  }

  /**
   * The bound is reached for every limit and window: a query opens the window, the whole quota is spent in its last
   * millisecond, and again at the start of the next one.
   */
  lemma TwiceIsReached(limits: Limits, key: Key, op: Operation) returns (events: seq<Event>)
    requires limits.windowMs > 0 && limits.For(op) >= 0
    ensures Monotone(events, 0) && Uncleared(events, key)
    ensures Allowed(map[], limits, events, key, op, limits.windowMs - 1, 2 * limits.windowMs - 1) == 2 * limits.For(op)
  {
    hide Run, Allowed, Monotone, Uncleared;
    var w, n := limits.windowMs, limits.For(op);
    var other := if op == Vote then Query else Vote;
    var first := Check(key, other, 0);
    TwoBursts(first, key, op, w, n);
    AllowedMore(map[], limits, [], first, key, op, w - 1, 2 * w - 1);
    assert Run(map[], limits, []) == map[] && Allowed(map[], limits, [], key, op, w - 1, 2 * w - 1) == 0 by {
      Nothing(limits, key, op, w - 1, 2 * w - 1);
    }
    var one := [] + [first];
    Burst(map[], limits, one, key, op, w - 1, w - 1, 2 * w - 1, n);
    var spent := one + Copies(Check(key, op, w - 1), n);
    Burst(map[], limits, spent, key, op, w, w - 1, 2 * w - 1, n);
    events := spent + Copies(Check(key, op, w), n);
  }

  lemma TwoBursts(first: Event, key: Key, op: Operation, w: int, n: nat)
    requires w > 0 && first.Check? && first.now == 0
    ensures var events := ([] + [first]) + Copies(Check(key, op, w - 1), n) + Copies(Check(key, op, w), n);
            Monotone(events, 0) && Uncleared(events, key)
  {
  }

  lemma Nothing(limits: Limits, key: Key, op: Operation, lo: int, hi: int)
    ensures Run(map[], limits, []) == map[] && Allowed(map[], limits, [], key, op, lo, hi) == 0
  {
  }

  // ----- Votes are refused only for votes -----

  /** What was spent of a window's budget is what was allowed since the window began. */
  ghost predicate Exact(m: Budgets, limits: Limits, events: seq<Event>, key: Key, op: Operation, hi: int) {
    var after := Run(m, limits, events);
    key in after ==>
      Allowed(m, limits, events, key, op, after[key].resetAt - limits.windowMs, hi) ==
        limits.For(op) - after[key].Left(op)
  }

  lemma {:induction false} NoneLater(m: Budgets, limits: Limits, events: seq<Event>, key: Key, op: Operation,
      lo: int, hi: int)
    requires forall i | 0 <= i < |events| && events[i].Check? && events[i].key == key :: events[i].now < lo
    ensures Allowed(m, limits, events, key, op, lo, hi) == 0
  {
    if events == [] {
    } else {
      NoneLater(m, limits, events[..|events| - 1], key, op, lo, hi);
    }
  }

  /** Every check of the key so far came before the end of its window. */
  lemma {:induction false} BeforeReset(limits: Limits, events: seq<Event>, key: Key, from: int)
    requires limits.windowMs > 0 && Monotone(events, from) && Uncleared(events, key)
    ensures forall i | 0 <= i < |events| && events[i].Check? && events[i].key == key ::
              key in Run(map[], limits, events) && events[i].now < Run(map[], limits, events)[key].resetAt
  {
    if events == [] {
    } else {
      MonotoneLast(events, from);
      BeforeReset(limits, events[..|events| - 1], key, from);
    }
  }

  /** What was spent of the budget is `count`. */
  predicate ExactCount(m: Budgets, limits: Limits, key: Key, op: Operation, count: int)
    requires key in m
  {
    count == limits.For(op) - m[key].Left(op)
  }

  lemma CheckExact(m: Budgets, limits: Limits, e: Event, key: Key, op: Operation, count: int)
    requires e.Check? && e.key == key
    requires count == if key in m && e.now < m[key].resetAt then limits.For(op) - m[key].Left(op) else 0
    ensures ExactCount(Step(m, limits, e), limits, key, op,
      count + if e.op == op && Grants(m, limits, key, op, e.now) then 1 else 0)
  {
  }

  /** What was allowed since the start of the window that is in force at e. */
  lemma CountBefore(limits: Limits, events: seq<Event>, key: Key, op: Operation, from: int, now: int, hi: int)
    requires limits.windowMs > 0 && Monotone(events, from) && Uncleared(events, key) &&
      Exact(map[], limits, events, key, op, hi)
    ensures var s := Run(map[], limits, events);
            Allowed(map[], limits, events, key, op, Current(s, limits, key, now).resetAt - limits.windowMs, hi) ==
            if key in s && now < s[key].resetAt then limits.For(op) - s[key].Left(op) else 0
  {
    hide Run, Allowed, Monotone, Uncleared;
    var s := Run(map[], limits, events);
    if !(key in s && now < s[key].resetAt) {
      BeforeReset(limits, events, key, from);
      NoneLater(map[], limits, events, key, op, now, hi);
    }
  }

  lemma OwnCheck(limits: Limits, events: seq<Event>, e: Event, key: Key, op: Operation, from: int, hi: int)
    requires limits.windowMs > 0 && Monotone(events, from) && Uncleared(events, key) &&
      Exact(map[], limits, events, key, op, hi)
    requires e.Check? && e.key == key && e.now <= hi
    requires key in Run(map[], limits, events) ==> Run(map[], limits, events)[key].resetAt - limits.windowMs <= e.now
    ensures Exact(map[], limits, events + [e], key, op, hi)
  {
    hide Run, Allowed, Monotone, Uncleared, Exact, Grants;
    CountBefore(limits, events, key, op, from, e.now, hi);
    var s := Run(map[], limits, events);
    var start := Current(s, limits, key, e.now).resetAt - limits.windowMs;
    var count := Allowed(map[], limits, events, key, op, start, hi);
    CheckExact(s, limits, e, key, op, count);
    AllowedMore(map[], limits, events, e, key, op, start, hi);
    ExactFrom(limits, events + [e], key, op, start, hi);
  }

  lemma ExactFrom(limits: Limits, events: seq<Event>, key: Key, op: Operation, start: int, hi: int)
    requires var s := Run(map[], limits, events);
             && key in s && s[key].resetAt - limits.windowMs == start
             && ExactCount(s, limits, key, op, Allowed(map[], limits, events, key, op, start, hi))
    ensures Exact(map[], limits, events, key, op, hi)
  {
  }

  lemma OtherCheck(limits: Limits, events: seq<Event>, e: Event, key: Key, op: Operation, hi: int)
    requires e.Check? && e.key != key && Exact(map[], limits, events, key, op, hi)
    ensures Exact(map[], limits, events + [e], key, op, hi)
  {
    hide Run, Allowed;
    var s := Run(map[], limits, events);
    AllowedMore(map[], limits, events, e, key, op, if key in s then s[key].resetAt - limits.windowMs else 0, hi);
  }

  /** Left over plus allowed in the window is the limit, for each operation on its own. */
  lemma {:induction false} QuotaIsExact(limits: Limits, events: seq<Event>, key: Key, op: Operation, from: int, hi: int)
    requires limits.windowMs > 0 && Monotone(events, from) && Uncleared(events, key)
    requires LastTime(events, from) <= hi
    ensures Exact(map[], limits, events, key, op, hi)
  {
    if events != [] {
      hide Run, Allowed, Exact;
      var before, e := events[..|events| - 1], events[|events| - 1];
      assert before + [e] == events;
      MonotoneLast(events, from);
      QuotaIsExact(limits, before, key, op, from, hi);
      if e.Check? {
        QuotaAt(limits, before, e, key, from);
        if e.key == key {
          OwnCheck(limits, before, e, key, op, from, hi);
        } else {
          OtherCheck(limits, before, e, key, op, hi);
        }
      } else {
        ClearQuota(limits, before, e, key, op, hi);
      }
    } else {
      assert Run(map[], limits, events) == map[];
    }
  }

  lemma QuotaAt(limits: Limits, events: seq<Event>, e: Event, key: Key, from: int)
    requires limits.windowMs > 0 && Monotone(events, from) && e.Check? && LastTime(events, from) <= e.now
    ensures key in Run(map[], limits, events) ==> Run(map[], limits, events)[key].resetAt - limits.windowMs <= e.now
  {
    WindowStarted(map[], limits, events, key, from);
  }

  lemma ClearQuota(limits: Limits, events: seq<Event>, e: Event, key: Key, op: Operation, hi: int)
    requires e.Clear? && e.key != key && Exact(map[], limits, events, key, op, hi)
    ensures Exact(map[], limits, events + [e], key, op, hi)
  {
    hide Run, Allowed;
    var s := Run(map[], limits, events);
    AllowedMore(map[], limits, events, e, key, op, if key in s then s[key].resetAt - limits.windowMs else 0, hi);
  }

  /**
   * A check is refused exactly when the operation's whole quota was already allowed in the key's current window,
   * whatever other operations did; a new window refuses only if there is no quota at all.
   */
  lemma RefusedOnlyWhenSpent(limits: Limits, events: seq<Event>, key: Key, op: Operation, from: int, now: int)
    requires limits.windowMs > 0 && Monotone(events, from) && Uncleared(events, key) && LastTime(events, from) <= now
    ensures var s := Run(map[], limits, events);
            var start := Current(s, limits, key, now).resetAt - limits.windowMs;
            !Grants(s, limits, key, op, now) <==> Allowed(map[], limits, events, key, op, start, now) >= limits.For(op)
  {
    var s := Run(map[], limits, events);
    if key in s && now < s[key].resetAt {
      QuotaIsExact(limits, events, key, op, from, now);
    } else {
      BeforeReset(limits, events, key, from);
      NoneLater(map[], limits, events, key, op, now, now);
    }
  }

  /** Votes are counted against the votes of the limits, queries against the queries. */
  lemma VotesAndQueries(limits: Limits, events: seq<Event>, key: Key, from: int, now: int)
    requires limits.windowMs > 0 && Monotone(events, from) && Uncleared(events, key) && LastTime(events, from) <= now
    ensures var s := Run(map[], limits, events);
            key in s && now < s[key].resetAt ==>
              var start := s[key].resetAt - limits.windowMs;
              && s[key].votes == limits.votes - Allowed(map[], limits, events, key, Vote, start, now)
              && s[key].queries == limits.queries - Allowed(map[], limits, events, key, Query, start, now)
              && (Grants(s, limits, key, Vote, now) <==> s[key].votes > 0)
              && (Grants(s, limits, key, Query, now) <==> s[key].queries > 0)
  {
    hide Run, Allowed, Monotone, Uncleared;
    QuotaIsExact(limits, events, key, Vote, from, now);
    QuotaIsExact(limits, events, key, Query, from, now);
  }

  // ----- Keys do not interfere, and a clear forgets -----

  ghost predicate SameAt(m: Budgets, n: Budgets, key: Key) {
    (key in m <==> key in n) && (key in m ==> m[key] == n[key])
  }

  /** The event checks or clears the key. */
  predicate Concerns(e: Event, key: Key) {
    e.ClearAll? || e.key == key
  }

  function EventsOf(events: seq<Event>, key: Key): seq<Event> {
    if events == [] then []
    else EventsOf(events[..|events| - 1], key) +
         if Concerns(events[|events| - 1], key) then [events[|events| - 1]] else []
  }

  lemma StepSame(m: Budgets, n: Budgets, limits: Limits, e: Event, key: Key)
    requires SameAt(m, n, key)
    ensures SameAt(Step(m, limits, e), Step(n, limits, e), key)
  {
  }

  lemma StepElsewhere(m: Budgets, limits: Limits, e: Event, key: Key)
    requires !Concerns(e, key)
    ensures SameAt(Step(m, limits, e), m, key)
  {
  }

  lemma RunMore(m: Budgets, limits: Limits, events: seq<Event>, e: Event)
    ensures Run(m, limits, events + [e]) == Step(Run(m, limits, events), limits, e)
  {
    assert (events + [e])[..|events|] == events;
  }

  /** A key's budget is what the checks and clears of that key alone make it. */
  lemma {:induction false} KeyIsolation(m: Budgets, limits: Limits, events: seq<Event>, key: Key)
    ensures SameAt(Run(m, limits, events), Run(m, limits, EventsOf(events, key)), key)
  {
    if events != [] {
      hide Step;
      var before, e := events[..|events| - 1], events[|events| - 1];
      KeyIsolation(m, limits, before, key);
      if Concerns(e, key) {
        RunMore(m, limits, EventsOf(before, key), e);
        StepSame(Run(m, limits, before), Run(m, limits, EventsOf(before, key)), limits, e, key);
      } else {
        StepElsewhere(Run(m, limits, before), limits, e, key);
        assert EventsOf(events, key) == EventsOf(before, key);
      }
    }
  }

  /** After the key was cleared, alone or with all others, it is as if nothing had happened before. */
  lemma {:induction false} ClearForgets(m: Budgets, limits: Limits, events: seq<Event>, clear: Event,
                                        more: seq<Event>, key: Key)
    requires clear == Clear(key) || clear == ClearAll
    ensures SameAt(Run(m, limits, events + [clear] + more), Run(map[], limits, more), key)
    ensures forall op, now :: Grants(Run(m, limits, events + [clear] + more), limits, key, op, now) <==>
                              Grants(Run(map[], limits, more), limits, key, op, now)
    decreases |more|
  {
    var all := events + [clear];
    if more == [] {
      assert all + more == all;
      RunMore(m, limits, events, clear);
      assert Run(map[], limits, more) == map[];
    } else {
      hide Step, Run;
      var n := |more| - 1;
      ClearForgets(m, limits, events, clear, more[..n], key);
      RunMore(m, limits, all + more[..n], more[n]);
      RunMore(map[], limits, more[..n], more[n]);
      assert (all + more[..n]) + [more[n]] == all + more && more[..n] + [more[n]] == more;
      StepSame(Run(m, limits, all + more[..n]), Run(map[], limits, more[..n]), limits, more[n], key);
    }
  }

  // ----- The rate limiter -----

  datatype Verdict = Verdict(allowed: bool, remaining: int, resetAt: int)

  class RateLimiter {
    var budgets: Budgets

    constructor ()
      ensures budgets == map[]
    {
      budgets := map[];
    }

    method CheckRateLimit(key: Key, op: Operation, limits: Limits, now: int) returns (v: Verdict)
      modifies this
      ensures budgets == Step(old(budgets), limits, Check(key, op, now))
      ensures v.allowed <==> Grants(old(budgets), limits, key, op, now)
      ensures v.resetAt == budgets[key].resetAt && v.remaining == Max0(budgets[key].Left(op))
    {
      if key !in budgets || now >= budgets[key].resetAt {
        budgets := budgets[key := Budget(limits.votes, limits.queries, now + limits.windowMs)];
      }
      var budget := budgets[key];
      var remaining := if op == Vote then budget.votes else budget.queries;
      if remaining <= 0 {
        return Verdict(false, 0, budget.resetAt);
      }
      budgets := budgets[key := if op == Vote then budget.(votes := budget.votes - 1)
        else budget.(queries := budget.queries - 1)];
      v := Verdict(true, remaining - 1, budget.resetAt);
    }

    /** Reports without consuming; its counts decide the next check at the same time. */
    method GetRateLimitStatus(key: Key, limits: Limits, now: int) returns (budget: Budget)
      ensures budget == Current(budgets, limits, key, now)
      ensures forall op :: Grants(budgets, limits, key, op, now) <==> budget.Left(op) > 0
    {
      if key !in budgets || now >= budgets[key].resetAt {
        return Budget(limits.votes, limits.queries, now + limits.windowMs);
      }
      budget := budgets[key];
    }

    method ResetRateLimit(key: Key)
      modifies this
      ensures budgets == Step(old(budgets), Limits(0, 0, 0), Clear(key))
    {
      budgets := budgets - {key};
    }

    method ClearAllRateLimits()
      modifies this
      ensures budgets == map[]
    {
      budgets := map[];
    }
  }

  // ----- The budget tracker -----

  class BudgetTracker {
    var budgets: Budgets

    constructor ()
      ensures budgets == map[]
    {
      budgets := map[];
    }

    method CheckBudget(key: Key, op: Operation, limits: Limits, now: int) returns (allowed: bool, remaining: int)
      modifies this
      ensures budgets == Step(old(budgets), limits, Check(key, op, now))
      ensures allowed <==> Grants(old(budgets), limits, key, op, now)
      ensures remaining == Max0(budgets[key].Left(op))
    {
      if key !in budgets || now >= budgets[key].resetAt {
        budgets := budgets[key := Budget(limits.votes, limits.queries, now + limits.windowMs)];
      }
      var budget := budgets[key];
      remaining := if op == Vote then budget.votes else budget.queries;
      if remaining <= 0 {
        return false, 0;
      }
      budgets := budgets[key := if op == Vote then budget.(votes := budget.votes - 1)
        else budget.(queries := budget.queries - 1)];
      allowed, remaining := true, remaining - 1;
    }

    method ClearBudget(key: Key)
      modifies this
      ensures budgets == Step(old(budgets), Limits(0, 0, 0), Clear(key))
    {
      budgets := budgets - {key};
    }
  }
}
