/** The bounded rate-limit store: an insertion-ordered map with least-recently-used eviction. */
module RateLimitStore {
  import opened PrimeField

  type Key = string

  datatype Entry = Entry(totalHits: int, resetTime: int)

  /** Keys in insertion order, oldest first, with their entries. */
  datatype Store = Store(order: seq<Key>, entries: map<Key, Entry>)

  const EMPTY := Store([], map[])

  datatype Event =
    | Increment(key: Key, now: int)
    | Decrement(key: Key)
    | Reset(key: Key)

  // ----- The operations on values -----

  function Without(order: seq<Key>, key: Key): seq<Key> {
    if order == [] then []
    else if order[0] == key then Without(order[1..], key)
    else [order[0]] + Without(order[1..], key)
  }

  function Delete(s: Store, key: Key): Store {
    Store(Without(s.order, key), s.entries - {key})
  }

  /** Puts the key last, whether or not it was present. */
  function Renew(s: Store, key: Key, entry: Entry): Store {
    Store(Without(s.order, key) + [key], s.entries[key := entry])
  }

  function Evict(s: Store, maxKeys: int): Store
    decreases |s.order|
  {
    if |s.order| > 0 && |s.order| > maxKeys then Evict(Store(s.order[1..], s.entries - {s.order[0]}), maxKeys) else s
  }

  /** The key has a window that is still running. */
  predicate Live(s: Store, key: Key, now: int) {
    key in s.entries && s.entries[key].resetTime > now
  }

  /** The entry after a hit: one more in a running window, or the first of a new one. */
  function Hit(s: Store, windowMs: int, key: Key, now: int): Entry {
    if Live(s, key, now) then
      Entry(s.entries[key].totalHits + 1, s.entries[key].resetTime)
    else
      Entry(1, now + windowMs)
  }

  function Decremented(s: Store, key: Key): Store {
    if key in s.entries && s.entries[key].totalHits > 0 then
      s.(entries := s.entries[key := Entry(s.entries[key].totalHits - 1, s.entries[key].resetTime)])
    else s
  }

  /** The store that never evicts. */
  function StepUnbounded(s: Store, windowMs: int, e: Event): Store {
    match e
    case Increment(key, now) => Renew(s, key, Hit(s, windowMs, key, now))
    case Decrement(key) => Decremented(s, key)
    case Reset(key) => Delete(s, key)
  }

  /** Only a new window can evict. */
  function Step(s: Store, maxKeys: int, windowMs: int, e: Event): Store {
    if e.Increment? && !Live(s, e.key, e.now) then Evict(StepUnbounded(s, windowMs, e), maxKeys)
      else StepUnbounded(s, windowMs, e)
  }

  function Run(maxKeys: int, windowMs: int, events: seq<Event>): Store {
    if events == [] then EMPTY
    else Step(Run(maxKeys, windowMs, events[..|events| - 1]), maxKeys, windowMs, events[|events| - 1])
  }

  function RunUnbounded(windowMs: int, events: seq<Event>): Store {
    if events == [] then EMPTY
    else StepUnbounded(RunUnbounded(windowMs, events[..|events| - 1]), windowMs, events[|events| - 1])
  }

  // ----- The order lists the keys once each -----

  ghost predicate Distinct(order: seq<Key>) {
    forall i, j | 0 <= i < j < |order| :: order[i] != order[j]
  }

  ghost predicate WellFormed(s: Store) {
    && Distinct(s.order)
    && forall key :: key in s.order <==> key in s.entries
  }

  lemma {:induction false} WithoutMembers(order: seq<Key>, key: Key, k: Key)
    ensures k in Without(order, key) <==> k in order && k != key
  {
    if order == [] {
    } else {
      WithoutMembers(order[1..], key, k);
      assert k in order <==> k == order[0] || k in order[1..];
    }
  }

  lemma {:induction false} WithoutAbsent(order: seq<Key>, key: Key)
    ensures |Without(order, key)| <= |order|
    ensures key !in order ==> Without(order, key) == order
    ensures key in order ==> |Without(order, key)| < |order|
  {
    if order == [] {
    } else {
      WithoutAbsent(order[1..], key);
      assert key in order <==> key == order[0] || key in order[1..];
      assert order == [order[0]] + order[1..];
    }
  }

  lemma {:induction false} WithoutDistinct(order: seq<Key>, key: Key)
    requires Distinct(order)
    ensures Distinct(Without(order, key))
  {
    if order == [] {
    } else {
      var rest := order[1..];
      WithoutDistinct(rest, key);
      DistinctHead(order);
      WithoutMembers(rest, key, order[0]);
      if order[0] != key {
        DistinctPush(order[0], Without(rest, key));
      }
    }
  }

  lemma DistinctHead(order: seq<Key>)
    requires Distinct(order) && |order| > 0
    ensures order[0] !in order[1..] && Distinct(order[1..])
  {
  }

  lemma DistinctPush(key: Key, order: seq<Key>)
    requires Distinct(order) && key !in order
    ensures Distinct([key] + order) && Distinct(order + [key])
  {
  }

  lemma Associates(a: seq<Key>, b: seq<Key>, c: seq<Key>)
    ensures (a + b) + c == a + (b + c)
  {
  }

  lemma WithoutHead(order: seq<Key>, key: Key)
    requires order != []
    ensures Without(order, key) == (if order[0] == key then [] else [order[0]]) + Without(order[1..], key)
  {
    if order[0] == key {
      assert [] + Without(order[1..], key) == Without(order[1..], key);
    }
  }

  lemma {:induction false} WithoutConcat(a: seq<Key>, b: seq<Key>, key: Key)
    ensures Without(a + b, key) == Without(a, key) + Without(b, key)
  {
    if a == [] {
      assert a + b == b;
    } else {
      hide Without;
      WithoutConcat(a[1..], b, key);
      WithoutHead(a, key);
      WithoutHead(a + b, key);
      assert (a + b)[1..] == a[1..] + b && (a + b)[0] == a[0];
      Associates(if a[0] == key then [] else [a[0]], Without(a[1..], key), Without(b, key));
    }
  }

  lemma EvictOldest(s: Store)
    requires WellFormed(s) && |s.order| > 0
    ensures WellFormed(Store(s.order[1..], s.entries - {s.order[0]}))
  {
    assert s.order == [s.order[0]] + s.order[1..];
  }

  /** Eviction drops exactly the oldest keys and leaves the entries of the others alone. */
  lemma {:induction false} EvictDropsOldest(s: Store, maxKeys: int)
    requires WellFormed(s)
    ensures WellFormed(Evict(s, maxKeys))
    ensures var n := if maxKeys < 0 then 0 else if |s.order| <= maxKeys then |s.order| else maxKeys;
            Evict(s, maxKeys).order == s.order[|s.order| - n..]
    ensures forall key | key in Evict(s, maxKeys).entries ::
      key in s.entries && Evict(s, maxKeys).entries[key] == s.entries[key]
    decreases |s.order|
  {
    if |s.order| > 0 && |s.order| > maxKeys {
      hide WellFormed;
      EvictOldest(s);
      EvictDropsOldest(Store(s.order[1..], s.entries - {s.order[0]}), maxKeys);
    }
  }

  lemma DeleteWellFormed(s: Store, key: Key)
    requires WellFormed(s)
    ensures WellFormed(Delete(s, key))
  {
    WithoutDistinct(s.order, key);
    forall k: Key
      ensures k in Without(s.order, key) <==> k in s.entries && k != key
    {
      WithoutMembers(s.order, key, k);
    }
  }

  lemma RenewWellFormed(s: Store, key: Key, entry: Entry)
    requires WellFormed(s)
    ensures WellFormed(Renew(s, key, entry))
  {
    var d := Delete(s, key);
    DeleteWellFormed(s, key);
    DistinctPush(key, d.order);
    assert forall k: Key :: k in d.order + [key] <==> k in d.order || k == key;
  }

  lemma StepUnboundedWellFormed(s: Store, windowMs: int, e: Event)
    requires WellFormed(s)
    ensures WellFormed(StepUnbounded(s, windowMs, e))
  {
    match e
    case Increment(key, now) => RenewWellFormed(s, key, Hit(s, windowMs, key, now));
    case Decrement(key) =>
    case Reset(key) => DeleteWellFormed(s, key);
  }

  lemma {:induction false} RunWellFormed(maxKeys: int, windowMs: int, events: seq<Event>)
    ensures WellFormed(Run(maxKeys, windowMs, events)) && WellFormed(RunUnbounded(windowMs, events))
  {
    if events != [] {
      hide WellFormed;
      var before, e := events[..|events| - 1], events[|events| - 1];
      RunWellFormed(maxKeys, windowMs, before);
      StepUnboundedWellFormed(Run(maxKeys, windowMs, before), windowMs, e);
      StepUnboundedWellFormed(RunUnbounded(windowMs, before), windowMs, e);
      EvictDropsOldest(StepUnbounded(Run(maxKeys, windowMs, before), windowMs, e), maxKeys);
    } else {
      assert WellFormed(EMPTY);
    }
  }

  lemma LiveIsPresent(s: Store, key: Key)
    requires WellFormed(s)
    ensures |Without(s.order, key)| <= |s.order|
    ensures key in s.entries ==> |Without(s.order, key)| < |s.order|
  {
    WithoutAbsent(s.order, key);
  }

  /** The store never holds more than maxKeys keys. */
  lemma {:induction false} AlwaysBounded(maxKeys: nat, windowMs: int, events: seq<Event>)
    ensures |Run(maxKeys, windowMs, events).order| <= maxKeys
  {
    if events == [] {
    } else {
      hide WellFormed;
      var before, e := events[..|events| - 1], events[|events| - 1];
      var s := Run(maxKeys, windowMs, before);
      AlwaysBounded(maxKeys, windowMs, before);
      RunWellFormed(maxKeys, windowMs, before);
      StepUnboundedWellFormed(s, windowMs, e);
      LiveIsPresent(s, e.key);
      if e.Increment? {
        EvictDropsOldest(StepUnbounded(s, windowMs, e), maxKeys);
      }
    }
  }

  // ----- Stack inclusion -----

  ghost predicate IsSuffix(s: seq<Key>, l: seq<Key>) {
    |s| <= |l| && l[|l| - |s|..] == s
  }

  lemma WithoutSuffix(s: seq<Key>, l: seq<Key>, key: Key)
    requires IsSuffix(s, l)
    ensures IsSuffix(Without(s, key), Without(l, key))
  {
    var p := l[..|l| - |s|];
    assert l == p + s;
    WithoutConcat(p, s, key);
  }

  lemma SuffixPush(s: seq<Key>, l: seq<Key>, key: Key)
    requires IsSuffix(s, l)
    ensures IsSuffix(s + [key], l + [key])
  {
    assert (l + [key])[|l| - |s|..] == l[|l| - |s|..] + [key];
  }

  /** The order after an operation, seen without the entries. */
  lemma StepOrder(s: Store, maxKeys: nat, windowMs: int, e: Event)
    requires WellFormed(s) && |s.order| <= maxKeys
    ensures var after := Step(s, maxKeys, windowMs, e).order;
            var all := Without(s.order, e.key) + [e.key];
            match e
            case Increment(_, _) => after == Last(all, maxKeys)
            case Decrement(_) => after == s.order
            case Reset(_) => after == Without(s.order, e.key)
  {
    hide WellFormed, Evict, Without, Last;
    match e
    case Increment(key, now) =>
      if Live(s, key, now) {
        LiveOrder(s, maxKeys, key);
      } else {
        NewOrder(s, maxKeys, windowMs, key, now);
      }
    case Decrement(_) =>
    case Reset(_) =>
  }

  function Last(order: seq<Key>, n: nat): seq<Key> {
    if |order| <= n then order else order[|order| - n..]
  }

  lemma LiveOrder(s: Store, maxKeys: nat, key: Key)
    requires WellFormed(s) && |s.order| <= maxKeys && key in s.entries
    ensures Last(Without(s.order, key) + [key], maxKeys) == Without(s.order, key) + [key]
  {
    LiveIsPresent(s, key);
  }

  lemma NewOrder(s: Store, maxKeys: nat, windowMs: int, key: Key, now: int)
    requires WellFormed(s)
    ensures Evict(StepUnbounded(s, windowMs, Increment(key, now)), maxKeys).order ==
      Last(Without(s.order, key) + [key], maxKeys)
  {
    hide WellFormed, Evict, Without;
    var t := StepUnbounded(s, windowMs, Increment(key, now));
    StepUnboundedWellFormed(s, windowMs, Increment(key, now));
    EvictDropsOldest(t, maxKeys);
    assert t.order == Without(s.order, key) + [key];
    LastDrop(t.order, maxKeys);
  }

  lemma LastDrop(order: seq<Key>, n: nat)
    ensures var k := if |order| <= n then |order| else n; Last(order, n) == order[|order| - k..]
  {
  }

  lemma LastSuffix(s: seq<Key>, l: seq<Key>, m: nat, n: nat)
    requires IsSuffix(s, l) && m <= n
    ensures IsSuffix(Last(s, m), Last(l, n))
  {
  }

  lemma StepInclusion(s: Store, l: Store, maxKeys: nat, larger: nat, windowMs: int, e: Event)
    requires maxKeys <= larger && WellFormed(s) && WellFormed(l) && IsSuffix(s.order, l.order)
    requires |s.order| <= maxKeys && |l.order| <= larger
    ensures IsSuffix(Step(s, maxKeys, windowMs, e).order, Step(l, larger, windowMs, e).order)
  {
    hide WellFormed, Step, IsSuffix, Without, Last;
    StepOrder(s, maxKeys, windowMs, e);
    StepOrder(l, larger, windowMs, e);
    var a, b := Without(s.order, e.key), Without(l.order, e.key);
    WithoutSuffix(s.order, l.order, e.key);
    SuffixPush(a, b, e.key);
    LastSuffix(a + [e.key], b + [e.key], maxKeys, larger);
  }

  /** Stack inclusion: the smaller store's key order is always a suffix of the larger one's. */
  lemma {:induction false} StackInclusion(maxKeys: nat, larger: nat, windowMs: int, events: seq<Event>)
    requires maxKeys <= larger
    ensures IsSuffix(Run(maxKeys, windowMs, events).order, Run(larger, windowMs, events).order)
  {
    if events == [] {
    } else {
      hide WellFormed, IsSuffix, Step;
      var before := events[..|events| - 1];
      StackInclusion(maxKeys, larger, windowMs, before);
      RunWellFormed(maxKeys, windowMs, before);
      RunWellFormed(larger, windowMs, before);
      AlwaysBounded(maxKeys, windowMs, before);
      AlwaysBounded(larger, windowMs, before);
      StepInclusion(Run(maxKeys, windowMs, before), Run(larger, windowMs, before), maxKeys, larger, windowMs,
        events[|events| - 1]);
    }
  }

  lemma RunMore(maxKeys: int, windowMs: int, events: seq<Event>, e: Event)
    ensures Run(maxKeys, windowMs, events + [e]) == Step(Run(maxKeys, windowMs, events), maxKeys, windowMs, e)
    ensures RunUnbounded(windowMs, events + [e]) == StepUnbounded(RunUnbounded(windowMs, events), windowMs, e)
  {
    assert (events + [e])[..|events|] == events;
  }

  // ----- Agreement with the store that never evicts -----

  /** The keys a run increments. */
  function Touched(events: seq<Event>): set<Key> {
    if events == [] then {}
    else Touched(events[..|events| - 1]) + if events[|events| - 1].Increment? then {events[|events| - 1].key} else {}
  }

  lemma {:induction false} OnlyTouched(windowMs: int, events: seq<Event>, key: Key)
    requires key in RunUnbounded(windowMs, events).order
    ensures key in Touched(events)
  {
    if events == [] {
    } else {
      var before, e := events[..|events| - 1], events[|events| - 1];
      var s := RunUnbounded(windowMs, before);
      WithoutMembers(s.order, e.key, key);
      if key in s.order {
        OnlyTouched(windowMs, before, key);
      }
    }
  }

  lemma {:induction false} DistinctCount(order: seq<Key>, keys: set<Key>)
    requires Distinct(order) && forall k | k in order :: k in keys
    ensures |order| <= |keys|
  {
    if order == [] {
    } else {
      DistinctHead(order);
      DistinctCount(order[1..], keys - {order[0]});
    }
  }

  lemma Untrimmed(s: Store, maxKeys: nat)
    requires |s.order| <= maxKeys
    ensures Evict(s, maxKeys) == s
  {
  }

  lemma UnboundedSize(windowMs: int, events: seq<Event>)
    ensures |RunUnbounded(windowMs, events).order| <= |Touched(events)|
  {
    RunWellFormed(0, windowMs, events);
    forall k | k in RunUnbounded(windowMs, events).order
      ensures k in Touched(events)
    {
      OnlyTouched(windowMs, events, k);
    }
    DistinctCount(RunUnbounded(windowMs, events).order, Touched(events));
  }

  /** On runs that touch at most maxKeys distinct keys the bounded store is the unbounded one. */
  lemma {:induction false} AgreesWithUnbounded(maxKeys: nat, windowMs: int, events: seq<Event>)
    requires |Touched(events)| <= maxKeys
    ensures Run(maxKeys, windowMs, events) == RunUnbounded(windowMs, events)
  {
    if events == [] {
    } else {
      hide StepUnbounded;
      var before := events[..|events| - 1];
      SubsetSize(Touched(before), Touched(events));
      AgreesWithUnbounded(maxKeys, windowMs, before);
      UnboundedSize(windowMs, events);
      Untrimmed(RunUnbounded(windowMs, events), maxKeys);
    }
  }

  lemma InUnbounded(maxKeys: nat, windowMs: int, events: seq<Event>, key: Key)
    requires key in Run(maxKeys, windowMs, events).entries
    ensures key in RunUnbounded(windowMs, events).entries
  {
    var n := if |Touched(events)| <= maxKeys then maxKeys else |Touched(events)|;
    StackInclusion(maxKeys, n, windowMs, events);
    AgreesWithUnbounded(n, windowMs, events);
    RunWellFormed(maxKeys, windowMs, events);
  }

  /** The key was never evicted while the unbounded store remembered it. */
  ghost predicate NeverEvicted(maxKeys: int, windowMs: int, events: seq<Event>, key: Key) {
    forall i {:trigger events[..i]} | 0 <= i <= |events| ::
      key in RunUnbounded(windowMs, events[..i]).entries ==> key in Run(maxKeys, windowMs, events[..i]).entries
  }

  ghost predicate SameEntry(s: Store, l: Store, key: Key) {
    (key in s.entries <==> key in l.entries) && (key in s.entries ==> s.entries[key] == l.entries[key])
  }

  /** Whatever happens to other keys, a key that was never evicted has the unbounded store's hits and reset time. */
  lemma {:induction false} ResidentKeyAgrees(maxKeys: nat, windowMs: int, events: seq<Event>, key: Key)
    requires NeverEvicted(maxKeys, windowMs, events, key)
    ensures SameEntry(Run(maxKeys, windowMs, events), RunUnbounded(windowMs, events), key)
  {
    if events == [] {
    } else {
      hide StepUnbounded, WellFormed;
      var n := |events| - 1;
      var before := events[..n];
      ShorterRun(maxKeys, windowMs, events, key);
      ResidentKeyAgrees(maxKeys, windowMs, before, key);
      RunWellFormed(maxKeys, windowMs, before);
      StepAgrees(Run(maxKeys, windowMs, before), RunUnbounded(windowMs, before), maxKeys, windowMs, events[n], key);
      if key in Run(maxKeys, windowMs, events).entries {
        InUnbounded(maxKeys, windowMs, events, key);
      }
      assert events[..|events|] == events;
    }
  }

  lemma ShorterRun(maxKeys: int, windowMs: int, events: seq<Event>, key: Key)
    requires NeverEvicted(maxKeys, windowMs, events, key) && |events| > 0
    ensures NeverEvicted(maxKeys, windowMs, events[..|events| - 1], key)
  {
    var before := events[..|events| - 1];
    forall i | 0 <= i <= |before|
      ensures key in RunUnbounded(windowMs, before[..i]).entries ==> key in Run(maxKeys, windowMs, before[..i]).entries
    {
      assert before[..i] == events[..i];
    }
  }

  lemma StepAgrees(s: Store, l: Store, maxKeys: nat, windowMs: int, e: Event, key: Key)
    requires WellFormed(s) && SameEntry(s, l, key)
    ensures var s', l' := Step(s, maxKeys, windowMs, e), StepUnbounded(l, windowMs, e);
            key in s'.entries ==> key in l'.entries && s'.entries[key] == l'.entries[key]
  {
    SameUnbounded(s, l, windowMs, e, key);
    hide WellFormed, StepUnbounded;
    StepUnboundedWellFormed(s, windowMs, e);
    EvictDropsOldest(StepUnbounded(s, windowMs, e), maxKeys);
  }

  lemma SameUnbounded(s: Store, l: Store, windowMs: int, e: Event, key: Key)
    requires SameEntry(s, l, key)
    ensures SameEntry(StepUnbounded(s, windowMs, e), StepUnbounded(l, windowMs, e), key)
  {
  }

  // ----- What a hit count counts -----

  /** The increments of the key with a time in [lo, hi). */
  function Count(events: seq<Event>, key: Key, lo: int, hi: int): nat {
    if events == [] then 0
    else
      var e := events[|events| - 1];
      Count(events[..|events| - 1], key, lo, hi) + if e.Increment? && e.key == key && lo <= e.now < hi then 1 else 0
  }

  /** The key is not reset, and the clock of its increments never runs backwards. */
  ghost predicate NotReset(events: seq<Event>, key: Key) {
    && (forall i | 0 <= i < |events| :: events[i] != Reset(key))
    && (forall i, j | 0 <= i < j < |events| && events[i].Increment? && events[j].Increment? &&
          events[i].key == events[j].key == key ::
          events[i].now <= events[j].now)
  }

  ghost predicate NoneIn(events: seq<Event>, key: Key, lo: int, hi: int) {
    forall i | 0 <= i < |events| && events[i].Increment? && events[i].key == key :: !(lo <= events[i].now < hi)
  }

  lemma {:induction false} CountZero(events: seq<Event>, key: Key, lo: int, hi: int)
    ensures Count(events, key, lo, hi) == 0 <==> NoneIn(events, key, lo, hi)
  {
    if events == [] {
    } else {
      var before, e := events[..|events| - 1], events[|events| - 1];
      CountZero(before, key, lo, hi);
      assert forall i | 0 <= i < |before| :: before[i] == events[i];
    }
  }

  lemma {:induction false} CountSplit(events: seq<Event>, key: Key, lo: int, mid: int, hi: int)
    requires lo <= mid <= hi
    ensures Count(events, key, lo, hi) == Count(events, key, lo, mid) + Count(events, key, mid, hi)
  {
    if events == [] {
    } else {
      CountSplit(events[..|events| - 1], key, lo, mid, hi);
    }
  }

  /** What one event adds to the effective decrements of the key's window; a new window starts from none. */
  function UndoneAfter(s: Store, e: Event, key: Key, undone: nat): nat {
    if e.key != key then undone
    else match e
      case Increment(_, now) => if Live(s, key, now) then undone else 0
      case Decrement(_) => if key in s.entries && s.entries[key].totalHits > 0 then undone + 1 else undone
      case Reset(_) => 0
  }

  /** The decrements that lowered the key's count since its window in force began. */
  function Undone(maxKeys: int, windowMs: int, events: seq<Event>, key: Key): nat {
    if events == [] then 0
    else
      var before := events[..|events| - 1];
      UndoneAfter(Run(maxKeys, windowMs, before), events[|events| - 1], key, Undone(maxKeys, windowMs, before, key))
  }

  ghost predicate NoneNegative(s: Store) {
    forall key | key in s.entries :: s.entries[key].totalHits >= 0
  }

  lemma {:induction false} EvictSubset(s: Store, maxKeys: int)
    ensures NoneNegative(s) ==> NoneNegative(Evict(s, maxKeys))
    decreases |s.order|
  {
    if |s.order| > 0 && |s.order| > maxKeys {
      EvictSubset(Store(s.order[1..], s.entries - {s.order[0]}), maxKeys);
    }
  }

  lemma {:induction false} NeverNegative(maxKeys: int, windowMs: int, events: seq<Event>)
    ensures NoneNegative(Run(maxKeys, windowMs, events))
  {
    if events != [] {
      hide Evict, Without;
      var before, e := events[..|events| - 1], events[|events| - 1];
      NeverNegative(maxKeys, windowMs, before);
      EvictSubset(StepUnbounded(Run(maxKeys, windowMs, before), windowMs, e), maxKeys);
    }
  }

  /** In every run a decrement takes one hit off a stored key, down to none, and changes nothing else of it. */
  lemma DecrementTakesOne(maxKeys: int, windowMs: int, events: seq<Event>, key: Key)
    ensures var s, t := Run(maxKeys, windowMs, events), Run(maxKeys, windowMs, events + [Decrement(key)]);
            && t.order == s.order && t.entries.Keys == s.entries.Keys
            && (forall k | k in s.entries && k != key :: t.entries[k] == s.entries[k])
            && (key in s.entries ==>
                  && s.entries[key].totalHits >= 0 && t.entries[key].resetTime == s.entries[key].resetTime
                  && t.entries[key].totalHits ==
                     if s.entries[key].totalHits == 0 then 0 else s.entries[key].totalHits - 1)
  {
    hide Run;
    RunMore(maxKeys, windowMs, events, Decrement(key));
    NeverNegative(maxKeys, windowMs, events);
  }

  /** The position of the increment that opened the key's window in force. */
  function Opening(maxKeys: int, windowMs: int, events: seq<Event>, key: Key): int {
    if events == [] then -1
    else
      var before, e := events[..|events| - 1], events[|events| - 1];
      if e.Increment? && e.key == key && !Live(Run(maxKeys, windowMs, before), key, e.now) then |before|
      else Opening(maxKeys, windowMs, before, key)
  }

  /** The increments of the key from position first on. */
  function CountFrom(events: seq<Event>, key: Key, first: int): nat {
    if events == [] then 0
    else
      var before, e := events[..|events| - 1], events[|events| - 1];
      CountFrom(before, key, first) + if e.Increment? && e.key == key && first <= |before| then 1 else 0
  }

  lemma {:induction false} CountFromPast(events: seq<Event>, key: Key, first: int)
    requires |events| <= first
    ensures CountFrom(events, key, first) == 0
  {
    if events == [] {
    } else {
      CountFromPast(events[..|events| - 1], key, first);
    }
  }

  /** The window in force was opened at position first, and its hits and decrements account for all increments since. */
  ghost predicate Tallies(s: Store, windowMs: int, events: seq<Event>, key: Key, first: int, undone: nat) {
    key in s.entries ==>
      && 0 <= first < |events| && events[first] == Increment(key, s.entries[key].resetTime - windowMs)
      && s.entries[key].totalHits + undone == CountFrom(events, key, first)
  }

  lemma TalliesStep(s: Store, windowMs: int, events: seq<Event>, e: Event, key: Key, first: int, undone: nat)
    requires Tallies(s, windowMs, events, key, first, undone)
    ensures var first' := if e.Increment? && e.key == key && !Live(s, key, e.now) then |events| else first;
            Tallies(StepUnbounded(s, windowMs, e), windowMs, events + [e], key, first', UndoneAfter(s, e, key, undone))
  {
    var all := events + [e];
    assert all[..|events|] == events && all[|events|] == e;
    CountFromPast(events, key, |events|);
    if key in s.entries {
      assert all[first] == events[first];
    }
  }

  lemma TalliesKept(s: Store, t: Store, windowMs: int, events: seq<Event>, key: Key, first: int, undone: nat)
    requires Tallies(s, windowMs, events, key, first, undone)
    requires key in t.entries ==> key in s.entries && t.entries[key] == s.entries[key]
    ensures Tallies(t, windowMs, events, key, first, undone)
  {
  }

  lemma StepKeepsEntry(s: Store, maxKeys: int, windowMs: int, e: Event, key: Key)
    requires WellFormed(s)
    ensures var t, all := Step(s, maxKeys, windowMs, e), StepUnbounded(s, windowMs, e);
            key in t.entries ==> key in all.entries && t.entries[key] == all.entries[key]
  {
    hide WellFormed, StepUnbounded;
    StepUnboundedWellFormed(s, windowMs, e);
    EvictDropsOldest(StepUnbounded(s, windowMs, e), maxKeys);
  }

  /**
   * What totalHits counts, in every run, with evictions, decrements and resets: the increments of the key since the one
   * that opened its window, less the decrements that took effect since then.
   */
  lemma {:induction false} HitsSinceOpening(maxKeys: int, windowMs: int, events: seq<Event>, key: Key)
    ensures Tallies(Run(maxKeys, windowMs, events), windowMs, events, key, Opening(maxKeys, windowMs, events, key),
                    Undone(maxKeys, windowMs, events, key))
  {
    if events == [] {
    } else {
      hide Tallies, Step, StepUnbounded, UndoneAfter, WellFormed;
      var before, e := events[..|events| - 1], events[|events| - 1];
      var s := Run(maxKeys, windowMs, before);
      var first, undone := Opening(maxKeys, windowMs, before, key), Undone(maxKeys, windowMs, before, key);
      assert before + [e] == events;
      HitsSinceOpening(maxKeys, windowMs, before, key);
      RunWellFormed(maxKeys, windowMs, before);
      TalliesStep(s, windowMs, before, e, key, first, undone);
      StepKeepsEntry(s, maxKeys, windowMs, e, key);
      TalliesKept(StepUnbounded(s, windowMs, e), Step(s, maxKeys, windowMs, e), windowMs, events, key,
                  Opening(maxKeys, windowMs, events, key), Undone(maxKeys, windowMs, events, key));
    }
  }

  // ----- The same in terms of time -----

  lemma CountMore(events: seq<Event>, e: Event, key: Key, lo: int, hi: int)
    ensures Count(events + [e], key, lo, hi) ==
            Count(events, key, lo, hi) + if e.Increment? && e.key == key && lo <= e.now < hi then 1 else 0
  {
    assert (events + [e])[..|events|] == events;
  }

  /** The key's increments before position first come before time start, the others from start on and before reset. */
  ghost predicate Separated(events: seq<Event>, key: Key, first: int, start: int, reset: int) {
    forall i | 0 <= i < |events| && events[i].Increment? && events[i].key == key ::
      if i < first then events[i].now < start else start <= events[i].now < reset
  }

  lemma {:induction false} SeparatedCount(events: seq<Event>, key: Key, first: int, start: int, reset: int)
    requires Separated(events, key, first, start, reset)
    ensures CountFrom(events, key, first) == Count(events, key, start, reset)
  {
    if events == [] {
    } else {
      var before, e := events[..|events| - 1], events[|events| - 1];
      assert forall i | 0 <= i < |before| :: before[i] == events[i];
      assert events[|before|] == e;
      SeparatedCount(before, key, first, start, reset);
    }
  }

  /** The window in force separates the increments in time; without one there has been none. */
  ghost predicate InOrder(s: Store, windowMs: int, events: seq<Event>, key: Key, first: int) {
    if key in s.entries then
      Separated(events, key, first, s.entries[key].resetTime - windowMs, s.entries[key].resetTime)
    else
      forall i | 0 <= i < |events| && events[i].Increment? :: events[i].key != key
  }

  lemma NotResetPrefix(events: seq<Event>, e: Event, key: Key)
    requires NotReset(events + [e], key)
    ensures NotReset(events, key) && e != Reset(key)
    ensures e.Increment? && e.key == key ==>
              forall i | 0 <= i < |events| && events[i].Increment? && events[i].key == key :: events[i].now <= e.now
  {
    var all := events + [e];
    assert forall i | 0 <= i < |events| :: all[i] == events[i];
    assert all[|events|] == e;
  }

  lemma InOrderStep(s: Store, windowMs: int, events: seq<Event>, e: Event, key: Key, first: int)
    requires windowMs > 0 && InOrder(s, windowMs, events, key, first) && e != Reset(key)
    requires key in s.entries ==>
               0 <= first < |events| && events[first] == Increment(key, s.entries[key].resetTime - windowMs)
    requires e.Increment? && e.key == key ==>
               forall i | 0 <= i < |events| && events[i].Increment? && events[i].key == key :: events[i].now <= e.now
    ensures var first' := if e.Increment? && e.key == key && !Live(s, key, e.now) then |events| else first;
            InOrder(StepUnbounded(s, windowMs, e), windowMs, events + [e], key, first')
  {
    var all := events + [e];
    assert forall i | 0 <= i < |events| :: all[i] == events[i];
    assert all[|events|] == e;
  }

  lemma InOrderKept(s: Store, t: Store, windowMs: int, events: seq<Event>, key: Key, first: int)
    requires InOrder(s, windowMs, events, key, first)
    requires key in s.entries <==> key in t.entries
    requires key in t.entries ==> t.entries[key] == s.entries[key]
    ensures InOrder(t, windowMs, events, key, first)
  {
  }

  /** A key that was present and is not reset is still present after the next event if it is never evicted. */
  lemma StaysPresent(maxKeys: nat, windowMs: int, events: seq<Event>, e: Event, key: Key)
    requires NeverEvicted(maxKeys, windowMs, events + [e], key) && e != Reset(key)
    requires key in StepUnbounded(Run(maxKeys, windowMs, events), windowMs, e).entries
    ensures key in Run(maxKeys, windowMs, events + [e]).entries
  {
    var all := events + [e];
    RunMore(maxKeys, windowMs, events, e);
    if key in Run(maxKeys, windowMs, events).entries {
      InUnbounded(maxKeys, windowMs, events, key);
    }
    assert key in RunUnbounded(windowMs, all).entries;
    assert all[..|all|] == all;
  }

  lemma {:induction false} RunInOrder(maxKeys: nat, windowMs: int, events: seq<Event>, key: Key)
    requires windowMs > 0 && NotReset(events, key) && NeverEvicted(maxKeys, windowMs, events, key)
    ensures InOrder(Run(maxKeys, windowMs, events), windowMs, events, key, Opening(maxKeys, windowMs, events, key))
  {
    if events == [] {
    } else {
      hide InOrder, Step, StepUnbounded, NotReset, NeverEvicted, WellFormed;
      var before, e := events[..|events| - 1], events[|events| - 1];
      var s := Run(maxKeys, windowMs, before);
      assert before + [e] == events;
      NotResetPrefix(before, e, key);
      ShorterRun(maxKeys, windowMs, events, key);
      RunInOrder(maxKeys, windowMs, before, key);
      HitsSinceOpening(maxKeys, windowMs, before, key);
      InOrderStep(s, windowMs, before, e, key, Opening(maxKeys, windowMs, before, key));
      RunWellFormed(maxKeys, windowMs, before);
      StepKeepsEntry(s, maxKeys, windowMs, e, key);
      if key in StepUnbounded(s, windowMs, e).entries {
        StaysPresent(maxKeys, windowMs, before, e, key);
      }
      InOrderKept(StepUnbounded(s, windowMs, e), Step(s, maxKeys, windowMs, e), windowMs, events, key,
                  Opening(maxKeys, windowMs, events, key));
    }
  }

  /** For a key that is never reset or evicted: hits and effective decrements add up to the increments in its window. */
  lemma HitsCountWindow(maxKeys: nat, windowMs: int, events: seq<Event>, key: Key)
    requires windowMs > 0 && NotReset(events, key) && NeverEvicted(maxKeys, windowMs, events, key)
    requires key in Run(maxKeys, windowMs, events).entries
    ensures var entry := Run(maxKeys, windowMs, events).entries[key];
            && entry.totalHits + Undone(maxKeys, windowMs, events, key) ==
               Count(events, key, entry.resetTime - windowMs, entry.resetTime)
            && NoneIn(events, key, entry.resetTime, entry.resetTime + windowMs)
  {
    hide Run, NeverEvicted, NotReset, Undone, Opening, CountFrom, Count;
    var entry, first := Run(maxKeys, windowMs, events).entries[key], Opening(maxKeys, windowMs, events, key);
    RunInOrder(maxKeys, windowMs, events, key);
    HitsSinceOpening(maxKeys, windowMs, events, key);
    SeparatedCount(events, key, first, entry.resetTime - windowMs, entry.resetTime);
  }

  /** Right after an increment the key is present, in a window that has begun and not ended. */
  lemma LastIsLive(maxKeys: nat, windowMs: int, events: seq<Event>, key: Key, now: int)
    requires windowMs > 0 && NotReset(events + [Increment(key, now)], key)
    requires NeverEvicted(maxKeys, windowMs, events + [Increment(key, now)], key)
    ensures var s := Run(maxKeys, windowMs, events + [Increment(key, now)]);
            && key in s.entries && s.entries[key].resetTime - windowMs <= now < s.entries[key].resetTime
  {
    var e := Increment(key, now);
    var all := events + [e];
    StaysPresent(maxKeys, windowMs, events, e, key);
    hide Run, NeverEvicted, NotReset, Undone, Opening;
    RunInOrder(maxKeys, windowMs, all, key);
    HitsSinceOpening(maxKeys, windowMs, all, key);
    NotResetPrefix(events, e, key);
    var first := Opening(maxKeys, windowMs, all, key);
    assert all[|events|] == e;
    assert first < |events| ==> all[first] == events[first];
  }

  /**
   * With the decrements added back the count is that of the trailing window, the last windowMs milliseconds, exactly
   * when no earlier increment of the key lies in the trailing window but before the window in force began.
   */
  lemma SlidingIff(maxKeys: nat, windowMs: int, events: seq<Event>, key: Key, now: int)
    requires windowMs > 0 && NotReset(events + [Increment(key, now)], key)
    requires NeverEvicted(maxKeys, windowMs, events + [Increment(key, now)], key)
    ensures var all := events + [Increment(key, now)];
            && key in Run(maxKeys, windowMs, all).entries
            && var entry := Run(maxKeys, windowMs, all).entries[key];
               entry.totalHits + Undone(maxKeys, windowMs, all, key) == Count(all, key, now - windowMs + 1, now + 1)
               <==> NoneIn(events, key, now - windowMs + 1, entry.resetTime - windowMs)
  {
    var e := Increment(key, now);
    var all := events + [e];
    hide Run, NeverEvicted, NotReset, Undone;
    LastIsLive(maxKeys, windowMs, events, key, now);
    var reset := Run(maxKeys, windowMs, all).entries[key].resetTime;
    HitsCountWindow(maxKeys, windowMs, all, key);
    NotResetPrefix(events, e, key);
    TrailingIff(events, key, now, windowMs, reset);
  }

  lemma TrailingIff(events: seq<Event>, key: Key, now: int, windowMs: int, reset: int)
    requires windowMs > 0 && reset - windowMs <= now < reset
    requires forall i | 0 <= i < |events| && events[i].Increment? && events[i].key == key :: events[i].now <= now
    ensures var all := events + [Increment(key, now)];
            Count(all, key, reset - windowMs, reset) == Count(all, key, now - windowMs + 1, now + 1) <==>
            NoneIn(events, key, now - windowMs + 1, reset - windowMs)
  {
    var e := Increment(key, now);
    var all := events + [e];
    var lo, start := now - windowMs + 1, reset - windowMs;
    assert NoneIn(all, key, now + 1, reset);
    hide Count, NoneIn;
    CountSplit(all, key, lo, start, now + 1);
    CountSplit(all, key, start, now + 1, reset);
    CountZero(all, key, now + 1, reset);
    CountMore(events, e, key, lo, start);
    CountZero(events, key, lo, start);
  }

  /** For every window of two milliseconds or more the counts differ: one hit reported, two in the trailing window. */
  lemma NotSliding(maxKeys: nat, windowMs: int, key: Key)
    requires windowMs >= 2 && maxKeys > 0
    ensures var events := [Increment(key, 0), Increment(key, windowMs - 1), Increment(key, windowMs)];
            && key in Run(maxKeys, windowMs, events).entries
            && Run(maxKeys, windowMs, events).entries[key].totalHits == 1
            && Count(events, key, 1, windowMs + 1) == 2
  {
    var a, b, c := Increment(key, 0), Increment(key, windowMs - 1), Increment(key, windowMs);
    ThreeTouched(key, a, b, c);
    ThreeCounted(windowMs, key, a, b, c);
    ThreeStored(windowMs, a, b, c);
    hide Count, Run, RunUnbounded, Touched;
    AgreesWithUnbounded(maxKeys, windowMs, [a, b, c]);
  }

  lemma ThreeTouched(key: Key, a: Event, b: Event, c: Event)
    requires a.Increment? && b.Increment? && c.Increment? && a.key == b.key == c.key == key
    ensures Touched([a, b, c]) == {key}
  {
    assert [] + [a] == [a] && [a] + [b] == [a, b] && [a, b] + [c] == [a, b, c];
    TouchedMore([], a);
    TouchedMore([a], b);
    TouchedMore([a, b], c);
  }

  lemma ThreeCounted(windowMs: int, key: Key, a: Event, b: Event, c: Event)
    requires windowMs >= 2
    requires a == Increment(key, 0) && b == Increment(key, windowMs - 1) && c == Increment(key, windowMs)
    ensures Count([a, b, c], key, 1, windowMs + 1) == 2
  {
    assert [] + [a] == [a] && [a] + [b] == [a, b] && [a, b] + [c] == [a, b, c];
    CountMore([], a, key, 1, windowMs + 1);
    CountMore([a], b, key, 1, windowMs + 1);
    CountMore([a, b], c, key, 1, windowMs + 1);
  }

  lemma ThreeStored(windowMs: int, a: Event, b: Event, c: Event)
    ensures RunUnbounded(windowMs, [a, b, c]) ==
            StepUnbounded(StepUnbounded(StepUnbounded(EMPTY, windowMs, a), windowMs, b), windowMs, c)
  {
    assert [] + [a] == [a] && [a] + [b] == [a, b] && [a, b] + [c] == [a, b, c];
    hide StepUnbounded;
    RunMore(0, windowMs, [], a);
    RunMore(0, windowMs, [a], b);
    RunMore(0, windowMs, [a, b], c);
  }

  lemma TouchedMore(events: seq<Event>, e: Event)
    ensures Touched(events + [e]) == Touched(events) + if e.Increment? then {e.key} else {}
  {
    assert (events + [e])[..|events|] == events;
  }

  // ----- Which key is evicted -----

  /** The position of the key's last increment. */
  function LastHit(events: seq<Event>, key: Key): int {
    if events == [] then -1
    else if events[|events| - 1].Increment? && events[|events| - 1].key == key then |events| - 1
    else LastHit(events[..|events| - 1], key)
  }

  ghost predicate ByRecency(events: seq<Event>, order: seq<Key>) {
    forall i, j {:trigger order[i], order[j]} | 0 <= i < j < |order| ::
      LastHit(events, order[i]) < LastHit(events, order[j])
  }

  lemma {:induction false} WithoutRecency(events: seq<Event>, order: seq<Key>, key: Key)
    requires ByRecency(events, order)
    ensures ByRecency(events, Without(order, key))
  {
    if order == [] {
    } else {
      WithoutRecency(events, order[1..], key);
      forall k | k in Without(order[1..], key)
        ensures LastHit(events, order[0]) < LastHit(events, k)
      {
        WithoutMembers(order[1..], key, k);
      }
    }
  }

  lemma {:induction false} LastHitBound(events: seq<Event>, key: Key)
    ensures -1 <= LastHit(events, key) < |events|
  {
    if events == [] {
    } else {
      LastHitBound(events[..|events| - 1], key);
    }
  }

  lemma LastHitMore(events: seq<Event>, e: Event, key: Key)
    ensures LastHit(events + [e], key) == if e.Increment? && e.key == key then |events| else LastHit(events, key)
  {
    assert (events + [e])[..|events|] == events;
  }

  lemma RecencyKept(events: seq<Event>, e: Event, order: seq<Key>)
    requires ByRecency(events, order) && (e.Increment? ==> e.key !in order)
    ensures ByRecency(events + [e], order)
  {
    forall k | k in order
      ensures LastHit(events + [e], k) == LastHit(events, k)
    {
      LastHitMore(events, e, k);
    }
  }

  lemma RecencyPush(events: seq<Event>, key: Key, now: int, order: seq<Key>)
    requires ByRecency(events, order) && key !in order
    ensures ByRecency(events + [Increment(key, now)], order + [key])
  {
    var e := Increment(key, now);
    RecencyKept(events, e, order);
    LastHitMore(events, e, key);
    forall k | k in order
      ensures LastHit(events + [e], k) < |events|
    {
      LastHitMore(events, e, k);
      LastHitBound(events, k);
    }
  }

  /** The store keeps its keys by their last increment, the least recent first. */
  lemma {:induction false} OrderIsRecency(maxKeys: nat, windowMs: int, events: seq<Event>)
    ensures ByRecency(events, Run(maxKeys, windowMs, events).order)
  {
    if events != [] {
      hide WellFormed, Step, ByRecency;
      var before, e := events[..|events| - 1], events[|events| - 1];
      var s := Run(maxKeys, windowMs, before);
      assert before + [e] == events;
      OrderIsRecency(maxKeys, windowMs, before);
      AlwaysBounded(maxKeys, windowMs, before);
      RunWellFormed(maxKeys, windowMs, before);
      StepOrder(s, maxKeys, windowMs, e);
      WithoutRecency(before, s.order, e.key);
      WithoutMembers(s.order, e.key, e.key);
      match e
      case Increment(key, now) =>
        RecencyPush(before, key, now, Without(s.order, key));
        LastRecency(events, Without(s.order, key) + [key], maxKeys);
      case Decrement(_) => RecencyKept(before, e, s.order);
      case Reset(_) => RecencyKept(before, e, Without(s.order, e.key));
    } else {
      assert Run(maxKeys, windowMs, events).order == [];
    }
  }

  lemma LastRecency(events: seq<Event>, order: seq<Key>, n: nat)
    requires ByRecency(events, order)
    ensures ByRecency(events, Last(order, n))
  {
  }

  lemma OldestFirst(events: seq<Event>, order: seq<Key>)
    requires ByRecency(events, order) && |order| > 0
    ensures forall k | k in order && k != order[0] :: LastHit(events, order[0]) < LastHit(events, k)
  {
  }

  lemma FirstDropped(order: seq<Key>, newKey: Key, maxKeys: nat, key: Key)
    requires |order| <= maxKeys && maxKeys > 0 && key in order
    requires key !in Last(Without(order, newKey) + [newKey], maxKeys)
    ensures newKey !in order && |order| == maxKeys && key == order[0]
  {
    hide Without;
    WithoutMembers(order, newKey, key);
    WithoutAbsent(order, newKey);
    DroppedFromLast(Without(order, newKey), newKey, maxKeys, key);
  }

  /** The only key that keeping the last n of a list of at most n keys and a new one can lose is the first. */
  lemma DroppedFromLast(w: seq<Key>, newKey: Key, n: nat, key: Key)
    requires |w| <= n && n > 0 && (key in w || key == newKey) && key !in Last(w + [newKey], n)
    ensures |w| == n && key == w[0]
  {
    var all := w + [newKey];
    assert key in all;
    assert forall j | 1 <= j < |all| :: all[1..][j - 1] == all[j];
    var i :| 0 <= i < |all| && all[i] == key;
    assert i == 0;
  }

  /**
   * A key disappears, unless reset, only when a new key enters a full store,
   * and then it is the least recently incremented.
   */
  lemma OnlyOldestEvicted(maxKeys: nat, windowMs: int, events: seq<Event>, e: Event, key: Key)
    requires maxKeys > 0 && e != Reset(key)
    requires key in Run(maxKeys, windowMs, events).order && key !in Run(maxKeys, windowMs, events + [e]).order
    ensures e.Increment? && e.key !in Run(maxKeys, windowMs, events).order
    ensures |Run(maxKeys, windowMs, events).order| == maxKeys
    ensures forall k | k in Run(maxKeys, windowMs, events).order && k != key ::
      LastHit(events, key) < LastHit(events, k)
  {
    hide WellFormed, Step, Run;
    var s := Run(maxKeys, windowMs, events);
    RunMore(maxKeys, windowMs, events, e);
    RunWellFormed(maxKeys, windowMs, events);
    AlwaysBounded(maxKeys, windowMs, events);
    StepOrder(s, maxKeys, windowMs, e);
    OrderIsRecency(maxKeys, windowMs, events);
    WithoutMembers(s.order, e.key, key);
    if e.Increment? {
      FirstDropped(s.order, e.key, maxKeys, key);
      OldestFirst(events, s.order);
    }
  }

  // ----- The store object -----

  lemma DeletedThenAdded(s: Store, key: Key, entry: Entry)
    requires WellFormed(s)
    ensures var d := if key in s.entries then Delete(s, key) else s;
            Store(d.order + [key], d.entries[key := entry]) == Renew(s, key, entry)
    ensures WellFormed(Renew(s, key, entry))
  {
    WithoutAbsent(s.order, key);
    RenewWellFormed(s, key, entry);
    assert (s.entries - {key})[key := entry] == s.entries[key := entry];
  }

  lemma SameKeys(s: Store, key: Key, entry: Entry)
    requires WellFormed(s) && key in s.entries
    ensures WellFormed(Store(s.order, s.entries[key := entry]))
  {
  }

  class BoundedMemoryStore {
    const maxKeys: int
    var options: Option<int>
    /** The insertion-ordered map of the buckets: its keys, oldest first, and their entries. */
    var order: seq<Key>
    var hits: map<Key, Entry>

    ghost predicate Valid()
      reads this
    {
      WellFormed(View())
    }

    function View(): Store
      reads this
    {
      Store(order, hits)
    }

    /** The window set by init, or one minute. */
    function WindowMs(): int
      reads this
    {
      if options.Some? then options.value else 60000
    }

    constructor (maxKeys: int)
      ensures Valid() && this.maxKeys == maxKeys && View() == EMPTY && WindowMs() == 60000
    {
      this.maxKeys := maxKeys;
      options := None;
      order, hits := [], map[];
    }

    method Init(windowMs: int)
      modifies this`options
      ensures WindowMs() == windowMs
    {
      options := Some(windowMs);
    }

    /** Re-inserts a present key as the newest. */
    method Touch(key: Key)
      requires Valid()
      modifies this`order
      ensures Valid() && order == if key in hits then Without(old(order), key) + [key] else old(order)
    {
      if key in hits {
        RenewWellFormed(View(), key, hits[key]);
        assert hits[key := hits[key]] == hits;
        order := Without(order, key) + [key];
      }
    }

    method EvictIfNeeded() returns (evicted: nat)
      requires Valid()
      modifies this`order, this`hits
      ensures Valid() && View() == Evict(old(View()), maxKeys)
      ensures evicted == |old(order)| - |order|
    {
      evicted := 0;
      while |order| > maxKeys
        invariant Valid() && Evict(View(), maxKeys) == Evict(old(View()), maxKeys)
        invariant evicted == |old(order)| - |order|
        decreases |order|
      {
        if |order| == 0 {
          break;
        }
        EvictOldest(View());
        hits := hits - {order[0]};
        order := order[1..];
        evicted := evicted + 1;
      }
    }

    method Increment(key: Key, now: int) returns (info: Entry)
      requires Valid()
      modifies this`order, this`hits
      ensures Valid()
      ensures View() == Step(old(View()), maxKeys, WindowMs(), Event.Increment(key, now))
      ensures info == Hit(old(View()), WindowMs(), key, now)
    {
      hide Evict, Without, WellFormed;
      if key in hits && hits[key].resetTime > now {
        SameKeys(View(), key, Entry(hits[key].totalHits + 1, hits[key].resetTime));
        hits := hits[key := Entry(hits[key].totalHits + 1, hits[key].resetTime)];
        Touch(key);
        return hits[key];
      }
      info := Entry(1, now + WindowMs());
      OpenWindow(key, info);
    }

    /** Replaces any expired window of the key by a new one. */
    method OpenWindow(key: Key, info: Entry)
      requires Valid()
      modifies this`order, this`hits
      ensures Valid() && View() == Evict(Renew(old(View()), key, info), maxKeys)
    {
      hide WellFormed, Evict, Without;
      DeletedThenAdded(View(), key, info);
      if key in hits {
        order, hits := Without(order, key), hits - {key};
      }
      order, hits := order + [key], hits[key := info];
      var _ := EvictIfNeeded();
    }

    method Decrement(key: Key)
      requires Valid()
      modifies this`hits
      ensures Valid() && View() == Decremented(old(View()), key)
    {
      if key in hits && hits[key].totalHits > 0 {
        hits := hits[key := Entry(hits[key].totalHits - 1, hits[key].resetTime)];
      }
    }

    method ResetKey(key: Key)
      requires Valid()
      modifies this`order, this`hits
      ensures Valid() && View() == Delete(old(View()), key)
    {
      DeleteWellFormed(View(), key);
      WithoutAbsent(order, key);
      order, hits := Without(order, key), hits - {key};
    }
  }
}
