/** Fee plans priced from network statistics, and the spending cap they are checked against. */
module FeeBudget {
  import opened PrimeField

  // ----- Pricing -----

  datatype FeeStats = FeeStats(p50: real, p90: real, p99: real, ledgerCapacityUsagePct: real)

  /** What the server answers: no such endpoint, an error, or statistics. */
  datatype FeeSource = NoEndpoint | Failed | Answered(stats: FeeStats)

  datatype Congestion = Congestion(multiplier: real, stats: Option<FeeStats>, surgeDetected: bool, priorityFee: int)

  function Ceil(x: real): (n: int)
    ensures x <= n as real < x + 1.0
  {
    -((-x).Floor)
  }

  function Max(a: int, b: int): int {
    if a < b then b else a
  }

  function Spread(stats: FeeStats): real {
    if stats.p50 > 0.0 then stats.p99 / stats.p50 else 0.0
  }

  predicate DetectSurge(stats: FeeStats) {
    stats.ledgerCapacityUsagePct > 80.0 || Spread(stats) > 8.0 || stats.p99 > 5000.0
  }

  function PriorityFeeForStats(stats: FeeStats): int {
    if DetectSurge(stats) then Max(100, Ceil(stats.p99))
    else if stats.ledgerCapacityUsagePct > 50.0 then Max(100, Ceil(stats.p90))
    else Max(100, Ceil(stats.p50))
  }

  function Multiplier(stats: FeeStats): real {
    var tier :=
      if stats.ledgerCapacityUsagePct > 95.0 || Spread(stats) > 15.0 then 2.5
      else if DetectSurge(stats) then 1.8
      else if stats.ledgerCapacityUsagePct > 50.0 then 1.3
      else 1.0;
    if Spread(stats) > 10.0 then if tier + 0.5 < 3.0 then tier + 0.5 else 3.0 else tier
  }

  function GetCongestion(source: FeeSource): Congestion {
    match source
    case NoEndpoint => Congestion(1.0, None, false, 100)
    case Failed => Congestion(1.1, None, false, 100)
    case Answered(stats) => Congestion(Multiplier(stats), Some(stats), DetectSurge(stats), PriorityFeeForStats(stats))
  }

  predicate NeedsFeeBump(submittedFee: int, stats: Option<FeeStats>) {
    stats.Some? && DetectSurge(stats.value) && submittedFee < PriorityFeeForStats(stats.value)
  }

  function BumpedFee(submittedFee: int, stats: Option<FeeStats>): int {
    var priorityFee := if stats.Some? then PriorityFeeForStats(stats.value) else 100;
    Max(Ceil(submittedFee as real * 1.25), Ceil(priorityFee as real * 1.1))
  }

  datatype Resources = Resources(cpuInstructions: real, memoryBytes: real, readBytes: real, writeBytes: real)

  datatype Padded = Padded(cpuInstructions: int, memoryBytes: int, readBytes: int, writeBytes: int)

  datatype Plan = Plan(operation: string, padded: Padded, baseFee: int, resourceFee: int, priorityFee: int,
                       totalFee: int, multiplier: real, surgeDetected: bool)

  function Pad(r: Resources, margin: real): Padded {
    Padded(Ceil(r.cpuInstructions * (1.0 + margin)), Ceil(r.memoryBytes * (1.0 + margin)),
           Ceil(r.readBytes * (1.0 + margin)), Ceil(r.writeBytes * (1.0 + margin)))
  }

  /** The plan before the budget is checked; `baseFee` is the caller's override, if any. */
  function PricePlan(operation: string, resources: Resources, minResourceFee: real, margin: real, baseFee: Option<real>,
                     source: FeeSource): Plan
  {
    var c := GetCongestion(source);
    var networkBase := if c.stats.Some? then PriorityFeeForStats(c.stats.value) else 100;
    var base := Ceil((if baseFee.Some? then baseFee.value else networkBase as real) * c.multiplier);
    var resource := Ceil(minResourceFee * (1.0 + margin) * c.multiplier);
    var surcharge := if c.surgeDetected then Max(0, c.priorityFee - base) else 0;
    Plan(operation, Pad(resources, margin), base, resource, surcharge, base + resource + surcharge,
      c.multiplier, c.surgeDetected)
  }

  lemma Grows(x: real, m: real)
    requires x >= 0.0 && m >= 1.0
    ensures x * m >= x
  {
    assert x * m - x == x * (m - 1.0);
    Product(x, m - 1.0);
  }

  lemma Product(x: real, y: real)
    requires x >= 0.0 && y >= 0.0
    ensures x * y >= 0.0
  {
  }

  lemma SpreadGrows(a: FeeStats, b: FeeStats)
    requires a.p50 == b.p50 && a.p99 <= b.p99
    ensures Spread(a) <= Spread(b)
  {
    if a.p50 > 0.0 {
      QuotientGrows(a.p99, b.p99, a.p50);
    }
  }

  lemma DivMul(x: real, y: real)
    requires y != 0.0
    ensures x / y * y == x
  {
  }

  lemma QuotientGrows(a: real, b: real, d: real)
    requires d > 0.0 && a <= b
    ensures a / d <= b / d
  {
    DivMul(a, d);
    DivMul(b, d);
    DifferenceTimes(b / d, a / d, d);
    SignOf(b / d - a / d, d);
  }

  lemma DifferenceTimes(x: real, y: real, d: real)
    ensures (x - y) * d == x * d - y * d
  {
  }

  lemma SignOf(x: real, y: real)
    requires y > 0.0 && x * y >= 0.0
    ensures x >= 0.0
  {
    if x < 0.0 {
      Positive(-x, y);
    }
  }

  lemma Positive(x: real, y: real)
    requires x > 0.0 && y > 0.0
    ensures x * y > 0.0
  {
  }

  /** Fuller ledgers and a higher p99 never lower the multiplier, which stays between 1 and 3. */
  lemma MultiplierMonotone(a: FeeStats, b: FeeStats)
    requires a.p50 == b.p50 && a.p99 <= b.p99 && a.ledgerCapacityUsagePct <= b.ledgerCapacityUsagePct
    ensures 1.0 <= Multiplier(a) <= Multiplier(b) <= 3.0
  {
    SpreadGrows(a, b);
    hide Spread;
  }

  /** A plan made under surge already pays the priority fee, so it needs no bump while the statistics stay. */
  lemma PlanNeedsNoBump(operation: string, resources: Resources, minResourceFee: real, margin: real,
                        baseFee: Option<real>, stats: FeeStats)
    requires minResourceFee >= 0.0 && margin >= 0.0
    ensures var plan := PricePlan(operation, resources, minResourceFee, margin, baseFee, Answered(stats));
            !NeedsFeeBump(plan.totalFee, Some(stats))
  {
    MultiplierMonotone(stats, stats);
    Product(minResourceFee, 1.0 + margin);
    Product(minResourceFee * (1.0 + margin), Multiplier(stats));
  }

  /** n is the least integer at or above x. */
  ghost predicate LeastAbove(n: int, x: real) {
    n as real - 1.0 < x <= n as real
  }

  lemma CeilIsLeast(x: real)
    ensures LeastAbove(Ceil(x), x)
  {
  }

  /** The p99 fee is more than k times the median. */
  ghost predicate Spikes(stats: FeeStats, k: real) {
    stats.p50 > 0.0 && stats.p99 > k * stats.p50
  }

  lemma SpreadAbove(stats: FeeStats, k: real)
    requires k >= 0.0
    ensures Spread(stats) > k <==> Spikes(stats, k)
  {
    if stats.p50 > 0.0 {
      DivMul(stats.p99, stats.p50);
      DifferenceTimes(Spread(stats), k, stats.p50);
      if Spread(stats) > k {
        Positive(Spread(stats) - k, stats.p50);
      } else {
        Product(k - Spread(stats), stats.p50);
        DifferenceTimes(k, Spread(stats), stats.p50);
      }
    }
  }

  ghost predicate Surges(stats: FeeStats) {
    stats.ledgerCapacityUsagePct > 80.0 || Spikes(stats, 8.0) || stats.p99 > 5000.0
  }

  /** The percentile that is due: the 99th under surge, the 90th over half full, else the median. */
  ghost function Due(stats: FeeStats): real {
    if Surges(stats) then stats.p99 else if stats.ledgerCapacityUsagePct > 50.0 then stats.p90 else stats.p50
  }

  /** n is the least integer that reaches both x and y. */
  ghost predicate LeastAboveBoth(n: int, x: real, y: real) {
    x <= n as real && y <= n as real && (n as real - 1.0 < x || n as real - 1.0 < y)
  }

  /** Surge and priority fee at their thresholds: at least 100 stroops and the percentile due. */
  lemma PriorityFeeDue(stats: FeeStats)
    ensures DetectSurge(stats) <==> Surges(stats)
    ensures LeastAboveBoth(PriorityFeeForStats(stats), 100.0, Due(stats))
  {
    SpreadAbove(stats, 8.0);
    hide Spread, Spikes;
    CeilIsLeast(stats.p50);
    CeilIsLeast(stats.p90);
    CeilIsLeast(stats.p99);
  }

  /** The six values that the multiplier takes, and when. */
  lemma MultiplierTable(stats: FeeStats)
    ensures var extreme := stats.ledgerCapacityUsagePct > 95.0 || Spikes(stats, 15.0);
            Multiplier(stats) ==
              if extreme && Spikes(stats, 10.0) then 3.0
              else if extreme then 2.5
              else if Spikes(stats, 10.0) then 2.3
              else if Surges(stats) then 1.8
              else if stats.ledgerCapacityUsagePct > 50.0 then 1.3
              else 1.0
  {
    SpreadAbove(stats, 8.0);
    SpreadAbove(stats, 10.0);
    SpreadAbove(stats, 15.0);
    hide Spread, Spikes;
  }

  /**
   * What a plan charges: every resource and the resource fee with the margin, fees scaled by the multiplier, each the
   * least integer that covers its amount; the base fee covers the override or what is due, and under surge the
   * surcharge lifts it to the fee due.
   */
  ghost predicate ChargesFor(plan: Plan, resources: Resources, minResourceFee: real, margin: real,
                             baseFee: Option<real>, due: int, multiplier: real, surges: bool) {
    && LeastAbove(plan.padded.cpuInstructions, resources.cpuInstructions * (1.0 + margin))
    && LeastAbove(plan.padded.memoryBytes, resources.memoryBytes * (1.0 + margin))
    && LeastAbove(plan.padded.readBytes, resources.readBytes * (1.0 + margin))
    && LeastAbove(plan.padded.writeBytes, resources.writeBytes * (1.0 + margin))
    && LeastAbove(plan.resourceFee, minResourceFee * (1.0 + margin) * multiplier)
    && LeastAbove(plan.baseFee, (if baseFee.Some? then baseFee.value else due as real) * multiplier)
    && plan.priorityFee == (if surges && due > plan.baseFee then due - plan.baseFee else 0)
    && plan.totalFee == plan.baseFee + plan.resourceFee + plan.priorityFee
    && plan.multiplier == multiplier && (plan.surgeDetected <==> surges)
  }

  /** The due fee and the multiplier: 100 stroops and 1 without statistics, 1.1 when they could not be read. */
  ghost predicate Priced(plan: Plan, resources: Resources, minResourceFee: real, margin: real, baseFee: Option<real>,
                         source: FeeSource) {
    match source
    case NoEndpoint => ChargesFor(plan, resources, minResourceFee, margin, baseFee, 100, 1.0, false)
    case Failed => ChargesFor(plan, resources, minResourceFee, margin, baseFee, 100, 1.1, false)
    case Answered(stats) =>
      ChargesFor(plan, resources, minResourceFee, margin, baseFee, PriorityFeeForStats(stats), Multiplier(stats),
                 Surges(stats))
  }

  lemma PlanIsPriced(operation: string, resources: Resources, minResourceFee: real, margin: real,
                     baseFee: Option<real>, source: FeeSource)
    ensures var plan := PricePlan(operation, resources, minResourceFee, margin, baseFee, source);
            plan.operation == operation && Priced(plan, resources, minResourceFee, margin, baseFee, source)
  {
    hide PricePlan, ChargesFor, Multiplier, DetectSurge, Surges, PriorityFeeForStats;
    if source.Answered? {
      PriorityFeeDue(source.stats);
    }
    var c := GetCongestion(source);
    var due := if c.stats.Some? then PriorityFeeForStats(c.stats.value) else 100;
    PlanCharges(operation, resources, minResourceFee, margin, baseFee, source, c, due);
  }

  lemma PlanCharges(operation: string, resources: Resources, minResourceFee: real, margin: real,
                    baseFee: Option<real>, source: FeeSource, c: Congestion, due: int)
    requires c == GetCongestion(source) && due == c.priorityFee
    requires due == if c.stats.Some? then PriorityFeeForStats(c.stats.value) else 100
    ensures var plan := PricePlan(operation, resources, minResourceFee, margin, baseFee, source);
            && plan.operation == operation
            && ChargesFor(plan, resources, minResourceFee, margin, baseFee, due, c.multiplier, c.surgeDetected)
  {
    hide GetCongestion, PriorityFeeForStats, Ceil;
    PadCovers(resources, margin);
  }

  lemma PadCovers(r: Resources, margin: real)
    ensures LeastAbove(Pad(r, margin).cpuInstructions, r.cpuInstructions * (1.0 + margin))
    ensures LeastAbove(Pad(r, margin).memoryBytes, r.memoryBytes * (1.0 + margin))
    ensures LeastAbove(Pad(r, margin).readBytes, r.readBytes * (1.0 + margin))
    ensures LeastAbove(Pad(r, margin).writeBytes, r.writeBytes * (1.0 + margin))
  {
    hide Ceil;
  }

  /** A fee is bumped exactly under surge, when it is below 100 stroops or the p99 fee. */
  lemma BumpDue(submittedFee: int, stats: Option<FeeStats>)
    ensures NeedsFeeBump(submittedFee, stats) <==>
            stats.Some? && Surges(stats.value) && (submittedFee < 100 || submittedFee as real < stats.value.p99)
  {
    if stats.Some? {
      PriorityFeeDue(stats.value);
    }
  }

  /** One bump is enough: it is the least fee that adds a quarter and a tenth over the fee due. */
  lemma BumpSettles(submittedFee: int, stats: Option<FeeStats>)
    ensures !NeedsFeeBump(BumpedFee(submittedFee, stats), stats)
    ensures var due := if stats.Some? then PriorityFeeForStats(stats.value) else 100;
            LeastAboveBoth(BumpedFee(submittedFee, stats), submittedFee as real * 1.25, due as real * 1.1)
  {
    hide DetectSurge;
    var f := if stats.Some? then PriorityFeeForStats(stats.value) else 100;
    CeilIsLeast(submittedFee as real * 1.25);
    CeilIsLeast(f as real * 1.1);
    assert f as real * 1.1 >= f as real;
  }

  /** The surge surcharge is charged exactly when the caller's own base fee stays below the priority fee. */
  lemma SurchargeOnlyForOverride(operation: string, resources: Resources, minResourceFee: real, margin: real,
                                 baseFee: Option<real>, source: FeeSource)
    ensures var plan := PricePlan(operation, resources, minResourceFee, margin, baseFee, source);
            plan.priorityFee > 0 <==>
            && source.Answered? && DetectSurge(source.stats) && baseFee.Some?
            && Ceil(baseFee.value * Multiplier(source.stats)) < PriorityFeeForStats(source.stats)
  {
    if source.Answered? {
      var f := PriorityFeeForStats(source.stats);
      MultiplierMonotone(source.stats, source.stats);
      Grows(f as real, Multiplier(source.stats));
    }
  }

  // ----- The spending cap -----

  datatype Config = Config(totalBudget: real, warnThreshold: real, hardStop: real, perOperation: map<string, real>)

  datatype Alert = Alert(critical: bool, spent: real, budget: real)

  datatype Usage = Usage(operation: string, estimatedFee: int, actualFee: Option<real>)

  /** What has been spent, in all and by operation. */
  datatype Ledger = Ledger(total: real, byOperation: map<string, real>)

  const NOTHING := Ledger(0.0, map[])

  function SpentBy(l: Ledger, operation: string): real {
    if operation in l.byOperation then l.byOperation[operation] else 0.0
  }

  /** projected / budget >= fraction; a zero budget is reached by any positive amount. */
  predicate Reaches(projected: real, budget: real, fraction: real) {
    if budget == 0.0 then projected > 0.0 else projected / budget >= fraction
  }

  /** The operation's own sub-budget, if it has one, is reached. */
  predicate ReachesOwn(l: Ledger, c: Config, operation: string, fee: real) {
    operation in c.perOperation && SpentBy(l, operation) + fee >= c.perOperation[operation] * c.hardStop
  }

  predicate Refused(l: Ledger, c: Config, operation: string, fee: real) {
    Reaches(l.total + fee, c.totalBudget, c.hardStop) || ReachesOwn(l, c, operation, fee)
  }

  function Charge(l: Ledger, operation: string, charge: real): Ledger {
    Ledger(l.total + charge, l.byOperation[operation := SpentBy(l, operation) + charge])
  }

  /** A plan handed out and not yet recorded or given up. */
  datatype Open = Open(operation: string, fee: real)

  datatype System = System(ledger: Ledger, open: seq<Open>)

  datatype Event =
    | Request(operation: string, fee: real)
    | Record(index: nat, charge: real)
    | Abandon(index: nat)

  function Drop(open: seq<Open>, index: nat): seq<Open>
    requires index < |open|
  {
    open[..index] + open[index + 1..]
  }

  function Step(s: System, c: Config, e: Event): System {
    match e
    case Request(operation, fee) =>
      if Refused(s.ledger, c, operation, fee) then s else System(s.ledger, s.open + [Open(operation, fee)])
    case Record(index, charge) =>
      if index >= |s.open| then s
      else System(Charge(s.ledger, s.open[index].operation, charge), Drop(s.open, index))
    case Abandon(index) => if index >= |s.open| then s else System(s.ledger, Drop(s.open, index))
  }

  function RunFrom(s: System, c: Config, events: seq<Event>): System {
    if events == [] then s else Step(RunFrom(s, c, events[..|events| - 1]), c, events[|events| - 1])
  }

  const START := System(NOTHING, [])

  function Run(c: Config, events: seq<Event>): System {
    RunFrom(START, c, events)
  }

  /** After a request at most k plans are open, and its fee does not exceed maxFee; a record may charge anything. */
  predicate FairStep(s: System, c: Config, e: Event, k: nat, maxFee: real) {
    match e
    case Request(operation, fee) => fee <= maxFee && |Step(s, c, e).open| <= k
    case Record(_, _) => true
    case Abandon(_) => true
  }

  predicate Fair(c: Config, events: seq<Event>, k: nat, maxFee: real) {
    events == [] ||
    (Fair(c, events[..|events| - 1], k, maxFee) &&
      FairStep(Run(c, events[..|events| - 1]), c, events[|events| - 1], k, maxFee))
  }

  // ----- Bounded overshoot -----

  /** Fees of the open plans that `counts` selects: all of them, or those of one operation. */
  function Committed(open: seq<Open>, only: Option<string>): real {
    if open == [] then 0.0
    else Committed(open[..|open| - 1], only) + Share(open[|open| - 1], only)
  }

  function Share(p: Open, only: Option<string>): real {
    if only.None? || only.value == p.operation then p.fee else 0.0
  }

  function Spent(l: Ledger, only: Option<string>): real {
    if only.None? then l.total else SpentBy(l, only.value)
  }

  /** What a record charges above its plan, if the plan is among those selected. */
  function Overcharge(s: System, e: Event, only: Option<string>): (x: real)
    ensures x >= 0.0
  {
    if e.Record? && e.index < |s.open| && (only.None? || only.value == s.open[e.index].operation) &&
      e.charge > s.open[e.index].fee
    then e.charge - s.open[e.index].fee
    else 0.0
  }

  /** All that was charged above plan in a run from s. */
  function Excess(s: System, c: Config, events: seq<Event>, only: Option<string>): (x: real)
    ensures x >= 0.0
  {
    if events == [] then 0.0
    else
      var before := events[..|events| - 1];
      Excess(s, c, before, only) + Overcharge(RunFrom(s, c, before), events[|events| - 1], only)
  }

  /** No record charges more than its plan. */
  predicate Honest(s: System, c: Config, events: seq<Event>) {
    events == [] ||
    (var before, e := events[..|events| - 1], events[|events| - 1];
     var open := RunFrom(s, c, before).open;
     Honest(s, c, before) && (e.Record? && e.index < |open| ==> e.charge <= open[e.index].fee))
  }

  lemma {:induction false} HonestExcess(s: System, c: Config, events: seq<Event>, only: Option<string>)
    requires Honest(s, c, events)
    ensures Excess(s, c, events, only) == 0.0
  {
    if events == [] {
    } else {
      HonestExcess(s, c, events[..|events| - 1], only);
    }
  }

  lemma {:induction false} CommittedConcat(a: seq<Open>, b: seq<Open>, only: Option<string>)
    ensures Committed(a + b, only) == Committed(a, only) + Committed(b, only)
  {
    if b == [] {
      assert a + b == a;
    } else {
      CommittedConcat(a, b[..|b| - 1], only);
      assert (a + b)[..|a + b| - 1] == a + b[..|b| - 1];
    }
  }

  lemma DropCommitted(open: seq<Open>, index: nat, only: Option<string>)
    requires index < |open|
    ensures Committed(open, only) == Committed(Drop(open, index), only) + Share(open[index], only)
  {
    var a, p, b := open[..index], open[index], open[index + 1..];
    assert open == (a + [p]) + b;
    CommittedConcat(a + [p], b, only);
    assert (a + [p])[..|a|] == a;
    CommittedConcat(a, b, only);
  }

  function Times(n: nat, fee: real): real {
    if n == 0 then 0.0 else Times(n - 1, fee) + fee
  }

  lemma {:induction false} CommittedBound(open: seq<Open>, only: Option<string>, maxFee: real)
    requires maxFee >= 0.0 && forall p | p in open :: p.fee <= maxFee
    ensures Committed(open, only) <= Times(|open|, maxFee)
  {
    if open == [] {
    } else {
      CommittedBound(open[..|open| - 1], only, maxFee);
    }
  }

  lemma {:induction false} TimesIsProduct(n: nat, fee: real)
    ensures Times(n, fee) == n as real * fee
  {
    if n == 0 {
    } else {
      TimesIsProduct(n - 1, fee);
      assert n as real * fee == (n - 1) as real * fee + fee;
    }
  }

  /** The budget of the selection: the total, or the operation's sub-budget. */
  function BudgetOf(c: Config, only: Option<string>): real
    requires only.Some? ==> only.value in c.perOperation
  {
    if only.None? then c.totalBudget else c.perOperation[only.value]
  }

  /** The hard stop of the selection. */
  function Stop(c: Config, only: Option<string>): real
    requires only.Some? ==> only.value in c.perOperation
  {
    c.hardStop * BudgetOf(c, only)
  }

  /** Spent plus committed, less the excess, stays below the stop plus what k - 1 other plans may add. */
  ghost predicate Capped(s: System, c: Config, only: Option<string>, k: nat, maxFee: real, excess: real)
    requires only.Some? ==> only.value in c.perOperation
  {
    && |s.open| <= k
    && (forall p | p in s.open :: p.fee <= maxFee)
    && excess >= 0.0 && Under(Spent(s.ledger, only) + Committed(s.open, only) - excess, Stop(c, only), k, maxFee)
  }

  /** Nothing at all, or less than the stop and k - 1 fees. */
  predicate Under(amount: real, stop: real, k: nat, maxFee: real) {
    amount <= 0.0 || amount < stop + (k - 1) as real * maxFee
  }

  /** The fraction of a positive budget is reached from below, of a negative one from above. */
  lemma ReachesIff(projected: real, budget: real, fraction: real)
    ensures budget > 0.0 ==> (Reaches(projected, budget, fraction) <==> projected >= fraction * budget)
    ensures budget == 0.0 ==> (Reaches(projected, budget, fraction) <==> projected > 0.0)
    ensures budget < 0.0 ==> (Reaches(projected, budget, fraction) <==> projected <= fraction * budget)
  {
    if budget != 0.0 {
      var q := projected / budget;
      DivMul(projected, budget);
      Ordered(q, fraction, budget);
    }
  }

  lemma Ordered(x: real, y: real, d: real)
    requires d != 0.0
    ensures x >= y <==> if d > 0.0 then x * d >= y * d else x * d <= y * d
  {
    DifferenceTimes(x, y, d);
    DifferenceTimes(y, x, d);
    var e := if d > 0.0 then d else -d;
    assert (x - y) * d == -((y - x) * d);
    if x >= y {
      Product(x - y, e);
    } else {
      Positive(y - x, e);
    }
  }

  /** Under a positive budget a plan is accepted exactly when it keeps below both stops. */
  lemma AcceptedIff(l: Ledger, c: Config, operation: string, fee: real)
    requires c.totalBudget > 0.0
    ensures !Refused(l, c, operation, fee) <==>
            && l.total + fee < c.hardStop * c.totalBudget
            && (operation in c.perOperation ==> SpentBy(l, operation) + fee < c.hardStop * c.perOperation[operation])
  {
    hide Reaches;
    ReachesIff(l.total + fee, c.totalBudget, c.hardStop);
    if operation in c.perOperation {
      Commute(c.perOperation[operation], c.hardStop);
    }
  }

  lemma Commute(x: real, y: real)
    ensures x * y == y * x
  {
  }

  lemma AcceptedStop(l: Ledger, c: Config, only: Option<string>, operation: string, fee: real)
    requires (only.None? ==> c.totalBudget > 0.0) && (only.Some? ==> only.value in c.perOperation)
    requires !Refused(l, c, operation, fee) && (only.None? || only.value == operation)
    ensures Spent(l, only) + fee < Stop(c, only)
  {
    hide Reaches;
    if only.None? {
      ReachesIff(l.total + fee, c.totalBudget, c.hardStop);
    } else {
      Commute(c.perOperation[only.value], c.hardStop);
    }
  }

  lemma RequestCapped(s: System, c: Config, only: Option<string>, k: nat, maxFee: real, excess: real,
                      operation: string, fee: real)
    requires (only.None? ==> c.totalBudget > 0.0) && maxFee >= 0.0 && (only.Some? ==> only.value in c.perOperation)
    requires Capped(s, c, only, k, maxFee, excess) && FairStep(s, c, Request(operation, fee), k, maxFee)
    ensures Capped(Step(s, c, Request(operation, fee)), c, only, k, maxFee, excess)
  {
    hide Under, Stop, Refused;
    if !Refused(s.ledger, c, operation, fee) {
      var p := Open(operation, fee);
      CommittedConcat(s.open, [p], only);
      assert Committed([], only) == 0.0 && [p][..0] == [];
      if only.None? || only.value == operation {
        AcceptedStop(s.ledger, c, only, operation, fee);
        CommittedBound(s.open, only, maxFee);
        AddedUnder(Spent(s.ledger, only), fee, Committed(s.open, only), excess, Stop(c, only), |s.open|, k, maxFee);
      }
    }
  }

  lemma AddedUnder(spent: real, fee: real, committed: real, excess: real, stop: real, m: nat, k: nat, maxFee: real)
    requires spent + fee < stop && committed <= Times(m, maxFee) && m < k && maxFee >= 0.0
    ensures excess >= 0.0 ==> Under(spent + (committed + fee) - excess, stop, k, maxFee)
  {
    TimesIsProduct(m, maxFee);
    FewerFees(m, k - 1, maxFee);
  }

  lemma FewerFees(m: nat, n: int, maxFee: real)
    requires m <= n && maxFee >= 0.0
    ensures m as real * maxFee <= n as real * maxFee
  {
    Product((n - m) as real, maxFee);
    assert (n - m) as real * maxFee == n as real * maxFee - m as real * maxFee;
  }

  lemma RecordCapped(s: System, c: Config, only: Option<string>, k: nat, maxFee: real, excess: real,
                     index: nat, charge: real)
    requires maxFee >= 0.0 && (only.Some? ==> only.value in c.perOperation)
    requires Capped(s, c, only, k, maxFee, excess)
    ensures Capped(Step(s, c, Record(index, charge)), c, only, k, maxFee,
      excess + Overcharge(s, Record(index, charge), only))
  {
    if index < |s.open| {
      DropCommitted(s.open, index, only);
    }
  }

  lemma AbandonCapped(s: System, c: Config, only: Option<string>, k: nat, maxFee: real, excess: real, index: nat)
    requires maxFee >= 0.0 && (only.Some? ==> only.value in c.perOperation) && Capped(s, c, only, k, maxFee, excess)
    requires NonNegative(s.open)
    ensures Capped(Step(s, c, Abandon(index)), c, only, k, maxFee, excess)
  {
    if index < |s.open| {
      DropCommitted(s.open, index, only);
    }
  }

  /** No plan has a negative fee. */
  ghost predicate NonNegative(open: seq<Open>) {
    forall p | p in open :: p.fee >= 0.0
  }

  /** No plan with a negative fee is requested. */
  ghost predicate Positives(events: seq<Event>) {
    forall e | e in events && e.Request? :: e.fee >= 0.0
  }

  lemma {:induction false} OpenFees(c: Config, events: seq<Event>)
    requires Positives(events)
    ensures NonNegative(Run(c, events).open)
  {
    if events == [] {
    } else {
      OpenFees(c, events[..|events| - 1]);
      assert events[|events| - 1] in events;
    }
  }

  lemma {:induction false} AlwaysCapped(c: Config, events: seq<Event>, only: Option<string>, k: nat, maxFee: real)
    requires (only.None? ==> c.totalBudget > 0.0) && maxFee >= 0.0 && (only.Some? ==> only.value in c.perOperation)
    requires Fair(c, events, k, maxFee) && Positives(events)
    ensures Capped(Run(c, events), c, only, k, maxFee, Excess(START, c, events, only))
  {
    if events == [] {
    } else {
      hide Capped, FairStep, Step;
      var excess := Excess(START, c, events[..|events| - 1], only);
      var before, e := events[..|events| - 1], events[|events| - 1];
      AlwaysCapped(c, before, only, k, maxFee);
      OpenFees(c, before);
      match e
      case Request(operation, fee) => RequestCapped(Run(c, before), c, only, k, maxFee, excess, operation, fee);
      case Record(index, charge) => RecordCapped(Run(c, before), c, only, k, maxFee, excess, index, charge);
      case Abandon(index) => AbandonCapped(Run(c, before), c, only, k, maxFee, excess, index);
    }
  }

  /**
   * Bounded overshoot: while at most k plans are open at a time, what is spent, apart from what was charged above plan,
   * stays below the hard stop plus k - 1 fees, in all and for every operation with a sub-budget.
   */
  lemma BoundedOvershoot(c: Config, events: seq<Event>, only: Option<string>, k: nat, maxFee: real)
    requires (only.None? ==> c.totalBudget > 0.0) && maxFee >= 0.0 && (only.Some? ==> only.value in c.perOperation)
    requires Fair(c, events, k, maxFee) && Positives(events)
    ensures Under(Spent(Run(c, events).ledger, only) - Excess(START, c, events, only), Stop(c, only), k, maxFee)
    ensures Honest(START, c, events) ==> Under(Spent(Run(c, events).ledger, only), Stop(c, only), k, maxFee)
  {
    hide *;
    var excess := Excess(START, c, events, only);
    AlwaysCapped(c, events, only, k, maxFee);
    OpenFees(c, events);
    CappedUnder(Run(c, events), c, only, k, maxFee, excess);
    if Honest(START, c, events) {
      HonestExcess(START, c, events, only);
    }
  }

  lemma CappedUnder(s: System, c: Config, only: Option<string>, k: nat, maxFee: real, excess: real)
    requires (only.Some? ==> only.value in c.perOperation) && Capped(s, c, only, k, maxFee, excess) &&
      NonNegative(s.open)
    ensures Under(Spent(s.ledger, only) - excess, Stop(c, only), k, maxFee)
    ensures excess == 0.0 ==> Under(Spent(s.ledger, only), Stop(c, only), k, maxFee)
  {
    hide Under, Spent, Stop, Committed;
    CommittedPositive(s.open, only);
    LessUnder(Spent(s.ledger, only) - excess, Committed(s.open, only), Stop(c, only), k, maxFee);
    assert excess == 0.0 ==> Spent(s.ledger, only) - excess == Spent(s.ledger, only);
  }

  lemma LessUnder(x: real, y: real, stop: real, k: nat, maxFee: real)
    requires y >= 0.0 && Under(x + y, stop, k, maxFee)
    ensures Under(x, stop, k, maxFee)
  {
  }

  lemma {:induction false} CommittedPositive(open: seq<Open>, only: Option<string>)
    requires NonNegative(open)
    ensures Committed(open, only) >= 0.0
  {
    if open == [] {
    } else {
      CommittedPositive(open[..|open| - 1], only);
    }
  }

  // ----- When the ceiling holds -----

  /** Records and abandonments of open plans, at any charge. */
  predicate Settles(s: System, c: Config, events: seq<Event>) {
    events == [] ||
    (var before, e := events[..|events| - 1], events[|events| - 1];
     Settles(s, c, before) && !e.Request?)
  }

  lemma SettleMore(s: System, c: Config, events: seq<Event>, e: Event, only: Option<string>)
    ensures RunFrom(s, c, events + [e]) == Step(RunFrom(s, c, events), c, e)
    ensures Settles(s, c, events + [e]) <==> Settles(s, c, events) && !e.Request?
    ensures Excess(s, c, events + [e], only) == Excess(s, c, events, only) + Overcharge(RunFrom(s, c, events), e, only)
  {
    assert (events + [e])[..|events|] == events;
  }

  /** Settling a plan raises spent plus committed by no more than what it charges above plan. */
  lemma SettleStep(s: System, c: Config, e: Event, only: Option<string>)
    requires NonNegative(s.open) && !e.Request?
    ensures var t := Step(s, c, e);
            && NonNegative(t.open)
            && Spent(t.ledger, only) + Committed(t.open, only) <=
               Spent(s.ledger, only) + Committed(s.open, only) + Overcharge(s, e, only)
  {
    if e.index < |s.open| {
      DropCommitted(s.open, e.index, only);
    }
  }

  lemma {:induction false} SettleLowers(s: System, c: Config, events: seq<Event>, only: Option<string>)
    requires NonNegative(s.open) && Settles(s, c, events)
    ensures var t := RunFrom(s, c, events);
            && NonNegative(t.open)
            && Spent(t.ledger, only) + Committed(t.open, only) - Excess(s, c, events, only) <=
               Spent(s.ledger, only) + Committed(s.open, only)
  {
    if events == [] {
    } else {
      hide NonNegative, Step, Overcharge;
      var before := events[..|events| - 1];
      SettleLowers(s, c, before, only);
      SettleStep(RunFrom(s, c, before), c, events[|events| - 1], only);
    }
  }

  /** Recording the first j open plans at their full fees. */
  lemma {:induction false} RecordFirst(s: System, c: Config, only: Option<string>, j: nat) returns (events: seq<Event>)
    requires j <= |s.open|
    ensures Settles(s, c, events) && Excess(s, c, events, only) == 0.0
    ensures RunFrom(s, c, events).open == s.open[j..]
    ensures Spent(RunFrom(s, c, events).ledger, only) == Spent(s.ledger, only) + Committed(s.open[..j], only)
  {
    if j == 0 {
      events := [];
      assert s.open[..0] == [];
    } else {
      hide RunFrom, Settles, Excess;
      var before := RecordFirst(s, c, only, j - 1);
      var t, p := RunFrom(s, c, before), s.open[j - 1];
      var e := Record(0, p.fee);
      SettleMore(s, c, before, e, only);
      events := before + [e];
      assert s.open[j - 1..][0] == p && Drop(s.open[j - 1..], 0) == s.open[j..];
      assert s.open[..j][..j - 1] == s.open[..j - 1];
    }
  }

  /** Below the bound, or at it where it may be reached. */
  predicate Within(amount: real, bound: real, strict: bool) {
    if strict then amount < bound else amount <= bound
  }

  /** However the open plans of s are settled, what is spent, apart from charges above plan, stays within the bound. */
  ghost predicate AlwaysWithin(s: System, c: Config, only: Option<string>, bound: real, strict: bool) {
    forall events {:trigger Settles(s, c, events)} | Settles(s, c, events) ::
      Within(Spent(RunFrom(s, c, events).ledger, only) - Excess(s, c, events, only), bound, strict)
  }

  /**
   * However the open plans are settled, spending stays within the bound, apart from what is charged above plan, exactly
   * when all of them together fit.
   */
  lemma StaysWithinIff(s: System, c: Config, only: Option<string>, bound: real, strict: bool)
    requires NonNegative(s.open)
    ensures AlwaysWithin(s, c, only, bound, strict) <==>
            Within(Spent(s.ledger, only) + Committed(s.open, only), bound, strict)
  {
    hide RunFrom, Settles, NonNegative, Excess;
    var all := RecordFirst(s, c, only, |s.open|);
    assert s.open[..|s.open|] == s.open;
    forall events | Settles(s, c, events)
      ensures Spent(RunFrom(s, c, events).ledger, only) - Excess(s, c, events, only) <=
              Spent(s.ledger, only) + Committed(s.open, only)
    {
      SettleLowers(s, c, events, only);
      CommittedPositive(RunFrom(s, c, events).open, only);
    }
  }

  lemma AcceptedCommitted(s: System, c: Config, operation: string, fee: real, only: Option<string>)
    requires !Refused(s.ledger, c, operation, fee)
    ensures var t := Step(s, c, Request(operation, fee));
            t.ledger == s.ledger && Committed(t.open, only) ==
              Committed(s.open, only) + Share(Open(operation, fee), only)
  {
    assert (s.open + [Open(operation, fee)])[..|s.open|] == s.open;
  }

  /**
   * The exact condition for an accepted plan: the hard stop, and the budget itself, survive every way of settling the
   * open plans, apart from what is charged above plan, if and only if what is spent, what is committed and the new fee
   * together stay within it.
   */
  lemma CeilingHoldsIff(s: System, c: Config, operation: string, fee: real, only: Option<string>)
    requires NonNegative(s.open) && fee >= 0.0 && !Refused(s.ledger, c, operation, fee)
    requires only.Some? ==> only.value in c.perOperation
    ensures AlwaysWithin(Step(s, c, Request(operation, fee)), c, only, Stop(c, only), true) <==>
            Spent(s.ledger, only) + Committed(s.open, only) + Share(Open(operation, fee), only) < Stop(c, only)
    ensures AlwaysWithin(Step(s, c, Request(operation, fee)), c, only, BudgetOf(c, only), false) <==>
            Spent(s.ledger, only) + Committed(s.open, only) + Share(Open(operation, fee), only) <= BudgetOf(c, only)
  {
    hide AlwaysWithin, Committed, Stop, BudgetOf, Share, Refused;
    var t := Step(s, c, Request(operation, fee));
    AcceptedCommitted(s, c, operation, fee, only);
    assert NonNegative(t.open);
    StaysWithinIff(t, c, only, Stop(c, only), true);
    StaysWithinIff(t, c, only, BudgetOf(c, only), false);
  }

  /** Beyond that, one charge above plan breaks any budget: the estimator checks plans, never charges. */
  lemma OverchargeBreaksAnything(s: System, c: Config, index: nat, bound: real, charge: real)
    requires index < |s.open| && charge > bound - s.ledger.total
    ensures RunFrom(s, c, [Record(index, charge)]).ledger.total > bound
    ensures Settles(s, c, [Record(index, charge)])
  {
    SettleMore(s, c, [], Record(index, charge), None);
    assert [] + [Record(index, charge)] == [Record(index, charge)];
    assert RunFrom(s, c, []) == s && Settles(s, c, []);
  }

  // ----- The overshoot is reached -----

  function Copies<T>(x: T, k: nat): seq<T> {
    if k == 0 then [] else Copies(x, k - 1) + [x]
  }

  lemma {:induction false} OpenCopies(c: Config, operation: string, fee: real, k: nat)
    requires !Refused(NOTHING, c, operation, fee)
    ensures RunFrom(START, c, Copies(Request(operation, fee), k)) == System(NOTHING, Copies(Open(operation, fee), k))
  {
    if k == 0 {
    } else {
      hide Refused;
      OpenCopies(c, operation, fee, k - 1);
      SettleMore(START, c, Copies(Request(operation, fee), k - 1), Request(operation, fee), None);
    }
  }

  lemma {:induction false} CommittedCopies(operation: string, fee: real, k: nat)
    ensures |Copies(Open(operation, fee), k)| == k
    ensures Committed(Copies(Open(operation, fee), k), None) == Times(k, fee)
  {
    if k == 0 {
    } else {
      CommittedCopies(operation, fee, k - 1);
      var rest, p := Copies(Open(operation, fee), k - 1), Open(operation, fee);
      assert (rest + [p])[..|rest|] == rest;
    }
  }

  /**
   * Any fee that is accepted once from nothing is accepted k times while the plans stay open, and recording them
   * spends k fees, whatever the budget.
   */
  lemma OpenPlansOvershoot(c: Config, operation: string, fee: real, k: nat) returns (records: seq<Event>)
    requires !Refused(NOTHING, c, operation, fee)
    ensures var t := Run(c, Copies(Request(operation, fee), k));
            && |t.open| == k && Settles(t, c, records) && Excess(t, c, records, None) == 0.0
            && RunFrom(t, c, records).ledger.total == k as real * fee
  {
    hide Refused, RunFrom, Settles, Excess;
    OpenCopies(c, operation, fee, k);
    CommittedCopies(operation, fee, k);
    TimesIsProduct(k, fee);
    var t := System(NOTHING, Copies(Open(operation, fee), k));
    records := RecordFirst(t, c, None, k);
    assert t.open[..k] == t.open;
  }

  // ----- The spends by operation sum to the total -----

  ghost function Sum(m: map<string, real>): real
    decreases |m|
  {
    if |m| == 0 then 0.0
    else
      var k := Pick(m.Keys);
      assert |m - {k}| < |m| by { Shrinks(m, k); }
      m[k] + Sum(m - {k})
  }

  lemma Shrinks(m: map<string, real>, k: string)
    requires k in m
    ensures |m - {k}| < |m|
  {
    assert (m - {k}).Keys == m.Keys - {k};
    assert |m.Keys - {k}| < |m.Keys|;
  }

  lemma {:induction false} SumRemove(m: map<string, real>, k: string)
    requires k in m
    ensures Sum(m) == m[k] + Sum(m - {k})
    decreases |m|
  {
    assert m.Keys != {};
    var j := Pick(m.Keys);
    if j != k {
      Shrinks(m, j);
      Shrinks(m, k);
      SumRemove(m - {j}, k);
      SumRemove(m - {k}, j);
      assert m - {j} - {k} == m - {k} - {j};
    }
  }

  lemma SumUpdate(m: map<string, real>, k: string, v: real)
    ensures Sum(m[k := v]) == Sum(m) - (if k in m then m[k] else 0.0) + v
  {
    hide Sum;
    SumRemove(m[k := v], k);
    assert m[k := v] - {k} == m - {k};
    if k in m {
      SumRemove(m, k);
    } else {
      assert m - {k} == m;
    }
  }

  lemma ChargeSum(l: Ledger, operation: string, charge: real)
    requires Sum(l.byOperation) == l.total
    ensures Sum(Charge(l, operation, charge).byOperation) == Charge(l, operation, charge).total
  {
    hide Sum;
    SumUpdate(l.byOperation, operation, SpentBy(l, operation) + charge);
  }

  lemma StepSum(s: System, c: Config, e: Event)
    requires Sum(s.ledger.byOperation) == s.ledger.total
    ensures Sum(Step(s, c, e).ledger.byOperation) == Step(s, c, e).ledger.total
  {
    hide Sum, Drop, Refused, Charge;
    if e.Record? && e.index < |s.open| {
      ChargeSum(s.ledger, s.open[e.index].operation, e.charge);
    }
  }

  /** The spends by operation always sum to the total. */
  lemma {:induction false} SpendsSumToTotal(c: Config, events: seq<Event>)
    ensures Sum(Run(c, events).ledger.byOperation) == Run(c, events).ledger.total
  {
    if events == [] {
    } else {
      hide Sum, Step;
      SpendsSumToTotal(c, events[..|events| - 1]);
      StepSum(Run(c, events[..|events| - 1]), c, events[|events| - 1]);
    }
  }

  /** A negative total budget stops nothing: only the operation's own sub-budget can still refuse. */
  lemma NegativeBudgetNeverStops(l: Ledger, c: Config, operation: string, fee: real)
    requires c.totalBudget < 0.0 && l.total + fee >= 0.0 && c.hardStop > 0.0
    ensures Refused(l, c, operation, fee) <==> ReachesOwn(l, c, operation, fee)
  {
    hide Reaches;
    ReachesIff(l.total + fee, c.totalBudget, c.hardStop);
    Positive(c.hardStop, -c.totalBudget);
    assert c.hardStop * -c.totalBudget == -(c.hardStop * c.totalBudget);
  }

  // ----- The estimator object -----

  const DEFAULT_SAFETY_MARGIN := 0.2
  const DEFAULT_WARN_THRESHOLD := 0.8
  const DEFAULT_HARD_STOP_THRESHOLD := 0.98

  datatype Outcome = Planned(plan: Plan) | BudgetExceeded(plan: Plan)

  class FeeEstimator {
    const config: Config
    const safetyMargin: real
    var spentTotal: real
    var spentByOperation: map<string, real>
    var usageLog: seq<Usage>
    /** The alerts raised so far. */
    var alerts: seq<Alert>

    function View(): Ledger
      reads this
    {
      Ledger(spentTotal, spentByOperation)
    }

    /** Unless given, the warning comes at 80 %, the hard stop at 98 % of the budget, and the margin is 20 %. */
    constructor (totalBudget: real, warnThreshold: Option<real>, hardStop: Option<real>,
                 perOperation: map<string, real>, safetyMargin: Option<real>)
      ensures config.totalBudget == totalBudget && config.perOperation == perOperation
      ensures config.warnThreshold == if warnThreshold.Some? then warnThreshold.value else 0.8
      ensures config.hardStop == if hardStop.Some? then hardStop.value else 0.98
      ensures this.safetyMargin == if safetyMargin.Some? then safetyMargin.value else 0.2
      ensures View() == NOTHING && usageLog == [] && alerts == []
    {
      config := Config(totalBudget, if warnThreshold.Some? then warnThreshold.value else DEFAULT_WARN_THRESHOLD,
                       if hardStop.Some? then hardStop.value else DEFAULT_HARD_STOP_THRESHOLD, perOperation);
      this.safetyMargin := if safetyMargin.Some? then safetyMargin.value else DEFAULT_SAFETY_MARGIN;
      spentTotal, spentByOperation := 0.0, map[];
      usageLog, alerts := [], [];
    }

    /** Refuses with the alert due: critical for the total, none for a sub-budget; below the stop it may only warn. */
    method CheckBudget(plan: Plan) returns (ok: bool)
      modifies this`alerts
      ensures ok <==> !Refused(View(), config, plan.operation, plan.totalFee as real)
      ensures var projected := spentTotal + plan.totalFee as real;
              alerts == old(alerts) +
                if Reaches(projected, config.totalBudget, config.hardStop)
                  then [Alert(true, projected, config.totalBudget)]
                else if Reaches(projected, config.totalBudget, config.warnThreshold)
                  then [Alert(false, projected, config.totalBudget)]
                else []
    {
      var fee := plan.totalFee as real;
      var projected := spentTotal + fee;
      if Reaches(projected, config.totalBudget, config.hardStop) {
        alerts := alerts + [Alert(true, projected, config.totalBudget)];
        return false;
      }
      if Reaches(projected, config.totalBudget, config.warnThreshold) {
        alerts := alerts + [Alert(false, projected, config.totalBudget)];
      }
      if plan.operation in config.perOperation {
        var spent := if plan.operation in spentByOperation then spentByOperation[plan.operation] else 0.0;
        if spent + fee >= config.perOperation[plan.operation] * config.hardStop {
          return false;
        }
      }
      ok := true;
    }

    method BuildFeePlan(operation: string, resources: Resources, minResourceFee: real, margin: Option<real>,
                        baseFee: Option<real>, source: FeeSource) returns (outcome: Outcome)
      modifies this`alerts
      ensures outcome.plan == PricePlan(operation, resources, minResourceFee,
                                        if margin.Some? then margin.value else safetyMargin, baseFee, source)
      ensures outcome.plan.operation == operation
      ensures Priced(outcome.plan, resources, minResourceFee, if margin.Some? then margin.value else safetyMargin,
                     baseFee, source)
      ensures outcome.Planned? <==> !Refused(View(), config, operation, outcome.plan.totalFee as real)
    {
      hide PricePlan, Priced, Refused;
      var marginPct := if margin.Some? then margin.value else safetyMargin;
      var plan := PricePlan(operation, resources, minResourceFee, marginPct, baseFee, source);
      PlanIsPriced(operation, resources, minResourceFee, marginPct, baseFee, source);
      var ok := CheckBudget(plan);
      outcome := if ok then Planned(plan) else BudgetExceeded(plan);
    }

    /** Charges the actual fee, or the planned one when none is given. */
    method RecordActual(plan: Plan, actualFee: Option<real>)
      modifies this`spentTotal, this`spentByOperation, this`usageLog
      ensures var fee := if actualFee.Some? then actualFee.value else plan.totalFee as real;
              && View() == Charge(old(View()), plan.operation, fee)
              && spentTotal == old(spentTotal) + fee
              && spentByOperation == old(spentByOperation)[plan.operation := old(SpentBy(View(), plan.operation)) + fee]
              && usageLog == old(usageLog) + [Usage(plan.operation, plan.totalFee, actualFee)]
    {
      var fee := if actualFee.Some? then actualFee.value else plan.totalFee as real;
      spentTotal := spentTotal + fee;
      var spent := if plan.operation in spentByOperation then spentByOperation[plan.operation] else 0.0;
      spentByOperation := spentByOperation[plan.operation := spent + fee];
      usageLog := usageLog + [Usage(plan.operation, plan.totalFee, actualFee)];
    }
  }
}
