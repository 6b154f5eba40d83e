/** Exact integer admission by the generic cell rate algorithm (`quota/src/gcra.rs`).

    Time is scaled: nanoseconds multiplied by the sustained unit count, so one unit
    costs exactly `period` scaled ticks.  All arithmetic is checked `u128`. */
module Gcra {

  import opened Wrappers

  const U64_MAX: nat := 0xFFFF_FFFF_FFFF_FFFF
  const U128_MAX: nat := 0xFFFF_FFFF_FFFF_FFFF_FFFF_FFFF_FFFF_FFFF
  const NANOS_PER_SECOND: nat := 1_000_000_000

  datatype Error = InvalidPeriod | CostExceedsBurst | ArithmeticOverflow

  type NonZeroU64 = n: nat | 0 < n <= U64_MAX witness 1

  /** `std::time::Duration`: whole seconds in a `u64` and fewer than 10^9 nanoseconds. */
  datatype Duration = Duration(seconds: nat, subsecond: nat) {
    ghost predicate Valid() { seconds <= U64_MAX && subsecond < NANOS_PER_SECOND }
    function Nanos(): nat { seconds * NANOS_PER_SECOND + subsecond }
  }

  datatype Policy = Policy(units: NonZeroU64, period: Duration, burst: NonZeroU64)

  function NewPolicy(units: NonZeroU64, period: Duration, burst: NonZeroU64): (r: Result<Policy, Error>)
    ensures r.Ok? <==> period.Nanos() != 0
  {
    if period.seconds == 0 && period.subsecond == 0 then Err(InvalidPeriod)
    else Ok(Policy(units, period, burst))
  }

  datatype Algorithm = Algorithm(policy: Policy, period: nat, units: nat, capacity: nat) {
    /** What `New` establishes and nothing later changes. */
    ghost predicate Valid() {
      && 0 < period && 0 < units
      && units == policy.units
      && capacity == period * policy.burst
      && capacity <= U128_MAX
    }
  }

  datatype Outcome = Allowed(tat: nat) | Limited(debt: nat)
  datatype Snapshot = Snapshot(limit: nat, remaining: nat)

  function CheckedMul(a: nat, b: nat): (r: Result<nat, Error>) {
    if a * b <= U128_MAX then Ok(a * b) else Err(ArithmeticOverflow)
  }

  function CheckedAdd(a: nat, b: nat): (r: Result<nat, Error>) {
    if a + b <= U128_MAX then Ok(a + b) else Err(ArithmeticOverflow)
  }

  function Max(a: nat, b: nat): nat { if a < b then b else a }

  function New(policy: Policy): (r: Result<Algorithm, Error>)
    requires policy.period.Nanos() != 0
    ensures r.Ok? ==> r.value.Valid() && r.value.policy == policy && r.value.period == policy.period.Nanos()
    ensures r.Err? <==> policy.period.Nanos() * policy.burst > U128_MAX
  {
    var period := policy.period.Nanos();
    match CheckedMul(period, policy.burst)
    case Err(e) => Err(e)
    case Ok(capacity) => Ok(Algorithm(policy, period, policy.units, capacity))
  }

  /** The charge of one request, or a refusal that touches no storage. */
  function Prepare(g: Algorithm, cost: NonZeroU64): (r: Result<nat, Error>)
    requires g.Valid()
    ensures r.Ok? <==> cost <= g.policy.burst
    ensures r.Ok? ==> r.value == g.period * cost && 0 < r.value <= g.capacity
    ensures r.Err? ==> r.error == CostExceedsBurst
  {
    if cost > g.policy.burst then Err(CostExceedsBurst)
    else
      MulMonotone(g.period, cost, g.policy.burst);
      MulMonotone(g.period, 1, cost);
      CheckedMul(g.period, cost)
  }

  function Scale(g: Algorithm, now: nat): (r: Result<nat, Error>) {
    CheckedMul(now, g.units)
  }

  function Evaluate(g: Algorithm, charge: nat, now: nat, previous: Option<nat>): (r: Result<Outcome, Error>) {
    var base := match previous case None => now case Some(p) => Max(p, now);
    match CheckedAdd(base, charge)
    case Err(e) => Err(e)
    case Ok(tat) =>
      match CheckedAdd(now, g.capacity)
      case Err(e) => Err(e)
      case Ok(ceiling) => if tat <= ceiling then Ok(Allowed(tat)) else Ok(Limited(tat - ceiling))
  }

  function DivCeil(a: nat, b: nat): nat
    requires b > 0
  {
    if a % b == 0 then a / b else a / b + 1
  }

  function RetryAfter(g: Algorithm, debt: nat): (r: Result<Duration, Error>)
    requires g.units > 0
  {
    var nanos := DivCeil(debt, g.units);
    var seconds := nanos / NANOS_PER_SECOND;
    if seconds > U64_MAX then Err(ArithmeticOverflow)
    else Ok(Duration(seconds, nanos % NANOS_PER_SECOND))
  }

  /** Called only with the `tat` of a committed admission at `now`.
      The narrowing cast to `u64` is written out as a remainder. */
  function TakeSnapshot(g: Algorithm, now: nat, tat: nat): (s: Snapshot)
    requires g.period > 0
    requires now <= tat <= now + g.capacity
  {
    Snapshot(g.policy.burst, ((g.capacity - (tat - now)) / g.period) % (U64_MAX + 1))
  }

  // ---------------------------------------------------------------- arithmetic

  lemma MulMonotone(a: nat, b: nat, c: nat)
    requires b <= c
    ensures a * b <= a * c
  {
    assert a * c == a * b + a * (c - b);
  }

  lemma DivCeilIsLeast(a: nat, b: nat, d: nat)
    requires b > 0
    ensures a <= d * b <==> DivCeil(a, b) <= d
  {
    var q, m := a / b, a % b;
    assert a == q * b + m && m < b;
    if d <= q - 1 {
      MulMonotone(b, d, q - 1);
      assert (q - 1) * b == q * b - b;
    } else if d == q {
    } else {
      MulMonotone(b, q + 1, d);
      assert (q + 1) * b == q * b + b;
    }
  }

  lemma DivIsGreatest(a: nat, b: nat, d: nat)
    requires b > 0
    ensures d * b <= a <==> d <= a / b
  {
    var q, m := a / b, a % b;
    assert a == q * b + m && m < b;
    if d <= q {
      MulMonotone(b, d, q);
    } else {
      MulMonotone(b, q + 1, d);
      assert (q + 1) * b == q * b + b;
    }
  }

  // ------------------------------------------------------- one decision, exactly

  /** The reported delay is exact: waiting `d` whole nanoseconds with no other charge
      admits the same cost if and only if `d` is at least the reported delay, as long as
      the later instant can be compared at all. */
  lemma RetryAfterIsLeastDelay(g: Algorithm, charge: nat, now: nat, previous: Option<nat>, d: nat)
    requires g.Valid() && 0 < charge <= g.capacity
    requires Evaluate(g, charge, now, previous).Ok? && Evaluate(g, charge, now, previous).value.Limited?
    ensures
      var debt := Evaluate(g, charge, now, previous).value.debt;
      var later := Evaluate(g, charge, now + d * g.units, previous);
      && (later.Ok? <==> now + d * g.units + g.capacity <= U128_MAX)
      && (later.Ok? ==> (later.value.Allowed? <==> DivCeil(debt, g.units) <= d))
      && (RetryAfter(g, debt).Ok? ==>
            RetryAfter(g, debt).value.Valid() && RetryAfter(g, debt).value.Nanos() == DivCeil(debt, g.units))
      && (RetryAfter(g, debt).Err? <==> DivCeil(debt, g.units) >= (U64_MAX + 1) * NANOS_PER_SECOND)
  {
    var debt := Evaluate(g, charge, now, previous).value.debt;
    assert previous.Some? && previous.value > now;
    assert debt == previous.value + charge - (now + g.capacity);
    var later := now + d * g.units;
    DivCeilIsLeast(debt, g.units, d);
    assert previous.value + charge <= later + g.capacity <==> debt <= d * g.units;
  }

  /** The reported remainder is the largest cost still admissible at the same instant,
      it never underflows, and the narrowing to `u64` loses nothing. */
  lemma RemainingIsLargestAdmissible(g: Algorithm, charge: nat, now: nat, previous: Option<nat>, cost: NonZeroU64)
    requires g.Valid() && 0 < charge
    requires Evaluate(g, charge, now, previous).Ok?
    requires Evaluate(g, charge, now, previous).value.Allowed?
    ensures
      var tat := Evaluate(g, charge, now, previous).value.tat;
      && now <= tat <= now + g.capacity
      && var s := TakeSnapshot(g, now, tat);
      && s.limit == g.policy.burst
      && s.remaining < s.limit
      && (cost <= s.remaining <==>
            Prepare(g, cost).Ok? &&
            Evaluate(g, g.period * cost, now, Some(tat)).Ok? &&
            Evaluate(g, g.period * cost, now, Some(tat)).value.Allowed?)
  {
    var tat := Evaluate(g, charge, now, previous).value.tat;
    RemainingIsWhole(g, now, tat);
    AdmissibleIff(g, g.period * cost, now, tat);
    DivIsGreatest(g.capacity - (tat - now), g.period, cost);
    MulMonotone(g.period, if cost <= g.policy.burst then cost else g.policy.burst,
      if cost <= g.policy.burst then g.policy.burst else cost);
  }

  lemma AdmissibleIff(g: Algorithm, charge: nat, now: nat, tat: nat)
    requires g.Valid() && now <= tat <= now + g.capacity <= U128_MAX
    ensures charge <= g.capacity - (tat - now) <==>
      Evaluate(g, charge, now, Some(tat)).Ok? && Evaluate(g, charge, now, Some(tat)).value.Allowed?
  {
  }

  lemma RemainingIsWhole(g: Algorithm, now: nat, tat: nat)
    requires g.Valid() && now < tat <= now + g.capacity
    ensures TakeSnapshot(g, now, tat).limit == g.policy.burst
    ensures TakeSnapshot(g, now, tat).remaining == (g.capacity - (tat - now)) / g.period < g.policy.burst
  {
    var room := g.capacity - (tat - now);
    var whole := room / g.period;
    DivIsGreatest(room, g.period, g.policy.burst);
    assert whole < g.policy.burst by { assert room < g.period * g.policy.burst; }
    NarrowingIsLossless(whole);
  }

  lemma NarrowingIsLossless(x: nat)
    requires x <= U64_MAX
    ensures x % (U64_MAX + 1) == x
  {
  }

  predicate Allows(r: Result<Outcome, Error>) { r.Ok? && r.value.Allowed? }

  /** A replenished record, one whose arrival time is not in the future, may be dropped: the
      next evaluation is the one a fresh key would get.  Dropping any other record changes
      the evaluation unless its sums are out of width, and changes the decision itself
      unless there is room for the debt as well, or for neither. */
  lemma ForgettingReplenishedDebtIsTransparent(g: Algorithm, charge: nat, now: nat, stale: nat)
    ensures Evaluate(g, charge, now, Some(stale)) == Evaluate(g, charge, now, None) <==>
            stale <= now || now + charge > U128_MAX || now + g.capacity > U128_MAX
    ensures (Allows(Evaluate(g, charge, now, Some(stale))) <==> Allows(Evaluate(g, charge, now, None))) <==>
            stale <= now || stale + charge <= now + g.capacity || charge > g.capacity || now + g.capacity > U128_MAX
  {
  }

  // ------------------------------------------------------------------- whole runs

  /** One request: a clock sample in nanoseconds and a weighted cost. */
  datatype Request = Request(nanos: nat, cost: NonZeroU64)
  datatype Verdict = Admitted(charge: nat) | Denied | Failed(error: Error)

  /** Prepare, scale, evaluate; the record is committed only on admission. */
  function Consume(g: Algorithm, q: Request, tat: Option<nat>): (r: (Verdict, Option<nat>))
    requires g.Valid()
  {
    match Prepare(g, q.cost)
    case Err(e) => (Failed(e), tat)
    case Ok(charge) =>
      match Scale(g, q.nanos)
      case Err(e) => (Failed(e), tat)
      case Ok(now) =>
        match Evaluate(g, charge, now, tat)
        case Err(e) => (Failed(e), tat)
        case Ok(Limited(_)) => (Denied, tat)
        case Ok(Allowed(next)) => (Admitted(charge), Some(next))
  }

  ghost predicate NonDecreasing(qs: seq<Request>) {
    forall i, j :: 0 <= i <= j < |qs| ==> qs[i].nanos <= qs[j].nanos
  }

  /** The verdicts of a run, and the record it leaves. */
  function Verdicts(g: Algorithm, qs: seq<Request>, tat: Option<nat>): (vs: seq<Verdict>)
    requires g.Valid()
    ensures |vs| == |qs|
  {
    if qs == [] then []
    else [Consume(g, qs[0], tat).0] + Verdicts(g, qs[1..], Consume(g, qs[0], tat).1)
  }

  function After(g: Algorithm, qs: seq<Request>, tat: Option<nat>): (last: Option<nat>)
    requires g.Valid()
  {
    if qs == [] then tat else After(g, qs[1..], Consume(g, qs[0], tat).1)
  }

  function AdmittedCharge(vs: seq<Verdict>): nat {
    if vs == [] then 0
    else (if vs[0].Admitted? then vs[0].charge else 0) + AdmittedCharge(vs[1..])
  }

  lemma RunStep(g: Algorithm, q: Request, rest: seq<Request>, tat: Option<nat>)
    requires g.Valid()
    ensures Verdicts(g, [q] + rest, tat) == [Consume(g, q, tat).0] + Verdicts(g, rest, Consume(g, q, tat).1)
    ensures After(g, [q] + rest, tat) == After(g, rest, Consume(g, q, tat).1)
  {
    assert ([q] + rest)[1..] == rest;
  }

  lemma {:induction false} RunConcat(g: Algorithm, xs: seq<Request>, ys: seq<Request>, tat: Option<nat>)
    requires g.Valid()
    ensures Verdicts(g, xs + ys, tat) == Verdicts(g, xs, tat) + Verdicts(g, ys, After(g, xs, tat))
    ensures After(g, xs + ys, tat) == After(g, ys, After(g, xs, tat))
  {
    if xs == [] {
      assert xs + ys == ys;
    } else {
      RunConcat(g, xs[1..], ys, Consume(g, xs[0], tat).1);
      RunStep(g, xs[0], xs[1..], tat);
      RunStep(g, xs[0], xs[1..] + ys, tat);
      assert [xs[0]] + xs[1..] == xs && [xs[0]] + (xs[1..] + ys) == xs + ys;
    }
  }

  /** Arrival times only move forward, each admission by its charge; after an admission
      at `now` the arrival time is at most a burst ahead of `now`. */
  lemma {:induction false} RunAccumulates(g: Algorithm, qs: seq<Request>, tat: Option<nat>, start: nat, end: nat)
    requires g.Valid() && NonDecreasing(qs)
    requires forall i :: 0 <= i < |qs| ==> start <= qs[i].nanos <= end
    ensures
      var vs, last := Verdicts(g, qs, tat), After(g, qs, tat);
      && (tat.Some? ==> last.Some? && tat.value + AdmittedCharge(vs) <= last.value)
      && (AdmittedCharge(vs) == 0 ==> last == tat)
      && (AdmittedCharge(vs) > 0 ==>
            && last.Some?
            && start * g.units + AdmittedCharge(vs) <= last.value <= end * g.units + g.capacity)
  {
    if qs != [] {
      var (v, next) := Consume(g, qs[0], tat);
      assert NonDecreasing(qs[1..]) by {
        assert forall i :: 0 <= i < |qs[1..]| ==> qs[1..][i] == qs[i + 1];
      }
      RunAccumulates(g, qs[1..], next, start, end);
      MulMonotone(g.units, start, qs[0].nanos);
      MulMonotone(g.units, qs[0].nanos, end);
      var vs := Verdicts(g, qs[1..], next);
      assert ([v] + vs)[1..] == vs;
    }
  }

  lemma {:induction false} RunSlice(g: Algorithm, qs: seq<Request>, tat: Option<nat>, i: nat, j: nat)
    requires g.Valid() && i <= j <= |qs|
    ensures Verdicts(g, qs, tat)[i..j] == Verdicts(g, qs[i..j], After(g, qs[..i], tat))
  {
    var mid := After(g, qs[..i], tat);
    assert qs == qs[..i] + qs[i..];
    RunConcat(g, qs[..i], qs[i..], tat);
    assert qs[i..] == qs[i..j] + qs[j..];
    RunConcat(g, qs[i..j], qs[j..], mid);
  }

  lemma MulDistributesOverSub(a: nat, b: nat, c: nat)
    requires b <= a
    ensures (a - b) * c == a * c - b * c
  {
  }

  lemma WholeRunBound(g: Algorithm, qs: seq<Request>, tat: Option<nat>)
    requires g.Valid() && NonDecreasing(qs) && qs != []
    ensures AdmittedCharge(Verdicts(g, qs, tat))
              <= g.capacity + (qs[|qs| - 1].nanos - qs[0].nanos) * g.units
  {
    var first, last := qs[0].nanos, qs[|qs| - 1].nanos;
    RunAccumulates(g, qs, tat, first, last);
    MulDistributesOverSub(last, first, g.units);
    MulMonotone(g.units, first, last);
  }

  /** Window bound.  In every run with a non-decreasing clock, whatever the record held
      before and whatever was denied or failed in between, the charges admitted by
      requests `i..=j` sum to at most one burst plus the scaled time that passed. */
  lemma WindowBound(g: Algorithm, qs: seq<Request>, tat: Option<nat>, i: nat, j: nat)
    requires g.Valid() && NonDecreasing(qs) && i <= j < |qs|
    ensures AdmittedCharge(Verdicts(g, qs, tat)[i..j + 1])
              <= g.capacity + (qs[j].nanos - qs[i].nanos) * g.units
  {
    var window := qs[i..j + 1];
    assert forall k :: 0 <= k < |window| ==> window[k] == qs[i + k];
    WholeRunBound(g, window, After(g, qs[..i], tat));
    RunSlice(g, qs, tat, i, j + 1);
  }

  /** Only the admitted requests matter: dropping every denied or failed request from a
      run changes neither the admitted charges nor the record left behind. */
  function OnlyAdmitted(g: Algorithm, qs: seq<Request>, tat: Option<nat>): seq<Request>
    requires g.Valid()
  {
    if qs == [] then []
    else
      var (v, next) := Consume(g, qs[0], tat);
      (if v.Admitted? then [qs[0]] else []) + OnlyAdmitted(g, qs[1..], next)
  }

  lemma {:induction false} RefusalsLeaveNoTrace(g: Algorithm, qs: seq<Request>, tat: Option<nat>)
    requires g.Valid()
    ensures After(g, OnlyAdmitted(g, qs, tat), tat) == After(g, qs, tat)
    ensures AdmittedCharge(Verdicts(g, OnlyAdmitted(g, qs, tat), tat)) == AdmittedCharge(Verdicts(g, qs, tat))
    ensures forall v :: v in Verdicts(g, OnlyAdmitted(g, qs, tat), tat) ==> v.Admitted?
  {
    if qs != [] {
      var (v, next) := Consume(g, qs[0], tat);
      var rest := OnlyAdmitted(g, qs[1..], next);
      RefusalsLeaveNoTrace(g, qs[1..], next);
      assert ([v] + Verdicts(g, qs[1..], next))[1..] == Verdicts(g, qs[1..], next);
      if v.Admitted? {
        var all := [qs[0]] + rest;
        assert all[0] == qs[0] && all[1..] == rest;
        assert ([v] + Verdicts(g, rest, next))[1..] == Verdicts(g, rest, next);
      } else {
        assert [] + rest == rest;
      }
    }
  }

  // --------------------------------------------------- the independent token bucket

  /** `level` scaled tokens as of `at`; refills one per tick, never past `capacity`. */
  datatype Bucket = Bucket(level: nat, at: nat)

  function Min(a: nat, b: nat): nat { if a < b then a else b }

  function Refill(capacity: nat, b: Bucket, now: nat): Bucket
    requires b.at <= now
  {
    Bucket(Min(capacity, b.level + (now - b.at)), now)
  }

  function Take(capacity: nat, b: Bucket, now: nat, charge: nat): (r: (bool, Bucket))
    requires b.at <= now
  {
    var full := Refill(capacity, b, now);
    if charge <= full.level then (true, Bucket(full.level - charge, now)) else (false, full)
  }

  /** The record and the bucket agree as of the bucket's instant. */
  ghost predicate Agrees(g: Algorithm, tat: Option<nat>, b: Bucket) {
    match tat
    case None => b.level == g.capacity
    case Some(t) => t <= b.at + g.capacity && b.level == g.capacity - (Max(t, b.at) - b.at)
  }

  /** The bucket's answer to the same requests.  A request that fails before a decision
      (too costly, or outside the number range) does not reach the bucket. */
  function BucketRun(g: Algorithm, qs: seq<Request>, fails: seq<bool>, b: Bucket): (vs: seq<bool>)
    requires |fails| == |qs|
    requires forall i :: 0 <= i < |qs| ==> b.at <= qs[i].nanos * g.units
    requires NonDecreasing(qs)
  {
    if qs == [] then []
    else
      var now := qs[0].nanos * g.units;
      var (ok, next) := if fails[0] then (false, b) else Take(g.capacity, b, now, g.period * qs[0].cost);
      assert forall i :: 0 <= i < |qs[1..]| ==> qs[1..][i] == qs[i + 1];
      forall i | 0 <= i < |qs[1..]| ensures next.at <= qs[1..][i].nanos * g.units {
        MulMonotone(g.units, qs[0].nanos, qs[i + 1].nanos);
      }
      [ok] + BucketRun(g, qs[1..], fails[1..], next)
  }

  ghost function FailsOf(vs: seq<Verdict>): (fs: seq<bool>)
    ensures |fs| == |vs|
  {
    seq(|vs|, i requires 0 <= i < |vs| => vs[i].Failed?)
  }

  lemma ConsumeSimulatesTake(g: Algorithm, q: Request, tat: Option<nat>, b: Bucket)
    requires g.Valid() && Agrees(g, tat, b) && b.at <= q.nanos * g.units
    ensures
      var (v, next) := Consume(g, q, tat);
      var (ok, c) := Take(g.capacity, b, q.nanos * g.units, g.period * q.cost);
      && (v.Failed? ==> next == tat)
      && (!v.Failed? ==> (v.Admitted? <==> ok) && Agrees(g, next, c))
  {
  }

  /** Simulation: on every run with a non-decreasing clock the algorithm admits exactly
      the requests an integer token bucket admits. */
  lemma {:induction false} SimulatesTokenBucket(g: Algorithm, qs: seq<Request>, tat: Option<nat>, b: Bucket)
    requires g.Valid() && NonDecreasing(qs) && Agrees(g, tat, b)
    requires forall i :: 0 <= i < |qs| ==> b.at <= qs[i].nanos * g.units
    ensures
      var vs := Verdicts(g, qs, tat);
      var bs := BucketRun(g, qs, FailsOf(vs), b);
      |bs| == |vs| && forall i :: 0 <= i < |vs| ==> (vs[i].Admitted? <==> bs[i])
  {
    if qs != [] {
      var (v, next) := Consume(g, qs[0], tat);
      var now := qs[0].nanos * g.units;
      ConsumeSimulatesTake(g, qs[0], tat, b);
      var c := if v.Failed? then b else Take(g.capacity, b, now, g.period * qs[0].cost).1;
      assert forall i :: 0 <= i < |qs[1..]| ==> qs[1..][i] == qs[i + 1];
      forall i | 0 <= i < |qs[1..]| ensures c.at <= qs[1..][i].nanos * g.units {
        MulMonotone(g.units, qs[0].nanos, qs[i + 1].nanos);
      }
      SimulatesTokenBucket(g, qs[1..], next, c);
      var vs := Verdicts(g, qs, tat);
      var rest := Verdicts(g, qs[1..], next);
      assert vs == [v] + rest;
      assert FailsOf(vs)[1..] == FailsOf(rest);
      var bs := BucketRun(g, qs, FailsOf(vs), b);
      assert bs[1..] == BucketRun(g, qs[1..], FailsOf(rest), c);
    }
  }

  /** The range failure is exact: a request that reaches the comparison fails only when
      a sum leaves `u128`, and never turns a refusable request into an admission. */
  lemma FailureIsExactlyRange(g: Algorithm, q: Request, tat: Option<nat>)
    requires g.Valid()
    ensures
      var now := q.nanos * g.units;
      var base := match tat case None => now case Some(t) => Max(t, now);
      Consume(g, q, tat).0.Failed? <==>
        || q.cost > g.policy.burst
        || now > U128_MAX
        || base + g.period * q.cost > U128_MAX
        || now + g.capacity > U128_MAX
  {
    assert q.cost <= g.policy.burst ==> Prepare(g, q.cost).Ok?;
  }
}
