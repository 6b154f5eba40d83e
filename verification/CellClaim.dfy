/** Dividing a fixed amount between racing callers: `add_until` of an integer cell
    (`cell/src/lib.rs`).  Each caller loads the value, decides, and swaps; any number of them
    interleave, and a caller that loses the race starts over. */
module CellClaim {

  const I64_MAX: int := 0x7FFF_FFFF_FFFF_FFFF
  const I64_MIN: int := -0x8000_0000_0000_0000

  predicate Fits(x: int) { I64_MIN <= x <= I64_MAX }

  function Min(a: int, b: int): int { if a < b then a else b }

  function SaturatingSub(a: int, b: int): int {
    if a - b > I64_MAX then I64_MAX else if a - b < I64_MIN then I64_MIN else a - b
  }

  datatype Claim = Took(taken: int, after: int) | Exhausted | Overflow

  datatype Pc = LoadValue | Swap(current: int) | Answered(claim: Claim)

  datatype Caller = Caller(want: int, pc: Pc)

  /** `claims` lists what successful swaps took, in order; a history nobody reads. */
  datatype State = State(value: int, callers: map<nat, Caller>, claims: seq<int>)

  function Taking(want: int, limit: int, current: int): int { Min(want, SaturatingSub(limit, current)) }

  /** The distance to the limit may exceed the integer range; clamping it changes nothing,
      because what a caller wants cannot, and the sum never overflows. */
  lemma ClampingIsHarmless(want: int, limit: int, current: int)
    requires Fits(want) && Fits(limit) && Fits(current) && want > 0 && current < limit
    ensures Taking(want, limit, current) == Min(want, limit - current)
    ensures Fits(current + Taking(want, limit, current))
  {
  }

  datatype Step = Start(t: nat, want: int) | Run(t: nat)

  predicate Enabled(s: State, step: Step) {
    match step
    case Start(t, _) => t !in s.callers
    case Run(t) => t in s.callers && !s.callers[t].pc.Answered?
  }

  function Goto(s: State, t: nat, pc: Pc): State
    requires t in s.callers
  {
    s.(callers := s.callers[t := s.callers[t].(pc := pc)])
  }

  function RunCaller(s: State, limit: int, t: nat): State
    requires t in s.callers && !s.callers[t].pc.Answered?
  {
    var c := s.callers[t];
    match c.pc
    case LoadValue => Goto(s, t, if s.value >= limit then Answered(Exhausted) else Swap(s.value))
    case Swap(current) =>
      if s.value != current then Goto(s, t, LoadValue)
      else
        var taken := Taking(c.want, limit, current);
        Goto(s, t, Answered(Took(taken, current + taken))).(value := current + taken, claims := s.claims + [taken])
  }

  /** Some swap took exactly this much and left exactly that total. */
  ghost predicate IsClaim(claims: seq<int>, initial: int, taken: int, after: int) {
    exists k :: 0 <= k < |claims| && claims[k] == taken && initial + Sum(claims[..k + 1]) == after
  }

  lemma ClaimsStay(claims: seq<int>, more: int, initial: int, taken: int, after: int)
    requires IsClaim(claims, initial, taken, after)
    ensures IsClaim(claims + [more], initial, taken, after)
  {
    var k :| 0 <= k < |claims| && claims[k] == taken && initial + Sum(claims[..k + 1]) == after;
    assert (claims + [more])[..k + 1] == claims[..k + 1];
    assert (claims + [more])[k] == taken;
  }

  ghost predicate Invariant(s: State, initial: int, limit: int) {
    && Fits(s.value) && s.value == initial + Sum(s.claims)
    && (s.value <= limit || (s.value == initial && s.claims == []))
    && (forall k :: 0 <= k < |s.claims| ==> s.claims[k] >= 1)
    && (forall t :: t in s.callers ==> CallerInvariant(s, initial, limit, s.callers[t]))
  }

  ghost predicate CallerInvariant(s: State, initial: int, limit: int, c: Caller) {
    match c.pc
    case LoadValue => c.want > 0
    case Swap(current) => c.want > 0 && current < limit && Fits(current)
    case Answered(Took(taken, after)) =>
      1 <= taken <= c.want && after <= limit && IsClaim(s.claims, initial, taken, after)
    case Answered(Exhausted) => s.value >= limit
    case Answered(Overflow) => c.want <= 0
  }

  function Sum(xs: seq<int>): int { if xs == [] then 0 else Sum(xs[..|xs| - 1]) + xs[|xs| - 1] }

  function Apply(s: State, limit: int, step: Step): State
    requires Enabled(s, step)
  {
    match step
    case Start(t, want) =>
      s.(callers := s.callers[t := Caller(want, if want <= 0 then Answered(Overflow) else LoadValue)])
    case Run(t) => RunCaller(s, limit, t)
  }

  lemma CallerStays(s: State, initial: int, limit: int, step: Step, t: nat)
    requires Invariant(s, initial, limit) && Enabled(s, step)
    requires Fits(limit) && (step.Start? ==> Fits(step.want))
    requires t in Apply(s, limit, step).callers
    ensures CallerInvariant(Apply(s, limit, step), initial, limit, Apply(s, limit, step).callers[t])
  {
    var s' := Apply(s, limit, step);
    assert t in s.callers ==> CallerInvariant(s, initial, limit, s.callers[t]);
    if step.Run? && s'.claims != s.claims {
      assert CallerInvariant(s, initial, limit, s.callers[step.t]);
      var more := s'.claims[|s.claims|];
      if t != step.t {
        if s.callers[t].pc.Answered? && s.callers[t].pc.claim.Took? {
          ClaimsStay(s.claims, more, initial, s.callers[t].pc.claim.taken, s.callers[t].pc.claim.after);
        }
      } else {
        assert s'.claims[..|s.claims| + 1] == s'.claims && s'.claims[..|s'.claims| - 1] == s.claims;
        assert IsClaim(s'.claims, initial, more, s'.value);
      }
    }
  }

  lemma StepKeepsInvariant(s: State, initial: int, limit: int, step: Step)
    requires Invariant(s, initial, limit) && Enabled(s, step)
    requires Fits(limit) && (step.Start? ==> Fits(step.want))
    ensures Invariant(Apply(s, limit, step), initial, limit)
    ensures s.value <= Apply(s, limit, step).value
  {
    if step.Run? {
      var c := s.callers[step.t];
      assert CallerInvariant(s, initial, limit, c);
      if c.pc.Swap? && s.value == c.pc.current {
        var taken := Taking(c.want, limit, s.value);
        var claims := s.claims + [taken];
        assert claims[..|claims| - 1] == s.claims;
        assert 1 <= taken <= limit - s.value;
      }
    }
    forall t | t in Apply(s, limit, step).callers
      ensures CallerInvariant(Apply(s, limit, step), initial, limit, Apply(s, limit, step).callers[t])
    {
      CallerStays(s, initial, limit, step, t);
    }
  }

  ghost predicate IsExecution(initial: int, limit: int, ss: seq<State>, steps: seq<Step>) {
    && Fits(initial) && Fits(limit)
    && |ss| == |steps| + 1 && ss[0] == State(initial, map[], [])
    && forall i :: 0 <= i < |steps| ==>
         && Enabled(ss[i], steps[i]) && (steps[i].Start? ==> Fits(steps[i].want))
         && ss[i + 1] == Apply(ss[i], limit, steps[i])
  }

  lemma {:induction false} ExecutionKeepsInvariant(initial: int, limit: int, ss: seq<State>, steps: seq<Step>, n: nat)
    requires IsExecution(initial, limit, ss, steps) && n < |ss|
    ensures Invariant(ss[n], initial, limit)
  {
    if n > 0 {
      ExecutionKeepsInvariant(initial, limit, ss, steps, n - 1);
      StepKeepsInvariant(ss[n - 1], initial, limit, steps[n - 1]);
    }
  }

  /** However many callers race: the value never passes the limit (unless it began past it,
      and then nobody takes anything), it is exactly what was taken on top of where it began,
      and whoever took something took between one unit and what it asked for. */
  lemma NeverPassesTheLimit(initial: int, limit: int, ss: seq<State>, steps: seq<Step>, n: nat)
    requires IsExecution(initial, limit, ss, steps) && n < |ss|
    ensures ss[n].value <= if initial > limit then initial else limit
    ensures ss[n].value - initial == Sum(ss[n].claims) && Fits(ss[n].value)
    ensures initial > limit ==> ss[n].claims == []
    ensures forall t :: t in ss[n].callers && ss[n].callers[t].pc.Answered? && ss[n].callers[t].pc.claim.Took? ==>
      && 1 <= ss[n].callers[t].pc.claim.taken <= ss[n].callers[t].want && ss[n].callers[t].pc.claim.after <= limit
      && IsClaim(ss[n].claims, initial, ss[n].callers[t].pc.claim.taken, ss[n].callers[t].pc.claim.after)
  {
    ExecutionKeepsInvariant(initial, limit, ss, steps, n);
    if initial > limit && ss[n].claims != [] {
      SumIsPositive(ss[n].claims);
    }
    forall t | t in ss[n].callers ensures CallerInvariant(ss[n], initial, limit, ss[n].callers[t]) {
    }
  }

  lemma {:induction false} SumIsPositive(xs: seq<int>)
    requires forall k :: 0 <= k < |xs| ==> xs[k] >= 1
    ensures Sum(xs) >= |xs|
  {
    if xs != [] {
      SumIsPositive(xs[..|xs| - 1]);
    }
  }

  /** Nothing is left over: once any caller has been told the limit is reached, exactly the
      whole distance from the start to the limit has been taken. */
  lemma NothingLeftUnclaimed(initial: int, limit: int, ss: seq<State>, steps: seq<Step>, n: nat, t: nat)
    requires IsExecution(initial, limit, ss, steps) && n < |ss| && initial <= limit
    requires t in ss[n].callers && ss[n].callers[t].pc == Answered(Exhausted)
    ensures ss[n].value == limit && Sum(ss[n].claims) == limit - initial
  {
    ExecutionKeepsInvariant(initial, limit, ss, steps, n);
    assert CallerInvariant(ss[n], initial, limit, ss[n].callers[t]);
  }
}
