/** A node's capacity: computed from its free headroom, smoothed against momentary recoveries. */
module Capacity {
  import opened Wrappers

  /** The agent's configuration; a zero per-sandbox limit would be a division by zero. */
  datatype Settings = Settings(ceiling: Option<int>, reservedRam: real, ramLimit: real, cpuLimit: real, recoveryPolls: int) {
    predicate Valid() {
      ramLimit > 0.0 && cpuLimit > 0.0
    }
  }

  /** One reading of the host, memory in MB, CPU use in percent of all cores. */
  datatype Reading = Reading(totalRam: real, availableRam: real, cpuPercent: real, cpuCount: nat, active: nat)

  datatype Bound = RAM | CPU | CEILING

  datatype Breakdown = Breakdown(capacity: int, ramCapacity: int, cpuCapacity: int, bound: Bound)

  function FreeRam(s: Settings, r: Reading): real {
    r.totalRam - s.reservedRam - (r.totalRam - r.availableRam)
  }

  function FreeCpu(r: Reading): real {
    var free := r.cpuCount as real * (100.0 - r.cpuPercent);
    if free > 0.0 then free else 0.0
  }

  function AtLeastZero(n: int): nat {
    if n > 0 then n else 0
  }

  function ComputeCapacity(s: Settings, r: Reading): Breakdown
    requires s.Valid()
  {
    var ram := AtLeastZero((FreeRam(s, r) / s.ramLimit).Floor) + r.active;
    var cpu := AtLeastZero((FreeCpu(r) / (s.cpuLimit * 100.0)).Floor) + r.active;
    var least := if ram <= cpu then ram else cpu;
    if s.ceiling.Some? && s.ceiling.value < least then Breakdown(s.ceiling.value, ram, cpu, CEILING)
    else Breakdown(least, ram, cpu, if ram <= cpu then RAM else CPU)
  }

  // -- What the number means ---------------------------------------------------------------------------

  /** `k` more sandboxes fit into the free memory after the reserve, and into the free CPU. */
  predicate Fit(s: Settings, r: Reading, k: nat) {
    k as real * s.ramLimit <= FreeRam(s, r) && k as real * (s.cpuLimit * 100.0) <= FreeCpu(r)
  }

  lemma FloorCounts(free: real, each: real, k: nat)
    requires each > 0.0 && k >= 1
    ensures k <= AtLeastZero((free / each).Floor) <==> k as real * each <= free
  {
    var q := free / each;
    assert q * each == free;
    if k as real <= q {
      MulMonotone(k as real, q, each);
    } else {
      MulMonotone(q, k as real, each);
      assert q != k as real;
      MulStrict(q, k as real, each);
    }
  }

  lemma MulMonotone(a: real, b: real, c: real)
    requires a <= b && c > 0.0
    ensures a * c <= b * c
  {
    assert (b - a) * c >= 0.0;
  }

  lemma MulStrict(a: real, b: real, c: real)
    requires a < b && c > 0.0
    ensures a * c < b * c
  {
    assert (b - a) * c > 0.0;
  }

  /**
   Exactly the slots that fit: `k` more sessions are within the computed capacity if and only if `k` more
   sandboxes fit into the host's free memory and CPU and the operator's ceiling allows them.
   */
  lemma CapacityIsExact(s: Settings, r: Reading, k: nat)
    requires s.Valid() && k >= 1
    ensures r.active + k <= ComputeCapacity(s, r).capacity <==>
              Fit(s, r, k) && (s.ceiling.Some? ==> r.active + k <= s.ceiling.value)
  {
    FloorCounts(FreeRam(s, r), s.ramLimit, k);
    FloorCounts(FreeCpu(r), s.cpuLimit * 100.0, k);
  }

  /**
   The same in the fields of a reading, the memory reserve and all cores included: `k` more sessions count
   exactly if their memory and the reserve are available, their CPU is idle, and the ceiling allows them.
   */
  lemma CapacityInFields(s: Settings, r: Reading, k: nat)
    requires s.Valid() && k >= 1
    ensures r.active + k <= ComputeCapacity(s, r).capacity <==>
              && k as real * s.ramLimit + s.reservedRam <= r.availableRam
              && k as real * s.cpuLimit * 100.0 <= r.cpuCount as real * (100.0 - r.cpuPercent)
              && (s.ceiling.Some? ==> r.active + k <= s.ceiling.value)
    ensures r.active + k <= ComputeCapacity(s, r).ramCapacity <==> k as real * s.ramLimit + s.reservedRam <= r.availableRam
    ensures r.active + k <= ComputeCapacity(s, r).cpuCapacity <==>
              k as real * s.cpuLimit * 100.0 <= r.cpuCount as real * (100.0 - r.cpuPercent)
  {
    RamInFields(s, r, k);
    CpuInFields(s, r, k);
  }

  lemma RamInFields(s: Settings, r: Reading, k: nat)
    requires s.Valid() && k >= 1
    ensures r.active + k <= ComputeCapacity(s, r).ramCapacity <==> k as real * s.ramLimit + s.reservedRam <= r.availableRam
  {
    FloorCounts(FreeRam(s, r), s.ramLimit, k);
    FreeRamInFields(s, r, k as real * s.ramLimit);
  }

  lemma CpuInFields(s: Settings, r: Reading, k: nat)
    requires s.Valid() && k >= 1
    ensures r.active + k <= ComputeCapacity(s, r).cpuCapacity <==>
              k as real * s.cpuLimit * 100.0 <= r.cpuCount as real * (100.0 - r.cpuPercent)
  {
    FloorCounts(FreeCpu(r), s.cpuLimit * 100.0, k);
    FreeCpuInFields(r, k as real * (s.cpuLimit * 100.0));
    MulPositive(k as real, s.cpuLimit);
    Regroup(k as real, s.cpuLimit);
  }

  lemma FreeRamInFields(s: Settings, r: Reading, needed: real)
    ensures needed <= FreeRam(s, r) <==> needed + s.reservedRam <= r.availableRam
  {
  }

  lemma FreeCpuInFields(r: Reading, needed: real)
    ensures needed > 0.0 ==> (needed <= FreeCpu(r) <==> needed <= r.cpuCount as real * (100.0 - r.cpuPercent))
  {
  }

  lemma MulPositive(a: real, b: real)
    requires a > 0.0 && b > 0.0
    ensures a * (b * 100.0) > 0.0
  {
    assert a * b > 0.0;
    Regroup(a, b);
  }

  lemma Regroup(a: real, b: real)
    ensures a * (b * 100.0) == a * b * 100.0
  {
  }

  /** No capacity is ever below the sessions that run, an operator's ceiling aside; the least bound is reported and named. */
  lemma BreakdownExactly(s: Settings, r: Reading)
    requires s.Valid()
    ensures var b := ComputeCapacity(s, r);
            && b.ramCapacity >= r.active && b.cpuCapacity >= r.active
            && (b.bound == CEILING <==> s.ceiling.Some? && s.ceiling.value < b.ramCapacity && s.ceiling.value < b.cpuCapacity)
            && (b.bound == CEILING ==> b.capacity == s.ceiling.value)
            && (b.bound == RAM ==> b.capacity == b.ramCapacity && b.ramCapacity <= b.cpuCapacity)
            && (b.bound == CPU ==> b.capacity == b.cpuCapacity && b.cpuCapacity < b.ramCapacity)
  {
  }

  /** The named bound is what holds the capacity down: relieving another does not raise it. */
  lemma BoundIsBinding(s: Settings, r: Reading, relieved: Reading)
    requires s.Valid() && relieved.active == r.active
    requires FreeRam(s, r) <= FreeRam(s, relieved) && FreeCpu(r) <= FreeCpu(relieved)
    requires match ComputeCapacity(s, r).bound
             case RAM => FreeRam(s, r) == FreeRam(s, relieved)
             case CPU => FreeCpu(r) == FreeCpu(relieved)
             case CEILING => true
    ensures ComputeCapacity(s, relieved).capacity == ComputeCapacity(s, r).capacity
  {
    QuotientMonotone(FreeRam(s, r), FreeRam(s, relieved), s.ramLimit);
    QuotientMonotone(FreeCpu(r), FreeCpu(relieved), s.cpuLimit * 100.0);
  }

  lemma QuotientMonotone(a: real, b: real, each: real)
    requires a <= b && each > 0.0
    ensures AtLeastZero((a / each).Floor) <= AtLeastZero((b / each).Floor)
  {
    var p, q := a / each, b / each;
    if q < p {
      MulStrict(q, p, each);
      assert false;
    }
  }

  // -- Hysteresis --------------------------------------------------------------------------------------

  datatype Smoother = Smoother(last: Option<int>, streak: nat)

  const FRESH: Smoother := Smoother(None, 0)

  function Next(s: Smoother, raw: int, polls: int): (t: Smoother)
    ensures t.last.Some?
  {
    if s.last.None? || raw <= s.last.value then Smoother(Some(raw), 0)
    else if s.streak + 1 >= polls then Smoother(Some(raw), 0)
    else Smoother(s.last, s.streak + 1)
  }

  function After(raws: seq<int>, polls: int): Smoother {
    if raws == [] then FRESH else Next(After(raws[..|raws| - 1], polls), raws[|raws| - 1], polls)
  }

  function Reported(raws: seq<int>, polls: int): int
    requires raws != []
  {
    After(raws, polls).last.value
  }

  predicate AllAbove(raws: seq<int>, bound: int) {
    forall i | 0 <= i < |raws| :: raws[i] > bound
  }

  class CapacityHysteresis {
    var lastReported: Option<int>
    var recoveryStreak: nat

    function State(): Smoother
      reads this
    {
      Smoother(lastReported, recoveryStreak)
    }

    constructor ()
      ensures State() == FRESH
    {
      lastReported, recoveryStreak := None, 0;
    }

    /** The history of raw values is the caller's; the state always is what that history makes it. */
    method Smooth(raw: int, recoveryPolls: int, ghost raws: seq<int>) returns (reported: int)
      requires State() == After(raws, recoveryPolls)
      modifies this
      ensures State() == After(raws + [raw], recoveryPolls)
      ensures reported == Reported(raws + [raw], recoveryPolls)
    {
      assert (raws + [raw])[..|raws|] == raws;
      if lastReported.None? || raw <= lastReported.value {
        lastReported := Some(raw);
        recoveryStreak := 0;
        return raw;
      }
      recoveryStreak := recoveryStreak + 1;
      if recoveryStreak >= recoveryPolls {
        lastReported := Some(raw);
        recoveryStreak := 0;
      }
      return lastReported.value;
    }
  }

  /** Smoothing only ever holds the number back. */
  lemma {:induction false} NeverAboveRaw(raws: seq<int>, polls: int)
    requires raws != []
    ensures Reported(raws, polls) <= raws[|raws| - 1]
  {
    assert After(raws, polls) == Next(After(raws[..|raws| - 1], polls), raws[|raws| - 1], polls);
  }

  /** The streak counts the latest polls, all above the reported value, which is the last raw value before them. */
  lemma {:induction false} StreakIsTail(raws: seq<int>, polls: int)
    requires raws != []
    ensures var t := After(raws, polls);
            && t.streak < |raws| && raws[|raws| - 1 - t.streak] == t.last.value
            && AllAbove(raws[|raws| - t.streak..], t.last.value)
            && (t.streak > 0 ==> t.streak < polls)
  {
    var before := raws[..|raws| - 1];
    if before != [] {
      StreakIsTail(before, polls);
      var t := After(before, polls);
      var u := After(raws, polls);
      if u.streak > 0 {
        assert raws[|raws| - u.streak..] == before[|before| - t.streak..] + [raws[|raws| - 1]];
      }
    }
  }

  /** A drop shows at once; a rise shows exactly on the poll that completes a streak. */
  lemma RisesExactly(raws: seq<int>, raw: int, polls: int)
    requires raws != []
    ensures var before := Reported(raws, polls);
            var now := Reported(raws + [raw], polls);
            && (now > before <==> raw > before && After(raws, polls).streak + 1 >= polls)
            && (now == before || now == raw)
            && (raw <= before ==> now == raw)
  {
    var longer := raws + [raw];
    assert longer[..|raws|] == raws && longer[|raws|] == raw;
  }

  /** When the reported value rises, the latest `polls` raw values, or at least one, all exceeded the old one. */
  lemma RisesOnlyAfterStreak(raws: seq<int>, raw: int, polls: int)
    requires raws != [] && Reported(raws + [raw], polls) > Reported(raws, polls)
    ensures var n := if polls >= 1 then polls else 1;
            n <= |raws| + 1 && AllAbove((raws + [raw])[|raws| + 1 - n..], Reported(raws, polls))
  {
    var longer := raws + [raw];
    var streak := After(raws, polls).streak;
    RisesExactly(raws, raw, polls);
    StreakIsTail(raws, polls);
    var n := if polls >= 1 then polls else 1;
    var tail := longer[|raws| + 1 - n..];
    forall i | 0 <= i < |tail| ensures tail[i] > Reported(raws, polls) {
      if i < n - 1 {
        assert tail[i] == raws[|raws| - streak..][streak + 1 - n + i];
      }
    }
  }

  /** Conversely, as many successive values above the reported one as the setting asks for do raise it. */
  lemma {:induction false} SustainedRecoveryRises(raws: seq<int>, more: seq<int>, polls: int)
    requires raws != [] && AllAbove(more, Reported(raws, polls))
    ensures var t := After(raws + more, polls);
            t.last.Some? && (t.last.value > Reported(raws, polls)
                             || (t.last.value == Reported(raws, polls) && t.streak >= |more| && (more == [] || t.streak < polls)))
    decreases |more|
  {
    if more == [] {
      assert raws + more == raws;
    } else {
      var n := |more| - 1;
      SustainedRecoveryRises(raws, more[..n], polls);
      assert (raws + more)[..|raws| + n] == raws + more[..n];
      assert (raws + more)[|raws| + n] == more[n];
    }
  }

  /**
   The earlier polls of a streak only have to exceed the old value, not to reach the new one: here the
   reported value jumps to 5 on the first poll that shows 5.
   */
  lemma RiseNeedsOnePollAtTheNewValue()
    ensures Reported([1, 2, 2], 3) == 1 && Reported([1, 2, 2, 5], 3) == 5
  {
    var a: seq<int> := [1];
    var b: seq<int> := [1, 2];
    var c: seq<int> := [1, 2, 2];
    var d: seq<int> := [1, 2, 2, 5];
    assert a[..0] == [] && b[..1] == a && c[..2] == b && d[..3] == c;
    assert After(a, 3) == Smoother(Some(1), 0);
    assert After(b, 3) == Smoother(Some(1), 1);
    assert After(c, 3) == Smoother(Some(1), 2);
  }

  /** The documented recovery: the latest `polls` raw values, or at least the last, all reach the reported one. */
  predicate Sustained(raws: seq<int>, polls: int)
    requires raws != []
  {
    var n := if polls >= 1 then polls else 1;
    n <= |raws| && forall i | |raws| - n <= i < |raws| :: raws[i] >= Reported(raws, polls)
  }

  function OneThenTwos(k: nat): seq<int> {
    [1] + seq(k, _ => 2)
  }

  lemma {:induction false} TwosAreHeldBack(k: nat, polls: int)
    requires k < polls
    ensures After(OneThenTwos(k), polls) == Smoother(Some(1), k)
  {
    var raws := OneThenTwos(k);
    if k == 0 {
      assert raws == [1] && raws[..0] == [];
    } else {
      TwosAreHeldBack(k - 1, polls);
      assert raws[..k] == OneThenTwos(k - 1) && raws[k] == 2;
    }
  }

  /** One value of 1, then 2s until only one poll is missing, then a 5: the report jumps to 5 at once. */
  lemma UnsustainedRise(polls: int) returns (raws: seq<int>)
    requires polls >= 2
    ensures raws != [] && Reported(raws, polls) == 1 && Reported(raws + [5], polls) == 5 && !Sustained(raws + [5], polls)
  {
    raws := OneThenTwos(polls - 1);
    TwosAreHeldBack(polls - 1, polls);
    RisesExactly(raws, 5, polls);
    assert (raws + [5])[polls - 1] == 2;
  }

  /** Exactly when the documented recovery holds, over every history: iff one poll is asked for. */
  lemma RisesAreSustainedIff(polls: int)
    ensures (forall raws, raw | raws != [] && Reported(raws + [raw], polls) > Reported(raws, polls) :: Sustained(raws + [raw], polls))
              <==> polls <= 1
  {
    if polls <= 1 {
      forall raws, raw | raws != [] && Reported(raws + [raw], polls) > Reported(raws, polls) ensures Sustained(raws + [raw], polls) {
        RisesExactly(raws, raw, polls);
      }
    } else {
      var raws := UnsustainedRise(polls);
      assert Reported(raws + [5], polls) > Reported(raws, polls);
    }
  }
}
