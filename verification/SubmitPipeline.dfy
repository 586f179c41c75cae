/** The submit pipeline of crates/dl-app/src/live.rs: gates, charge, refund, submit, poll. Whatever the network,
    the builder or the clock answers during one call is an `Attempt`. */
module SubmitPipeline {
  import opened Words
  import CapState
  import KillSwitch

  datatype Simulation = Skipped | RpcError | Positive | NonPositive | Failed
  datatype Landing = Landed(slot: u64) | Lost | Pending | PollFailed

  datatype Attempt = Attempt(
    tip: u64, today: int, legsResolve: bool, nicheEnabled: bool, pricesFresh: bool, rateAllows: bool,
    stopFile: bool, bundleBuilds: bool, simulation: Simulation, signs: bool, assembles: bool,
    jitoAccepts: bool, landing: Landing)

  datatype Gate = Resolve | Niche | Price | Cap | RateLimit | Breaker | Build | Sign | Assemble | Submit | Poll

  datatype Outcome = BundleLanded(slot: u64) | BundleLost | Rejected(simulation: Simulation) | NotSubmitted(at: Gate)

  datatype Limits = Limits(cap: CapState.CapConfig, maxLosses: u32)

  datatype Desk = Desk(spent: u64, lastReset: int, losses: u32, evaluated: nat, failed: nat, landed: nat)

  class LiveMetrics {
    var cyclesEvaluated: nat
    var bundlesFailed: nat
    var bundlesLanded: nat

    constructor ()
      ensures cyclesEvaluated == bundlesFailed == bundlesLanded == 0
    {
      cyclesEvaluated, bundlesFailed, bundlesLanded := 0, 0, 0;
    }
  }

  // ----- what one call does

  predicate WellFormed(lim: Limits, s: Desk) {
    s.spent <= lim.cap.daily && s.losses <= lim.maxLosses
  }

  /** The call gets as far as asking for the charge, which is when the day rolls over. */
  predicate AsksToCharge(a: Attempt) {
    a.legsResolve && a.nicheEnabled && a.pricesFresh
  }

  /** What the current day has spent before this call's own charge. */
  function SpentBefore(s: Desk, a: Attempt): u64 {
    if AsksToCharge(a) && a.today != s.lastReset then 0 else s.spent
  }

  predicate CapAllows(lim: Limits, s: Desk, a: Attempt) {
    a.tip <= lim.cap.perBundle && SpentBefore(s, a) + a.tip <= lim.cap.daily
  }

  /** The call passes every gate: Jito has the bundle and the tip may be paid. */
  predicate Accepted(lim: Limits, s: Desk, a: Attempt) {
    && AsksToCharge(a) && CapAllows(lim, s, a)
    && a.rateAllows && !a.stopFile && s.losses < lim.maxLosses
    && a.bundleBuilds && (a.simulation.Skipped? || a.simulation.Positive?)
    && a.signs && a.assembles && a.jitoAccepts
  }

  /** A refused call leaves the charge and the breaker alone; an accepted one keeps its tip charged whatever
      becomes of the bundle. */
  function Step(lim: Limits, s: Desk, a: Attempt): (t: Desk)
    requires WellFormed(lim, s)
    ensures WellFormed(lim, t)
  {
    var accepted := Accepted(lim, s, a);
    var landed := accepted && a.landing.Landed?;
    Desk(
      SpentBefore(s, a) + if accepted then a.tip else 0,
      if AsksToCharge(a) then a.today else s.lastReset,
      if !accepted then s.losses else if landed then 0 else s.losses + 1,
      s.evaluated + 1,
      s.failed + if CountsAsFailed(lim, s, a) then 1 else 0,
      s.landed + if landed then 1 else 0)
  }

  predicate CountsAsFailed(lim: Limits, s: Desk, a: Attempt) {
    if Accepted(lim, s, a) then !a.landing.Landed?
    else OutcomeOf(lim, s, a) in {NotSubmitted(Cap), NotSubmitted(Build), NotSubmitted(Submit)}
  }

  /** The first gate that refuses decides the outcome. */
  function OutcomeOf(lim: Limits, s: Desk, a: Attempt): (o: Outcome)
    ensures o.BundleLanded? || o.BundleLost? || o == NotSubmitted(Poll) <==> Accepted(lim, s, a)
  {
    if !a.legsResolve then NotSubmitted(Resolve)
    else if !a.nicheEnabled then NotSubmitted(Niche)
    else if !a.pricesFresh then NotSubmitted(Price)
    else if !CapAllows(lim, s, a) then NotSubmitted(Cap)
    else if !a.rateAllows then NotSubmitted(RateLimit)
    else if a.stopFile || s.losses >= lim.maxLosses then NotSubmitted(Breaker)
    else if !a.bundleBuilds then NotSubmitted(Build)
    else if a.simulation.RpcError? || a.simulation.NonPositive? || a.simulation.Failed? then Rejected(a.simulation)
    else if !a.signs then NotSubmitted(Sign)
    else if !a.assembles then NotSubmitted(Assemble)
    else if !a.jitoAccepts then NotSubmitted(Submit)
    else match a.landing
      case Landed(slot) => BundleLanded(slot)
      case Lost => BundleLost
      case Pending => BundleLost
      case PollFailed => NotSubmitted(Poll)
  }

  /** The attempt is charged: the three cheap gates let it pass, and both caps have room for the tip. */
  predicate Charged(lim: Limits, s: Desk, a: Attempt) {
    && a.legsResolve && a.nicheEnabled && a.pricesFresh && a.tip <= lim.cap.perBundle
    && (if a.today == s.lastReset then s.spent else 0) + a.tip <= lim.cap.daily
  }

  /** What a refusal by each gate before the charge takes. */
  lemma EarlyRefusals(lim: Limits, s: Desk, a: Attempt)
    ensures var o := OutcomeOf(lim, s, a);
      && (o == NotSubmitted(Resolve) <==> !a.legsResolve)
      && (o == NotSubmitted(Niche) <==> a.legsResolve && !a.nicheEnabled)
      && (o == NotSubmitted(Price) <==> a.legsResolve && a.nicheEnabled && !a.pricesFresh)
      && (o == NotSubmitted(Cap) <==> a.legsResolve && a.nicheEnabled && a.pricesFresh && !Charged(lim, s, a))
  {
  }

  /** ... and by each gate behind it: all before it passed. */
  lemma LateRefusals(lim: Limits, s: Desk, a: Attempt)
    ensures var o := OutcomeOf(lim, s, a);
      var shut := a.stopFile || s.losses >= lim.maxLosses;
      var simulated := a.simulation == Skipped || a.simulation == Positive;
      var built := Charged(lim, s, a) && a.rateAllows && !shut && a.bundleBuilds;
      && (o == NotSubmitted(RateLimit) <==> Charged(lim, s, a) && !a.rateAllows)
      && (o == NotSubmitted(Breaker) <==> Charged(lim, s, a) && a.rateAllows && shut)
      && (o == NotSubmitted(Build) <==> Charged(lim, s, a) && a.rateAllows && !shut && !a.bundleBuilds)
      && (o.Rejected? <==> built && !simulated)
      && (o.Rejected? ==> o.simulation == a.simulation)
      && (o == NotSubmitted(Sign) <==> built && simulated && !a.signs)
      && (o == NotSubmitted(Assemble) <==> built && simulated && a.signs && !a.assembles)
      && (o == NotSubmitted(Submit) <==> built && simulated && a.signs && a.assembles && !a.jitoAccepts)
  {
  }

  /** What becomes of a bundle that Jito took. */
  lemma LandingDecides(lim: Limits, s: Desk, a: Attempt)
    ensures var simulated := a.simulation == Skipped || a.simulation == Positive;
      var open := a.rateAllows && !a.stopFile && s.losses < lim.maxLosses;
      var sent := a.bundleBuilds && simulated && a.signs && a.assembles && a.jitoAccepts;
      Accepted(lim, s, a) <==> Charged(lim, s, a) && open && sent
    ensures var o := OutcomeOf(lim, s, a);
      && (forall slot :: o == BundleLanded(slot) <==> Accepted(lim, s, a) && a.landing == Landed(slot))
      && (o == BundleLost <==> Accepted(lim, s, a) && (a.landing == Lost || a.landing == Pending))
      && (o == NotSubmitted(Poll) <==> Accepted(lim, s, a) && a.landing == PollFailed)
  {
  }

  /** What a call leaves behind, from its outcome alone: what is spent, the day, the breaker and the counters. */
  lemma OutcomeDecides(lim: Limits, s: Desk, a: Attempt)
    requires WellFormed(lim, s)
    ensures var o, t := OutcomeOf(lim, s, a), Step(lim, s, a);
      var taken := o.BundleLanded? || o == BundleLost || o == NotSubmitted(Poll);
      var early := o in {NotSubmitted(Resolve), NotSubmitted(Niche), NotSubmitted(Price)};
      && t.lastReset == (if early then s.lastReset else a.today)
      && t.spent == (if early || a.today == s.lastReset then s.spent else 0) + (if taken then a.tip else 0)
      && t.losses == (if o.BundleLanded? then 0 else if taken then s.losses + 1 else s.losses)
      && t.evaluated == s.evaluated + 1
      && t.landed == s.landed + (if o.BundleLanded? then 1 else 0)
      && t.failed == s.failed + (if o == BundleLost || o in {NotSubmitted(Cap), NotSubmitted(Build),
                                   NotSubmitted(Submit), NotSubmitted(Poll)} then 1 else 0)
  {
  }

  function DeskOf(cap: CapState.CapState, ks: KillSwitch.KillSwitch, m: LiveMetrics): Desk
    reads cap, ks, m
  {
    Desk(cap.spentToday, cap.lastReset, ks.consecutiveLosses, m.cyclesEvaluated, m.bundlesFailed, m.bundlesLanded)
  }

  function LimitsOf(cap: CapState.CapState, ks: KillSwitch.KillSwitch): Limits {
    Limits(cap.cfg, ks.maxConsecutiveLosses)
  }

  /** One detected cycle. Every exit between the charge and Jito's acceptance refunds the tip. */
  method SubmitOpportunity(
    a: Attempt, cap: CapState.CapState, ks: KillSwitch.KillSwitch, m: LiveMetrics) returns (o: Outcome)
    requires WellFormed(LimitsOf(cap, ks), DeskOf(cap, ks, m))
    modifies cap, ks, m
    ensures DeskOf(cap, ks, m) == Step(LimitsOf(cap, ks), old(DeskOf(cap, ks, m)), a)
    ensures o == OutcomeOf(LimitsOf(cap, ks), old(DeskOf(cap, ks, m)), a)
  {
    m.cyclesEvaluated := m.cyclesEvaluated + 1;
    if !a.legsResolve { return NotSubmitted(Resolve); }
    if !a.nicheEnabled { return NotSubmitted(Niche); }
    if !a.pricesFresh { return NotSubmitted(Price); }
    var charged := cap.TryCharge(a.tip, a.today);
    if charged.Err? {
      m.bundlesFailed := m.bundlesFailed + 1;
      return NotSubmitted(Cap);
    }
    if !a.rateAllows {
      cap.Refund(a.tip);
      return NotSubmitted(RateLimit);
    }
    var open := ks.Check(a.stopFile);
    if open.Err? {
      cap.Refund(a.tip);
      return NotSubmitted(Breaker);
    }
    if !a.bundleBuilds {
      cap.Refund(a.tip);
      m.bundlesFailed := m.bundlesFailed + 1;
      return NotSubmitted(Build);
    }
    if !a.simulation.Skipped? {
      if a.simulation.RpcError? {
        cap.Refund(a.tip);
        return Rejected(a.simulation);
      }
      if a.simulation.NonPositive? || a.simulation.Failed? {
        cap.Refund(a.tip);
        return Rejected(a.simulation);
      }
    }
    if !a.signs {
      cap.Refund(a.tip);
      return NotSubmitted(Sign);
    }
    if !a.assembles {
      cap.Refund(a.tip);
      return NotSubmitted(Assemble);
    }
    if !a.jitoAccepts {
      cap.Refund(a.tip);
      m.bundlesFailed := m.bundlesFailed + 1;
      return NotSubmitted(Submit);
    }
    match a.landing {
      case Landed(slot) =>
        m.bundlesLanded := m.bundlesLanded + 1;
        var _ := ks.Record(KillSwitch.Landed);
        o := BundleLanded(slot);
      case PollFailed =>
        m.bundlesFailed := m.bundlesFailed + 1;
        var _ := ks.Record(KillSwitch.Lost);
        o := NotSubmitted(Poll);
      case _ =>
        m.bundlesFailed := m.bundlesFailed + 1;
        var _ := ks.Record(KillSwitch.Lost);
        o := BundleLost;
    }
  }

  // ----- runs

  /** The desk after the first `n` attempts. */
  function After(lim: Limits, s: Desk, attempts: seq<Attempt>, n: nat): (t: Desk)
    requires WellFormed(lim, s) && n <= |attempts|
    ensures WellFormed(lim, t)
  {
    if n == 0 then s else Step(lim, After(lim, s, attempts, n - 1), attempts[n - 1])
  }

  /** Jito accepted the bundle of attempt `i`. */
  predicate AcceptedAt(lim: Limits, s: Desk, attempts: seq<Attempt>, i: nat)
    requires WellFormed(lim, s) && i < |attempts|
  {
    Accepted(lim, After(lim, s, attempts, i), attempts[i])
  }

  /** The bundle of attempt `i` landed. */
  predicate LandedAt(lim: Limits, s: Desk, attempts: seq<Attempt>, i: nat)
    requires WellFormed(lim, s) && i < |attempts|
  {
    OutcomeOf(lim, After(lim, s, attempts, i), attempts[i]).BundleLanded?
  }

  /** The outcome of attempt `i` is counted as a failed bundle. */
  predicate FailedAt(lim: Limits, s: Desk, attempts: seq<Attempt>, i: nat)
    requires WellFormed(lim, s) && i < |attempts|
  {
    OutcomeOf(lim, After(lim, s, attempts, i), attempts[i]) in
      {BundleLost, NotSubmitted(Cap), NotSubmitted(Build), NotSubmitted(Submit), NotSubmitted(Poll)}
  }

  ghost function LandedAmong(lim: Limits, s: Desk, attempts: seq<Attempt>, n: nat): set<nat>
    requires WellFormed(lim, s) && n <= |attempts|
  {
    set i: nat | i < n && LandedAt(lim, s, attempts, i)
  }

  ghost function FailedAmong(lim: Limits, s: Desk, attempts: seq<Attempt>, n: nat): set<nat>
    requires WellFormed(lim, s) && n <= |attempts|
  {
    set i: nat | i < n && FailedAt(lim, s, attempts, i)
  }

  lemma LandedOneMore(lim: Limits, s: Desk, attempts: seq<Attempt>, n: nat)
    requires WellFormed(lim, s) && n < |attempts|
    ensures |LandedAmong(lim, s, attempts, n + 1)|
      == |LandedAmong(lim, s, attempts, n)| + if LandedAt(lim, s, attempts, n) then 1 else 0
  {
    var was := LandedAmong(lim, s, attempts, n);
    assert LandedAmong(lim, s, attempts, n + 1) == if LandedAt(lim, s, attempts, n) then was + {n} else was;
  }

  lemma FailedOneMore(lim: Limits, s: Desk, attempts: seq<Attempt>, n: nat)
    requires WellFormed(lim, s) && n < |attempts|
    ensures |FailedAmong(lim, s, attempts, n + 1)|
      == |FailedAmong(lim, s, attempts, n)| + if FailedAt(lim, s, attempts, n) then 1 else 0
  {
    var was := FailedAmong(lim, s, attempts, n);
    assert FailedAmong(lim, s, attempts, n + 1) == if FailedAt(lim, s, attempts, n) then was + {n} else was;
  }

  /** Over a run the counters hold how many calls were made, ... */
  lemma {:induction false} EvaluatedCount(lim: Limits, s: Desk, attempts: seq<Attempt>, n: nat)
    requires WellFormed(lim, s) && n <= |attempts|
    ensures After(lim, s, attempts, n).evaluated == s.evaluated + n
  {
    if n > 0 { EvaluatedCount(lim, s, attempts, n - 1); }
  }

  /** ... how many of them landed, ... */
  lemma {:induction false} LandedCount(lim: Limits, s: Desk, attempts: seq<Attempt>, n: nat)
    requires WellFormed(lim, s) && n <= |attempts|
    ensures After(lim, s, attempts, n).landed == s.landed + |LandedAmong(lim, s, attempts, n)|
  {
    if n == 0 {
      assert LandedAmong(lim, s, attempts, 0) == {};
    } else {
      LandedCount(lim, s, attempts, n - 1);
      LandedOneMore(lim, s, attempts, n - 1);
      OutcomeDecides(lim, After(lim, s, attempts, n - 1), attempts[n - 1]);
    }
  }

  /** ... and how many failed. */
  lemma {:induction false} FailedCount(lim: Limits, s: Desk, attempts: seq<Attempt>, n: nat)
    requires WellFormed(lim, s) && n <= |attempts|
    ensures After(lim, s, attempts, n).failed == s.failed + |FailedAmong(lim, s, attempts, n)|
  {
    if n == 0 {
      assert FailedAmong(lim, s, attempts, 0) == {};
    } else {
      FailedCount(lim, s, attempts, n - 1);
      FailedOneMore(lim, s, attempts, n - 1);
      OutcomeDecides(lim, After(lim, s, attempts, n - 1), attempts[n - 1]);
    }
  }

  /** The tips of the accepted bundles among the attempts `m <= i < n`. */
  function Tips(lim: Limits, s: Desk, attempts: seq<Attempt>, m: nat, n: nat): nat
    requires WellFormed(lim, s) && m <= n <= |attempts|
  {
    if m == n then 0 else
      Tips(lim, s, attempts, m, n - 1) + if AcceptedAt(lim, s, attempts, n - 1) then attempts[n - 1].tip else 0
  }

  /** The same for those made on one day. */
  function TipsOn(lim: Limits, s: Desk, attempts: seq<Attempt>, n: nat, day: int): nat
    requires WellFormed(lim, s) && n <= |attempts|
  {
    if n == 0 then 0 else
      TipsOn(lim, s, attempts, n - 1, day) +
      if AcceptedAt(lim, s, attempts, n - 1) && attempts[n - 1].today == day then attempts[n - 1].tip else 0
  }

  /** How many bundles Jito accepted among the attempts `m <= i < n`. */
  function Submissions(lim: Limits, s: Desk, attempts: seq<Attempt>, m: nat, n: nat): nat
    requires WellFormed(lim, s) && m <= n <= |attempts|
  {
    if m == n then 0 else
      Submissions(lim, s, attempts, m, n - 1) + if AcceptedAt(lim, s, attempts, n - 1) then 1 else 0
  }

  /** Every attempt in `m <= i < n` that asks for a charge falls on the day the cap was last reset. */
  ghost predicate SameDay(lim: Limits, s: Desk, attempts: seq<Attempt>, m: nat, n: nat)
    requires WellFormed(lim, s) && m <= n <= |attempts|
  {
    forall i {:trigger attempts[i]} :: m <= i < n && AsksToCharge(attempts[i]) ==>
      attempts[i].today == After(lim, s, attempts, m).lastReset
  }

  /** While the day does not change, the cap grows by exactly the tips of the bundles Jito accepted. */
  lemma {:induction false} NetChargeIsAcceptedTips(lim: Limits, s: Desk, attempts: seq<Attempt>, m: nat, n: nat)
    requires WellFormed(lim, s) && m <= n <= |attempts| && SameDay(lim, s, attempts, m, n)
    ensures After(lim, s, attempts, n).lastReset == After(lim, s, attempts, m).lastReset
    ensures After(lim, s, attempts, n).spent == After(lim, s, attempts, m).spent + Tips(lim, s, attempts, m, n)
  {
    if m < n { NetChargeIsAcceptedTips(lim, s, attempts, m, n - 1); }
  }

  /** The clock never goes back, and starts no earlier than the last reset. */
  ghost predicate Chronological(s: Desk, attempts: seq<Attempt>) {
    && (forall i :: 0 <= i < |attempts| ==> s.lastReset <= attempts[i].today)
    && (forall i, j :: 0 <= i <= j < |attempts| ==> attempts[i].today <= attempts[j].today)
  }

  /** With a clock that never goes back, `spent` is exactly what the current day paid, and no day ever pays more
      than the daily cap. */
  lemma {:induction false} DailyCapHolds(lim: Limits, s: Desk, attempts: seq<Attempt>, n: nat, day: int)
    requires WellFormed(lim, s) && s.spent == 0 && n <= |attempts| && Chronological(s, attempts)
    ensures TipsOn(lim, s, attempts, n, day) <= lim.cap.daily
    ensures day == After(lim, s, attempts, n).lastReset ==>
      TipsOn(lim, s, attempts, n, day) == After(lim, s, attempts, n).spent
    ensures day > After(lim, s, attempts, n).lastReset ==> TipsOn(lim, s, attempts, n, day) == 0
    ensures forall j :: n <= j < |attempts| ==> After(lim, s, attempts, n).lastReset <= attempts[j].today
  {
    if n > 0 { DailyCapHolds(lim, s, attempts, n - 1, day); }
  }

  // ----- the breaker

  ghost predicate NoLanding(lim: Limits, s: Desk, attempts: seq<Attempt>, m: nat, n: nat)
    requires WellFormed(lim, s) && m <= n <= |attempts|
  {
    forall i :: m <= i < n ==> !LandedAt(lim, s, attempts, i)
  }

  /** Without a landing the breaker counts exactly the bundles Jito accepted. */
  lemma {:induction false} LossesAreSubmissions(lim: Limits, s: Desk, attempts: seq<Attempt>, m: nat, n: nat)
    requires WellFormed(lim, s) && m <= n <= |attempts| && NoLanding(lim, s, attempts, m, n)
    ensures After(lim, s, attempts, n).losses
      == After(lim, s, attempts, m).losses + Submissions(lim, s, attempts, m, n)
  {
    if m < n {
      LossesAreSubmissions(lim, s, attempts, m, n - 1);
      assert !LandedAt(lim, s, attempts, n - 1);
    }
  }

  /** After a landing at most `maxLosses` bundles are submitted until the next one. */
  lemma SubmissionsAfterLanding(lim: Limits, s: Desk, attempts: seq<Attempt>, m: nat, n: nat)
    requires WellFormed(lim, s) && m < n <= |attempts|
    requires LandedAt(lim, s, attempts, m) && NoLanding(lim, s, attempts, m + 1, n)
    ensures After(lim, s, attempts, n).losses == Submissions(lim, s, attempts, m + 1, n) <= lim.maxLosses
  {
    LandingClears(lim, After(lim, s, attempts, m), attempts[m]);
    LossesAreSubmissions(lim, s, attempts, m + 1, n);
  }

  lemma LandingClears(lim: Limits, s: Desk, a: Attempt)
    requires WellFormed(lim, s) && OutcomeOf(lim, s, a).BundleLanded?
    ensures Step(lim, s, a).losses == 0
  {
  }

  /** Once open the breaker stays open: nothing is submitted any more and nothing charged. */
  lemma {:induction false} OpenIsFinal(lim: Limits, s: Desk, attempts: seq<Attempt>, m: nat, n: nat)
    requires WellFormed(lim, s) && m <= n <= |attempts|
    requires After(lim, s, attempts, m).losses >= lim.maxLosses
    ensures After(lim, s, attempts, n).losses == After(lim, s, attempts, m).losses
    ensures Submissions(lim, s, attempts, m, n) == 0 && Tips(lim, s, attempts, m, n) == 0
    ensures After(lim, s, attempts, n).spent <= After(lim, s, attempts, m).spent
  {
    if m < n { OpenIsFinal(lim, s, attempts, m, n - 1); }
  }

  /** Where the current streak without landings began. */
  ghost function StreakStart(lim: Limits, s: Desk, attempts: seq<Attempt>, n: nat): (m: nat)
    requires WellFormed(lim, s) && s.losses == 0 && n <= |attempts|
    ensures m <= n && After(lim, s, attempts, m).losses == 0 && NoLanding(lim, s, attempts, m, n)
  {
    if n == 0 || LandedAt(lim, s, attempts, n - 1) then n else StreakStart(lim, s, attempts, n - 1)
  }

  ghost predicate Streak(lim: Limits, s: Desk, attempts: seq<Attempt>, m: nat, n: nat)
    requires WellFormed(lim, s)
  {
    m <= n <= |attempts| && NoLanding(lim, s, attempts, m, n) && Submissions(lim, s, attempts, m, n) >= lim.maxLosses
  }

  /** The breaker is open exactly when some stretch of the run without a landing submitted `maxLosses` bundles. */
  lemma OpenIffStreak(lim: Limits, s: Desk, attempts: seq<Attempt>, n: nat)
    requires WellFormed(lim, s) && s.losses == 0 && n <= |attempts|
    ensures After(lim, s, attempts, n).losses >= lim.maxLosses <==> exists m :: Streak(lim, s, attempts, m, n)
  {
    if After(lim, s, attempts, n).losses >= lim.maxLosses {
      var m := StreakStart(lim, s, attempts, n);
      LossesAreSubmissions(lim, s, attempts, m, n);
      assert Streak(lim, s, attempts, m, n);
    }
    if m :| Streak(lim, s, attempts, m, n) {
      LossesAreSubmissions(lim, s, attempts, m, n);
    }
  }

  // ----- where the code and its documentation part

  /** Rejections by the simulation never move the breaker, however many there are. */
  lemma {:induction false} RejectionsNeverCount(lim: Limits, s: Desk, attempts: seq<Attempt>, n: nat)
    requires WellFormed(lim, s) && n <= |attempts|
    requires forall i :: 0 <= i < n ==> OutcomeOf(lim, After(lim, s, attempts, i), attempts[i]).Rejected?
    ensures After(lim, s, attempts, n).losses == s.losses
    ensures n > 0 ==> s.losses < lim.maxLosses
  {
    if n > 0 { RejectionsNeverCount(lim, s, attempts, n - 1); }
  }

  /** A call counts a loss exactly when Jito accepted the bundle and it did not land: a pending one counts too. */
  lemma LossRecordedIff(lim: Limits, s: Desk, a: Attempt)
    requires WellFormed(lim, s)
    ensures Step(lim, s, a).losses == s.losses + 1 <==>
      OutcomeOf(lim, s, a) == BundleLost || OutcomeOf(lim, s, a) == NotSubmitted(Poll)
    ensures Accepted(lim, s, a) && a.landing.Pending? ==> OutcomeOf(lim, s, a) == BundleLost
  {
  }

  /** A call reported as not submitted has nevertheless submitted its bundle and kept the charge exactly when
      polling for the landing failed. */
  lemma NotSubmittedYetCharged(lim: Limits, s: Desk, a: Attempt)
    requires WellFormed(lim, s) && OutcomeOf(lim, s, a).NotSubmitted?
    ensures Accepted(lim, s, a) <==> OutcomeOf(lim, s, a).at == Poll
    ensures Step(lim, s, a).spent == SpentBefore(s, a) + a.tip <==> a.tip == 0 || OutcomeOf(lim, s, a).at == Poll
    ensures Step(lim, s, a).losses == s.losses + 1 <==> OutcomeOf(lim, s, a).at == Poll
  {
  }

  /** The tips of the attempts `m <= i < n` reported as landed or lost. */
  function ReportedTips(lim: Limits, s: Desk, attempts: seq<Attempt>, m: nat, n: nat): nat
    requires WellFormed(lim, s) && m <= n <= |attempts|
  {
    if m == n then 0 else
      var o := OutcomeOf(lim, After(lim, s, attempts, n - 1), attempts[n - 1]);
      ReportedTips(lim, s, attempts, m, n - 1) + if o.BundleLanded? || o.BundleLost? then attempts[n - 1].tip else 0
  }

  /** The tips of those reported as not submitted because polling failed. */
  function FailedPollTips(lim: Limits, s: Desk, attempts: seq<Attempt>, m: nat, n: nat): nat
    requires WellFormed(lim, s) && m <= n <= |attempts|
  {
    if m == n then 0 else
      var o := OutcomeOf(lim, After(lim, s, attempts, n - 1), attempts[n - 1]);
      FailedPollTips(lim, s, attempts, m, n - 1) + if o == NotSubmitted(Poll) then attempts[n - 1].tip else 0
  }

  /** Over any stretch within one day the cap grows by more than the tips of the bundles reported as submitted:
      by exactly the tips of the failed polls. */
  lemma ReportsUnderstateCharge(lim: Limits, s: Desk, attempts: seq<Attempt>, m: nat, n: nat)
    requires WellFormed(lim, s) && m <= n <= |attempts| && SameDay(lim, s, attempts, m, n)
    ensures After(lim, s, attempts, n).spent == After(lim, s, attempts, m).spent
      + ReportedTips(lim, s, attempts, m, n) + FailedPollTips(lim, s, attempts, m, n)
  {
    NetChargeIsAcceptedTips(lim, s, attempts, m, n);
    TipsAreReportedOrFailed(lim, s, attempts, m, n);
  }

  lemma {:induction false} TipsAreReportedOrFailed(lim: Limits, s: Desk, attempts: seq<Attempt>, m: nat, n: nat)
    requires WellFormed(lim, s) && m <= n <= |attempts|
    ensures Tips(lim, s, attempts, m, n)
      == ReportedTips(lim, s, attempts, m, n) + FailedPollTips(lim, s, attempts, m, n)
  {
    if m < n { TipsAreReportedOrFailed(lim, s, attempts, m, n - 1); }
  }

  /** Jito accepted the bundle of attempt `i`, and it was still pending when polling ended. */
  predicate PendingAt(lim: Limits, s: Desk, attempts: seq<Attempt>, i: nat)
    requires WellFormed(lim, s) && i < |attempts|
  {
    AcceptedAt(lim, s, attempts, i) && attempts[i].landing.Pending?
  }

  /** A run of accepted bundles that are all still pending counts every one of them as a loss, so `maxLosses` of
      them open the breaker although none was lost. */
  lemma {:induction false} PendingBundlesTrip(lim: Limits, s: Desk, attempts: seq<Attempt>, n: nat)
    requires WellFormed(lim, s) && n <= |attempts|
    requires forall i {:trigger PendingAt(lim, s, attempts, i)} :: 0 <= i < n ==> PendingAt(lim, s, attempts, i)
    ensures After(lim, s, attempts, n).losses == s.losses + n
    ensures s.losses + n == lim.maxLosses ==> forall j :: n <= j < |attempts| ==> !AcceptedAt(lim, s, attempts, j)
  {
    if n > 0 {
      PendingBundlesTrip(lim, s, attempts, n - 1);
      assert PendingAt(lim, s, attempts, n - 1);
      PendingCounts(lim, After(lim, s, attempts, n - 1), attempts[n - 1]);
    }
    if s.losses + n == lim.maxLosses {
      forall j | n <= j < |attempts| ensures !AcceptedAt(lim, s, attempts, j) {
        OpenIsFinal(lim, s, attempts, n, j);
      }
    }
  }

  lemma PendingCounts(lim: Limits, s: Desk, a: Attempt)
    requires WellFormed(lim, s) && Accepted(lim, s, a) && a.landing.Pending?
    ensures Step(lim, s, a).losses == s.losses + 1
  {
  }
}
