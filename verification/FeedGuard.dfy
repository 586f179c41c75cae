/** The feed staleness guard of crates/dl-feed/src/staleness.rs. */
module FeedGuard {
  import opened Words

  // ----- the order of account keys

  /** Byte-wise lexicographic order, in which the map of accounts is walked. */
  predicate Less(a: seq<u8>, b: seq<u8>)
    requires |a| == |b|
  {
    |a| > 0 && (a[0] < b[0] || (a[0] == b[0] && Less(a[1..], b[1..])))
  }

  predicate KeyLess(a: Pubkey, b: Pubkey) { Less(a.bytes, b.bytes) }

  lemma {:induction false} LessTotal(a: seq<u8>, b: seq<u8>)
    requires |a| == |b|
    ensures Less(a, b) || Less(b, a) || a == b
  {
    if |a| > 0 {
      LessTotal(a[1..], b[1..]);
      if a[0] == b[0] && a[1..] == b[1..] { assert a == [a[0]] + a[1..] && b == [b[0]] + b[1..]; }
    }
  }

  /** The first byte in which they differ decides. */
  ghost predicate FirstDifference(a: seq<u8>, b: seq<u8>, i: nat) {
    i < |a| == |b| && a[i] != b[i] && forall j :: 0 <= j < i ==> a[j] == b[j]
  }

  lemma {:induction false} LessIsLexicographic(a: seq<u8>, b: seq<u8>, i: nat)
    requires FirstDifference(a, b, i)
    ensures Less(a, b) <==> a[i] < b[i]
  {
    if i > 0 {
      assert forall j :: 0 <= j < i - 1 ==> a[1..][j] == a[j + 1] && b[1..][j] == b[j + 1];
      LessIsLexicographic(a[1..], b[1..], i - 1);
    }
  }

  lemma {:induction false} LessTransitive(a: seq<u8>, b: seq<u8>, c: seq<u8>)
    requires |a| == |b| == |c| && Less(a, b) && Less(b, c)
    ensures Less(a, c)
  {
    if a[0] == b[0] == c[0] { LessTransitive(a[1..], b[1..], c[1..]); }
  }

  lemma {:induction false} LessAsymmetric(a: seq<u8>, b: seq<u8>)
    requires |a| == |b| && Less(a, b)
    ensures !Less(b, a) && a != b
  {
    if a[0] == b[0] { LessAsymmetric(a[1..], b[1..]); }
  }

  ghost predicate IsFirst(keys: set<Pubkey>, k: Pubkey) {
    k in keys && forall j :: j in keys && j != k ==> KeyLess(k, j)
  }

  lemma {:induction false} FirstExists(keys: set<Pubkey>)
    requires keys != {}
    ensures exists k :: IsFirst(keys, k)
  {
    var x :| x in keys;
    var others := keys - {x};
    assert forall j :: j in keys && j != x ==> j in others;
    if others == {} {
      assert IsFirst(keys, x);
    } else {
      FirstExists(others);
      var k :| IsFirst(others, k);
      LessTotal(x.bytes, k.bytes);
      assert x != k;
      if KeyLess(x, k) {
        forall j | j in keys && j != x ensures KeyLess(x, j) {
          assert j in others;
          if j != k { LessTransitive(x.bytes, k.bytes, j.bytes); }
        }
        assert IsFirst(keys, x);
      } else {
        assert x.bytes != k.bytes;
        assert IsFirst(keys, k);
      }
    }
  }

  // ----- the guard's state

  datatype Guard = Guard(
    maxStaleness: u64,
    lastSeen: map<Pubkey, u64>,
    nowSlot: u64,
    tripped: bool,
    trippedFor: Option<Pubkey>,
    trippedAtSlot: u64,
    trippedStaleness: u64,
    tripCount: nat)

  datatype StalenessResult = Fresh | Stale(pubkey: Pubkey, lastSeenSlot: u64, stalenessSlots: u64)

  /** The account was seen, and not within `max` slots of `now`. */
  predicate IsStale(lastSeen: map<Pubkey, u64>, now: u64, max: u64, k: Pubkey) {
    k in lastSeen && lastSeen[k] != 0 && SaturatingSubU64(now, lastSeen[k]) > max
  }

  /** `w` is the stale account seen longest ago, the first key among equals; `None` if no account is stale. */
  ghost predicate IsWorst(lastSeen: map<Pubkey, u64>, now: u64, max: u64, w: Option<Pubkey>) {
    match w
    case None => forall k :: k in lastSeen ==> !IsStale(lastSeen, now, max, k)
    case Some(k) =>
      && IsStale(lastSeen, now, max, k)
      && forall j :: j in lastSeen && IsStale(lastSeen, now, max, j) && j != k ==>
           lastSeen[k] < lastSeen[j] || (lastSeen[k] == lastSeen[j] && KeyLess(k, j))
  }

  lemma WorstUnique(lastSeen: map<Pubkey, u64>, now: u64, max: u64, v: Option<Pubkey>, w: Option<Pubkey>)
    requires IsWorst(lastSeen, now, max, v) && IsWorst(lastSeen, now, max, w)
    ensures v == w
  {
    if v.Some? && w.Some? && v != w && KeyLess(v.value, w.value) {
      LessAsymmetric(v.value.bytes, w.value.bytes);
    }
  }

  /** The scan both checks make: keys in ascending order, keeping the first with the smallest slot. */
  method FindWorst(lastSeen: map<Pubkey, u64>, now: u64, max: u64) returns (worst: Option<Pubkey>)
    ensures IsWorst(lastSeen, now, max, worst)
  {
    worst := None;
    var todo := lastSeen.Keys;
    while todo != {}
      invariant todo <= lastSeen.Keys
      invariant worst.Some? ==> IsStale(lastSeen, now, max, worst.value) && worst.value !in todo
      invariant worst.Some? ==> forall j :: j in todo ==> KeyLess(worst.value, j)
      invariant worst.None? ==> forall k :: k in lastSeen && k !in todo ==> !IsStale(lastSeen, now, max, k)
      invariant worst.Some? ==> forall j ::
        j in lastSeen && j !in todo && IsStale(lastSeen, now, max, j) && j != worst.value ==>
          lastSeen[worst.value] < lastSeen[j] || (lastSeen[worst.value] == lastSeen[j] && KeyLess(worst.value, j))
    {
      var pk := NextKey(todo);
      var last := lastSeen[pk];
      todo := todo - {pk};
      if last != 0 && SaturatingSubU64(now, last) > max {
        if worst.None? || last < lastSeen[worst.value] {
          worst := Some(pk);
        }
      }
    }
  }

  /** The smallest key of a non-empty set. */
  method NextKey(keys: set<Pubkey>) returns (k: Pubkey)
    requires keys != {}
    ensures IsFirst(keys, k)
  {
    FirstExists(keys);
    k :| k in keys && forall j :: j in keys && j != k ==> KeyLess(k, j);
  }

  // ----- one step of the guard

  function NewGuard(max: u64): Guard {
    Guard(max, map[], 0, false, None, 0, 0, 0)
  }

  function Tripped(s: Guard, k: Pubkey): Guard
    requires k in s.lastSeen
  {
    s.(tripped := true, trippedFor := Some(k), trippedAtSlot := s.nowSlot,
       trippedStaleness := SaturatingSubU64(s.nowSlot, s.lastSeen[k]), tripCount := s.tripCount + 1)
  }

  function AfterCheck(s: Guard, worst: Option<Pubkey>): Guard
    requires worst.Some? ==> worst.value in s.lastSeen
  {
    match worst case None => s case Some(k) => Tripped(s, k)
  }

  function VerdictOn(lastSeen: map<Pubkey, u64>, now: u64, worst: Option<Pubkey>): StalenessResult
    requires worst.Some? ==> worst.value in lastSeen
  {
    match worst
    case None => Fresh
    case Some(k) => Stale(k, lastSeen[k], SaturatingSubU64(now, lastSeen[k]))
  }

  /** The check that ends every update: trips on the worst stale account, if there is one. */
  ghost predicate Checked(s: Guard, s': Guard) {
    if s.maxStaleness == 0 || s.nowSlot == 0 then s' == s
    else exists w :: IsWorst(s.lastSeen, s.nowSlot, s.maxStaleness, w) && s' == AfterCheck(s, w)
  }

  datatype Event = Register(key: Pubkey) | Update(key: Pubkey, slot: u64) | Advance(slot: u64)

  /** The state the check of an update or a slot advance sees. */
  function Observe(s: Guard, e: Event): Guard {
    match e
    case Register(k) => s.(lastSeen := if k in s.lastSeen then s.lastSeen else s.lastSeen[k := 0])
    case Update(k, slot) =>
      s.(nowSlot := if slot > s.nowSlot then slot else s.nowSlot, lastSeen := s.lastSeen[k := slot])
    case Advance(slot) => s.(nowSlot := if slot > s.nowSlot then slot else s.nowSlot)
  }

  ghost predicate Next(s: Guard, e: Event, s': Guard) {
    if e.Register? then s' == Observe(s, e)
    else if s.tripped then s' == s
    else Checked(Observe(s, e), s')
  }

  /** What `check_at` answers for a given clock. */
  ghost predicate IsVerdict(s: Guard, now: u64, r: StalenessResult) {
    if s.maxStaleness == 0 || now == 0 then r == Fresh
    else exists w :: IsWorst(s.lastSeen, now, s.maxStaleness, w) && r == VerdictOn(s.lastSeen, now, w)
  }

  class StalenessGuard {
    const maxStalenessSlots: u64
    var lastSeen: map<Pubkey, u64>
    var nowSlot: u64
    var tripped: bool
    var trippedFor: Option<Pubkey>
    var trippedAtSlot: u64
    var trippedStaleness: u64
    var tripCount: nat

    ghost function State(): Guard
      reads this
    {
      Guard(maxStalenessSlots, lastSeen, nowSlot, tripped, trippedFor, trippedAtSlot, trippedStaleness, tripCount)
    }

    constructor (maxStalenessSlots: u64)
      ensures State() == NewGuard(maxStalenessSlots)
    {
      this.maxStalenessSlots := maxStalenessSlots;
      lastSeen, nowSlot, tripped, trippedFor := map[], 0, false, None;
      trippedAtSlot, trippedStaleness, tripCount := 0, 0, 0;
    }

    method RegisterKey(pubkey: Pubkey)
      modifies this
      ensures Next(old(State()), Register(pubkey), State())
    {
      if pubkey !in lastSeen {
        lastSeen := lastSeen[pubkey := 0];
      }
    }

    method UpdateKey(pubkey: Pubkey, slot: u64) returns (trips: bool)
      modifies this
      ensures Next(old(State()), Update(pubkey, slot), State())
      ensures trips <==> !old(tripped) && tripped
    {
      if tripped { return false; }
      if slot > nowSlot { nowSlot := slot; }
      lastSeen := lastSeen[pubkey := slot];
      trips := CheckInner();
    }

    method NotifySlotAdvance(slot: u64) returns (trips: bool)
      modifies this
      ensures Next(old(State()), Advance(slot), State())
      ensures trips <==> !old(tripped) && tripped
    {
      if tripped { return false; }
      if slot > nowSlot { nowSlot := slot; }
      trips := CheckInner();
    }

    method CheckInner() returns (trips: bool)
      modifies this
      ensures if old(tripped) then State() == old(State()) else Checked(old(State()), State())
      ensures trips <==> !old(tripped) && tripped
    {
      if tripped { return false; }
      if maxStalenessSlots == 0 { return false; }
      if nowSlot == 0 { return false; }
      var worst := FindWorst(lastSeen, nowSlot, maxStalenessSlots);
      if worst.Some? {
        Trip(worst.value);
        return true;
      }
      return false;
    }

    method Trip(pubkey: Pubkey)
      requires pubkey in lastSeen
      modifies this
      ensures State() == Tripped(old(State()), pubkey)
    {
      tripped := true;
      trippedFor := Some(pubkey);
      trippedAtSlot := nowSlot;
      trippedStaleness := SaturatingSubU64(nowSlot, lastSeen[pubkey]);
      tripCount := tripCount + 1;
    }

    /** A check at a given clock that changes nothing. */
    method CheckAt(now: u64) returns (r: StalenessResult)
      ensures IsVerdict(State(), now, r)
    {
      if maxStalenessSlots == 0 || now == 0 { return Fresh; }
      var worst := FindWorst(lastSeen, now, maxStalenessSlots);
      match worst
      case Some(k) => return Stale(k, lastSeen[k], SaturatingSubU64(now, lastSeen[k]));
      case None => return Fresh;
    }
  }

  // ----- every run

  ghost predicate Run(states: seq<Guard>, events: seq<Event>, max: u64) {
    && |states| == |events| + 1 && states[0] == NewGuard(max)
    && forall i :: 0 <= i < |events| ==> Next(states[i], events[i], states[i + 1])
  }

  /** The largest slot among the first `n` events. */
  function MaxSlot(events: seq<Event>, n: nat): u64
    requires n <= |events|
  {
    if n == 0 then 0 else
      var before := MaxSlot(events, n - 1);
      if !events[n - 1].Register? && events[n - 1].slot > before then events[n - 1].slot else before
  }

  /** The slot of the latest update of `k` among the first `n` events, 0 if it was only registered. */
  function LatestUpdate(events: seq<Event>, n: nat, k: Pubkey): Option<u64>
    requires n <= |events|
  {
    if n == 0 then None else
      match events[n - 1]
      case Update(key, slot) => if key == k then Some(slot) else LatestUpdate(events, n - 1, k)
      case Register(key) =>
        var before := LatestUpdate(events, n - 1, k);
        if key == k && before.None? then Some(0) else before
      case Advance(_) => LatestUpdate(events, n - 1, k)
  }

  /** What holds after `n` events of a run. */
  ghost predicate Reached(s: Guard, events: seq<Event>, n: nat, max: u64)
    requires n <= |events|
  {
    && s.maxStaleness == max
    && s.tripCount == (if s.tripped then 1 else 0)
    && (!s.tripped ==>
         && s.nowSlot == MaxSlot(events, n)
         && (forall k :: k in s.lastSeen <==> LatestUpdate(events, n, k).Some?)
         && (forall k :: k in s.lastSeen ==> s.lastSeen[k] == LatestUpdate(events, n, k).value <= s.nowSlot)
         && (max != 0 ==> forall k :: k in s.lastSeen ==> !IsStale(s.lastSeen, s.nowSlot, max, k)))
  }

  /** What the check of an event sees is what the events up to it say. */
  lemma ObserveFollows(s: Guard, events: seq<Event>, n: nat, max: u64)
    requires n < |events| && Reached(s, events, n, max) && !s.tripped
    ensures var o := Observe(s, events[n]);
      && o.nowSlot == MaxSlot(events, n + 1)
      && (forall k :: k in o.lastSeen <==> LatestUpdate(events, n + 1, k).Some?)
      && (forall k :: k in o.lastSeen ==> LatestUpdate(events, n + 1, k).value == o.lastSeen[k] <= o.nowSlot)
  {
    var e, o := events[n], Observe(s, events[n]);
    forall k ensures k in o.lastSeen <==> LatestUpdate(events, n + 1, k).Some? {
      if e.Advance? || e.key != k { assert k in o.lastSeen <==> k in s.lastSeen; }
    }
  }

  lemma ReachedStep(s: Guard, s': Guard, events: seq<Event>, n: nat, max: u64)
    requires n < |events| && Reached(s, events, n, max) && Next(s, events[n], s')
    ensures Reached(s', events, n + 1, max)
  {
    if !s.tripped {
      ObserveFollows(s, events, n, max);
      var o := Observe(s, events[n]);
      assert s' == o || s'.tripped;
    }
  }

  /** In every reachable untripped state the clock is the largest slot observed, every account holds its latest
      update, and with a nonzero threshold every account already seen is within the threshold of the clock. */
  lemma {:induction false} RunInvariant(states: seq<Guard>, events: seq<Event>, max: u64, n: nat)
    requires Run(states, events, max) && n <= |events|
    ensures Reached(states[n], events, n, max)
  {
    if n > 0 {
      RunInvariant(states, events, max, n - 1);
      ReachedStep(states[n - 1], states[n], events, n - 1, max);
    }
  }

  /** The step that trips names the account seen longest ago (the smallest key on ties), at the largest slot
      observed, and `check_at` of the clock agrees with it. */
  lemma TripNamesTheOldest(states: seq<Guard>, events: seq<Event>, max: u64, n: nat)
    requires Run(states, events, max) && n < |events| && !states[n].tripped && states[n + 1].tripped
    ensures var t := states[n + 1];
      && t.trippedFor.Some? && t.trippedFor.value in t.lastSeen
      && IsWorst(t.lastSeen, t.nowSlot, max, t.trippedFor)
      && t.trippedAtSlot == t.nowSlot == MaxSlot(events, n + 1) && t.tripCount == 1
      && IsVerdict(t, t.nowSlot, Stale(t.trippedFor.value, t.lastSeen[t.trippedFor.value], t.trippedStaleness))
  {
    RunInvariant(states, events, max, n);
    RunInvariant(states, events, max, n + 1);
    assert Next(states[n], events[n], states[n + 1]);
    assert Observe(states[n], events[n]).nowSlot == MaxSlot(events, n + 1);
  }

  /** What `check_at` says of an account: the slot it was last seen at and how far that lies behind the clock; and it
      calls the feed fresh exactly when no account seen lies more than the threshold behind. */
  lemma VerdictMeans(s: Guard, now: u64, r: StalenessResult)
    requires IsVerdict(s, now, r)
    ensures r.Fresh? <==> s.maxStaleness == 0 || forall k :: k in s.lastSeen ==>
      s.lastSeen[k] == 0 || now - s.lastSeen[k] <= s.maxStaleness
    ensures r.Stale? ==>
      && r.pubkey in s.lastSeen && r.lastSeenSlot == s.lastSeen[r.pubkey] != 0
      && r.stalenessSlots == now - r.lastSeenSlot > s.maxStaleness
      && forall k :: k in s.lastSeen && s.lastSeen[k] != 0 ==> s.lastSeen[k] >= r.lastSeenSlot
  {
    if s.maxStaleness != 0 && now != 0 {
      var w :| IsWorst(s.lastSeen, now, s.maxStaleness, w) && r == VerdictOn(s.lastSeen, now, w);
      forall k | k in s.lastSeen ensures IsStale(s.lastSeen, now, s.maxStaleness, k) <==>
        s.lastSeen[k] != 0 && now - s.lastSeen[k] > s.maxStaleness { }
    }
  }

  /** The trip record, from the history alone: the account's latest update and how far it lies behind the clock, and
      no updated account lies further behind. */
  lemma TripRecordMeans(states: seq<Guard>, events: seq<Event>, max: u64, n: nat)
    requires Run(states, events, max) && n < |events| && !states[n].tripped && states[n + 1].tripped
    ensures var t := states[n + 1];
      && t.trippedFor.Some? && LatestUpdate(events, n + 1, t.trippedFor.value).Some?
      && t.trippedAtSlot == MaxSlot(events, n + 1)
      && t.trippedStaleness == MaxSlot(events, n + 1) - LatestUpdate(events, n + 1, t.trippedFor.value).value > max
  {
    RunInvariant(states, events, max, n);
    assert Next(states[n], events[n], states[n + 1]);
    ObserveFollows(states[n], events, n, max);
    TripRecord(Observe(states[n], events[n]), states[n + 1]);
  }

  lemma TripRecord(o: Guard, s': Guard)
    requires Checked(o, s') && !o.tripped && s'.tripped
    ensures s'.trippedFor.Some? && s'.trippedFor.value in o.lastSeen && s'.trippedAtSlot == o.nowSlot
    ensures s'.trippedStaleness == o.nowSlot - o.lastSeen[s'.trippedFor.value] > o.maxStaleness
  {
  }

  /** The latest update of `k` among the first `n` events lies more than `max` slots behind the largest slot. */
  ghost predicate StaleInHistory(events: seq<Event>, n: nat, max: u64, k: Pubkey)
    requires n <= |events|
  {
    var last := LatestUpdate(events, n, k);
    last.Some? && last.value != 0 && MaxSlot(events, n) - last.value > max
  }

  /** An untripped guard trips at exactly those events that leave some updated account too old. */
  lemma TripsExactlyWhenStale(states: seq<Guard>, events: seq<Event>, max: u64, n: nat)
    requires Run(states, events, max) && 0 < n <= |events| && !states[n - 1].tripped
    ensures states[n].tripped <==> max != 0 && exists k :: StaleInHistory(events, n, max, k)
  {
    if states[n].tripped {
      TripIsStale(states, events, max, n - 1);
    } else if max != 0 {
      RunInvariant(states, events, max, n);
      NoneStale(states[n], events, n, max);
    }
  }

  lemma TripIsStale(states: seq<Guard>, events: seq<Event>, max: u64, n: nat)
    requires Run(states, events, max) && n < |events| && !states[n].tripped && states[n + 1].tripped
    ensures max != 0 && states[n + 1].trippedFor.Some?
    ensures StaleInHistory(events, n + 1, max, states[n + 1].trippedFor.value)
  {
    RunInvariant(states, events, max, n);
    TrippingStep(states[n], states[n + 1], events, n, max);
  }

  lemma TrippingStep(s: Guard, s': Guard, events: seq<Event>, n: nat, max: u64)
    requires n < |events| && Reached(s, events, n, max) && !s.tripped && Next(s, events[n], s') && s'.tripped
    ensures max != 0 && s'.trippedFor.Some? && StaleInHistory(events, n + 1, max, s'.trippedFor.value)
  {
    ObserveFollows(s, events, n, max);
    TripCause(Observe(s, events[n]), s');
  }

  lemma TripCause(o: Guard, s': Guard)
    requires Checked(o, s') && !o.tripped && s'.tripped
    ensures o.maxStaleness != 0 && s'.trippedFor.Some?
    ensures IsStale(o.lastSeen, o.nowSlot, o.maxStaleness, s'.trippedFor.value)
  {
  }

  lemma NoneStale(s: Guard, events: seq<Event>, n: nat, max: u64)
    requires n <= |events| && Reached(s, events, n, max) && !s.tripped && max != 0
    ensures forall k :: !StaleInHistory(events, n, max, k)
  {
    forall k ensures !StaleInHistory(events, n, max, k) {
      assert k in s.lastSeen ==> !IsStale(s.lastSeen, s.nowSlot, max, k);
    }
  }

  /** The clock and the trip record of two states agree, and `check_at` answers the same in both. */
  ghost predicate SameTrip(s: Guard, t: Guard) {
    && t == s.(lastSeen := t.lastSeen)
    && forall now, r :: IsVerdict(s, now, r) <==> IsVerdict(t, now, r)
  }

  /** Registering an account adds one that was never seen, which no check looks at. */
  lemma RegisterKeepsWorst(lastSeen: map<Pubkey, u64>, k: Pubkey, now: u64, max: u64, w: Option<Pubkey>)
    requires k !in lastSeen
    ensures IsWorst(lastSeen, now, max, w) <==> IsWorst(lastSeen[k := 0], now, max, w)
  {
    assert forall j :: IsStale(lastSeen, now, max, j) <==> IsStale(lastSeen[k := 0], now, max, j);
    assert !IsStale(lastSeen[k := 0], now, max, k);
    if w.Some? && IsWorst(lastSeen, now, max, w) {
      assert IsWorst(lastSeen[k := 0], now, max, w);
    }
    if w.Some? && IsWorst(lastSeen[k := 0], now, max, w) {
      forall j | j in lastSeen && IsStale(lastSeen, now, max, j) && j != w.value
        ensures lastSeen[w.value] < lastSeen[j] || (lastSeen[w.value] == lastSeen[j] && KeyLess(w.value, j))
      {
        assert j in lastSeen[k := 0] && IsStale(lastSeen[k := 0], now, max, j);
      }
    }
  }

  lemma TrippedStep(s: Guard, e: Event, s': Guard)
    requires s.tripped && Next(s, e, s')
    ensures SameTrip(s, s')
  {
    if e.Register? && e.key !in s.lastSeen {
      forall now, r ensures IsVerdict(s, now, r) <==> IsVerdict(s', now, r) {
        if s.maxStaleness != 0 && now != 0 {
          if w :| IsWorst(s.lastSeen, now, s.maxStaleness, w) && r == VerdictOn(s.lastSeen, now, w) {
            RegisterKeepsWorst(s.lastSeen, e.key, now, s.maxStaleness, w);
          }
          if w :| IsWorst(s'.lastSeen, now, s.maxStaleness, w) && r == VerdictOn(s'.lastSeen, now, w) {
            RegisterKeepsWorst(s.lastSeen, e.key, now, s.maxStaleness, w);
          }
        }
      }
    }
  }

  /** A trip is final: afterwards clock, trip record and every verdict stay as they are, so at most one trip
      is ever counted. */
  lemma {:induction false} TripIsFinal(states: seq<Guard>, events: seq<Event>, max: u64, m: nat, n: nat)
    requires Run(states, events, max) && m <= n <= |events| && states[m].tripped
    ensures SameTrip(states[m], states[n])
  {
    if m < n {
      TripIsFinal(states, events, max, m, n - 1);
      TrippedStep(states[n - 1], events[n - 1], states[n]);
    }
  }

  /** Without a single update the guard never trips, however far the clock advances: an account that was only
      registered is never stale. */
  lemma {:induction false} SilenceFromTheStartNeverTrips(states: seq<Guard>, events: seq<Event>, max: u64, n: nat)
    requires Run(states, events, max) && n <= |events| && forall i :: 0 <= i < n ==> !events[i].Update?
    ensures !states[n].tripped && forall k :: k in states[n].lastSeen ==> states[n].lastSeen[k] == 0
  {
    if n > 0 {
      SilenceFromTheStartNeverTrips(states, events, max, n - 1);
      assert Next(states[n - 1], events[n - 1], states[n]);
    }
  }
}
