/**
 * The alert state machine of `monitor_changes`. Every 60 seconds the bot polls
 * the device and decides which notifications to send: a new best difficulty,
 * the switch to the fallback pool, the device becoming unreachable, and the
 * hashrate dropping below 350 MH/s or recovering to 400 MH/s. Each alert is
 * edge-triggered by a flag, so it is sent once per episode, not on every tick.
 */
module Alerts {
  import opened Options
  import opened Device

  /** Below this hashrate (MH/s) the low-hashrate alert fires. */
  const LowHashrate: real := 350.0
  /** At or above this hashrate (MH/s) the recovery alert fires. */
  const StableHashrate: real := 400.0

  /** The notifications the bot sends to its channel. */
  datatype Event =
    | NewBestAlert(best: string)
    | FallbackAlert
    | UnreachableAlert
    | LowHashrateAlert(rate: real)
    | RecoveredAlert(rate: real)

  datatype Kind = BestKind | FallbackKind | UnreachableKind | LowKind | RecoveredKind

  function KindOf(e: Event): Kind {
    match e
    case NewBestAlert(_) => BestKind
    case FallbackAlert => FallbackKind
    case UnreachableAlert => UnreachableKind
    case LowHashrateAlert(_) => LowKind
    case RecoveredAlert(_) => RecoveredKind
  }

  /** The variables of the loop: the best-difficulty text seen last (None
      before the first successful poll) and the three announcement flags. */
  datatype AlertState = AlertState(
    lastBest: Option<string>,
    fallbackAnnounced: bool,
    unreachableAnnounced: bool,
    lowHashrateAnnounced: bool)

  /** The state at the start of `monitor_changes`. */
  const Initial := AlertState(None, false, false, false)

  /** A new state and the notifications sent on the way to it, in order. */
  datatype Step = Step(state: AlertState, events: seq<Event>)

  /** The best-difficulty rule: the first reading is only remembered; a
      later reading whose text differs is announced once and remembered. */
  function BestStep(lastBest: Option<string>, best: string): (r: (Option<string>, seq<Event>))
    ensures r.0 == Some(best)
    ensures lastBest.None? ==> r.1 == []
    ensures lastBest.Some? ==> r.1 == (if lastBest.value != best then [NewBestAlert(best)] else [])
  {
    if lastBest.None? then (Some(best), [])
    else if best != lastBest.value then (Some(best), [NewBestAlert(best)])
    else (lastBest, [])
  }

  /** The fallback rule: the new flag is the fallback status itself, and the
      alert goes out exactly when the flag rises. */
  function FallbackStep(announced: bool, usingFallback: bool): (r: (bool, seq<Event>))
    ensures r.0 == usingFallback
    ensures r.1 == (if !announced && r.0 then [FallbackAlert] else [])
  {
    if usingFallback && !announced then (true, [FallbackAlert])
    else if !usingFallback then (false, [])
    else (announced, [])
  }

  /** The reachability rule: the flag records whether this poll failed, and
      the alert goes out exactly when the flag rises. */
  function ReachabilityStep(announced: bool, reachable: bool): (r: (bool, seq<Event>))
    ensures r.0 == !reachable
    ensures r.1 == (if !announced && r.0 then [UnreachableAlert] else [])
  {
    if reachable then (false, [])
    else if !announced then (true, [UnreachableAlert])
    else (announced, [])
  }

  /** The hashrate rule with hysteresis: below 350 the flag is set, from 400
      on it is cleared, in between it keeps its value; the low alert goes out
      exactly when the flag rises and the recovery alert exactly when it falls. */
  function HashrateStep(announced: bool, rate: real): (r: (bool, seq<Event>))
    ensures rate < LowHashrate ==> r.0
    ensures rate >= StableHashrate ==> !r.0
    ensures LowHashrate <= rate < StableHashrate ==> r.0 == announced
    ensures r.1 == (if !announced && r.0 then [LowHashrateAlert(rate)]
                    else if announced && !r.0 then [RecoveredAlert(rate)]
                    else [])
  {
    if rate < LowHashrate && !announced then (true, [LowHashrateAlert(rate)])
    else if rate >= StableHashrate && announced then (false, [RecoveredAlert(rate)])
    else (announced, [])
  }

  /** One poll of the monitoring loop. A failed poll only runs the
      reachability rule and clears the hashrate flag silently; a successful
      poll runs the best-difficulty, fallback and hashrate rules, in that
      order, and clears the unreachable flag. */
  function Tick(st: AlertState, snap: Snapshot): Step {
    match snap
    case Unreachable =>
      var (unreachable, sent) := ReachabilityStep(st.unreachableAnnounced, false);
      Step(st.(unreachableAnnounced := unreachable, lowHashrateAnnounced := false), sent)
    case Present(best, rate, usingFallback) =>
      var (lastBest, bestSent) := BestStep(st.lastBest, best);
      var (fallback, fallbackSent) := FallbackStep(st.fallbackAnnounced, usingFallback);
      var (low, rateSent) := HashrateStep(st.lowHashrateAnnounced, rate);
      var (unreachable, _) := ReachabilityStep(st.unreachableAnnounced, true);
      Step(AlertState(lastBest, fallback, unreachable, low), bestSent + fallbackSent + rateSent)
  }

  /** The unreachable flag ends up set exactly on a failed poll, which
      keeps the best-difficulty text and the fallback flag, clears the
      hashrate flag and sends at most the unreachable alert; a successful
      poll remembers its best-difficulty text. */
  lemma TickState(st: AlertState, snap: Snapshot)
    ensures var r := Tick(st, snap);
      && (r.state.unreachableAnnounced <==> snap.Unreachable?)
      && (snap.Unreachable? ==> r.state.lastBest == st.lastBest && r.state.fallbackAnnounced == st.fallbackAnnounced)
      && (snap.Unreachable? ==> !r.state.lowHashrateAnnounced && r.events == (if st.unreachableAnnounced then [] else [UnreachableAlert]))
      && (snap.Present? ==> r.state.lastBest == Some(snap.bestDiff))
  {
  }

  /** One poll sends at most one notification of each kind. */
  lemma TickKindsDistinct(st: AlertState, snap: Snapshot)
    ensures var es := Tick(st, snap).events;
      forall i, j :: 0 <= i < j < |es| ==> KindOf(es[i]) != KindOf(es[j])
  {
  }

  /** A poll-by-poll loop over a finite sequence of polls, for any rule
      deciding one poll: the state is threaded through and the
      notifications of each poll are sent after those of the polls before. */
  function Fold(step: (AlertState, Snapshot) -> Step, st: AlertState, snaps: seq<Snapshot>): Step
    decreases |snaps|
  {
    if snaps == [] then Step(st, [])
    else
      var first := step(st, snaps[0]);
      var rest := Fold(step, first.state, snaps[1..]);
      Step(rest.state, first.events + rest.events)
  }

  /** The monitoring loop run over a finite sequence of polls. */
  function Run(st: AlertState, snaps: seq<Snapshot>): Step {
    Fold(Tick, st, snaps)
  }

  // ---------------------------------------------------------------------
  // One tick

  /** The first successful poll never announces a new best difficulty; it
      only remembers the reading. */
  lemma FirstReadingSilent(st: AlertState, best: string, rate: real, usingFallback: bool)
    requires st.lastBest.None?
    ensures var r := Tick(st, Present(best, rate, usingFallback));
      && r.state.lastBest == Some(best)
      && forall e :: e in r.events ==> !e.NewBestAlert?
  {
  }

  /** After the first poll, a reading whose text differs from the last one
      is announced, with that text, and an equal text is not. */
  lemma NewBestOnChange(st: AlertState, best: string, rate: real, usingFallback: bool)
    requires st.lastBest.Some?
    ensures var r := Tick(st, Present(best, rate, usingFallback));
      && (NewBestAlert(best) in r.events <==> best != st.lastBest.value)
      && forall e :: e in r.events && e.NewBestAlert? ==> e == NewBestAlert(best)
  {
  }

  /** "568.0M" after "568M" is announced as a new best: the texts differ,
      though the values are equal. */
  lemma NewBestOnRespelling(st: AlertState, rate: real, usingFallback: bool)
    requires st.lastBest == Some("568M")
    ensures NewBestAlert("568.0M") in Tick(st, Present("568.0M", rate, usingFallback)).events
  {
    NewBestOnChange(st, "568.0M", rate, usingFallback);
  }

  /** The fallback alert is sent exactly on a successful poll that reports
      the fallback pool while the flag is clear; the flag then follows the
      reported status, and a failed poll leaves it as it was. */
  lemma FallbackEdge(st: AlertState, snap: Snapshot)
    ensures var r := Tick(st, snap);
      && (FallbackAlert in r.events <==> snap.Present? && snap.usingFallback && !st.fallbackAnnounced)
      && r.state.fallbackAnnounced == (if snap.Present? then snap.usingFallback else st.fallbackAnnounced)
  {
  }

  /** The unreachable alert is sent exactly on a failed poll while the flag
      is clear; any successful poll clears the flag. */
  lemma UnreachableEdge(st: AlertState, snap: Snapshot)
    ensures var r := Tick(st, snap);
      && (UnreachableAlert in r.events <==> snap.Unreachable? && !st.unreachableAnnounced)
      && (snap.Present? ==> !r.state.unreachableAnnounced)
  {
  }

  /** The hashrate hysteresis, case by case. */
  lemma HashrateHysteresis(st: AlertState, best: string, rate: real, usingFallback: bool)
    ensures var r := Tick(st, Present(best, rate, usingFallback));
      && (rate < LowHashrate && !st.lowHashrateAnnounced ==>
            LowHashrateAlert(rate) in r.events && r.state.lowHashrateAnnounced)
      && (rate >= StableHashrate && st.lowHashrateAnnounced ==>
            RecoveredAlert(rate) in r.events && !r.state.lowHashrateAnnounced)
      && (LowHashrate <= rate < StableHashrate ==>
            r.state.lowHashrateAnnounced == st.lowHashrateAnnounced
            && forall e :: e in r.events ==> !e.LowHashrateAlert? && !e.RecoveredAlert?)
  {
  }

  /** A failed poll clears the low-hashrate flag without a notification. */
  lemma OutageClearsHashrateFlag(st: AlertState)
    ensures var r := Tick(st, Unreachable);
      && !r.state.lowHashrateAnnounced
      && forall e :: e in r.events ==> e == UnreachableAlert
  {
  }

  // ---------------------------------------------------------------------
  // Counting notifications

  function Indicator(b: bool): nat {
    if b then 1 else 0
  }

  /** The number of notifications of kind `k` in `es`. */
  function Count(es: seq<Event>, k: Kind): nat {
    if es == [] then 0 else Indicator(KindOf(es[0]) == k) + Count(es[1..], k)
  }

  lemma {:induction false} CountConcat(a: seq<Event>, b: seq<Event>, k: Kind)
    ensures Count(a + b, k) == Count(a, k) + Count(b, k)
    decreases |a|
  {
    if a == [] {
      assert a + b == b;
    } else {
      assert (a + b)[1..] == a[1..] + b;
      CountConcat(a[1..], b, k);
    }
  }

  lemma CountAtMostOne(es: seq<Event>, k: Kind)
    requires |es| <= 1
    ensures Count(es, k) == Indicator(es != [] && KindOf(es[0]) == k)
  {
    if es != [] {
      assert es[1..] == [];
    }
  }

  /** How many notifications of kind `k` a failed poll sends. */
  lemma TickCountUnreachable(st: AlertState, k: Kind)
    ensures Count(Tick(st, Unreachable).events, k)
         == Indicator(k == UnreachableKind && !st.unreachableAnnounced)
  {
    CountAtMostOne(Tick(st, Unreachable).events, k);
  }

  /** How many notifications of kind `k` a successful poll sends. */
  lemma TickCountPresent(st: AlertState, best: string, rate: real, usingFallback: bool, k: Kind)
    ensures Count(Tick(st, Present(best, rate, usingFallback)).events, k)
         == Indicator(k == BestKind && st.lastBest.Some? && st.lastBest.value != best)
          + Indicator(k == FallbackKind && usingFallback && !st.fallbackAnnounced)
          + Indicator(k == LowKind && rate < LowHashrate && !st.lowHashrateAnnounced)
          + Indicator(k == RecoveredKind && rate >= StableHashrate && st.lowHashrateAnnounced)
  {
    var b := BestStep(st.lastBest, best).1;
    var f := FallbackStep(st.fallbackAnnounced, usingFallback).1;
    var h := HashrateStep(st.lowHashrateAnnounced, rate).1;
    assert Tick(st, Present(best, rate, usingFallback)).events == b + f + h;
    CountConcat(b + f, h, k);
    CountConcat(b, f, k);
    CountBestStep(st.lastBest, best, k);
    CountFallbackStep(st.fallbackAnnounced, usingFallback, k);
    CountHashrateStep(st.lowHashrateAnnounced, rate, k);
  }

  /** The best-difficulty rule sends one new-best notification on a change
      after the first reading, and nothing else. */
  lemma CountBestStep(lastBest: Option<string>, best: string, k: Kind)
    ensures Count(BestStep(lastBest, best).1, k) == Indicator(k == BestKind && lastBest.Some? && lastBest.value != best)
  {
    CountAtMostOne(BestStep(lastBest, best).1, k);
  }

  /** The fallback rule sends one fallback notification when the flag
      rises, and nothing else. */
  lemma CountFallbackStep(announced: bool, usingFallback: bool, k: Kind)
    ensures Count(FallbackStep(announced, usingFallback).1, k) == Indicator(k == FallbackKind && usingFallback && !announced)
  {
    CountAtMostOne(FallbackStep(announced, usingFallback).1, k);
  }

  /** The hashrate rule sends one low notification when the flag rises, one
      recovery notification when it falls, and nothing else. */
  lemma CountHashrateStep(announced: bool, rate: real, k: Kind)
    ensures Count(HashrateStep(announced, rate).1, k)
         == Indicator(k == LowKind && rate < LowHashrate && !announced)
          + Indicator(k == RecoveredKind && rate >= StableHashrate && announced)
  {
    CountAtMostOne(HashrateStep(announced, rate).1, k);
  }

  /** How many notifications of each kind one poll sends. */
  lemma TickCounts(st: AlertState, snap: Snapshot)
    ensures var es := Tick(st, snap).events;
      && Count(es, UnreachableKind) == Indicator(snap.Unreachable? && !st.unreachableAnnounced)
      && Count(es, FallbackKind) == Indicator(snap.Present? && snap.usingFallback && !st.fallbackAnnounced)
      && Count(es, BestKind) == Indicator(snap.Present? && st.lastBest.Some? && st.lastBest.value != snap.bestDiff)
      && Count(es, LowKind) == Indicator(snap.Present? && snap.hashRate < LowHashrate && !st.lowHashrateAnnounced)
      && Count(es, RecoveredKind) == Indicator(snap.Present? && snap.hashRate >= StableHashrate && st.lowHashrateAnnounced)
  {
    match snap
    case Unreachable =>
      TickCountUnreachable(st, UnreachableKind);
      TickCountUnreachable(st, FallbackKind);
      TickCountUnreachable(st, BestKind);
      TickCountUnreachable(st, LowKind);
      TickCountUnreachable(st, RecoveredKind);
    case Present(best, rate, usingFallback) =>
      TickCountPresent(st, best, rate, usingFallback, UnreachableKind);
      TickCountPresent(st, best, rate, usingFallback, FallbackKind);
      TickCountPresent(st, best, rate, usingFallback, BestKind);
      TickCountPresent(st, best, rate, usingFallback, LowKind);
      TickCountPresent(st, best, rate, usingFallback, RecoveredKind);
  }

  /** Peeling the first poll off a non-empty stretch. */
  lemma RunCons(st: AlertState, snaps: seq<Snapshot>)
    requires snaps != []
    ensures var t := Tick(st, snaps[0]);
      var rest := Run(t.state, snaps[1..]);
      Run(st, snaps) == Step(rest.state, t.events + rest.events)
  {
  }

  /** A stretch of a single poll is that poll. */
  lemma RunOne(st: AlertState, snap: Snapshot)
    ensures Run(st, [snap]) == Tick(st, snap)
  {
    var t := Tick(st, snap);
    assert [snap][1..] == [];
    assert Fold(Tick, t.state, []) == Step(t.state, []);
    assert t.events + [] == t.events;
  }

  /** Running a poll-by-poll loop over two stretches of polls in turn is
      running it over both, whatever rule decides one poll. */
  lemma {:induction false} FoldConcat(step: (AlertState, Snapshot) -> Step, st: AlertState, a: seq<Snapshot>, b: seq<Snapshot>)
    ensures var first := Fold(step, st, a);
      var second := Fold(step, first.state, b);
      Fold(step, st, a + b) == Step(second.state, first.events + second.events)
    decreases |a|
  {
    if a == [] {
      assert a + b == b;
    } else {
      var t := step(st, a[0]);
      assert (a + b)[0] == a[0] && (a + b)[1..] == a[1..] + b;
      FoldConcat(step, t.state, a[1..], b);
      var r1 := Fold(step, t.state, a[1..]);
      var r2 := Fold(step, r1.state, b);
      assert t.events + (r1.events + r2.events) == (t.events + r1.events) + r2.events;
    }
  }

  /** Running the monitoring loop over two stretches of polls in turn is
      running it over both. */
  lemma RunConcat(st: AlertState, a: seq<Snapshot>, b: seq<Snapshot>)
    ensures var first := Run(st, a);
      var second := Run(first.state, b);
      Run(st, a + b) == Step(second.state, first.events + second.events)
  {
    FoldConcat(Tick, st, a, b);
  }

  // ---------------------------------------------------------------------
  // Whole runs against independent counts of episodes

  /** The number of outages in a stretch of polls: maximal stretches of
      failed polls, the first not counted if one was already in progress. */
  function Outages(inOutage: bool, snaps: seq<Snapshot>): nat
    decreases |snaps|
  {
    if snaps == [] then 0
    else if snaps[0].Unreachable? then Indicator(!inOutage) + Outages(true, snaps[1..])
    else Outages(false, snaps[1..])
  }

  /** The number of switches to the fallback pool seen by successful polls;
      a failed poll reports no pool status and does not end the stretch. */
  function FallbackOnsets(onFallback: bool, snaps: seq<Snapshot>): nat
    decreases |snaps|
  {
    if snaps == [] then 0
    else match snaps[0]
      case Unreachable => FallbackOnsets(onFallback, snaps[1..])
      case Present(_, _, f) => Indicator(f && !onFallback) + FallbackOnsets(f, snaps[1..])
  }

  /** The number of successful polls whose best-difficulty text differs
      from that of the successful poll before it. */
  function BestChanges(last: Option<string>, snaps: seq<Snapshot>): nat
    decreases |snaps|
  {
    if snaps == [] then 0
    else match snaps[0]
      case Unreachable => BestChanges(last, snaps[1..])
      case Present(b, _, _) =>
        Indicator(last.Some? && last.value != b) + BestChanges(Some(b), snaps[1..])
  }

  /** Exactly one unreachable notification per outage. */
  lemma {:induction false} OneAlertPerOutage(st: AlertState, snaps: seq<Snapshot>)
    ensures Count(Run(st, snaps).events, UnreachableKind) == Outages(st.unreachableAnnounced, snaps)
    decreases |snaps|
  {
    if snaps != [] {
      var t := Tick(st, snaps[0]);
      TickCounts(st, snaps[0]);
      CountConcat(t.events, Run(t.state, snaps[1..]).events, UnreachableKind);
      OneAlertPerOutage(t.state, snaps[1..]);
    }
  }

  /** Exactly one fallback notification per switch to the fallback pool. */
  lemma {:induction false} OneAlertPerFallback(st: AlertState, snaps: seq<Snapshot>)
    ensures Count(Run(st, snaps).events, FallbackKind) == FallbackOnsets(st.fallbackAnnounced, snaps)
    decreases |snaps|
  {
    if snaps != [] {
      var t := Tick(st, snaps[0]);
      TickCounts(st, snaps[0]);
      CountConcat(t.events, Run(t.state, snaps[1..]).events, FallbackKind);
      OneAlertPerFallback(t.state, snaps[1..]);
    }
  }

  /** Exactly one new-best notification per change of the best-difficulty
      text, and none for the first reading. */
  lemma {:induction false} OneAlertPerBestChange(st: AlertState, snaps: seq<Snapshot>)
    ensures Count(Run(st, snaps).events, BestKind) == BestChanges(st.lastBest, snaps)
    decreases |snaps|
  {
    if snaps != [] {
      var t := Tick(st, snaps[0]);
      TickCounts(st, snaps[0]);
      CountConcat(t.events, Run(t.state, snaps[1..]).events, BestKind);
      OneAlertPerBestChange(t.state, snaps[1..]);
    }
  }

  predicate AllOnFallback(snaps: seq<Snapshot>) {
    forall i :: 0 <= i < |snaps| ==> snaps[i].Present? && snaps[i].usingFallback
  }

  /** Over a stretch of polls that all report the fallback pool, the
      fallback notification goes out once, and not at all if the flag was
      already set. */
  lemma {:induction false} FallbackOncePerStretch(st: AlertState, snaps: seq<Snapshot>)
    requires AllOnFallback(snaps)
    ensures Count(Run(st, snaps).events, FallbackKind) == Indicator(snaps != [] && !st.fallbackAnnounced)
    decreases |snaps|
  {
    if snaps != [] {
      var t := Tick(st, snaps[0]);
      TickCounts(st, snaps[0]);
      CountConcat(t.events, Run(t.state, snaps[1..]).events, FallbackKind);
      assert AllOnFallback(snaps[1..]) by {
        forall i | 0 <= i < |snaps[1..]| ensures snaps[1..][i] == snaps[i + 1] { }
      }
      FallbackOncePerStretch(t.state, snaps[1..]);
    }
  }

  predicate AllUnreachable(snaps: seq<Snapshot>) {
    forall i :: 0 <= i < |snaps| ==> snaps[i].Unreachable?
  }

  /** A stretch of failed polls sends one unreachable notification, and
      none if the flag was already set. */
  lemma {:induction false} OutageOncePerStretch(st: AlertState, snaps: seq<Snapshot>)
    requires AllUnreachable(snaps)
    ensures Count(Run(st, snaps).events, UnreachableKind) == Indicator(snaps != [] && !st.unreachableAnnounced)
    decreases |snaps|
  {
    if snaps != [] {
      var t := Tick(st, snaps[0]);
      TickCounts(st, snaps[0]);
      CountConcat(t.events, Run(t.state, snaps[1..]).events, UnreachableKind);
      assert AllUnreachable(snaps[1..]) by {
        forall i | 0 <= i < |snaps[1..]| ensures snaps[1..][i] == snaps[i + 1] { }
      }
      OutageOncePerStretch(t.state, snaps[1..]);
    }
  }

  /** A stretch of failed polls at the front counts as at most one outage. */
  lemma {:induction false} OutagesOfStretch(inOutage: bool, a: seq<Snapshot>, rest: seq<Snapshot>)
    requires a != [] && AllUnreachable(a)
    ensures Outages(inOutage, a + rest) == Indicator(!inOutage) + Outages(true, rest)
    decreases |a|
  {
    assert (a + rest)[0] == a[0];
    assert (a + rest)[1..] == a[1..] + rest;
    if |a| > 1 {
      assert AllUnreachable(a[1..]) by {
        forall i | 0 <= i < |a[1..]| ensures a[1..][i] == a[i + 1] { }
      }
      OutagesOfStretch(true, a[1..], rest);
    } else {
      assert a[1..] + rest == rest;
    }
  }

  /** Two outages separated by a successful poll are announced twice. */
  lemma TwoOutages(st: AlertState, a: seq<Snapshot>, p: Snapshot, b: seq<Snapshot>)
    requires a != [] && b != [] && AllUnreachable(a) && AllUnreachable(b) && p.Present?
    requires !st.unreachableAnnounced
    ensures Count(Run(st, a + [p] + b).events, UnreachableKind) == 2
  {
    OneAlertPerOutage(st, a + [p] + b);
    assert a + [p] + b == a + ([p] + b);
    OutagesOfStretch(false, a, [p] + b);
    assert ([p] + b)[1..] == b;
    OutagesOfStretch(true, b, []);
    assert b + [] == b;
  }

  predicate AllBelowLow(snaps: seq<Snapshot>) {
    forall i :: 0 <= i < |snaps| ==> snaps[i].Present? && snaps[i].hashRate < LowHashrate
  }

  /** A stretch of successful polls below 350 MH/s sends one low-hashrate
      notification (none if the flag was set) and no recovery. */
  lemma {:induction false} LowOncePerStretch(st: AlertState, snaps: seq<Snapshot>)
    requires AllBelowLow(snaps)
    ensures Count(Run(st, snaps).events, LowKind) == Indicator(snaps != [] && !st.lowHashrateAnnounced)
    ensures Count(Run(st, snaps).events, RecoveredKind) == 0
    decreases |snaps|
  {
    if snaps != [] {
      var t := Tick(st, snaps[0]);
      TickCounts(st, snaps[0]);
      CountConcat(t.events, Run(t.state, snaps[1..]).events, LowKind);
      CountConcat(t.events, Run(t.state, snaps[1..]).events, RecoveredKind);
      assert AllBelowLow(snaps[1..]) by {
        forall i | 0 <= i < |snaps[1..]| ensures snaps[1..][i] == snaps[i + 1] { }
      }
      LowOncePerStretch(t.state, snaps[1..]);
    }
  }

  predicate AllInDeadBand(snaps: seq<Snapshot>) {
    forall i :: 0 <= i < |snaps| ==>
      snaps[i].Present? && LowHashrate <= snaps[i].hashRate < StableHashrate
  }

  /** Readings between 350 and 400 MH/s neither alert nor recover and keep
      the flag as it was. */
  lemma {:induction false} DeadBandSilent(st: AlertState, snaps: seq<Snapshot>)
    requires AllInDeadBand(snaps)
    ensures Count(Run(st, snaps).events, LowKind) == 0
    ensures Count(Run(st, snaps).events, RecoveredKind) == 0
    ensures Run(st, snaps).state.lowHashrateAnnounced == st.lowHashrateAnnounced
    decreases |snaps|
  {
    if snaps != [] {
      var t := Tick(st, snaps[0]);
      TickCounts(st, snaps[0]);
      CountConcat(t.events, Run(t.state, snaps[1..]).events, LowKind);
      CountConcat(t.events, Run(t.state, snaps[1..]).events, RecoveredKind);
      assert AllInDeadBand(snaps[1..]) by {
        forall i | 0 <= i < |snaps[1..]| ensures snaps[1..][i] == snaps[i + 1] { }
      }
      DeadBandSilent(t.state, snaps[1..]);
    }
  }

  /** Every recovery notification answers an earlier low-hashrate one (or a
      flag already set at the start): recoveries plus a still-set flag never
      outnumber low alerts plus the initial flag. */
  lemma {:induction false} RecoveriesFollowLows(st: AlertState, snaps: seq<Snapshot>)
    ensures var r := Run(st, snaps);
      Count(r.events, RecoveredKind) + Indicator(r.state.lowHashrateAnnounced)
        <= Count(r.events, LowKind) + Indicator(st.lowHashrateAnnounced)
    decreases |snaps|
  {
    if snaps != [] {
      var t := Tick(st, snaps[0]);
      TickCounts(st, snaps[0]);
      CountConcat(t.events, Run(t.state, snaps[1..]).events, LowKind);
      CountConcat(t.events, Run(t.state, snaps[1..]).events, RecoveredKind);
      RecoveriesFollowLows(t.state, snaps[1..]);
    }
  }

  /** A worked run: 500, 300, 300 and 420 MH/s with an unchanged best
      difficulty send one low alert at 300 and one recovery at 420. */
  lemma HysteresisExample()
    ensures Run(Initial, [Present("1", 500.0, false), Present("1", 300.0, false),
                          Present("1", 300.0, false), Present("1", 420.0, false)]).events
            == [LowHashrateAlert(300.0), RecoveredAlert(420.0)]
  {
    var s := [Present("1", 500.0, false), Present("1", 300.0, false),
              Present("1", 300.0, false), Present("1", 420.0, false)];
    var s0 := AlertState(Some("1"), false, false, false);
    var s1 := AlertState(Some("1"), false, false, true);
    assert s[1..] == [s[1], s[2], s[3]];
    assert s[1..][1..] == [s[2], s[3]];
    assert s[1..][1..][1..] == [s[3]];
    RunOne(s1, s[3]);
    RunCons(s1, s[1..][1..]);
    RunCons(s0, s[1..]);
    RunCons(Initial, s);
    assert Run(s0, [s[1], s[2], s[3]]) == Step(s0, [LowHashrateAlert(300.0)] + [RecoveredAlert(420.0)]);
  }

  // ---------------------------------------------------------------------
  // The two monitoring loops

  /** The new-best notifications among `es`, in order. */
  function NewBestOnly(es: seq<Event>): (r: seq<Event>)
    ensures |r| == Count(es, BestKind)
  {
    if es == [] then []
    else if es[0].NewBestAlert? then [es[0]] + NewBestOnly(es[1..])
    else NewBestOnly(es[1..])
  }

  lemma {:induction false} NewBestOnlyConcat(a: seq<Event>, b: seq<Event>)
    ensures NewBestOnly(a + b) == NewBestOnly(a) + NewBestOnly(b)
    decreases |a|
  {
    if a == [] {
      assert a + b == b;
    } else {
      assert (a + b)[1..] == a[1..] + b;
      NewBestOnlyConcat(a[1..], b);
    }
  }

  /** NewBestOnly keeps exactly the new-best notifications. */
  lemma {:induction false} NewBestOnlyKinds(es: seq<Event>)
    ensures forall e :: e in NewBestOnly(es) <==> e in es && e.NewBestAlert?
    decreases |es|
  {
    if es != [] {
      NewBestOnlyKinds(es[1..]);
      assert es == [es[0]] + es[1..];
    }
  }

  /** The new-best notifications of one poll. */
  lemma TickNewBest(st: AlertState, snap: Snapshot)
    ensures NewBestOnly(Tick(st, snap).events)
         == if snap.Present? && st.lastBest.Some? && st.lastBest.value != snap.bestDiff
            then [NewBestAlert(snap.bestDiff)] else []
  {
    match snap
    case Unreachable =>
      NewBestOnlyAtMostOne(Tick(st, snap).events);
    case Present(best, rate, usingFallback) =>
      var b := BestStep(st.lastBest, best).1;
      var f := FallbackStep(st.fallbackAnnounced, usingFallback).1;
      var h := HashrateStep(st.lowHashrateAnnounced, rate).1;
      assert Tick(st, snap).events == b + f + h;
      NewBestOnlyConcat(b + f, h);
      NewBestOnlyConcat(b, f);
      NewBestOnlyAtMostOne(b);
      NewBestOnlyAtMostOne(f);
      NewBestOnlyAtMostOne(h);
  }

  /** At most one notification: kept exactly when it is a new-best one. */
  lemma NewBestOnlyAtMostOne(es: seq<Event>)
    requires |es| <= 1
    ensures NewBestOnly(es) == if es != [] && es[0].NewBestAlert? then es else []
  {
    if es != [] {
      assert es[1..] == [];
      assert [es[0]] + [] == es;
    }
  }

  /** One poll more at the end of a stretch. */
  lemma RunSnoc(st: AlertState, snaps: seq<Snapshot>, snap: Snapshot)
    ensures var r := Run(st, snaps);
      var t := Tick(r.state, snap);
      Run(st, snaps + [snap]) == Step(t.state, r.events + t.events)
  {
    RunConcat(st, snaps, [snap]);
    RunOne(Run(st, snaps).state, snap);
  }

  /** One poll more at the end of a prefix of the polls. */
  lemma RunPrefix(snaps: seq<Snapshot>, i: nat)
    requires i < |snaps|
    ensures var before := Run(Initial, snaps[..i]);
      var t := Tick(before.state, snaps[i]);
      Run(Initial, snaps[..i + 1]) == Step(t.state, before.events + t.events)
  {
    RunSnoc(Initial, snaps[..i], snaps[i]);
    assert snaps[..i + 1] == snaps[..i] + [snaps[i]];
  }

  /** One iteration of the running loop, in terms of the alert machine. */
  lemma MonitorChangesStep(snaps: seq<Snapshot>, i: nat)
    requires i < |snaps|
    ensures var before := Run(Initial, snaps[..i]);
      var after := Run(Initial, snaps[..i + 1]);
      && after.state.lastBest == (if snaps[i].Present? then Some(snaps[i].bestDiff) else before.state.lastBest)
      && NewBestOnly(after.events) == NewBestOnly(before.events)
           + (if snaps[i].Present? && before.state.lastBest.Some? && before.state.lastBest.value != snaps[i].bestDiff
              then [NewBestAlert(snaps[i].bestDiff)] else [])
  {
    var before := Run(Initial, snaps[..i]);
    RunPrefix(snaps, i);
    TickNewBest(before.state, snaps[i]);
    NewBestOnlyConcat(before.events, Tick(before.state, snaps[i]).events);
  }

  /** The monitoring loop as it runs: it only watches the best difficulty,
      remembers the first reading silently and announces every later change
      of its text. It sends exactly the new-best notifications of the full
      alert machine, one per change. */
  method MonitorChanges(snaps: seq<Snapshot>) returns (sent: seq<Event>)
    ensures sent == NewBestOnly(Run(Initial, snaps).events)
    ensures |sent| == BestChanges(None, snaps)
  {
    var lastBest: Option<string> := None;
    sent := [];
    var i := 0;
    while i < |snaps|
      invariant 0 <= i <= |snaps|
      invariant lastBest == Run(Initial, snaps[..i]).state.lastBest
      invariant sent == NewBestOnly(Run(Initial, snaps[..i]).events)
    {
      MonitorChangesStep(snaps, i);
      match snaps[i] {
        case Present(best, _, _) =>
          if lastBest.None? {
            lastBest := Some(best);
          } else if best != lastBest.value {
            sent := sent + [NewBestAlert(best)];
            lastBest := Some(best);
          }
        case Unreachable =>
      }
      i := i + 1;
    }
    assert snaps[..i] == snaps;
    OneAlertPerBestChange(Initial, snaps);
  }

  /** One poll of the flag-based loop, updating the four loop variables in
      the order the loop does: best difficulty, fallback, hashrate, then
      reachability. */
  method Poll(st: AlertState, snap: Snapshot) returns (next: AlertState, sent: seq<Event>)
    ensures Step(next, sent) == Tick(st, snap)
  {
    var lastBest := st.lastBest;
    var fallbackAnnounced := st.fallbackAnnounced;
    var unreachableAnnounced := st.unreachableAnnounced;
    var lowHashrateAnnounced := st.lowHashrateAnnounced;
    sent := [];
    match snap {
      case Present(best, rate, usingFallback) =>
        if lastBest.None? {
          lastBest := Some(best);
        } else if best != lastBest.value {
          sent := sent + [NewBestAlert(best)];
          lastBest := Some(best);
        }
        assert lastBest == BestStep(st.lastBest, best).0;
        assert sent == BestStep(st.lastBest, best).1;
        ghost var afterBest := sent;
        if usingFallback && !fallbackAnnounced {
          sent := sent + [FallbackAlert];
          fallbackAnnounced := true;
        }
        if !usingFallback {
          fallbackAnnounced := false;
        }
        assert fallbackAnnounced == FallbackStep(st.fallbackAnnounced, usingFallback).0;
        assert sent == afterBest + FallbackStep(st.fallbackAnnounced, usingFallback).1;
        ghost var afterFallback := sent;
        if rate < LowHashrate && !lowHashrateAnnounced {
          sent := sent + [LowHashrateAlert(rate)];
          lowHashrateAnnounced := true;
        } else if rate >= StableHashrate && lowHashrateAnnounced {
          sent := sent + [RecoveredAlert(rate)];
          lowHashrateAnnounced := false;
        }
        assert lowHashrateAnnounced == HashrateStep(st.lowHashrateAnnounced, rate).0;
        assert sent == afterFallback + HashrateStep(st.lowHashrateAnnounced, rate).1;
        unreachableAnnounced := false;
      case Unreachable =>
        if !unreachableAnnounced {
          sent := sent + [UnreachableAlert];
          unreachableAnnounced := true;
        }
        lowHashrateAnnounced := false;
    }
    next := AlertState(lastBest, fallbackAnnounced, unreachableAnnounced, lowHashrateAnnounced);
  }

  /** The running loop stays silent about a failed poll, which the
      flag-based loop announces: the one-poll run of an unreachable device. */
  lemma OutageSilentAsRunning()
    ensures Run(Initial, [Unreachable]).events == [UnreachableAlert]
    ensures NewBestOnly(Run(Initial, [Unreachable]).events) == []
  {
    assert [Unreachable][1..] == [];
    assert Run(Initial, [Unreachable]).events == [UnreachableAlert] + [];
    assert [UnreachableAlert][1..] == [];
  }

  /** The flag-based monitoring loop, with the first-reading rule of the
      running loop: it computes exactly what the alert machine computes. */
  method MonitorAll(snaps: seq<Snapshot>) returns (sent: seq<Event>, final: AlertState)
    ensures Step(final, sent) == Run(Initial, snaps)
  {
    final := Initial;
    sent := [];
    var i := 0;
    while i < |snaps|
      invariant 0 <= i <= |snaps|
      invariant Step(final, sent) == Run(Initial, snaps[..i])
    {
      RunPrefix(snaps, i);
      var tickSent;
      final, tickSent := Poll(final, snaps[i]);
      sent := sent + tickSent;
      i := i + 1;
    }
    assert snaps[..i] == snaps;
  }
}
