/** The liveness sentinel and the operator's maintenance switch (engine/store/liveness.go,
    engine/store/admin_state.go). */
module Liveness {

  datatype Mode = None | ReadOnly | Offline

  datatype Notice = Degraded | Recovered

  datatype State = State(mode: Mode, bySentinel: bool, substituted: bool, log: seq<Notice>)

  const Opened := State(None, false, false, [])

  /** What the probe found: no readable descriptor, another store's, or this store's. */
  datatype Event = Lost | Foreign | Healthy | SetMode(mode: Mode)

  function Next(s: State, e: Event): State {
    match e
    case SetMode(mode) => s.(mode := mode)
    case Healthy =>
      if !s.bySentinel || s.substituted then s else State(None, false, false, s.log + [Recovered])
    case Lost =>
      if s.mode == Offline && !s.bySentinel then s
      else State(Offline, true, s.substituted, if s.bySentinel then s.log else s.log + [Degraded])
    case Foreign =>
      if s.mode == Offline && !s.bySentinel then s
      else State(Offline, true, true, if s.substituted then s.log else s.log + [Degraded])
  }

  class Sentinel {
    var mode: Mode
    var bySentinel: bool
    var substituted: bool
    var log: seq<Notice>

    ghost function Value(): State
      reads this
    {
      State(mode, bySentinel, substituted, log)
    }

    constructor ()
      ensures Value() == Opened
    {
      mode, bySentinel, substituted, log := None, false, false, [];
    }

    method SetMaintenanceMode(m: Mode)
      modifies this
      ensures Value() == Next(old(Value()), SetMode(m))
    {
      mode := m;
    }

    method SentinelLost()
      modifies this
      ensures Value() == Next(old(Value()), Lost)
    {
      if mode == Offline && !bySentinel { return; }
      var already := bySentinel;
      mode, bySentinel := Offline, true;
      if already { return; }
      log := log + [Degraded];
    }

    method SentinelSubstituted()
      modifies this
      ensures Value() == Next(old(Value()), Foreign)
    {
      if mode == Offline && !bySentinel { return; }
      var already := substituted;
      mode, bySentinel, substituted := Offline, true, true;
      if already { return; }
      log := log + [Degraded];
    }

    method SentinelHealthy()
      modifies this
      ensures Value() == Next(old(Value()), Healthy)
    {
      if !bySentinel || substituted { return; }
      mode, bySentinel := None, false;
      log := log + [Recovered];
    }
  }

  function Exec(s: State, run: seq<Event>): State
    decreases |run|
  {
    if run == [] then s else Exec(Next(s, run[0]), run[1..])
  }

  predicate Probes(run: seq<Event>) {
    forall e :: e in run ==> !e.SetMode?
  }

  /** Recovered is only ever published right after a Degraded. */
  predicate Alternates(log: seq<Notice>) {
    forall i :: 0 <= i < |log| && log[i] == Recovered ==> i > 0 && log[i - 1] == Degraded
  }

  predicate Inv(s: State) {
    && (s.substituted ==> s.bySentinel)
    && Alternates(s.log)
    && (s.bySentinel && !s.substituted ==> s.log != [] && s.log[|s.log| - 1] == Degraded)
  }

  /** Over every sequence of probes and operator calls: substituted implies taken offline by the
      sentinel, and every recovery announced answers a degradation announced just before it. */
  lemma {:induction false} SentinelInvariant(s: State, run: seq<Event>)
    requires Inv(s)
    ensures Inv(Exec(s, run)) && s.log <= Exec(s, run).log
    decreases |run|
  {
    if run != [] { SentinelInvariant(Next(s, run[0]), run[1..]); }
  }

  /** Between any two recoveries there is a degradation. */
  lemma DegradedBetweenRecoveries(run: seq<Event>, i: nat, j: nat)
    requires i < j < |Exec(Opened, run).log|
    requires Exec(Opened, run).log[i] == Recovered && Exec(Opened, run).log[j] == Recovered
    ensures exists k :: i < k < j && Exec(Opened, run).log[k] == Degraded
  {
    SentinelInvariant(Opened, run);
    assert Exec(Opened, run).log[j - 1] == Degraded;
  }

  /** Substitution is final: the flag never clears, no recovery is announced again, and no probe
      lifts Offline; only the operator can. */
  lemma {:induction false} SubstitutionIsSticky(s: State, run: seq<Event>)
    requires Inv(s) && s.substituted
    ensures Exec(s, run).substituted && Exec(s, run).log == s.log
    ensures Probes(run) && s.mode == Offline ==> Exec(s, run).mode == Offline
    decreases |run|
  {
    if run != [] {
      assert run[0] in run && forall e :: e in run[1..] ==> e in run;
      SubstitutionIsSticky(Next(s, run[0]), run[1..]);
    }
  }

  lemma {:induction false} ProtectedOffline(s: State, run: seq<Event>)
    requires s.mode == Offline && !s.bySentinel && Probes(run)
    ensures Exec(s, run) == s
    decreases |run|
  {
    if run != [] {
      assert run[0] in run && forall e :: e in run[1..] ==> e in run;
      ProtectedOffline(Next(s, run[0]), run[1..]);
    }
  }

  /** Exactly when an Offline set by the operator survives every sequence of probes: the sentinel's
      own flag was clear at that moment, or the store had been substituted.  Setting the mode
      does not clear the flag, so otherwise the next healthy probe lifts it. */
  lemma OperatorOfflineSurvivesExactlyWhen(s: State)
    requires Inv(s)
    ensures (forall run :: Probes(run) ==> Exec(Next(s, SetMode(Offline)), run).mode == Offline) <==>
            !s.bySentinel || s.substituted
  {
    var t := Next(s, SetMode(Offline));
    if !s.bySentinel || s.substituted {
      forall run | Probes(run) ensures Exec(t, run).mode == Offline {
        if s.substituted { SubstitutionIsSticky(t, run); } else { ProtectedOffline(t, run); }
      }
    } else {
      var run := [Healthy];
      assert Probes(run) && run[1..] == [];
      assert Exec(t, run) == Next(t, Healthy);
    }
  }

  lemma {:induction false} OnlyLosses(s: State, run: seq<Event>)
    requires s.bySentinel && !s.substituted && forall e :: e in run ==> e == Lost
    ensures Exec(s, run) == s.(mode := if run == [] then s.mode else Offline)
    decreases |run|
  {
    if run != [] {
      assert run[0] in run && forall e :: e in run[1..] ==> e in run;
      OnlyLosses(Next(s, run[0]), run[1..]);
    }
  }

  /** A self-healed outage brings back the operator's mode exactly when that was None: the sentinel
      does not remember a ReadOnly it replaced. */
  lemma OutageRestoresExactlyWhen(s: State, losses: seq<Event>)
    requires Inv(s) && !s.bySentinel && s.mode != Offline && losses != [] && forall e :: e in losses ==> e == Lost
    ensures Next(Exec(s, losses), Healthy).mode == s.mode <==> s.mode == None
    ensures !Next(Exec(s, losses), Healthy).bySentinel
    ensures Next(Exec(s, losses), Healthy).log == s.log + [Degraded, Recovered]
  {
    assert losses[0] in losses && forall e :: e in losses[1..] ==> e in losses;
    OnlyLosses(Next(s, Lost), losses[1..]);
    assert s.log + [Degraded] + [Recovered] == s.log + [Degraded, Recovered];
  }

  /** The operator has taken the store offline and the sentinel has not. */
  predicate OperatorOffline(s: State) {
    s.mode == Offline && !s.bySentinel
  }

  /** A probe that finds another store's descriptor takes the store offline for good and says so once,
      unless the operator's Offline stands. */
  lemma SubstitutionExactlyWhen(s: State)
    ensures var t := Next(s, Foreign);
            && t.mode == Offline
            && (t.substituted <==> s.substituted || !OperatorOffline(s))
            && t.log == s.log + (if !s.substituted && !OperatorOffline(s) then [Degraded] else [])
            && (OperatorOffline(s) ==> t == s)
  {
  }

  /** While the store is not substituted and the operator leaves the mode alone, the last probe decides:
      the store is offline exactly when that probe did not reach it. */
  lemma {:induction false} LastProbeDecides(s: State, run: seq<Event>, last: Event)
    requires !s.substituted && !OperatorOffline(s) && last in {Lost, Healthy}
    requires forall e :: e in run ==> e in {Lost, Healthy}
    ensures var t := Next(Exec(s, run), last); (t.mode == Offline <==> last == Lost) && (last == Lost ==> t.bySentinel)
    decreases |run|
  {
    if run != [] {
      assert run[0] in run && forall e :: e in run[1..] ==> e in run;
      LastProbeDecides(Next(s, run[0]), run[1..], last);
    }
  }
}
