/** The event-driven launcher (engine/agent/event_runner.go): per rule, run an agent at every Nth
    event of a type. */
module EventRunning {
  import opened Basics

  datatype Rule = Rule(eventType: string, every: int, kind: string, count: int, running: bool)

  // ---- One rule, one event ----

  /** What a delivered event makes of a rule, and whether it fires.  A threshold reached while the
      rule is running starts a new window and is not queued. */
  function Counted(r: Rule, eventType: string): (Rule, bool) {
    if r.eventType != eventType then (r, false)
    else if r.count + 1 < r.every then (r.(count := r.count + 1), false)
    else if r.running then (r.(count := 0), false)
    else (r.(count := 0, running := true), true)
  }

  function CountedAll(rs: seq<Rule>, eventType: string): seq<Rule>
    decreases |rs|
  {
    if rs == [] then [] else CountedAll(rs[..|rs| - 1], eventType) + [Counted(rs[|rs| - 1], eventType).0]
  }

  function Due(rs: seq<Rule>, eventType: string): seq<nat>
    decreases |rs|
  {
    if rs == [] then []
    else Due(rs[..|rs| - 1], eventType) + if Counted(rs[|rs| - 1], eventType).1 then [|rs| - 1] else []
  }

  lemma {:induction false} CountedAt(rs: seq<Rule>, eventType: string)
    ensures |CountedAll(rs, eventType)| == |rs|
    ensures forall i :: 0 <= i < |rs| ==> CountedAll(rs, eventType)[i] == Counted(rs[i], eventType).0
    decreases |rs|
  {
    if rs != [] { CountedAt(rs[..|rs| - 1], eventType); }
  }

  lemma CountedNext(rs: seq<Rule>, i: nat, eventType: string)
    requires i < |rs|
    ensures CountedAll(rs[..i + 1], eventType) == CountedAll(rs[..i], eventType) + [Counted(rs[i], eventType).0]
    ensures Due(rs[..i + 1], eventType) == Due(rs[..i], eventType) + if Counted(rs[i], eventType).1 then [i] else []
  {
    assert rs[..i + 1][..i] == rs[..i];
  }

  lemma {:induction false} DueCounts(rs: seq<Rule>, eventType: string, i: nat)
    ensures multiset(Due(rs, eventType))[i] == if i < |rs| && Counted(rs[i], eventType).1 then 1 else 0
    decreases |rs|
  {
    if rs != [] { DueCounts(rs[..|rs| - 1], eventType, i); }
  }

  // ---- The imperative form ----

  class EventRunner {
    var rules: seq<Rule>
    var wg: nat
    var stopped: bool

    constructor ()
      ensures rules == [] && wg == 0 && !stopped
    {
      rules, wg, stopped := [], 0, false;
    }

    method On(eventType: string, every: int, kind: string, registered: bool) returns (ok: bool)
      modifies this
      ensures ok == (eventType != "" && every > 0 && registered && !old(stopped))
      ensures rules == if ok then old(rules) + [Rule(eventType, every, kind, 0, false)] else old(rules)
      ensures wg == old(wg) && stopped == old(stopped)
    {
      if eventType == "" || every <= 0 || !registered || stopped { return false; }
      rules := rules + [Rule(eventType, every, kind, 0, false)];
      ok := true;
    }

    method CountOne(r: Rule, eventType: string) returns (rule: Rule, fire: bool)
      ensures (rule, fire) == Counted(r, eventType)
    {
      rule, fire := r, false;
      if rule.eventType != eventType { return; }
      rule := rule.(count := rule.count + 1);
      if rule.count < rule.every { return; }
      rule := rule.(count := 0);
      if rule.running { return; }
      rule, fire := rule.(running := true), true;
    }

    method CountAll(before: seq<Rule>, eventType: string) returns (after: seq<Rule>, due: seq<nat>)
      ensures after == CountedAll(before, eventType) && due == Due(before, eventType)
    {
      after, due := before, [];
      var i := 0;
      while i < |before|
        invariant 0 <= i <= |before| && |CountedAll(before[..i], eventType)| == i
        invariant after == CountedAll(before[..i], eventType) + before[i..] && due == Due(before[..i], eventType)
      {
        CountedNext(before, i, eventType);
        Advance(CountedAll(before[..i], eventType), before, i, Counted(before[i], eventType).0);
        var rule, fire := CountOne(after[i], eventType);
        after := after[i := rule];
        if fire { due := due + [i]; }
        i := i + 1;
      }
      assert before[..i] == before;
    }

    /** The section under the mutex: every due run enters the wait group before the mutex is given
        up. */
    method OnEvent(eventType: string) returns (due: seq<nat>)
      modifies this
      ensures rules == if old(stopped) then old(rules) else CountedAll(old(rules), eventType)
      ensures due == if old(stopped) then [] else Due(old(rules), eventType)
      ensures wg == old(wg) + |due| && stopped == old(stopped)
    {
      due := [];
      if stopped { return; }
      rules, due := CountAll(rules, eventType);
      if |due| > 0 { wg := wg + |due|; }
    }
  }

  // ---- Runs: deliveries, completions and Stop in any order ----

  /** `spawning`: due runs in the wait group whose goroutine has not started.  `running`: runs in
      flight.  `exiting`: runs that are over and have not left the wait group. */
  datatype State =
    State(rules: seq<Rule>, wg: nat, spawning: multiset<nat>, running: multiset<nat>, exiting: nat, stopped: bool)

  datatype Event =
    | On(eventType: string, every: int, kind: string)
    | Deliver(eventType: string)
    | Spawn(i: nat)
    | Finish(i: nat)
    | Exit
    | Stop

  predicate Enabled(s: State, e: Event) {
    match e
    case On(eventType, every, _) => eventType != "" && every > 0 && !s.stopped
    case Deliver(_) => true
    case Spawn(i) => i in s.spawning
    case Finish(i) => i in s.running && i < |s.rules|
    case Exit => s.exiting > 0 && s.wg > 0
    case Stop => true
  }

  function Apply(s: State, e: Event): State
    requires Enabled(s, e)
  {
    match e
    case On(eventType, every, kind) => s.(rules := s.rules + [Rule(eventType, every, kind, 0, false)])
    case Deliver(eventType) =>
      if s.stopped then s
      else
        var due := Due(s.rules, eventType);
        s.(rules := CountedAll(s.rules, eventType), wg := s.wg + |due|, spawning := s.spawning + multiset(due))
    case Spawn(i) => s.(spawning := s.spawning - multiset{i}, running := s.running + multiset{i})
    case Finish(i) =>
      s.(rules := s.rules[i := s.rules[i].(running := false)],
         running := s.running - multiset{i}, exiting := s.exiting + 1)
    case Exit => s.(wg := s.wg - 1, exiting := s.exiting - 1)
    case Stop => s.(stopped := true)
  }

  predicate IsRun(s: State, run: seq<Event>)
    decreases |run|
  {
    run == [] || (Enabled(s, run[0]) && IsRun(Apply(s, run[0]), run[1..]))
  }

  function Exec(s: State, run: seq<Event>): State
    requires IsRun(s, run)
    decreases |run|
  {
    if run == [] then s else Exec(Apply(s, run[0]), run[1..])
  }

  const Initial := State([], 0, multiset{}, multiset{}, 0, false)

  ghost predicate FlagsCount(s: State) {
    forall i: nat :: s.spawning[i] + s.running[i] == if i < |s.rules| && s.rules[i].running then 1 else 0
  }

  ghost predicate InWindow(s: State) {
    forall i :: 0 <= i < |s.rules| ==> 0 <= s.rules[i].count < s.rules[i].every
  }

  /** A rule is marked exactly while one run of it is spawning or running, and the wait group counts
      every run that has not left. */
  ghost predicate Inv(s: State) {
    FlagsCount(s) && InWindow(s) && s.wg == |s.spawning| + |s.running| + s.exiting
  }

  lemma DeliverFlagAt(s: State, eventType: string, i: nat)
    requires FlagsCount(s)
    ensures |CountedAll(s.rules, eventType)| == |s.rules|
    ensures s.spawning[i] + multiset(Due(s.rules, eventType))[i] + s.running[i] ==
            if i < |s.rules| && CountedAll(s.rules, eventType)[i].running then 1 else 0
  {
    CountedAt(s.rules, eventType);
    DueCounts(s.rules, eventType, i);
    assert s.spawning[i] + s.running[i] == if i < |s.rules| && s.rules[i].running then 1 else 0;
  }

  lemma DeliverKeepsFlags(s: State, eventType: string)
    requires FlagsCount(s)
    ensures FlagsCount(s.(rules := CountedAll(s.rules, eventType), wg := s.wg + |Due(s.rules, eventType)|,
                          spawning := s.spawning + multiset(Due(s.rules, eventType))))
  {
    var rs, due := CountedAll(s.rules, eventType), multiset(Due(s.rules, eventType));
    forall i: nat ensures (s.spawning + due)[i] + s.running[i] == if i < |rs| && rs[i].running then 1 else 0 {
      DeliverFlagAt(s, eventType, i);
    }
  }

  lemma StepKeepsFlags(s: State, e: Event)
    requires FlagsCount(s) && Enabled(s, e)
    ensures FlagsCount(Apply(s, e))
  {
    if e.Deliver? { DeliverKeepsFlags(s, e.eventType); }
  }

  lemma StepKeepsWindow(s: State, e: Event)
    requires InWindow(s) && Enabled(s, e)
    ensures InWindow(Apply(s, e))
  {
    var t := Apply(s, e);
    if e.Deliver? { CountedAt(s.rules, e.eventType); }
    forall i | 0 <= i < |t.rules| ensures 0 <= t.rules[i].count < t.rules[i].every {
      if i < |s.rules| { KeepsWindowAt(s, e, i); }
    }
  }

  lemma KeepsWindowAt(s: State, e: Event, i: nat)
    requires Enabled(s, e) && i < |s.rules| && 0 <= s.rules[i].count < s.rules[i].every
    ensures i < |Apply(s, e).rules| && 0 <= Apply(s, e).rules[i].count < Apply(s, e).rules[i].every
  {
    KeepsRule(s, e, i);
    if e.Deliver? { RuleCounts(s.rules[i], e.eventType); }
  }

  lemma StepKeepsInv(s: State, e: Event)
    requires Inv(s) && Enabled(s, e)
    ensures Inv(Apply(s, e))
  {
    StepKeepsFlags(s, e);
    StepKeepsWindow(s, e);
  }

  lemma {:induction false} RunKeepsInv(s: State, run: seq<Event>)
    requires Inv(s) && IsRun(s, run)
    ensures Inv(Exec(s, run))
    ensures forall i: nat :: Exec(s, run).spawning[i] + Exec(s, run).running[i] <= 1
    decreases |run|
  {
    if run != [] {
      StepKeepsInv(s, run[0]);
      RunKeepsInv(Apply(s, run[0]), run[1..]);
    }
  }

  // ---- Stop ----

  /** The wait of the Stop call that performed the stop is over. */
  predicate StopMayReturn(s: State) {
    s.stopped && s.wg == 0
  }

  lemma {:induction false} QuietStaysQuiet(s: State, run: seq<Event>)
    requires Inv(s) && StopMayReturn(s) && IsRun(s, run)
    ensures Exec(s, run) == s && s.running == multiset{} && s.spawning == multiset{}
    decreases |run|
  {
    if run != [] { QuietStaysQuiet(Apply(s, run[0]), run[1..]); }
  }

  /** Whatever the interleaving of deliveries, completions and Stop: when the Stop that performed the
      stop returns nil, no run is in flight, none is about to start, and none ever starts. */
  lemma StopIsFinal(before: seq<Event>, after: seq<Event>)
    requires IsRun(Initial, before) && StopMayReturn(Exec(Initial, before)) && IsRun(Exec(Initial, before), after)
    ensures var s := Exec(Initial, before);
            s.running == multiset{} && s.spawning == multiset{} && Exec(s, after) == s
  {
    RunKeepsInv(Initial, before);
    QuietStaysQuiet(Exec(Initial, before), after);
  }

  // ---- Counting ----

  /** Deliveries that reach the rules. */
  ghost function Matches(s: State, run: seq<Event>, eventType: string): nat
    requires IsRun(s, run)
    decreases |run|
  {
    if run == [] then 0
    else (if run[0] == Deliver(eventType) && !s.stopped then 1 else 0) + Matches(Apply(s, run[0]), run[1..], eventType)
  }

  predicate FiresAt(s: State, e: Event, i: nat) {
    e.Deliver? && !s.stopped && i < |s.rules| && Counted(s.rules[i], e.eventType).1
  }

  predicate SkipsAt(s: State, e: Event, i: nat) {
    && e.Deliver? && !s.stopped && i < |s.rules| && s.rules[i].eventType == e.eventType
    && s.rules[i].count + 1 >= s.rules[i].every && s.rules[i].running
  }

  /** 1 when the step reaches the rule's threshold. */
  function Reached(s: State, e: Event, i: nat): nat {
    if FiresAt(s, e, i) || SkipsAt(s, e, i) then 1 else 0
  }

  ghost function Fires(s: State, run: seq<Event>, i: nat): nat
    requires IsRun(s, run)
    decreases |run|
  {
    if run == [] then 0 else (if FiresAt(s, run[0], i) then 1 else 0) + Fires(Apply(s, run[0]), run[1..], i)
  }

  ghost function Skips(s: State, run: seq<Event>, i: nat): nat
    requires IsRun(s, run)
    decreases |run|
  {
    if run == [] then 0 else (if SkipsAt(s, run[0], i) then 1 else 0) + Skips(Apply(s, run[0]), run[1..], i)
  }

  lemma KeepsRule(s: State, e: Event, i: nat)
    requires Enabled(s, e) && i < |s.rules|
    ensures i < |Apply(s, e).rules|
    ensures e.Deliver? && !s.stopped ==> Apply(s, e).rules[i] == Counted(s.rules[i], e.eventType).0
    ensures !(e.Deliver? && !s.stopped) ==> Apply(s, e).rules[i] == s.rules[i].(running := Apply(s, e).rules[i].running)
  {
    if e.Deliver? { CountedAt(s.rules, e.eventType); }
  }

  lemma RuleCounts(r: Rule, eventType: string)
    requires 0 <= r.count < r.every
    ensures var c := Counted(r, eventType).0; var hit := r.eventType == eventType;
            && c.every == r.every && c.eventType == r.eventType
            && r.count + (if hit then 1 else 0) == (if hit && r.count + 1 >= r.every then r.every else 0) + c.count
    ensures Counted(r, eventType).1 <==> r.eventType == eventType && r.count + 1 >= r.every && !r.running
  {
  }

  lemma StepCounts(s: State, e: Event, i: nat)
    requires InWindow(s) && Enabled(s, e) && i < |s.rules|
    ensures i < |Apply(s, e).rules|
    ensures Apply(s, e).rules[i].every == s.rules[i].every && Apply(s, e).rules[i].eventType == s.rules[i].eventType
    ensures s.rules[i].count + (if e == Deliver(s.rules[i].eventType) && !s.stopped then 1 else 0) ==
            (if Reached(s, e, i) == 1 then s.rules[i].every else 0) + Apply(s, e).rules[i].count
  {
    KeepsRule(s, e, i);
    if e.Deliver? { RuleCounts(s.rules[i], e.eventType); }
  }

  /** The events used up by the thresholds reached. */
  ghost function Spent(s: State, run: seq<Event>, i: nat, every: int): int
    requires IsRun(s, run)
    decreases |run|
  {
    if run == [] then 0
    else (if Reached(s, run[0], i) == 1 then every else 0) + Spent(Apply(s, run[0]), run[1..], i, every)
  }

  ghost function Thresholds(s: State, run: seq<Event>, i: nat): nat
    requires IsRun(s, run)
    decreases |run|
  {
    if run == [] then 0 else Reached(s, run[0], i) + Thresholds(Apply(s, run[0]), run[1..], i)
  }

  lemma {:induction false} EachFiredOrSkipped(s: State, run: seq<Event>, i: nat)
    requires IsRun(s, run)
    ensures Thresholds(s, run, i) == Fires(s, run, i) + Skips(s, run, i)
    decreases |run|
  {
    if run != [] {
      ReachedOnce(s, run[0], i);
      EachFiredOrSkipped(Apply(s, run[0]), run[1..], i);
    }
  }

  lemma {:induction false} SpentPerThreshold(s: State, run: seq<Event>, i: nat, every: int)
    requires IsRun(s, run)
    ensures Spent(s, run, i, every) == every * Thresholds(s, run, i)
    decreases |run|
  {
    if run != [] {
      SpentPerThreshold(Apply(s, run[0]), run[1..], i, every);
      Distribute(every, Reached(s, run[0], i), Thresholds(Apply(s, run[0]), run[1..], i));
    }
  }

  lemma ReachedOnce(s: State, e: Event, i: nat)
    ensures Reached(s, e, i) == (if FiresAt(s, e, i) then 1 else 0) + (if SkipsAt(s, e, i) then 1 else 0)
  {
  }

  lemma Distribute(n: int, a: nat, b: int)
    requires a <= 1
    ensures n * (a + b) == (if a == 1 then n else 0) + n * b
  {
  }

  lemma {:induction false} NothingUncounted(s: State, run: seq<Event>, i: nat)
    requires InWindow(s) && IsRun(s, run) && i < |s.rules|
    ensures i < |Exec(s, run).rules| && 0 <= Exec(s, run).rules[i].count < s.rules[i].every
    ensures s.rules[i].count + Matches(s, run, s.rules[i].eventType) ==
            Spent(s, run, i, s.rules[i].every) + Exec(s, run).rules[i].count
    decreases |run|
  {
    if run != [] {
      StepCounts(s, run[0], i);
      StepKeepsWindow(s, run[0]);
      NothingUncounted(Apply(s, run[0]), run[1..], i);
    }
  }

  /** Threshold counting is exact over every run: the events delivered for a rule are its window,
      plus `every` for each threshold reached, and each threshold either fired or was skipped
      because the rule was running. */
  lemma ThresholdsAreExact(s: State, run: seq<Event>, i: nat)
    requires InWindow(s) && IsRun(s, run) && i < |s.rules|
    ensures i < |Exec(s, run).rules| && 0 <= Exec(s, run).rules[i].count < s.rules[i].every
    ensures s.rules[i].count + Matches(s, run, s.rules[i].eventType) ==
            s.rules[i].every * (Fires(s, run, i) + Skips(s, run, i)) + Exec(s, run).rules[i].count
  {
    NothingUncounted(s, run, i);
    SpentPerThreshold(s, run, i, s.rules[i].every);
    EachFiredOrSkipped(s, run, i);
  }

  /** From On on: the new rule has seen nothing, and every event of its type from then on counts. */
  lemma CountsFromOn(s: State, eventType: string, every: int, kind: string, run: seq<Event>)
    requires Inv(s) && Enabled(s, On(eventType, every, kind)) && IsRun(Apply(s, On(eventType, every, kind)), run)
    ensures var t, i := Apply(s, On(eventType, every, kind)), |s.rules|;
            && i < |Exec(t, run).rules| && 0 <= Exec(t, run).rules[i].count < every
            && Matches(t, run, eventType) == every * (Fires(t, run, i) + Skips(t, run, i)) + Exec(t, run).rules[i].count
  {
    StepKeepsInv(s, On(eventType, every, kind));
    ThresholdsAreExact(Apply(s, On(eventType, every, kind)), run, |s.rules|);
  }

  lemma StepFirst(s: State, e: Event, rest: seq<Event>)
    requires Enabled(s, e) && IsRun(Apply(s, e), rest)
    ensures IsRun(s, [e] + rest) && Exec(s, [e] + rest) == Exec(Apply(s, e), rest)
  {
    assert ([e] + rest)[1..] == rest;
  }

  /** From every state Stop can return, whatever runs are under way. */
  lemma StopCanReturn(s: State) returns (run: seq<Event>)
    requires Inv(s)
    ensures IsRun(Apply(s, Stop), run) && StopMayReturn(Exec(Apply(s, Stop), run))
  {
    StepKeepsInv(s, Stop);
    run := RunsOut(Apply(s, Stop));
  }

  lemma {:induction false} RunsOut(s: State) returns (run: seq<Event>)
    requires Inv(s) && s.stopped
    ensures IsRun(s, run) && StopMayReturn(Exec(s, run))
    decreases |s.spawning|, |s.running|, s.exiting
  {
    if StopMayReturn(s) {
      run := [];
    } else {
      var e: Event;
      if i :| i in s.spawning {
        e := Spawn(i);
      } else if i :| i in s.running {
        assert s.spawning[i] + s.running[i] == if i < |s.rules| && s.rules[i].running then 1 else 0;
        e := Finish(i);
      } else {
        assert s.spawning == multiset{} && s.running == multiset{};
        e := Exit;
      }
      StepKeepsInv(s, e);
      run := RunsOut(Apply(s, e));
      StepFirst(s, e, run);
      run := [e] + run;
    }
  }
}
