/** The time-driven launcher (engine/agent/scheduler.go). */
module Scheduling {
  import opened Basics

  /** Times are integers and 0 is the zero time. */
  datatype Form = Interval(every: int) | Cron(next: int -> int)

  datatype Entry = Entry(agent: string, form: Form, lastRun: int, nextDue: int, running: bool)

  /** "The first scheduled moment strictly after", or 0 when there is none. */
  ghost predicate Lawful(next: int -> int) {
    && (forall t :: next(t) == 0 || next(t) > t)
    && (forall t, u :: t <= u && (next(t) == 0 || u < next(t)) ==> next(u) == next(t))
  }

  ghost predicate Moment(next: int -> int, m: int) {
    m != 0 && next(m - 1) == m
  }

  ghost predicate ValidForm(f: Form) {
    match f
    case Interval(every) => every > 0
    case Cron(next) => Lawful(next)
  }

  ghost predicate ValidEntries(es: seq<Entry>) {
    forall i :: 0 <= i < |es| ==> ValidForm(es[i].form)
  }

  /** A moment lies in the half-open interval exactly when `next` of its start does not exceed its
      end. */
  lemma MomentBetween(next: int -> int, t: int, now: int)
    requires Lawful(next)
    ensures (exists m :: t < m <= now && Moment(next, m)) <==> next(t) != 0 && next(t) <= now
  {
    if next(t) != 0 && next(t) <= now {
      assert Moment(next, next(t));
    }
    if exists m :: t < m <= now && Moment(next, m) {
      var m :| t < m <= now && Moment(next, m);
      assert next(m - 1) == m;
    }
  }

  // ---- One entry, one tick ----

  /** What a tick makes of an entry, and whether it fires.  A running entry is skipped; a cron entry
      is armed at its first tick and, when due, moves on to the first moment after `now`. */
  function TickEntry(e: Entry, now: int): (Entry, bool) {
    if e.running then (e, false)
    else match e.form
      case Cron(next) =>
        var due := if e.nextDue == 0 then next(now) else e.nextDue;
        if due != 0 && due <= now then (e.(nextDue := next(now), running := true, lastRun := now), true)
        else (e.(nextDue := due), false)
      case Interval(every) =>
        if e.lastRun == 0 || now - e.lastRun >= every then (e.(running := true, lastRun := now), true) else (e, false)
  }

  function Ticked(es: seq<Entry>, now: int): seq<Entry>
    decreases |es|
  {
    if es == [] then [] else Ticked(es[..|es| - 1], now) + [TickEntry(es[|es| - 1], now).0]
  }

  function Due(es: seq<Entry>, now: int): seq<nat>
    decreases |es|
  {
    if es == [] then []
    else Due(es[..|es| - 1], now) + if TickEntry(es[|es| - 1], now).1 then [|es| - 1] else []
  }

  lemma {:induction false} TickedAt(es: seq<Entry>, now: int)
    ensures |Ticked(es, now)| == |es|
    ensures forall i :: 0 <= i < |es| ==> Ticked(es, now)[i] == TickEntry(es[i], now).0
    decreases |es|
  {
    if es != [] { TickedAt(es[..|es| - 1], now); }
  }

  lemma TickedNext(es: seq<Entry>, i: nat, now: int)
    requires i < |es|
    ensures Ticked(es[..i + 1], now) == Ticked(es[..i], now) + [TickEntry(es[i], now).0]
    ensures Due(es[..i + 1], now) == Due(es[..i], now) + if TickEntry(es[i], now).1 then [i] else []
  {
    assert es[..i + 1][..i] == es[..i];
  }

  lemma {:induction false} DueCounts(es: seq<Entry>, now: int, i: nat)
    ensures multiset(Due(es, now))[i] == if i < |es| && TickEntry(es[i], now).1 then 1 else 0
    decreases |es|
  {
    if es != [] { DueCounts(es[..|es| - 1], now, i); }
  }

  // ---- The imperative form ----

  class Scheduler {
    var entries: seq<Entry>
    var stopped: bool

    constructor ()
      ensures entries == [] && !stopped
    {
      entries, stopped := [], false;
    }

    /** Replace by kind: a second schedule for an agent takes the place of the first, keeps its last
        run and its in-flight run, and is armed anew. */
    method Add(agent: string, form: Form, registered: bool) returns (ok: bool)
      modifies this
      ensures ok == (registered && (form.Cron? || form.every > 0) && !stopped)
      ensures entries == if ok then Added(old(entries), agent, form) else old(entries)
      ensures stopped == old(stopped)
    {
      if !registered || (form.Interval? && form.every <= 0) || stopped { return false; }
      var i := 0;
      while i < |entries|
        invariant 0 <= i <= |entries| && entries == old(entries)
        invariant forall j :: 0 <= j < i ==> entries[j].agent != agent
      {
        if entries[i].agent == agent {
          FirstOf(entries, agent, i);
          entries := entries[i := entries[i].(form := form, nextDue := 0)];
          return true;
        }
        i := i + 1;
      }
      NoneOf(entries, agent);
      entries := entries + [Entry(agent, form, 0, 0, false)];
      ok := true;
    }

    /** The catch-up loop: one run for all the moments missed, and the next moment is the first one
        after now, whatever was missed. */
    method CatchUp(next: int -> int, due: int, now: int) returns (after: int)
      requires Lawful(next) && due <= now
      ensures after == next(now)
    {
      ghost var from := due;
      after := next(due);
      while after != 0 && after <= now
        invariant from <= now && after == next(from)
        decreases now - from
      {
        from := after;
        after := next(after);
      }
    }

    method TickOne(e: Entry, now: int) returns (r: Entry, fire: bool)
      requires ValidForm(e.form)
      ensures (r, fire) == TickEntry(e, now)
    {
      r, fire := e, false;
      if r.running { return; }
      match e.form {
        case Cron(next) =>
          if r.nextDue == 0 { r := r.(nextDue := next(now)); }
          if r.nextDue != 0 && r.nextDue <= now {
            fire := true;
            var after := CatchUp(next, r.nextDue, now);
            r := r.(nextDue := after);
          }
        case Interval(every) =>
          fire := r.lastRun == 0 || now - r.lastRun >= every;
      }
      if fire { r := r.(running := true, lastRun := now); }
    }

    method TickAll(before: seq<Entry>, now: int) returns (after: seq<Entry>, due: seq<nat>)
      requires ValidEntries(before)
      ensures after == Ticked(before, now) && due == Due(before, now)
    {
      after, due := before, [];
      var i := 0;
      while i < |before|
        invariant 0 <= i <= |before| && |Ticked(before[..i], now)| == i
        invariant after == Ticked(before[..i], now) + before[i..] && due == Due(before[..i], now)
      {
        TickedNext(before, i, now);
        Advance(Ticked(before[..i], now), before, i, TickEntry(before[i], now).0);
        var e, fire := TickOne(after[i], now);
        after := after[i := e];
        if fire { due := due + [i]; }
        i := i + 1;
      }
      assert before[..i] == before;
    }

    method Tick(now: int) returns (ok: bool, due: seq<nat>)
      requires ValidEntries(entries)
      modifies this
      ensures ok == !old(stopped) && stopped == old(stopped)
      ensures entries == if ok then Ticked(old(entries), now) else old(entries)
      ensures due == if ok then Due(old(entries), now) else []
    {
      due := [];
      if stopped { return false, []; }
      entries, due := TickAll(entries, now);
      ok := true;
    }
  }

  // ---- Add ----

  function IndexOf(es: seq<Entry>, agent: string): int
    decreases |es|
  {
    if es == [] then -1
    else if es[0].agent == agent then 0
    else var r := IndexOf(es[1..], agent); if r < 0 then -1 else r + 1
  }

  lemma {:induction false} FirstOf(es: seq<Entry>, agent: string, i: nat)
    requires i < |es| && es[i].agent == agent && forall j :: 0 <= j < i ==> es[j].agent != agent
    ensures IndexOf(es, agent) == i
    decreases |es|
  {
    if i > 0 {
      assert forall j :: 0 <= j < i - 1 ==> es[1..][j] == es[j + 1];
      FirstOf(es[1..], agent, i - 1);
    }
  }

  lemma {:induction false} NoneOf(es: seq<Entry>, agent: string)
    requires forall j :: 0 <= j < |es| ==> es[j].agent != agent
    ensures IndexOf(es, agent) == -1
    decreases |es|
  {
    if es != [] { NoneOf(es[1..], agent); }
  }

  lemma {:induction false} IndexOfFinds(es: seq<Entry>, agent: string)
    ensures var i := IndexOf(es, agent);
            if i < 0 then forall j :: 0 <= j < |es| ==> es[j].agent != agent
            else i < |es| && es[i].agent == agent && forall j :: 0 <= j < i ==> es[j].agent != agent
    decreases |es|
  {
    if es != [] {
      IndexOfFinds(es[1..], agent);
      assert forall j :: 0 < j < |es| ==> es[j] == es[1..][j - 1];
    }
  }

  function Added(es: seq<Entry>, agent: string, form: Form): (r: seq<Entry>) {
    var i := IndexOf(es, agent);
    if 0 <= i < |es| then es[i := es[i].(form := form, nextDue := 0)] else es + [Entry(agent, form, 0, 0, false)]
  }

  // ---- Runs: ticks, launches, completions and Stop ----

  /** `launching`: entries a tick has marked and not yet handed to the wait group.  `running`: runs
      the wait group counts.  `exiting`: runs that are over and have not left the wait group. */
  datatype State =
    State(entries: seq<Entry>, launching: multiset<nat>, running: multiset<nat>, exiting: nat, stopped: bool)

  datatype Event =
    | Add(agent: string, form: Form)
    | Tick(now: int)
    | Launch(i: nat)   // wg.Add and go, after the tick has released the mutex
    | Finish(i: nat)   // the run is over and clears its flag
    | Exit             // wg.Done
    | Stop

  ghost predicate Enabled(s: State, e: Event) {
    match e
    case Add(_, form) => !s.stopped && ValidForm(form)
    case Tick(now) => !s.stopped && now > 0
    case Launch(i) => i in s.launching
    case Finish(i) => i in s.running && i < |s.entries|
    case Exit => s.exiting > 0
    case Stop => true
  }

  ghost function Apply(s: State, e: Event): State
    requires Enabled(s, e)
  {
    match e
    case Add(agent, form) => s.(entries := Added(s.entries, agent, form))
    case Tick(now) => s.(entries := Ticked(s.entries, now), launching := s.launching + multiset(Due(s.entries, now)))
    case Launch(i) => s.(launching := s.launching - multiset{i}, running := s.running + multiset{i})
    case Finish(i) =>
      s.(entries := s.entries[i := s.entries[i].(running := false)],
         running := s.running - multiset{i}, exiting := s.exiting + 1)
    case Exit => s.(exiting := s.exiting - 1)
    case Stop => s.(stopped := true)
  }

  ghost predicate IsRun(s: State, run: seq<Event>)
    decreases |run|
  {
    run == [] || (Enabled(s, run[0]) && IsRun(Apply(s, run[0]), run[1..]))
  }

  ghost function Exec(s: State, run: seq<Event>): State
    requires IsRun(s, run)
    decreases |run|
  {
    if run == [] then s else Exec(Apply(s, run[0]), run[1..])
  }

  const Initial := State([], multiset{}, multiset{}, 0, false)

  ghost predicate OnePerKind(es: seq<Entry>) {
    forall i, j :: 0 <= i < j < |es| ==> es[i].agent != es[j].agent
  }

  /** An entry is marked exactly while one run of it is launching or running. */
  ghost predicate FlagsCount(s: State) {
    forall i: nat :: s.launching[i] + s.running[i] == if i < |s.entries| && s.entries[i].running then 1 else 0
  }

  ghost predicate Inv(s: State) {
    ValidEntries(s.entries) && OnePerKind(s.entries) && FlagsCount(s)
  }

  lemma TickFlagAt(s: State, now: int, i: nat)
    requires FlagsCount(s)
    ensures |Ticked(s.entries, now)| == |s.entries|
    ensures s.launching[i] + multiset(Due(s.entries, now))[i] + s.running[i] ==
            if i < |s.entries| && Ticked(s.entries, now)[i].running then 1 else 0
  {
    TickedAt(s.entries, now);
    DueCounts(s.entries, now, i);
    assert s.launching[i] + s.running[i] == if i < |s.entries| && s.entries[i].running then 1 else 0;
  }

  lemma TickKeepsFlags(s: State, now: int)
    requires FlagsCount(s)
    ensures FlagsCount(s.(entries := Ticked(s.entries, now), launching := s.launching + multiset(Due(s.entries, now))))
  {
    var es, due := Ticked(s.entries, now), multiset(Due(s.entries, now));
    forall i: nat ensures (s.launching + due)[i] + s.running[i] == if i < |es| && es[i].running then 1 else 0 {
      TickFlagAt(s, now, i);
    }
  }

  /** Entries keep their kinds; where the form changes, it is the one just added. */
  ghost predicate FormsFrom(es: seq<Entry>, fs: seq<Entry>, form: Form) {
    && |es| <= |fs|
    && (forall i :: 0 <= i < |es| ==> fs[i].agent == es[i].agent)
    && (forall i :: 0 <= i < |fs| ==> fs[i].form == form || (i < |es| && fs[i].form == es[i].form))
  }

  lemma FormsStayValid(es: seq<Entry>, fs: seq<Entry>, form: Form)
    requires ValidEntries(es) && ValidForm(form) && FormsFrom(es, fs, form)
    ensures ValidEntries(fs)
  {
    forall i | 0 <= i < |fs| ensures ValidForm(fs[i].form) {
      if i < |es| { assert ValidForm(es[i].form); }
    }
  }

  lemma TickKeepsForms(es: seq<Entry>, now: int)
    ensures FormsFrom(es, Ticked(es, now), Interval(1)) && |Ticked(es, now)| == |es|
  {
    TickedAt(es, now);
  }

  lemma AddKeepsForms(es: seq<Entry>, agent: string, form: Form)
    requires OnePerKind(es)
    ensures FormsFrom(es, Added(es, agent, form), form) && OnePerKind(Added(es, agent, form))
  {
    IndexOfFinds(es, agent);
  }

  lemma StepKeepsEntries(s: State, e: Event)
    requires ValidEntries(s.entries) && OnePerKind(s.entries) && Enabled(s, e)
    ensures ValidEntries(Apply(s, e).entries) && OnePerKind(Apply(s, e).entries)
  {
    match e {
      case Add(agent, form) =>
        AddKeepsForms(s.entries, agent, form);
        FormsStayValid(s.entries, Apply(s, e).entries, form);
      case Tick(now) =>
        TickKeepsForms(s.entries, now);
        FormsStayValid(s.entries, Apply(s, e).entries, Interval(1));
      case Finish(i) =>
        FormsStayValid(s.entries, Apply(s, e).entries, Interval(1));
      case _ =>
    }
  }

  lemma StepKeepsFlags(s: State, e: Event)
    requires FlagsCount(s) && Enabled(s, e)
    ensures FlagsCount(Apply(s, e))
  {
    match e {
      case Add(agent, form) => IndexOfFinds(s.entries, agent);
      case Tick(now) => TickKeepsFlags(s, now);
      case _ =>
    }
  }

  lemma StepKeepsInv(s: State, e: Event)
    requires Inv(s) && Enabled(s, e)
    ensures Inv(Apply(s, e))
  {
    StepKeepsEntries(s, e);
    StepKeepsFlags(s, e);
  }

  /** Over every run: one entry per agent kind, and never two runs of one kind at a time, not even
      when the schedule is replaced while a run of it is in flight. */
  lemma {:induction false} NoOverlap(s: State, run: seq<Event>)
    requires Inv(s) && IsRun(s, run)
    ensures Inv(Exec(s, run))
    ensures forall i :: Exec(s, run).launching[i] + Exec(s, run).running[i] <= 1
    ensures forall i, j :: i in Exec(s, run).running && j in Exec(s, run).running && i != j ==>
              var es := Exec(s, run).entries; i < |es| && j < |es| && es[i].agent != es[j].agent
    decreases |run|
  {
    if run != [] {
      StepKeepsInv(s, run[0]);
      NoOverlap(Apply(s, run[0]), run[1..]);
    }
  }

  // ---- Interval entries ----

  /** The step is a tick, and it hands out a run of entry i. */
  ghost predicate FiresAt(s: State, e: Event, i: nat)
    requires Enabled(s, e)
  {
    e.Tick? && Apply(s, e).launching[i] > s.launching[i]
  }

  lemma FiresMeansDue(s: State, e: Event, i: nat)
    requires Enabled(s, e)
    ensures FiresAt(s, e, i) <==> e.Tick? && i < |s.entries| && TickEntry(s.entries[i], e.now).1
  {
    if e.Tick? { DueCounts(s.entries, e.now, i); }
  }

  ghost function FireTimes(s: State, run: seq<Event>, i: nat): seq<int>
    requires IsRun(s, run)
    decreases |run|
  {
    if run == [] then []
    else (if FiresAt(s, run[0], i) then [run[0].now] else []) + FireTimes(Apply(s, run[0]), run[1..], i)
  }

  /** The time of the last run of entry i, 0 for none. */
  function LastRun(s: State, i: nat): int {
    if i < |s.entries| then s.entries[i].lastRun else 0
  }

  function LastOf(times: seq<int>, earlier: int): int {
    if times == [] then earlier else times[|times| - 1]
  }

  lemma StepKeepsLastRun(s: State, e: Event, i: nat)
    requires Enabled(s, e)
    ensures LastRun(Apply(s, e), i) == if FiresAt(s, e, i) then e.now else LastRun(s, i)
    ensures i < |s.entries| ==> i < |Apply(s, e).entries|
  {
    FiresMeansDue(s, e, i);
    if e.Tick? { TickedAt(s.entries, e.now); }
    if e.Add? { IndexOfFinds(s.entries, e.agent); }
  }

  /** Over every run, whatever schedules the entry has had: its last run is its last fire. */
  lemma {:induction false} LastRunIsLastFire(s: State, run: seq<Event>, i: nat)
    requires IsRun(s, run)
    ensures LastRun(Exec(s, run), i) == LastOf(FireTimes(s, run, i), LastRun(s, i))
    decreases |run|
  {
    if run != [] {
      var e, t, rest := run[0], Apply(s, run[0]), run[1..];
      StepKeepsLastRun(s, e, i);
      LastRunIsLastFire(t, rest, i);
      var times := FireTimes(t, rest, i);
      assert FireTimes(s, run, i) == (if FiresAt(s, e, i) then [e.now] else []) + times;
    }
  }

  /** After every run, a tick fires an interval entry exactly when no run of it is under way and it
      has not fired before, or fired last at least the interval ago. */
  lemma IntervalFiresExactlyWhen(s: State, run: seq<Event>, now: int, i: nat, every: int)
    requires Inv(s) && IsRun(s, run) && Enabled(Exec(s, run), Tick(now))
    requires i < |Exec(s, run).entries| && Exec(s, run).entries[i].form == Interval(every)
    ensures var t, last := Exec(s, run), LastOf(FireTimes(s, run, i), LastRun(s, i));
            FiresAt(t, Tick(now), i) <==>
            t.launching[i] == 0 && t.running[i] == 0 && (last == 0 || now - last >= every)
  {
    NoOverlap(s, run);
    LastRunIsLastFire(s, run, i);
    FiresMeansDue(Exec(s, run), Tick(now), i);
  }

  ghost predicate Unreplaced(run: seq<Event>, agent: string) {
    forall e :: e in run ==> !(e.Add? && e.agent == agent)
  }

  lemma KeepsForm(s: State, e: Event, i: nat)
    requires Enabled(s, e) && i < |s.entries| && !(e.Add? && e.agent == s.entries[i].agent)
    ensures i < |Apply(s, e).entries| && Apply(s, e).entries[i].agent == s.entries[i].agent
    ensures e.Tick? ==> Apply(s, e).entries[i] == TickEntry(s.entries[i], e.now).0
    ensures !e.Tick? ==> Apply(s, e).entries[i] == s.entries[i].(running := Apply(s, e).entries[i].running)
  {
    if e.Tick? { TickedAt(s.entries, e.now); }
    if e.Add? { IndexOfFinds(s.entries, e.agent); }
  }

  ghost predicate Apart(times: seq<int>, gap: int) {
    forall p, q :: 0 <= p < q < |times| ==> times[q] - times[p] >= gap
  }

  /** Apart from one another and from the last run before them, if there was one. */
  ghost predicate Spaced(times: seq<int>, last: int, gap: int) {
    Apart(times, gap) && (last != 0 ==> forall p :: 0 <= p < |times| ==> times[p] - last >= gap)
  }

  lemma OneMoreFire(now: int, rest: seq<int>, last: int, gap: int)
    requires now != 0 && gap > 0 && Spaced(rest, now, gap) && (last != 0 ==> now - last >= gap)
    ensures Spaced([now] + rest, last, gap)
  {
    var times := [now] + rest;
    forall p | 0 < p < |times| ensures times[p] - now >= gap { assert times[p] == rest[p - 1]; }
    forall p, q | 0 <= p < q < |times| ensures times[q] - times[p] >= gap {
      if p > 0 { assert times[q] == rest[q - 1] && times[p] == rest[p - 1]; }
    }
  }

  /** One step of an interval entry: it fires only when the interval has passed, and then the last
      run is now. */
  lemma IntervalStep(s: State, e: Event, i: nat, every: int)
    requires Enabled(s, e) && i < |s.entries| && s.entries[i].form == Interval(every)
    requires !(e.Add? && e.agent == s.entries[i].agent)
    ensures var t := Apply(s, e);
            && i < |t.entries| && t.entries[i].form == Interval(every) && t.entries[i].agent == s.entries[i].agent
            && t.entries[i].lastRun == (if FiresAt(s, e, i) then e.now else s.entries[i].lastRun)
    ensures FiresAt(s, e, i) ==> e.now > 0 && (s.entries[i].lastRun != 0 ==> e.now - s.entries[i].lastRun >= every)
  {
    KeepsForm(s, e, i);
    FiresMeansDue(s, e, i);
  }

  /** Any two fires of an interval entry that is not replaced are at least the interval apart,
      whatever times the owner passes to Tick and however completions interleave. */
  lemma {:induction false} FiresAreSpaced(s: State, run: seq<Event>, i: nat, every: int)
    requires IsRun(s, run) && i < |s.entries| && s.entries[i].form == Interval(every) && every > 0
    requires Unreplaced(run, s.entries[i].agent)
    ensures Spaced(FireTimes(s, run, i), s.entries[i].lastRun, every)
    decreases |run|
  {
    if run != [] {
      var e, rest := run[0], run[1..];
      assert e in run && forall f :: f in rest ==> f in run;
      var t := Apply(s, e);
      IntervalStep(s, e, i, every);
      FiresAreSpaced(t, rest, i, every);
      if FiresAt(s, e, i) {
        OneMoreFire(e.now, FireTimes(t, rest, i), s.entries[i].lastRun, every);
      } else {
        assert FireTimes(s, run, i) == [] + FireTimes(t, rest, i) == FireTimes(t, rest, i);
      }
    }
  }

  // ---- Cron entries ----

  /** The entry waits for the first moment after t. */
  ghost predicate Armed(e: Entry, next: int -> int, t: int) {
    e.form == Cron(next) && e.nextDue == next(t)
  }

  /** One tick of an armed entry that is not running: it stays armed, now from this tick on, and it
      fires exactly when a moment was passed since the last such tick. */
  lemma CronTick(e: Entry, next: int -> int, t: int, now: int)
    requires Lawful(next) && Armed(e, next, t) && t <= now && !e.running
    ensures Armed(TickEntry(e, now).0, next, now)
    ensures TickEntry(e, now).1 <==> exists m :: t < m <= now && Moment(next, m)
  {
    MomentBetween(next, t, now);
  }

  /** The first tick after Add, or after a replacement, only arms. */
  lemma ArmingTick(e: Entry, next: int -> int, now: int)
    requires Lawful(next) && e.form == Cron(next) && e.nextDue == 0 && !e.running
    ensures TickEntry(e, now) == (e.(nextDue := next(now)), false) && Armed(TickEntry(e, now).0, next, now)
  {
  }

  /** Every tick that does not find the entry running fires exactly when a moment lies between the
      last such tick and this one. */
  ghost predicate OnSchedule(s: State, run: seq<Event>, i: nat, next: int -> int, t: int)
    requires IsRun(s, run)
    decreases |run|
  {
    run == [] ||
    if run[0].Tick? && i < |s.entries| && !s.entries[i].running then
      && (FiresAt(s, run[0], i) <==> exists m :: t < m <= run[0].now && Moment(next, m))
      && OnSchedule(Apply(s, run[0]), run[1..], i, next, run[0].now)
    else !FiresAt(s, run[0], i) && OnSchedule(Apply(s, run[0]), run[1..], i, next, t)
  }

  /** The ticks of the run do not go back in time. */
  predicate Monotone(run: seq<Event>, t: int)
    decreases |run|
  {
    run == [] || if run[0].Tick? then t <= run[0].now && Monotone(run[1..], run[0].now) else Monotone(run[1..], t)
  }

  lemma {:induction false} MonotoneFrom(run: seq<Event>, t: int, u: int)
    requires Monotone(run, u) && t <= u
    ensures Monotone(run, t)
    decreases |run|
  {
    if run != [] && !run[0].Tick? { MonotoneFrom(run[1..], t, u); }
  }

  /** Over every run with a monotone clock, once armed and until replaced, a cron entry fires on
      schedule: once for any number of moments missed, never without one, and never late by more
      than the first tick that finds it idle. */
  lemma {:induction false} CronFiresOnSchedule(s: State, run: seq<Event>, i: nat, next: int -> int, t: int)
    requires Inv(s) && IsRun(s, run) && i < |s.entries| && Armed(s.entries[i], next, t)
    requires Unreplaced(run, s.entries[i].agent) && Monotone(run, t)
    ensures OnSchedule(s, run, i, next, t)
    decreases |run|
  {
    if run != [] {
      var e := run[0];
      assert e in run && forall f :: f in run[1..] ==> f in run;
      KeepsForm(s, e, i);
      StepKeepsInv(s, e);
      assert ValidForm(s.entries[i].form);
      FiresMeansDue(s, e, i);
      if e.Tick? && !s.entries[i].running {
        CronTick(s.entries[i], next, t, e.now);
        CronFiresOnSchedule(Apply(s, e), run[1..], i, next, e.now);
      } else {
        if e.Tick? { MonotoneFrom(run[1..], t, e.now); }
        CronFiresOnSchedule(Apply(s, e), run[1..], i, next, t);
      }
    }
  }

  /** From Add on: nothing fires before the first tick that finds the entry idle, that tick only arms
      it, and from then on it fires on schedule. */
  ghost predicate ArmsThenOnSchedule(s: State, run: seq<Event>, i: nat, next: int -> int)
    requires IsRun(s, run)
    decreases |run|
  {
    if run == [] then true
    else if FiresAt(s, run[0], i) then false
    else if run[0].Tick? && i < |s.entries| && !s.entries[i].running
    then OnSchedule(Apply(s, run[0]), run[1..], i, next, run[0].now)
    else ArmsThenOnSchedule(Apply(s, run[0]), run[1..], i, next)
  }

  lemma {:induction false} UnarmedOnSchedule(s: State, run: seq<Event>, i: nat, next: int -> int, t: int)
    requires Inv(s) && IsRun(s, run) && i < |s.entries| && s.entries[i].form == Cron(next) && s.entries[i].nextDue == 0
    requires Unreplaced(run, s.entries[i].agent) && Monotone(run, t)
    ensures ArmsThenOnSchedule(s, run, i, next)
    decreases |run|
  {
    if run != [] {
      var e, rest := run[0], run[1..];
      assert e in run && forall f :: f in rest ==> f in run;
      KeepsForm(s, e, i);
      StepKeepsInv(s, e);
      assert ValidForm(s.entries[i].form);
      FiresMeansDue(s, e, i);
      var u := Apply(s, e);
      if e.Tick? && !s.entries[i].running {
        ArmingTick(s.entries[i], next, e.now);
        CronFiresOnSchedule(u, rest, i, next, e.now);
      } else {
        if e.Tick? { MonotoneFrom(rest, t, e.now); }
        UnarmedOnSchedule(u, rest, i, next, t);
      }
    }
  }

  lemma AddedAt(es: seq<Entry>, agent: string, form: Form)
    ensures var fs := Added(es, agent, form); var i := IndexOf(fs, agent);
            0 <= i < |fs| && fs[i].agent == agent && fs[i].form == form && fs[i].nextDue == 0
  {
    IndexOfFinds(es, agent);
    var i, fs := IndexOf(es, agent), Added(es, agent, form);
    FirstOf(fs, agent, if i < 0 then |es| else i);
  }

  /** The whole life of a cron schedule: whether it is new or replaces one, and whether or not a run
      of the agent is in flight, from Add until it is replaced. */
  lemma CronFromAddOn(s: State, agent: string, next: int -> int, run: seq<Event>)
    requires Inv(s) && Enabled(s, Add(agent, Cron(next))) && IsRun(Apply(s, Add(agent, Cron(next))), run)
    requires Unreplaced(run, agent) && Monotone(run, 0)
    ensures var t := Apply(s, Add(agent, Cron(next))); var i := IndexOf(t.entries, agent);
            0 <= i < |t.entries| && t.entries[i].agent == agent && ArmsThenOnSchedule(t, run, i, next)
  {
    var t := Apply(s, Add(agent, Cron(next)));
    AddedAt(s.entries, agent, Cron(next));
    StepKeepsInv(s, Add(agent, Cron(next)));
    UnarmedOnSchedule(t, run, IndexOf(t.entries, agent), next, 0);
  }

  // ---- Stop ----

  /** The wait of the Stop call that performed the stop is over. */
  ghost predicate StopMayReturn(s: State) {
    s.stopped && s.running == multiset{} && s.exiting == 0
  }

  lemma {:induction false} QuietStaysQuiet(s: State, run: seq<Event>)
    requires Inv(s) && StopMayReturn(s) && s.launching == multiset{} && IsRun(s, run)
    ensures Exec(s, run).running == multiset{} && Exec(s, run).launching == multiset{}
    decreases |run|
  {
    if run != [] {
      StepKeepsInv(s, run[0]);
      QuietStaysQuiet(Apply(s, run[0]), run[1..]);
    }
  }

  lemma LaunchRuns(s: State, i: nat)
    requires i in s.launching
    ensures IsRun(s, [Launch(i)]) && i in Exec(s, [Launch(i)]).running
  {
    var t, run := Apply(s, Launch(i)), [Launch(i)];
    assert run[0] == Launch(i) && run[1..] == [];
    assert IsRun(t, []) && Exec(t, []) == t;
    assert IsRun(s, run) && Exec(s, run) == t;
  }

  /** Exactly when Stop's nil means quiescence: no tick is between releasing the mutex and its
      wg.Add calls.  Otherwise a run starts after Stop has returned. */
  lemma StopIsFinalExactlyWhen(s: State)
    requires Inv(s) && StopMayReturn(s)
    ensures s.launching == multiset{} <==> forall run :: IsRun(s, run) ==> Exec(s, run).running == multiset{}
  {
    if s.launching == multiset{} {
      forall run | IsRun(s, run) ensures Exec(s, run).running == multiset{} { QuietStaysQuiet(s, run); }
    } else {
      var i :| i in s.launching;
      LaunchRuns(s, i);
    }
  }

  lemma FirstTick()
    ensures var e := Entry("gc", Interval(1), 0, 0, false);
            && Added([], "gc", Interval(1)) == [e]
            && Ticked([e], 1) == [e.(lastRun := 1, running := true)] && Due([e], 1) == [0]
  {
    var e := Entry("gc", Interval(1), 0, 0, false);
    assert [e][..0] == [];
  }

  /** And that state is reachable: Add, Tick, Stop before the launch. */
  lemma StopCanMissARun()
    ensures exists run ::
              && IsRun(Initial, run) && StopMayReturn(Exec(Initial, run))
              && Exec(Initial, run).launching != multiset{}
  {
    FirstTick();
    var add, tick := Add("gc", Interval(1)), Tick(1);
    var run := [add, tick, Stop];
    assert run[1..] == [tick, Stop] && [tick, Stop][1..] == [Stop] && [Stop][1..] == [];
    var e := Entry("gc", Interval(1), 0, 0, false);
    var s1 := State([e], multiset{}, multiset{}, 0, false);
    var s2 := State([e.(lastRun := 1, running := true)], multiset{0}, multiset{}, 0, false);
    var s3 := s2.(stopped := true);
    assert Enabled(Initial, add) && Apply(Initial, add) == s1;
    assert Enabled(s1, tick) && Apply(s1, tick) == s2;
    assert IsRun(s2, [Stop]) && Exec(s2, [Stop]) == s3;
    assert IsRun(s1, [tick, Stop]) && Exec(s1, [tick, Stop]) == s3;
    assert IsRun(Initial, run) && Exec(Initial, run) == s3;
  }

  function Launches(run: seq<Event>): nat {
    if run == [] then 0 else (if run[0].Launch? then 1 else 0) + Launches(run[1..])
  }

  function Exits(run: seq<Event>): nat {
    if run == [] then 0 else (if run[0].Exit? then 1 else 0) + Exits(run[1..])
  }

  /** What Stop waits for: over every run, the runs that are launched and have not left. */
  lemma {:induction false} WaitGroupCounts(s: State, run: seq<Event>)
    requires IsRun(s, run)
    ensures |Exec(s, run).running| + Exec(s, run).exiting + Exits(run) == |s.running| + s.exiting + Launches(run)
    decreases |run|
  {
    if run != [] { WaitGroupCounts(Apply(s, run[0]), run[1..]); }
  }

  lemma StepFirst(s: State, e: Event, rest: seq<Event>)
    requires Enabled(s, e) && IsRun(Apply(s, e), rest)
    ensures IsRun(s, [e] + rest) && Exec(s, [e] + rest) == Exec(Apply(s, e), rest)
  {
    assert ([e] + rest)[1..] == rest;
  }

  /** From every state Stop can return, without another tick. */
  lemma StopCanReturn(s: State) returns (run: seq<Event>)
    requires Inv(s)
    ensures Enabled(s, Stop) && IsRun(Apply(s, Stop), run) && StopMayReturn(Exec(Apply(s, Stop), run))
  {
    StepKeepsInv(s, Stop);
    run := RunsOut(Apply(s, Stop));
  }

  lemma {:induction false} RunsOut(s: State) returns (run: seq<Event>)
    requires Inv(s) && s.stopped
    ensures IsRun(s, run) && StopMayReturn(Exec(s, run))
    decreases |s.launching|, |s.running|, s.exiting
  {
    if StopMayReturn(s) {
      run := [];
    } else {
      var e: Event;
      if i :| i in s.launching {
        e := Launch(i);
      } else if i :| i in s.running {
        assert s.launching[i] + s.running[i] == if i < |s.entries| && s.entries[i].running then 1 else 0;
        e := Finish(i);
      } else {
        e := Exit;
      }
      StepKeepsInv(s, e);
      run := RunsOut(Apply(s, e));
      StepFirst(s, e, run);
      run := [e] + run;
    }
  }
}
