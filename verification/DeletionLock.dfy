/** The lock on the deletion policy (engine/store/admin_config.go): once a store is locked at NoDelete,
    no update is to drop that policy.  Each call checks the configuration its host has in memory, which
    is not always the latest one. */
module DeletionLock {
  import opened ConfigVersions
  import opened StoreConfig

  ghost predicate Locked(c: Config) {
    Get(c, DeletionPolicyLock) == Flag(true)
  }

  ghost predicate NoDelete(c: Config) {
    Get(c, DeletionPolicy) == Text("NoDelete")
  }

  function Latest(s: State): Config
    requires s.versions != []
  {
    s.versions[|s.versions| - 1]
  }

  // ---- Reached states ----

  ghost predicate AllValid(s: State) {
    forall cfg :: IsCopy(s, cfg) ==> Valid(cfg)
  }

  /** Calls name hosts there are, and one that has scanned holds its host's mutex, alone. */
  ghost predicate Placed(s: State) {
    && (forall i :: 0 <= i < |s.calls| && !s.calls[i].Over? ==> s.calls[i].h < |s.hosts|)
    && (forall i :: 0 <= i < |s.calls| && s.calls[i].Scanned? ==> s.hosts[s.calls[i].h].locked)
    && (forall i, j :: 0 <= i < |s.calls| && 0 <= j < |s.calls| && s.calls[i].Scanned? && s.calls[j].Scanned? ==>
          s.calls[i].h == s.calls[j].h ==> i == j)
  }

  lemma StepKeepsPlaced(s: State, e: Event)
    requires Placed(s) && Enabled(s, e)
    ensures Placed(Apply(s, e))
  {
    var t := Apply(s, e);
    assert |s.hosts| <= |t.hosts|;
    forall i | 0 <= i < |t.calls| && t.calls[i].Scanned?
      ensures t.calls[i].h < |t.hosts| && t.hosts[t.calls[i].h].locked
    {
      assert i < |s.calls|;
      if e.Claim? && i != e.i { assert s.calls[i].h != s.calls[e.i].h; }
    }
  }

  /** What every state reached from a valid configuration satisfies. */
  ghost predicate Sound(s: State) {
    Inv(s) && AllDefaulted(s) && AllValid(s) && Placed(s)
  }

  lemma PersistedStaysValid(c: Config)
    requires Valid(c)
    ensures Valid(Persisted(c))
  {
    forall f: Field ensures Check(f, Get(Persisted(c), f)) { assert Check(f, Get(c, f)); }
  }

  lemma StepKeepsValid(s: State, e: Event)
    requires Sound(s) && Enabled(s, e)
    ensures AllValid(Apply(s, e))
  {
    assert IsCopy(s, Latest(s));
    forall cfg | IsCopy(Apply(s, e), cfg) ensures Valid(cfg) {
      StepCopies(s, e, cfg);
      if r :| IsCopy(s, r) && cfg == Persisted(r) { PersistedStaysValid(r); }
    }
  }

  lemma StepKeepsSound(s: State, e: Event)
    requires Sound(s) && Enabled(s, e)
    ensures Sound(Apply(s, e))
  {
    StepKeepsInv(s, e);
    StepKeepsDefaulted(s, e);
    StepKeepsValid(s, e);
    StepKeepsPlaced(s, e);
  }

  lemma {:induction false} RunKeepsSound(s: State, run: seq<Event>)
    requires Sound(s) && IsRun(s, run)
    ensures Sound(Exec(s, run))
    decreases |run|
  {
    if run != [] {
      StepKeepsSound(s, run[0]);
      RunKeepsSound(Apply(s, run[0]), run[1..]);
    }
  }

  lemma CreatedIsSound(cfg: Config)
    requires Valid(Defaulted(cfg))
    ensures Sound(Created(cfg))
  {
    CreatedIsConsistent(cfg);
    CreatedIsDefaulted(cfg);
    PersistedStaysValid(Defaulted(cfg));
  }

  // ---- When the lock holds ----

  /** Every update of the run asks for the lock to stay. */
  ghost predicate KeepsLock(run: seq<Event>) {
    forall e :: e in run && e.Update? ==> Locked(Defaulted(e.cfg))
  }

  /** Where the lock is seen, so is the policy it guards. */
  ghost predicate Aware(c: Config) {
    Locked(c) ==> NoDelete(c)
  }

  /** A call that may still publish asks for NoDelete; a refresh that may still take effect brings
      the policy along with the lock. */
  ghost predicate CallAware(s: State, c: Call) {
    match c
    case Checked(_, r) => NoDelete(r)
    case Scanned(_, r, _, _) => NoDelete(r)
    case Fetched(h, cfg, n) => h < |s.hosts| && n > s.hosts[h].last ==> Aware(cfg)
    case Over => true
  }

  ghost predicate AllAware(s: State) {
    && (forall h :: 0 <= h < |s.hosts| ==> Aware(s.hosts[h].active))
    && (forall i :: 0 <= i < |s.calls| ==> CallAware(s, s.calls[i]))
  }

  /** A request that keeps the lock is accepted only where the lock is set; and where the host is
      aware of the policy, only with that policy. */
  lemma AcceptedKeepsPolicy(requested: Config, active: Config)
    requires Accepts(requested, active) && Locked(requested) && Aware(active)
    ensures NoDelete(requested)
  {
    assert !Diverges(requested, active, DeletionPolicyLock);
  }

  /** The latest version carries the policy, and loads as it was written. */
  ghost predicate Protected(s: State) {
    s.versions != [] && NoDelete(Latest(s)) && Loaded(Latest(s)) == Latest(s)
  }

  lemma HostStaysAware(s: State, e: Event, h: nat)
    requires Protected(s) && AllAware(s) && Enabled(s, e) && h < |Apply(s, e).hosts|
    ensures Aware(Apply(s, e).hosts[h].active)
  {
    if h < |s.hosts| { assert Aware(s.hosts[h].active); }
    if e.Claim? || e.Commit? { assert CallAware(s, s.calls[e.i]); }
  }

  lemma CallStaysAware(s: State, e: Event, i: nat)
    requires Protected(s) && AllAware(s) && Inv(s) && Enabled(s, e) && i < |Apply(s, e).calls|
    requires e.Update? ==> Locked(Defaulted(e.cfg))
    ensures CallAware(Apply(s, e), Apply(s, e).calls[i])
  {
    if i < |s.calls| {
      assert CallAware(s, s.calls[i]) && CallAgrees(s.calls[i], s.versions);
      StaysAware(s, e, s.calls[i]);
    } else if e.Update? {
      assert Aware(s.hosts[e.h].active);
      AcceptedKeepsPolicy(Defaulted(e.cfg), s.hosts[e.h].active);
    }
  }

  /** Hosts only move to later versions, so a refresh that came too late stays too late. */
  lemma StaysAware(s: State, e: Event, c: Call)
    requires Inv(s) && Enabled(s, e) && CallAware(s, c) && CallAgrees(c, s.versions)
    ensures CallAware(Apply(s, e), c)
  {
    if c.Fetched? && c.h < |s.hosts| { StepIsMonotone(s, e, c.h); }
  }

  lemma LatestStays(s: State, e: Event)
    requires Protected(s) && AllAware(s) && Enabled(s, e)
    ensures Apply(s, e).versions != [] && NoDelete(Latest(Apply(s, e)))
  {
    var t := Apply(s, e);
    if e.Claim? {
      var c := s.calls[e.i];
      assert CallAware(s, c);
      assert t.versions == s.versions || t.versions == s.versions + [Persisted(c.requested)];
    } else {
      assert t.versions == s.versions;
    }
  }

  lemma StepKeepsPolicy(s: State, e: Event)
    requires Sound(s) && NoDelete(Latest(s)) && AllAware(s) && Enabled(s, e)
    requires e.Update? ==> Locked(Defaulted(e.cfg))
    ensures Apply(s, e).versions != [] && NoDelete(Latest(Apply(s, e))) && AllAware(Apply(s, e))
  {
    assert Protected(s) by { assert IsCopy(s, Latest(s)); }
    LatestStays(s, e);
    var t := Apply(s, e);
    forall h | 0 <= h < |t.hosts| ensures Aware(t.hosts[h].active) { HostStaysAware(s, e, h); }
    forall i | 0 <= i < |t.calls| ensures CallAware(t, t.calls[i]) { CallStaysAware(s, e, i); }
  }

  lemma {:induction false} PolicyStays(s: State, run: seq<Event>)
    requires Sound(s) && NoDelete(Latest(s)) && AllAware(s) && IsRun(s, run) && KeepsLock(run)
    ensures Sound(Exec(s, run)) && NoDelete(Latest(Exec(s, run))) && AllAware(Exec(s, run))
    decreases |run|
  {
    if run != [] {
      assert run[0] in run && forall e :: e in run[1..] ==> e in run;
      StepKeepsSound(s, run[0]);
      StepKeepsPolicy(s, run[0]);
      PolicyStays(Apply(s, run[0]), run[1..]);
    }
  }

  // ---- When it does not ----

  /** No host is writing a version. */
  ghost predicate MutexFree(s: State) {
    forall h :: 0 <= h < |s.hosts| ==> !s.hosts[h].locked
  }

  /** A host that sees the lock without the policy repeats its own configuration. */
  lemma UnawareHostDrops(s: State, h: nat) returns (run: seq<Event>)
    requires Sound(s) && h < |s.hosts| && !s.hosts[h].locked && !Aware(s.hosts[h].active)
    ensures IsRun(s, run) && KeepsLock(run)
    ensures var t := Exec(s, run); t.versions != [] && Locked(Latest(t)) && !NoDelete(Latest(t))
  {
    var active := s.hosts[h].active;
    assert IsCopy(s, active);
    run := UpdatePublishes(s, h, active);
  }

  lemma UnawareRefreshDrops(s: State, i: nat) returns (run: seq<Event>)
    requires Sound(s) && MutexFree(s) && i < |s.calls| && s.calls[i].Fetched? && !CallAware(s, s.calls[i])
    ensures IsRun(s, run) && KeepsLock(run)
    ensures var t := Exec(s, run); t.versions != [] && !NoDelete(Latest(t))
  {
    var t := Apply(s, Commit(i));
    StepKeepsSound(s, Commit(i));
    run := UnawareHostDrops(t, s.calls[i].h);
    StepFirst(s, Commit(i), run);
    run := [Commit(i)] + run;
  }

  lemma UnawareDrops(s: State) returns (run: seq<Event>)
    requires Sound(s) && MutexFree(s) && !AllAware(s)
    ensures IsRun(s, run) && KeepsLock(run)
    ensures Exec(s, run).versions != [] && !NoDelete(Latest(Exec(s, run)))
  {
    if h: nat :| h < |s.hosts| && !Aware(s.hosts[h].active) {
      run := UnawareHostDrops(s, h);
    } else {
      var i: nat :| i < |s.calls| && !CallAware(s, s.calls[i]);
      if s.calls[i].Checked? {
        run := CheckedPublishes(s, i);
      } else {
        run := UnawareRefreshDrops(s, i);
      }
    }
  }

  /** The policy survives every run whose updates keep the lock, from a reached state in which no host
      is writing a version, exactly when in that state every host that sees the lock sees the
      policy, every update that has passed its checks asks for it, and no refresh that can still
      take effect brings the lock without it. */
  lemma LockHoldsExactlyWhen(cfg: Config, before: seq<Event>)
    requires Valid(Defaulted(cfg)) && IsRun(Created(cfg), before)
    requires MutexFree(Exec(Created(cfg), before))
    requires var s := Exec(Created(cfg), before); s.versions != [] && NoDelete(Latest(s))
    ensures var s := Exec(Created(cfg), before);
            (forall run :: IsRun(s, run) && KeepsLock(run) ==>
               var t := Exec(s, run); t.versions != [] && NoDelete(Latest(t))) <==> AllAware(s)
  {
    CreatedIsSound(cfg);
    RunKeepsSound(Created(cfg), before);
    var s := Exec(Created(cfg), before);
    if AllAware(s) {
      forall run | IsRun(s, run) && KeepsLock(run)
        ensures var t := Exec(s, run); t.versions != [] && NoDelete(Latest(t))
      {
        PolicyStays(s, run);
      }
    } else {
      var run := UnawareDrops(s);
    }
  }

  // ---- Runs that lose it ----

  /** Changing only the policy is accepted wherever the lock does not stand against it. */
  lemma PolicyIsAccepted(mid: Config, policy: string)
    requires Valid(mid) && Defaulted(mid) == mid && policy in ["Free", "Retention", "NoDelete"]
    requires Locked(mid) && NoDelete(mid) ==> policy == "NoDelete"
    ensures var r := Defaulted(With(mid, DeletionPolicy, Text(policy)));
            && Accepts(r, mid) && Get(r, DeletionPolicy) == Text(policy)
            && Get(r, DeletionPolicyLock) == Get(mid, DeletionPolicyLock)
  {
    var r := Defaulted(With(mid, DeletionPolicy, Text(policy)));
    forall g: Field ensures Get(r, g) == if g == DeletionPolicy then Text(policy) else Get(mid, g) {
      PolicyField(mid, policy, g);
    }
    forall g: Field ensures Check(g, Get(r, g)) && (ClassOf(g) == Immutable ==> !Diverges(r, mid, g)) {
      assert Check(g, Get(mid, g));
    }
  }

  lemma PolicyField(mid: Config, policy: string, g: Field)
    requires Defaulted(mid) == mid && policy in ["Free", "Retention", "NoDelete"]
    ensures Get(Defaulted(With(mid, DeletionPolicy, Text(policy))), g) ==
            if g == DeletionPolicy then Text(policy) else Get(mid, g)
  {
    var w := With(mid, DeletionPolicy, Text(policy));
    assert IsEncrypting(w) == IsEncrypting(mid);
    DefaultedAt(w, g);
    DefaultedAt(mid, g);
  }

  /** The two ways, for every store created with the lock and another policy.  One host: two updates
      pass their checks before either is written.  Two hosts: one locks the store at NoDelete, the
      other has not refreshed.  Each ends with the lock set and NoDelete gone, after one more
      update. */
  lemma OneUpdateIsEnough(cfg: Config, second: bool) returns (before: seq<Event>, after: seq<Event>)
    requires Valid(Defaulted(cfg)) && Locked(Defaulted(cfg)) && !NoDelete(Defaulted(cfg))
    ensures IsRun(Created(cfg), before) && KeepsLock(before) && IsRun(Exec(Created(cfg), before), after)
    ensures KeepsLock(after) && |Exec(Created(cfg), before).hosts| == if second then 2 else 1
    ensures var s := Exec(Created(cfg), before); s.versions != [] && Locked(Latest(s)) && NoDelete(Latest(s))
    ensures var t := Exec(Exec(Created(cfg), before), after);
            t.versions != [] && Locked(Latest(t)) && !NoDelete(Latest(t))
  {
    if second {
      before, after := StaleHostDrops(cfg);
    } else {
      before, after := EarlyCheckDrops(cfg);
    }
  }

  /** A host with the lock and another policy locks the store at NoDelete. */
  lemma LockRun(s: State, h: nat) returns (run: seq<Event>)
    requires h < |s.hosts| && !s.hosts[h].locked
    requires var a := s.hosts[h].active; Valid(a) && Defaulted(a) == a && Locked(a) && !NoDelete(a)
    ensures IsRun(s, run) && KeepsLock(run)
    ensures var t := Exec(s, run);
            && t.versions != [] && Locked(Latest(t)) && NoDelete(Latest(t))
            && |t.hosts| == |s.hosts| && !t.hosts[h].locked
            && (forall j :: 0 <= j < |s.hosts| && j != h ==> t.hosts[j] == s.hosts[j])
            && t.calls == s.calls + [Over]
  {
    var active := s.hosts[h].active;
    PolicyIsAccepted(active, "NoDelete");
    run := UpdatePublishes(s, h, With(active, DeletionPolicy, Text("NoDelete")));
  }

  /** A second host opens the store. */
  lemma TwoHosts(cfg: Config)
    requires Valid(Defaulted(cfg))
    ensures Enabled(Created(cfg), Join) && Sound(Apply(Created(cfg), Join))
    ensures var base := Defaulted(cfg);
            Apply(Created(cfg), Join).hosts == [Member(base, 1, false), Member(Persisted(base), 1, false)]
  {
    CreatedIsSound(cfg);
    StepKeepsSound(Created(cfg), Join);
    DefaultedTwice(cfg);
    PersistedLoads(Defaulted(cfg));
  }

  lemma StaleHostDrops(cfg: Config) returns (before: seq<Event>, after: seq<Event>)
    requires Valid(Defaulted(cfg)) && Locked(Defaulted(cfg)) && !NoDelete(Defaulted(cfg))
    ensures IsRun(Created(cfg), before) && KeepsLock(before) && IsRun(Exec(Created(cfg), before), after)
    ensures KeepsLock(after) && |Exec(Created(cfg), before).hosts| == 2
    ensures var s := Exec(Created(cfg), before); s.versions != [] && Locked(Latest(s)) && NoDelete(Latest(s))
    ensures var t := Exec(Exec(Created(cfg), before), after);
            t.versions != [] && Locked(Latest(t)) && !NoDelete(Latest(t))
  {
    TwoHosts(cfg);
    DefaultedTwice(cfg);
    var s := Apply(Created(cfg), Join);
    var update := LockRun(s, 0);
    StepFirst(Created(cfg), Join, update);
    before := [Join] + update;
    RunKeepsSound(s, update);
    after := UnawareHostDrops(Exec(s, update), 1);
  }

  lemma EarlyCheckDrops(cfg: Config) returns (before: seq<Event>, after: seq<Event>)
    requires Valid(Defaulted(cfg)) && Locked(Defaulted(cfg)) && !NoDelete(Defaulted(cfg))
    ensures IsRun(Created(cfg), before) && KeepsLock(before) && IsRun(Exec(Created(cfg), before), after)
    ensures KeepsLock(after) && |Exec(Created(cfg), before).hosts| == 1
    ensures var s := Exec(Created(cfg), before); s.versions != [] && Locked(Latest(s)) && NoDelete(Latest(s))
    ensures var t := Exec(Exec(Created(cfg), before), after);
            t.versions != [] && Locked(Latest(t)) && !NoDelete(Latest(t))
  {
    var base, s0 := Defaulted(cfg), Created(cfg);
    DefaultedTwice(cfg);
    var s1 := Apply(s0, Update(0, base));
    var update := LockRun(s1, 0);
    StepFirst(s0, Update(0, base), update);
    before := [Update(0, base)] + update;
    var s2 := Exec(s0, before);
    assert s2.calls[0] == Checked(0, base);
    after := CheckedPublishes(s2, 0);
  }

  /** And an update that leaves the lock out is accepted: against the configuration each call sees, the
      policy survives any one call, and falls to two, the first dropping the lock. */
  lemma LockedNoDeleteFallsInTwoUpdates(active: Config)
    requires Valid(active) && Defaulted(active) == active && Locked(active) && NoDelete(active)
    ensures forall cfg: Config :: Accepts(Defaulted(cfg), active) ==> NoDelete(Defaulted(cfg))
    ensures exists first: Config, second: Config ::
              && Accepts(Defaulted(first), active) && Accepts(Defaulted(second), Defaulted(first))
              && Get(Defaulted(second), DeletionPolicy) == Text("Free")
  {
    var first := Omitting(active, DeletionPolicyLock);
    OmittingIsAccepted(active, DeletionPolicyLock);
    var mid := Defaulted(first);
    DefaultedTwice(first);
    PolicyIsAccepted(mid, "Free");
    assert Accepts(Defaulted(With(mid, DeletionPolicy, Text("Free"))), mid);
  }
}
