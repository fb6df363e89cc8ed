/** The versioned configuration shared by several hosts (engine/store/admin_config.go,
    engine/store/config_persist.go, the refresh in engine/store/liveness.go, and the version claim in
    engine/internal/named/version.go). */
module ConfigVersions {
  import opened Basics
  import opened StoreConfig

  /** UpdateConfig's checks of a defaulted request against the configuration it saw. */
  ghost predicate Accepts(requested: Config, current: Config) {
    && Valid(requested) && Agrees(requested, current, Immutable)
    && !(Get(current, DeletionPolicyLock) == Flag(true) && Get(current, DeletionPolicy) == Text("NoDelete")
         && Get(requested, DeletionPolicy) != Text("NoDelete"))
  }

  /** A legal configuration that changes no immutable field it sets, and keeps a locked NoDelete. */
  ghost predicate MayReplace(requested: Config, current: Config) {
    && Legal(requested)
    && (forall f: Field :: ClassOf(f) == Immutable && Get(requested, f) != Zero(f) ==>
          Get(requested, f) == Get(current, f))
    && (Get(current, DeletionPolicyLock) == Flag(true) && Get(current, DeletionPolicy) == Text("NoDelete") ==>
          Get(requested, DeletionPolicy) == Text("NoDelete"))
  }

  lemma AcceptsExactlyWhen(requested: Config, current: Config)
    ensures Accepts(requested, current) <==> MayReplace(requested, current)
  {
    ValidExactlyWhen(requested);
    if Agrees(requested, current, Immutable) {
      forall f: Field | ClassOf(f) == Immutable && Get(requested, f) != Zero(f)
        ensures Get(requested, f) == Get(current, f)
      {
        assert !Diverges(requested, current, f);
      }
    }
  }

  /** The file of a version does not hold the KDF parameters. */
  function Persisted(c: Config): Config {
    c.(kdf := 0)
  }

  function Loaded(c: Config): Config {
    Defaulted(c)
  }

  // ---- The imperative form on one host ----

  /** Version k is `versions[k - 1]`: a claim takes the number after the highest, and configuration
      versions are never pruned. */
  class Host {
    var active: Config
    var last: nat

    constructor (active: Config, last: nat)
      ensures this.active == active && this.last == last
    {
      this.active, this.last := active, last;
    }

    method MayInstall(requested: Config, current: Config) returns (ok: bool)
      ensures ok == Accepts(requested, current)
    {
      ok := ValidateImmutable(requested);
      if !ok { return; }
      var mismatches := DivergentByClass(requested, current, Immutable);
      if |mismatches| > 0 { return false; }
      ok := !(Get(current, DeletionPolicyLock) == Flag(true) && Get(current, DeletionPolicy) == Text("NoDelete")
              && Get(requested, DeletionPolicy) != Text("NoDelete"));
    }

    method UpdateConfig(cfg: Config, versions: seq<Config>) returns (ok: bool, published: seq<Config>)
      modifies this
      ensures ok <==> Accepts(Defaulted(cfg), old(active))
      ensures ok ==> published == versions + [Persisted(Defaulted(cfg))]
      ensures ok ==> active == Defaulted(cfg) && last == |versions| + 1
      ensures !ok ==> published == versions && active == old(active) && last == old(last)
    {
      var requested := ApplyDefaults(cfg);
      ok := MayInstall(requested, active);
      if !ok { return false, versions; }
      published := versions + [Persisted(requested)];
      active, last := requested, |published|;
    }

    /** The refresh of the liveness tick: a newer valid version on disk replaces the configuration in
        memory, an older one never does. */
    method RefreshGovernance(versions: seq<Config>)
      modifies this
      ensures if |versions| > old(last) && Valid(Loaded(versions[|versions| - 1]))
              then last == |versions| && active == Loaded(versions[|versions| - 1])
              else active == old(active) && last == old(last)
    {
      if |versions| == 0 || |versions| == last { return; }
      var cfg := ApplyDefaults(versions[|versions| - 1]);
      var valid := ValidateImmutable(cfg);
      if !valid || |versions| <= last { return; }
      active, last := cfg, |versions|;
    }
  }

  /** Newest first, each defaulted. */
  method ConfigHistory(versions: seq<Config>) returns (out: seq<Config>)
    ensures |out| == |versions| && forall i :: 0 <= i < |out| ==> out[i] == Loaded(versions[|versions| - 1 - i])
  {
    out := [];
    var i := |versions|;
    while i > 0
      invariant 0 <= i <= |versions| && |out| == |versions| - i
      invariant forall j :: 0 <= j < |out| ==> out[j] == Loaded(versions[|versions| - 1 - j])
    {
      i := i - 1;
      var cfg := ApplyDefaults(versions[i]);
      out := out + [cfg];
    }
  }

  // ---- Several hosts ----

  datatype Member = Member(active: Config, last: nat, locked: bool)

  /** One call under way: an update that passed its checks, an update holding its host's mutex that
      has scanned the versions, or a refresh that has read one. */
  datatype Call =
    | Checked(h: nat, requested: Config)
    | Scanned(h: nat, requested: Config, highest: nat, attempt: nat)
    | Fetched(h: nat, cfg: Config, seqNo: nat)
    | Over

  datatype State = State(versions: seq<Config>, hosts: seq<Member>, calls: seq<Call>)

  datatype Event =
    | Update(h: nat, cfg: Config)
    | Scan(i: nat)
    | Claim(i: nat)
    | Fetch(h: nat)
    | Commit(i: nat)
    | Join           // another host opens the store

  ghost predicate Enabled(s: State, e: Event) {
    match e
    case Update(h, cfg) => h < |s.hosts| && Accepts(Defaulted(cfg), s.hosts[h].active)
    case Scan(i) => i < |s.calls| && s.calls[i].Checked? && s.calls[i].h < |s.hosts| && !s.hosts[s.calls[i].h].locked
    case Claim(i) => i < |s.calls| && s.calls[i].Scanned? && s.calls[i].h < |s.hosts|
    case Fetch(h) => h < |s.hosts| && s.versions != [] && Valid(Loaded(s.versions[|s.versions| - 1]))
    case Commit(i) => i < |s.calls| && s.calls[i].Fetched? && s.calls[i].h < |s.hosts| && !s.hosts[s.calls[i].h].locked
    case Join => s.versions != []
  }

  ghost function Apply(s: State, e: Event): State
    requires Enabled(s, e)
  {
    match e
    case Update(h, cfg) => s.(calls := s.calls + [Checked(h, Defaulted(cfg))])
    case Scan(i) =>
      var c := s.calls[i];
      s.(hosts := s.hosts[c.h := s.hosts[c.h].(locked := true)],
         calls := s.calls[i := Scanned(c.h, c.requested, |s.versions|, 0)])
    case Claim(i) =>
      var c := s.calls[i];
      if c.highest == |s.versions| then
        State(s.versions + [Persisted(c.requested)],
              s.hosts[c.h := Member(c.requested, c.highest + 1, false)],
              s.calls[i := Over])
      else if c.attempt + 1 < MaxClaimAttempts then
        s.(calls := s.calls[i := Scanned(c.h, c.requested, |s.versions|, c.attempt + 1)])
      else
        s.(hosts := s.hosts[c.h := s.hosts[c.h].(locked := false)], calls := s.calls[i := Over])
    case Fetch(h) =>
      s.(calls := s.calls + [Fetched(h, Loaded(s.versions[|s.versions| - 1]), |s.versions|)])
    case Commit(i) =>
      var c := s.calls[i];
      if c.seqNo <= s.hosts[c.h].last then s.(calls := s.calls[i := Over])
      else s.(hosts := s.hosts[c.h := Member(c.cfg, c.seqNo, false)], calls := s.calls[i := Over])
    case Join => s.(hosts := s.hosts + [Member(Loaded(s.versions[|s.versions| - 1]), |s.versions|, false)])
  }

  ghost predicate IsRun(s: State, run: seq<Event>)
    decreases |run|
  {
    run == [] || (Enabled(s, run[0]) && IsRun(Apply(s, run[0]), run[1..]))
  }

  ghost function Exec(s: State, run: seq<Event>): State
    requires IsRun(s, run)
    decreases |run|
  {
    if run == [] then s else Exec(Apply(s, run[0]), run[1..])
  }

  lemma StepFirst(s: State, e: Event, rest: seq<Event>)
    requires Enabled(s, e) && IsRun(Apply(s, e), rest)
    ensures IsRun(s, [e] + rest) && Exec(s, [e] + rest) == Exec(Apply(s, e), rest)
  {
    assert ([e] + rest)[1..] == rest;
  }

  /** A call that has passed its checks publishes its request, if it gets the mutex and nobody else
      publishes meanwhile. */
  lemma CheckedPublishes(s: State, i: nat) returns (run: seq<Event>)
    requires i < |s.calls| && s.calls[i].Checked? && s.calls[i].h < |s.hosts| && !s.hosts[s.calls[i].h].locked
    ensures IsRun(s, run) && forall e :: e in run ==> !e.Update?
    ensures var t, c := Exec(s, run), s.calls[i];
            && t.versions == s.versions + [Persisted(c.requested)]
            && t.hosts == s.hosts[c.h := Member(c.requested, |s.versions| + 1, false)]
            && t.calls == s.calls[i := Over]
  {
    var t := Apply(s, Scan(i));
    var u := Apply(t, Claim(i));
    StepFirst(t, Claim(i), []);
    StepFirst(s, Scan(i), [Claim(i)] + []);
    run := [Scan(i)] + ([Claim(i)] + []);
    var c := s.calls[i];
    assert u.hosts == s.hosts[c.h := Member(c.requested, |s.versions| + 1, false)];
    assert u.calls == s.calls[i := Over];
  }

  /** An accepted update, undisturbed. */
  lemma UpdatePublishes(s: State, h: nat, cfg: Config) returns (run: seq<Event>)
    requires Enabled(s, Update(h, cfg)) && !s.hosts[h].locked
    ensures IsRun(s, run) && forall e :: e in run && e.Update? ==> e.cfg == cfg
    ensures var t := Exec(s, run);
            && t.versions == s.versions + [Persisted(Defaulted(cfg))]
            && t.hosts == s.hosts[h := Member(Defaulted(cfg), |s.versions| + 1, false)]
            && t.calls == s.calls + [Over]
  {
    var t := Apply(s, Update(h, cfg));
    var rest := CheckedPublishes(t, |s.calls|);
    StepFirst(s, Update(h, cfg), rest);
    run := [Update(h, cfg)] + rest;
  }

  /** A freshly initialised store with its one host. */
  function Created(cfg: Config): State {
    State([Persisted(Defaulted(cfg))], [Member(Defaulted(cfg), 1, false)], [])
  }

  // ---- Each host's memory is the version it names ----

  ghost predicate HostAgrees(m: Member, versions: seq<Config>) {
    1 <= m.last <= |versions| && Persisted(m.active) == Persisted(Loaded(versions[m.last - 1]))
  }

  ghost predicate CallAgrees(c: Call, versions: seq<Config>) {
    match c
    case Checked(_, r) => Defaulted(r) == r
    case Scanned(_, r, highest, _) => Defaulted(r) == r && highest <= |versions|
    case Fetched(_, cfg, n) => 1 <= n <= |versions| && cfg == Loaded(versions[n - 1])
    case Over => true
  }

  ghost predicate Inv(s: State) {
    && s.versions != []
    && (forall h :: 0 <= h < |s.hosts| ==> HostAgrees(s.hosts[h], s.versions))
    && (forall i :: 0 <= i < |s.calls| ==> CallAgrees(s.calls[i], s.versions))
  }

  lemma PersistedLoads(r: Config)
    requires Defaulted(r) == r
    ensures Loaded(Persisted(r)) == Persisted(r)
  {
    DefaultedIgnoresKdf(r, 0);
  }

  lemma InvOneMore(s: State, hosts: seq<Member>, calls: seq<Call>)
    requires Inv(s)
    requires |hosts| <= 1 && forall m :: m in hosts ==> HostAgrees(m, s.versions)
    requires |calls| <= 1 && forall c :: c in calls ==> CallAgrees(c, s.versions)
    ensures Inv(State(s.versions, s.hosts + hosts, s.calls + calls))
    ensures hosts == [] ==> s.hosts + hosts == s.hosts
    ensures calls == [] ==> s.calls + calls == s.calls
  {
  }

  lemma InvReplaced(s: State, h: nat, m: Member, i: nat, c: Call)
    requires Inv(s) && h < |s.hosts| && i < |s.calls| && HostAgrees(m, s.versions) && CallAgrees(c, s.versions)
    ensures Inv(State(s.versions, s.hosts[h := m], s.calls[i := c]))
  {
  }

  /** Publishing one more version leaves every host and every call as consistent as it was. */
  lemma InvPublished(s: State, v: Config)
    requires Inv(s)
    ensures Inv(s.(versions := s.versions + [v]))
  {
    var vs := s.versions + [v];
    assert vs[..|s.versions|] == s.versions;
    forall h | 0 <= h < |s.hosts| ensures HostAgrees(s.hosts[h], vs) {
      assert HostAgrees(s.hosts[h], s.versions);
      assert vs[s.hosts[h].last - 1] == s.versions[s.hosts[h].last - 1];
    }
    forall i | 0 <= i < |s.calls| ensures CallAgrees(s.calls[i], vs) {
      assert CallAgrees(s.calls[i], s.versions);
    }
  }

  lemma MoveKeepsInv(s: State, e: Event)
    requires Inv(s) && (e.Scan? || e.Claim? || e.Commit?) && Enabled(s, e)
    ensures Inv(Apply(s, e))
  {
    var c, t := s.calls[e.i], Apply(s, e);
    assert CallAgrees(c, s.versions) && HostAgrees(s.hosts[c.h], s.versions);
    var p := s;
    if t.versions != s.versions {
      InvPublished(s, Persisted(c.requested));
      p := s.(versions := t.versions);
      PersistedLoads(c.requested);
    }
    InvReplaced(p, c.h, t.hosts[c.h], e.i, t.calls[e.i]);
    assert t.hosts == s.hosts[c.h := t.hosts[c.h]];
  }

  lemma StepKeepsInv(s: State, e: Event)
    requires Inv(s) && Enabled(s, e)
    ensures Inv(Apply(s, e))
  {
    match e {
      case Update(h, cfg) =>
        DefaultedTwice(cfg);
        InvOneMore(s, [], [Checked(h, Defaulted(cfg))]);
      case Fetch(h) => InvOneMore(s, [], [Fetched(h, Loaded(s.versions[|s.versions| - 1]), |s.versions|)]);
      case Join => InvOneMore(s, [Member(Loaded(s.versions[|s.versions| - 1]), |s.versions|, false)], []);
      case _ => MoveKeepsInv(s, e);
    }
  }

  /** What a step may do to a host's version number. */
  lemma StepIsMonotone(s: State, e: Event, h: nat)
    requires Inv(s) && Enabled(s, e) && h < |s.hosts|
    ensures h < |Apply(s, e).hosts| && s.hosts[h].last <= Apply(s, e).hosts[h].last
    ensures s.versions <= Apply(s, e).versions
  {
    assert HostAgrees(s.hosts[h], s.versions);
    if e.Claim? { assert HostAgrees(s.hosts[s.calls[e.i].h], s.versions); }
  }

  /** Over every interleaving of updates and refreshes on any number of hosts: published versions
      never change, each host's version number never goes back, and the configuration in its
      memory is that version, defaulted, up to the KDF parameters. */
  lemma {:induction false} MemoryFollowsDisk(s: State, run: seq<Event>, h: nat)
    requires Inv(s) && IsRun(s, run) && h < |s.hosts|
    ensures var t := Exec(s, run);
            && h < |t.hosts| && s.hosts[h].last <= t.hosts[h].last && s.versions <= t.versions
            && HostAgrees(t.hosts[h], t.versions) && Inv(t)
    decreases |run|
  {
    if run != [] {
      StepKeepsInv(s, run[0]);
      StepIsMonotone(s, run[0], h);
      MemoryFollowsDisk(Apply(s, run[0]), run[1..], h);
    }
  }

  lemma CreatedIsConsistent(cfg: Config)
    ensures Inv(Created(cfg))
  {
    DefaultedTwice(cfg);
    PersistedLoads(Defaulted(cfg));
  }

  lemma {:induction false} StaysWithoutKdf(s: State, run: seq<Event>)
    requires IsRun(s, run) && forall k :: 0 <= k < |s.versions| ==> s.versions[k].kdf == 0
    ensures forall k :: 0 <= k < |Exec(s, run).versions| ==> Exec(s, run).versions[k].kdf == 0
    decreases |run|
  {
    if run != [] { StaysWithoutKdf(Apply(s, run[0]), run[1..]); }
  }

  /** No version ever holds KDF parameters, whatever the requests carry. */
  lemma NoKdfOnDisk(cfg: Config, run: seq<Event>)
    requires IsRun(Created(cfg), run)
    ensures var t := Exec(Created(cfg), run); forall k :: 0 <= k < |t.versions| ==> t.versions[k].kdf == 0
  {
    StaysWithoutKdf(Created(cfg), run);
  }

  // ---- How long an update keeps trying ----

  function Claims(run: seq<Event>, i: nat): nat {
    if run == [] then 0 else (if run[0] == Claim(i) then 1 else 0) + Claims(run[1..], i)
  }

  /** One of the claims of call i in the run is the one that publishes. */
  ghost predicate Publishes(s: State, run: seq<Event>, i: nat)
    requires IsRun(s, run)
    decreases |run|
  {
    run != [] &&
    var t := Apply(s, run[0]);
    (run[0] == Claim(i) && t.versions != s.versions) || Publishes(t, run[1..], i)
  }

  lemma {:induction false} OverStays(s: State, run: seq<Event>, i: nat)
    requires IsRun(s, run) && i < |s.calls| && s.calls[i].Over?
    ensures i < |Exec(s, run).calls| && Exec(s, run).calls[i].Over? && Claims(run, i) == 0 && !Publishes(s, run, i)
    ensures |s.versions| <= |Exec(s, run).versions|
    decreases |run|
  {
    if run != [] { OverStays(Apply(s, run[0]), run[1..], i); }
  }

  lemma {:induction false} ClaimLoop(s: State, run: seq<Event>, i: nat, start: nat)
    requires IsRun(s, run) && i < |s.calls| && s.calls[i].Scanned?
    requires var c := s.calls[i]; start + c.attempt <= c.highest <= |s.versions| && c.attempt < 64
    ensures var t, n := Exec(s, run), s.calls[i].attempt + Claims(run, i);
            && i < |t.calls| && (t.calls[i].Over? <==> Publishes(s, run, i) || n == 64) && n <= 64
            && (t.calls[i].Over? && !Publishes(s, run, i) ==> |t.versions| >= start + 64)
    decreases |run|
  {
    if run != [] {
      var t := Apply(s, run[0]);
      if t.calls[i].Over? { OverStays(t, run[1..], i); } else { ClaimLoop(t, run[1..], i, start); }
    }
  }

  /** Over every interleaving an update that holds its mutex ends exactly when it has published or has
      claimed 64 times; and it gives up only after 64 other versions got in before it. */
  lemma GivesUpExactlyWhen(s: State, i: nat, run: seq<Event>)
    requires Enabled(s, Scan(i)) && IsRun(Apply(s, Scan(i)), run)
    ensures var u := Apply(s, Scan(i));
            var t := Exec(u, run);
            && i < |t.calls| && Claims(run, i) <= 64
            && (t.calls[i].Over? <==> Publishes(u, run, i) || Claims(run, i) == 64)
            && (t.calls[i].Over? && !Publishes(u, run, i) ==> |t.versions| >= |s.versions| + 64)
  {
    ClaimLoop(Apply(s, Scan(i)), run, i, |s.versions|);
  }

  /** A refresh, undisturbed: the host has the latest version if that is newer than its own, and
      nothing else changed. */
  lemma RefreshIsUndisturbed(s: State, h: nat)
    requires Enabled(s, Fetch(h)) && !s.hosts[h].locked
    ensures var i, t := |s.calls|, Apply(s, Fetch(h));
            && Enabled(t, Commit(i))
            && var u := Apply(t, Commit(i));
               && u.versions == s.versions && u.calls == s.calls + [Over]
               && u.hosts == if |s.versions| > s.hosts[h].last
                             then s.hosts[h := Member(Loaded(s.versions[|s.versions| - 1]), |s.versions|, false)]
                             else s.hosts
  {
  }

  // ---- The mutex of a host ----

  predicate Holds(c: Call, h: nat) {
    c.Scanned? && c.h == h
  }

  ghost predicate OneHolder(s: State, h: nat) {
    && (forall i, j :: 0 <= i < |s.calls| && 0 <= j < |s.calls| ==>
          Holds(s.calls[i], h) && Holds(s.calls[j], h) ==> i == j)
    && (h < |s.hosts| && s.hosts[h].locked <==> exists i :: 0 <= i < |s.calls| && Holds(s.calls[i], h))
  }

  /** Call i alone moves, and the mutex of h with it. */
  lemma MoveKeepsHolder(s: State, t: State, i: nat, h: nat)
    requires OneHolder(s, h) && i < |s.calls| && |t.hosts| == |s.hosts|
    requires |t.calls| == |s.calls| && t.calls == s.calls[i := t.calls[i]]
    requires var before, after := h < |s.hosts| && s.hosts[h].locked, h < |t.hosts| && t.hosts[h].locked;
             if Holds(s.calls[i], h) then after == Holds(t.calls[i], h)
             else if Holds(t.calls[i], h) then !before && after
             else after == before
    ensures OneHolder(t, h)
  {
    assert forall j :: 0 <= j < |s.calls| && j != i ==> t.calls[j] == s.calls[j];
    if Holds(t.calls[i], h) {
    } else if j :| 0 <= j < |s.calls| && Holds(s.calls[j], h) && j != i {
      assert Holds(t.calls[j], h);
    }
  }

  lemma AddKeepsHolder(s: State, t: State, h: nat)
    requires OneHolder(s, h) && s.calls <= t.calls && s.hosts <= t.hosts
    requires forall i :: |s.calls| <= i < |t.calls| ==> !Holds(t.calls[i], h)
    requires forall k :: |s.hosts| <= k < |t.hosts| ==> !t.hosts[k].locked
    ensures OneHolder(t, h)
  {
    if i :| 0 <= i < |s.calls| && Holds(s.calls[i], h) { assert Holds(t.calls[i], h); }
    assert forall i :: 0 <= i < |t.calls| && Holds(t.calls[i], h) ==> i < |s.calls| && Holds(s.calls[i], h);
  }

  lemma StepKeepsHolder(s: State, e: Event, h: nat)
    requires OneHolder(s, h) && Enabled(s, e)
    ensures OneHolder(Apply(s, e), h)
  {
    if e.Scan? || e.Claim? || e.Commit? {
      MoveKeepsHolder(s, Apply(s, e), e.i, h);
    } else {
      AddKeepsHolder(s, Apply(s, e), h);
    }
  }

  /** Over every run a host's mutex is held exactly while one of its updates is between scan and end,
      and never by two. */
  lemma {:induction false} MutexHeldExactlyWhile(s: State, run: seq<Event>, h: nat)
    requires OneHolder(s, h) && IsRun(s, run)
    ensures OneHolder(Exec(s, run), h)
    decreases |run|
  {
    if run != [] {
      StepKeepsHolder(s, run[0], h);
      MutexHeldExactlyWhile(Apply(s, run[0]), run[1..], h);
    }
  }

  // ---- Which immutable fields are ----

  /** The immutable fields that defaulting never leaves zero. */
  const Pinned: set<Field> := {PathTopology, ManifestEncoding, ManifestCrypto, ContentHasher}

  ghost predicate Has(c: Config, f: Field, v: Value) {
    Get(c, f) == v
  }

  ghost predicate CallCarries(c: Call, cfg: Config) {
    match c
    case Checked(_, r) => cfg == r
    case Scanned(_, r, _, _) => cfg == r
    case Fetched(_, r, _) => cfg == r
    case Over => false
  }

  /** A copy of the configuration: published, in a host's memory, or on its way to either. */
  ghost predicate IsCopy(s: State, cfg: Config) {
    || (exists k :: 0 <= k < |s.versions| && s.versions[k] == cfg)
    || (exists h :: 0 <= h < |s.hosts| && s.hosts[h].active == cfg)
    || (exists i :: 0 <= i < |s.calls| && CallCarries(s.calls[i], cfg))
  }

  /** Where a copy comes from: it was there, or was requested, loaded or written by this step. */
  lemma StepCopies(s: State, e: Event, cfg: Config)
    requires Enabled(s, e) && s.versions != [] && IsCopy(Apply(s, e), cfg)
    ensures || IsCopy(s, cfg)
            || (e.Update? && cfg == Defaulted(e.cfg))
            || cfg == Loaded(s.versions[|s.versions| - 1])
            || exists r :: IsCopy(s, r) && cfg == Persisted(r)
  {
    var t := Apply(s, e);
    if e.Claim? { assert CallCarries(s.calls[e.i], s.calls[e.i].requested) && IsCopy(s, s.calls[e.i].requested); }
    if e.Commit? { assert CallCarries(s.calls[e.i], s.calls[e.i].cfg) && IsCopy(s, s.calls[e.i].cfg); }
    if k :| 0 <= k < |t.versions| && t.versions[k] == cfg {
      if k < |s.versions| { assert s.versions[k] == cfg; }
    } else if h :| 0 <= h < |t.hosts| && t.hosts[h].active == cfg {
      if h < |s.hosts| && t.hosts[h] == s.hosts[h] { assert s.hosts[h].active == cfg; }
    } else {
      var i :| 0 <= i < |t.calls| && CallCarries(t.calls[i], cfg);
      if i < |s.calls| { assert CallCarries(s.calls[i], cfg); }
    }
  }

  lemma StepKeepsVersions(s: State, e: Event)
    requires Enabled(s, e) && s.versions != []
    ensures Apply(s, e).versions != []
  {
  }

  /** Every copy has v in field f. */
  ghost predicate Everywhere(s: State, f: Field, v: Value) {
    forall cfg :: IsCopy(s, cfg) ==> Has(cfg, f, v)
  }

  lemma PinnedDefault(encrypting: bool, f: Field)
    requires f in Pinned
    ensures DefaultValue(encrypting, f) != Zero(f) && ClassOf(f) == Immutable
  {
  }

  lemma PinnedIsPopulated(c: Config, f: Field)
    requires f in Pinned
    ensures Populated(Defaulted(c), f) && ClassOf(f) == Immutable
    ensures Populated(c, f) ==> Get(Defaulted(c), f) == Get(c, f)
  {
    PinnedDefault(IsEncrypting(c), f);
    DefaultedAt(c, f);
  }

  ghost predicate AllDefaulted(s: State) {
    forall cfg :: IsCopy(s, cfg) ==> Defaulted(cfg) == cfg
  }

  lemma StepKeepsDefaulted(s: State, e: Event)
    requires Enabled(s, e) && AllDefaulted(s) && s.versions != []
    ensures AllDefaulted(Apply(s, e))
  {
    forall cfg | IsCopy(Apply(s, e), cfg) ensures Defaulted(cfg) == cfg {
      StepCopies(s, e, cfg);
      if e.Update? { DefaultedTwice(e.cfg); }
      DefaultedTwice(s.versions[|s.versions| - 1]);
      if r :| IsCopy(s, r) && cfg == Persisted(r) { PersistedLoads(r); }
    }
  }

  /** A field that no accepted update can change where it has the value v and manifest crypto is w. */
  ghost predicate Settled(f: Field, v: Value, w: Value) {
    forall cfg: Config, active: Config ::
      Has(active, f, v) && Has(active, ManifestCrypto, w) && Accepts(Defaulted(cfg), active) ==>
        Has(Defaulted(cfg), f, v)
  }

  lemma SettledStep(s: State, e: Event, f: Field, v: Value, w: Value)
    requires Enabled(s, e) && AllDefaulted(s) && Settled(f, v, w) && s.versions != []
    requires Everywhere(s, f, v) && Everywhere(s, ManifestCrypto, w)
    ensures Everywhere(Apply(s, e), f, v)
  {
    var last := s.versions[|s.versions| - 1];
    assert IsCopy(s, last);
    forall cfg | IsCopy(Apply(s, e), cfg) ensures Has(cfg, f, v) {
      StepCopies(s, e, cfg);
      if e.Update? {
        assert IsCopy(s, s.hosts[e.h].active);
        assert Has(s.hosts[e.h].active, f, v) && Has(s.hosts[e.h].active, ManifestCrypto, w);
      }
    }
  }

  lemma {:induction false} SettledRun(s: State, run: seq<Event>, f: Field, v: Value, w: Value)
    requires IsRun(s, run) && AllDefaulted(s) && s.versions != []
    requires Settled(f, v, w) && Settled(ManifestCrypto, w, w)
    requires Everywhere(s, f, v) && Everywhere(s, ManifestCrypto, w)
    ensures Everywhere(Exec(s, run), f, v)
    decreases |run|
  {
    if run != [] {
      SettledStep(s, run[0], f, v, w);
      SettledStep(s, run[0], ManifestCrypto, w, w);
      StepKeepsDefaulted(s, run[0]);
      StepKeepsVersions(s, run[0]);
      SettledRun(Apply(s, run[0]), run[1..], f, v, w);
    }
  }

  lemma CreatedHas(cfg: Config, f: Field)
    ensures Everywhere(Created(cfg), f, Get(Defaulted(cfg), f))
  {
  }

  /** The fields whose default exists only for a store that encrypts. */
  const Conditional: set<Field> := {EncryptedDedup, SegmentSize}

  lemma ImmutableFields(f: Field)
    ensures ClassOf(f) == Immutable <==> f in Pinned || f in Conditional || f == IdentityMode || f == DeletionPolicyLock
  {
  }

  /** The field is set, and leaving it out of a request leaves it zero. */
  predicate Droppable(active: Config, f: Field) {
    Populated(active, f) && (f == IdentityMode || f == DeletionPolicyLock
                             || (f in Conditional && Get(active, ManifestCrypto) == Text("Plain")))
  }

  /** The request that asks for everything as it is, except that f is left out and nothing is
      encrypted by the pipeline. */
  function Omitting(active: Config, f: Field): Config {
    With(active, f, Zero(f)).(pipeline := [])
  }

  lemma OmittingIsAccepted(active: Config, f: Field)
    requires Valid(active) && Defaulted(active) == active && Droppable(active, f)
    ensures Accepts(Defaulted(Omitting(active, f)), active) && Get(Defaulted(Omitting(active, f)), f) == Zero(f)
  {
    var r := Defaulted(Omitting(active, f));
    forall g: Field ensures Check(g, Get(r, g)) && !Diverges(r, active, g) {
      OmittedField(active, f, g);
      DefaultPasses(true, g);
      assert Check(g, Get(active, g));
    }
    OmittedField(active, f, f);
    OmittedField(active, f, DeletionPolicy);
  }

  /** Encrypting less never turns a default on. */
  lemma FewerDefaults(g: Field, less: bool, more: bool)
    requires (less ==> more) && DefaultValue(more, g) == Zero(g)
    ensures DefaultValue(less, g) == Zero(g)
  {
  }

  lemma OmittingEncrypts(active: Config, f: Field)
    requires Droppable(active, f)
    ensures IsEncrypting(Omitting(active, f)) ==> IsEncrypting(active) && f !in Conditional
  {
    OmittedAt(active, f, ManifestCrypto);
    assert !HasCrypto(Omitting(active, f).pipeline);
  }

  lemma NoDefaultFor(f: Field, encrypting: bool)
    requires f == IdentityMode || f == DeletionPolicyLock || (f in Conditional && !encrypting)
    ensures DefaultValue(encrypting, f) == Zero(f)
  {
  }

  /** Each field of that request, defaulted, is the active one, except that f is zero. */
  lemma OmittedField(active: Config, f: Field, g: Field)
    requires Defaulted(active) == active && Droppable(active, f)
    ensures Get(Defaulted(Omitting(active, f)), g) == if g == f then Zero(g) else Get(active, g)
  {
    var r := Omitting(active, f);
    OmittedAt(active, f, g);
    OmittingEncrypts(active, f);
    DefaultedAt(r, g);
    if g == f {
      NoDefaultFor(f, IsEncrypting(r));
    } else if !Populated(active, g) {
      DefaultedAt(active, g);
      FewerDefaults(g, IsEncrypting(r), IsEncrypting(active));
    }
  }

  lemma OmittedAt(active: Config, f: Field, g: Field)
    ensures Get(Omitting(active, f), g) == if g == f then Zero(f) else Get(active, g)
  {
  }

  lemma OnlyDroppableChanges(cfg: Config, active: Config, f: Field)
    requires ClassOf(f) == Immutable && Accepts(Defaulted(cfg), active) && Get(Defaulted(cfg), f) != Get(active, f)
    ensures Droppable(active, f)
  {
    ImmutableFields(f);
    assert !Diverges(Defaulted(cfg), active, f);
    if f in Pinned { PinnedIsPopulated(cfg, f); }
    if f in Conditional { OnlyUnencrypted(cfg, active, f); }
  }

  lemma OnlyUnencrypted(cfg: Config, active: Config, f: Field)
    requires f in Conditional && Agrees(Defaulted(cfg), active, Immutable) && !Populated(Defaulted(cfg), f)
    ensures Get(active, ManifestCrypto) == Text("Plain")
  {
    DefaultedAt(cfg, f);
    assert DefaultValue(true, f) != Zero(f);
    CryptoStays(cfg, active);
  }

  /** Exactly when one accepted update can change an immutable field: always for a set IdentityMode
      or DeletionPolicyLock, for EncryptedDedup and SegmentSize when only the pipeline encrypts,
      and never for the rest. */
  lemma ChangeableExactlyWhen(active: Config, f: Field)
    requires Valid(active) && Defaulted(active) == active && ClassOf(f) == Immutable
    ensures (exists cfg: Config :: Accepts(Defaulted(cfg), active) && Get(Defaulted(cfg), f) != Get(active, f)) <==>
            Droppable(active, f)
  {
    if Droppable(active, f) { OmittingIsAccepted(active, f); }
    if cfg: Config :| Accepts(Defaulted(cfg), active) && Get(Defaulted(cfg), f) != Get(active, f) {
      OnlyDroppableChanges(cfg, active, f);
    }
  }

  lemma UndroppableIsSettled(active: Config, f: Field)
    requires ClassOf(f) == Immutable && !Droppable(active, f)
    ensures Settled(f, Get(active, f), Get(active, ManifestCrypto))
  {
    forall cfg: Config, other: Config
      | Has(other, f, Get(active, f)) && Has(other, ManifestCrypto, Get(active, ManifestCrypto))
        && Accepts(Defaulted(cfg), other)
      ensures Has(Defaulted(cfg), f, Get(active, f))
    {
      if Get(Defaulted(cfg), f) != Get(other, f) { OnlyDroppableChanges(cfg, other, f); }
    }
  }

  /** Without a condition of its own a field keeps the value fixed at init. */
  lemma UndroppableForLife(cfg: Config, run: seq<Event>, f: Field)
    requires IsRun(Created(cfg), run) && ClassOf(f) == Immutable && !Droppable(Defaulted(cfg), f)
    ensures Everywhere(Exec(Created(cfg), run), f, Get(Defaulted(cfg), f))
  {
    UndroppableIsSettled(Defaulted(cfg), f);
    ImmutableFields(ManifestCrypto);
    UndroppableIsSettled(Defaulted(cfg), ManifestCrypto);
    CreatedHas(cfg, f);
    CreatedHas(cfg, ManifestCrypto);
    CreatedIsDefaulted(cfg);
    SettledRun(Created(cfg), run, f, Get(Defaulted(cfg), f), Get(Defaulted(cfg), ManifestCrypto));
  }

  lemma CreatedIsDefaulted(cfg: Config)
    ensures AllDefaulted(Created(cfg))
  {
    DefaultedTwice(cfg);
    PersistedLoads(Defaulted(cfg));
  }

  /** Over every run on any number of hosts, path topology, manifest encoding, manifest crypto and
      content hasher keep the value fixed at init in every published version and in every host's
      memory. */
  lemma PinnedForLife(cfg: Config, run: seq<Event>, f: Field)
    requires IsRun(Created(cfg), run) && f in Pinned
    ensures Everywhere(Exec(Created(cfg), run), f, Get(Defaulted(cfg), f))
  {
    PinnedStays(Defaulted(cfg), f);
    UndroppableForLife(cfg, run, f);
  }

  lemma PinnedStays(active: Config, f: Field)
    requires f in Pinned
    ensures ClassOf(f) == Immutable && !Droppable(active, f)
  {
  }

  /** A field declared immutable keeps the value fixed at init, over every run and in every copy,
      exactly when it was left unset or is not one of those a request may leave out. */
  lemma ImmutableForLifeExactlyWhen(cfg: Config, f: Field)
    requires Valid(Defaulted(cfg)) && ClassOf(f) == Immutable
    ensures (forall run :: IsRun(Created(cfg), run) ==>
               Everywhere(Exec(Created(cfg), run), f, Get(Defaulted(cfg), f))) <==>
            !Droppable(Defaulted(cfg), f)
  {
    var active := Defaulted(cfg);
    if Droppable(active, f) {
      DefaultedTwice(cfg);
      OmittingIsAccepted(active, f);
      var run := UpdatePublishes(Created(cfg), 0, Omitting(active, f));
      var t := Exec(Created(cfg), run);
      assert IsCopy(t, t.hosts[0].active) && !Has(t.hosts[0].active, f, Get(active, f));
    } else {
      forall run | IsRun(Created(cfg), run) ensures Everywhere(Exec(Created(cfg), run), f, Get(active, f)) {
        UndroppableForLife(cfg, run, f);
      }
    }
  }

  /** A request that leaves a conditional field zero does not encrypt, and manifest crypto is pinned. */
  lemma CryptoStays(cfg: Config, active: Config)
    requires Agrees(Defaulted(cfg), active, Immutable)
    ensures Get(Defaulted(cfg), ManifestCrypto) == Get(active, ManifestCrypto)
    ensures !IsEncrypting(cfg) ==> Get(active, ManifestCrypto) == Text("Plain")
  {
    PinnedIsPopulated(cfg, ManifestCrypto);
    assert !Diverges(Defaulted(cfg), active, ManifestCrypto);
    DefaultedAt(cfg, ManifestCrypto);
  }
}
