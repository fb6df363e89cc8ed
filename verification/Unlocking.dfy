/** `Unlock` and the bootstrap it claims (engine/store/admin_crypto.go,
    engine/store/lifecycle_construct.go, the key material of engine/store/internal/crypto/state.go,
    the gates of engine/store/access.go). */
module Unlocking {

  datatype StoreState = Locked | Bootstrapping | Unlocked | Corrupted

  /** `Default` is the resolver promoted over a copy of the DEK when none was injected; closing it
      drops the copy and leaves it installed. */
  datatype Resolver = NoResolver | Injected | Default | ClosedDefault

  /** What the mutexes guard. */
  datatype Shared =
    Shared(state: StoreState, dek: bool, resolver: Resolver, complete: bool, closed: bool, offline: bool)

  datatype Refusal = Closed | IsCorrupted | Offline | NotReady | IsLocked | Passes

  /** engine/store/access.go: the gate of Unlock. */
  function EnterAdmin(m: Shared): Refusal {
    if m.closed then Closed
    else if m.state == Corrupted then IsCorrupted
    else if m.offline then Offline
    else if m.state == Bootstrapping then NotReady
    else Passes
  }

  /** The gate of reads, and with the read-only check of writes. */
  function CheckOperational(m: Shared): Refusal {
    if EnterAdmin(m) != Passes then EnterAdmin(m)
    else if m.state == Locked then IsLocked
    else Passes
  }

  /** Exactly when each gate lets a call through, and the reason it gives otherwise. */
  lemma GatesExactlyWhen(m: Shared)
    ensures EnterAdmin(m) == Passes <==> !m.closed && !m.offline && m.state in {Locked, Unlocked}
    ensures CheckOperational(m) == Passes <==> !m.closed && !m.offline && m.state == Unlocked
    ensures CheckOperational(m) == IsLocked <==> !m.closed && !m.offline && m.state == Locked
    ensures m.state != Locked ==> CheckOperational(m) == EnterAdmin(m)
    ensures var r := EnterAdmin(m);
            && (r == Closed <==> m.closed)
            && (r == IsCorrupted <==> !m.closed && m.state == Corrupted)
            && (r == Offline <==> !m.closed && m.state != Corrupted && m.offline)
            && (r == NotReady <==> !m.closed && m.state == Bootstrapping && !m.offline)
            && (r != Passes ==> CheckOperational(m) == r)
  {
  }

  /** Promotion never replaces a resolver, not even a closed one. */
  function Keyed(m: Shared): Shared {
    m.(dek := true, resolver := if m.resolver == NoResolver then Default else m.resolver)
  }

  // ---- Undisturbed ----

  /** How the calls Unlock depends on turn out: unwrapping the DEK, carrying out the index plan
      (`marks`: the plan needs no recovery, so the index is complete at once), the reconcile pass. */
  datatype Luck = Luck(unwraps: bool, settles: bool, marks: bool, reconciles: bool)

  /** What one call does if nobody interferes: the state it leaves, and whether it succeeds. */
  function UndisturbedUnlock(m: Shared, luck: Luck): (Shared, bool) {
    if EnterAdmin(m) != Passes then (m, false)
    else if m.state == Unlocked then (m, true)
    else if !luck.unwraps then (m, false)
    else
      var k := Keyed(m);
      if luck.settles && luck.reconciles then (k.(state := Unlocked, complete := true), true)
      else (k.(dek := false, complete := m.complete || (luck.settles && luck.marks)), false)
  }

  class Store {
    var state: StoreState
    var dek: bool
    var resolver: Resolver
    var complete: bool
    var closed: bool
    var offline: bool

    ghost function Value(): Shared
      reads this
    {
      Shared(state, dek, resolver, complete, closed, offline)
    }

    constructor (m: Shared)
      ensures Value() == m
    {
      state, dek, resolver, complete, closed, offline := m.state, m.dek, m.resolver, m.complete, m.closed, m.offline;
    }

    method UnlockDEK(unwraps: bool) returns (ok: bool)
      modifies this
      ensures ok == (old(dek) || unwraps)
      ensures Value() == if old(dek) || !unwraps then old(Value()) else Keyed(old(Value()))
    {
      if dek { return true; }
      if !unwraps { return false; }
      dek := true;
      if resolver == NoResolver { resolver := Default; }
      ok := true;
    }

    /** Without interference: a store that passes the gate and is Locked ends Unlocked with its index
        complete, or Locked again with no DEK. */
    method Unlock(luck: Luck) returns (ok: bool)
      requires state == Locked ==> !dek
      requires state == Unlocked ==> complete
      modifies this
      ensures ok <==> !old(closed) && !old(offline)
                      && (old(state) == Unlocked
                          || (old(state) == Locked && luck.unwraps && luck.settles && luck.reconciles))
      ensures (Value(), ok) == UndisturbedUnlock(old(Value()), luck)
      ensures ok ==> state == Unlocked && complete && (old(state) == Locked ==> dek)
      ensures !ok ==> state == old(state) && dek == old(dek)
      ensures closed == old(closed) && offline == old(offline)
      ensures if !old(closed) && !old(offline) && old(state) == Locked && luck.unwraps then
                && resolver == (if old(resolver) == NoResolver then Default else old(resolver))
                && complete == (old(complete) || (luck.settles && (luck.marks || luck.reconciles)))
              else Value() == old(Value())
    {
      if closed || state == Corrupted || offline || state == Bootstrapping { return false; }
      if state == Unlocked { return true; }
      state := Bootstrapping;
      var unwrapped := UnlockDEK(luck.unwraps);
      if !unwrapped {
        state := Locked;
        return false;
      }
      if luck.settles && luck.marks { complete := true; }
      if !luck.settles || !luck.reconciles {
        dek := false;
        state := Locked;
        return false;
      }
      complete := true;
      state := Unlocked;
      ok := true;
    }
  }

  // ---- Any number of callers ----

  datatype Phase =
    | Called        // before the gate
    | Gated         // through the gate, before the claim
    | Claimed       // won the move to Bootstrapping
    | HasKey        // the DEK is unwrapped
    | Settled       // the index plan is carried out
    | Reconciled    // the pass succeeded and the index is marked complete
    | Wiping        // failed with the DEK in memory
    | Reverting     // about to return to Locked
    | Returned(ok: bool)

  datatype World = World(shared: Shared, callers: seq<Phase>)

  datatype Event =
    | Call
    | Enter(i: nat)
    | Claim(i: nat)
    | Unwrap(i: nat, ok: bool)
    | Settle(i: nat, ok: bool, marks: bool)
    | Reconcile(i: nat, ok: bool)
    | Open(i: nat)
    | Wipe(i: nat)
    | Revert(i: nat)
    | Close                 // the store is marked closed
    | CloseSecrets          // and later its secrets are dropped
    | SetOffline(on: bool)

  predicate Enabled(w: World, e: Event) {
    match e
    case Enter(i) => i < |w.callers| && w.callers[i] == Called
    case Claim(i) => i < |w.callers| && w.callers[i] == Gated
    case Unwrap(i, _) => i < |w.callers| && w.callers[i] == Claimed
    case Settle(i, _, _) => i < |w.callers| && w.callers[i] == HasKey
    case Reconcile(i, _) => i < |w.callers| && w.callers[i] == Settled
    case Open(i) => i < |w.callers| && w.callers[i] == Reconciled
    case Wipe(i) => i < |w.callers| && w.callers[i] == Wiping
    case Revert(i) => i < |w.callers| && w.callers[i] == Reverting
    case CloseSecrets => w.shared.closed
    case _ => true
  }

  function Step(w: World, i: nat, m: Shared, p: Phase): World
    requires i < |w.callers|
  {
    World(m, w.callers[i := p])
  }

  function Apply(w: World, e: Event): World
    requires Enabled(w, e)
  {
    var m := w.shared;
    match e
    case Call => w.(callers := w.callers + [Called])
    case Enter(i) => Step(w, i, m, if EnterAdmin(m) == Passes then Gated else Returned(false))
    case Claim(i) =>
      if m.state == Unlocked then Step(w, i, m, Returned(true))
      else if m.state == Locked then Step(w, i, m.(state := Bootstrapping), Claimed)
      else Step(w, i, m, Returned(false))
    case Unwrap(i, ok) =>
      if m.dek then Step(w, i, m, HasKey)
      else if ok then Step(w, i, Keyed(m), HasKey)
      else Step(w, i, m, Reverting)
    case Settle(i, ok, marks) =>
      if ok then Step(w, i, m.(complete := m.complete || marks), Settled) else Step(w, i, m, Wiping)
    case Reconcile(i, ok) => if ok then Step(w, i, m.(complete := true), Reconciled) else Step(w, i, m, Wiping)
    case Open(i) => Step(w, i, m.(state := Unlocked), Returned(true))
    case Wipe(i) => Step(w, i, m.(dek := false), Reverting)
    case Revert(i) => Step(w, i, m.(state := Locked), Returned(false))
    case Close => w.(shared := m.(closed := true))
    case CloseSecrets =>
      w.(shared := m.(dek := false, resolver := if m.resolver == Default then ClosedDefault else m.resolver))
    case SetOffline(on) => w.(shared := m.(offline := on))
  }

  predicate IsRun(w: World, run: seq<Event>)
    decreases |run|
  {
    run == [] || (Enabled(w, run[0]) && IsRun(Apply(w, run[0]), run[1..]))
  }

  function Exec(w: World, run: seq<Event>): World
    requires IsRun(w, run)
    decreases |run|
  {
    if run == [] then w else Exec(Apply(w, run[0]), run[1..])
  }

  lemma StepFirst(w: World, e: Event, rest: seq<Event>)
    requires Enabled(w, e) && IsRun(Apply(w, e), rest)
    ensures IsRun(w, [e] + rest) && Exec(w, [e] + rest) == Exec(Apply(w, e), rest)
  {
    assert ([e] + rest)[1..] == rest;
  }

  // ---- One caller nobody disturbs ----

  function RunKeyed(i: nat, luck: Luck): seq<Event> {
    [Settle(i, luck.settles, luck.marks)] +
    if !luck.settles then RunFailed(i)
    else [Reconcile(i, luck.reconciles)] + if luck.reconciles then [Open(i)] + [] else RunFailed(i)
  }

  function RunFailed(i: nat): seq<Event> {
    [Wipe(i)] + ([Revert(i)] + [])
  }

  function RunClaimed(i: nat, luck: Luck): seq<Event> {
    [Unwrap(i, luck.unwraps)] + if luck.unwraps then RunKeyed(i, luck) else [Revert(i)] + []
  }

  function RunGated(m: Shared, i: nat, luck: Luck): seq<Event> {
    [Claim(i)] + if m.state == Unlocked then [] else RunClaimed(i, luck)
  }

  function RunCalled(m: Shared, i: nat, luck: Luck): seq<Event> {
    [Enter(i)] + if EnterAdmin(m) != Passes then [] else RunGated(m, i, luck)
  }

  /** The steps of caller i from its call to its return. */
  function WholeCall(m: Shared, i: nat, luck: Luck): seq<Event> {
    [Call] + RunCalled(m, i, luck)
  }

  lemma FailedSteps(w: World, i: nat)
    requires i < |w.callers| && w.callers[i].Wiping?
    ensures IsRun(w, RunFailed(i))
    ensures Exec(w, RunFailed(i)) == Step(w, i, w.shared.(dek := false, state := Locked), Returned(false))
  {
    var t := Apply(w, Wipe(i));
    StepFirst(t, Revert(i), []);
    StepFirst(w, Wipe(i), [Revert(i)] + []);
    assert Apply(t, Revert(i)).callers == w.callers[i := Returned(false)];
  }

  lemma KeyedSteps(w: World, i: nat, luck: Luck)
    requires i < |w.callers| && w.callers[i].HasKey?
    ensures IsRun(w, RunKeyed(i, luck))
    ensures var ok, m := luck.settles && luck.reconciles, w.shared;
            Exec(w, RunKeyed(i, luck)) ==
            Step(w, i, if ok then m.(state := Unlocked, complete := true)
                       else m.(dek := false, state := Locked, complete := m.complete || (luck.settles && luck.marks)),
                 Returned(ok))
  {
    var e := Settle(i, luck.settles, luck.marks);
    var t := Apply(w, e);
    if luck.settles {
      var f := Reconcile(i, luck.reconciles);
      var u := Apply(t, f);
      if luck.reconciles { StepFirst(u, Open(i), []); } else { FailedSteps(u, i); }
      StepFirst(t, f, if luck.reconciles then [Open(i)] + [] else RunFailed(i));
    } else {
      FailedSteps(t, i);
    }
    StepFirst(w, e, RunKeyed(i, luck)[1..]);
    assert RunKeyed(i, luck) == [e] + RunKeyed(i, luck)[1..];
  }

  lemma ClaimedSteps(w: World, i: nat, luck: Luck)
    requires i < |w.callers| && w.callers[i].Claimed? && w.shared.state == Bootstrapping && !w.shared.dek
    requires !w.shared.closed && !w.shared.offline
    ensures IsRun(w, RunClaimed(i, luck))
    ensures var r := UndisturbedUnlock(w.shared.(state := Locked), luck);
            Exec(w, RunClaimed(i, luck)) == Step(w, i, r.0, Returned(r.1))
  {
    var e := Unwrap(i, luck.unwraps);
    var t := Apply(w, e);
    if luck.unwraps {
      KeyedSteps(t, i, luck);
      StepFirst(w, e, RunKeyed(i, luck));
    } else {
      StepFirst(t, Revert(i), []);
      StepFirst(w, e, [Revert(i)] + []);
    }
  }

  lemma GatedSteps(w: World, i: nat, luck: Luck)
    requires i < |w.callers| && w.callers[i].Gated? && EnterAdmin(w.shared) == Passes
    requires w.shared.state == Locked ==> !w.shared.dek
    ensures IsRun(w, RunGated(w.shared, i, luck))
    ensures var r := UndisturbedUnlock(w.shared, luck);
            Exec(w, RunGated(w.shared, i, luck)) == Step(w, i, r.0, Returned(r.1))
  {
    var t := Apply(w, Claim(i));
    if w.shared.state == Locked {
      ClaimedSteps(t, i, luck);
      StepFirst(w, Claim(i), RunClaimed(i, luck));
      assert t.shared.(state := Locked) == w.shared;
    } else {
      StepFirst(w, Claim(i), []);
    }
  }

  lemma CalledSteps(w: World, i: nat, luck: Luck)
    requires i < |w.callers| && w.callers[i].Called? && (w.shared.state == Locked ==> !w.shared.dek)
    ensures IsRun(w, RunCalled(w.shared, i, luck))
    ensures var r := UndisturbedUnlock(w.shared, luck);
            Exec(w, RunCalled(w.shared, i, luck)) == Step(w, i, r.0, Returned(r.1))
  {
    if EnterAdmin(w.shared) == Passes {
      GatedSteps(Apply(w, Enter(i)), i, luck);
      StepFirst(w, Enter(i), RunGated(w.shared, i, luck));
    } else {
      StepFirst(w, Enter(i), []);
    }
  }

  /** The callers' steps, taken by one of them without interference, are the call: same state in the
      end, same answer. */
  lemma WholeCallIsUnlock(w: World, luck: Luck)
    requires w.shared.state == Locked ==> !w.shared.dek
    ensures var i := |w.callers|;
            && IsRun(w, WholeCall(w.shared, i, luck))
            && var r := UndisturbedUnlock(w.shared, luck);
               Exec(w, WholeCall(w.shared, i, luck)) == World(r.0, w.callers + [Returned(r.1)])
  {
    var i := |w.callers|;
    var t := Apply(w, Call);
    CalledSteps(t, i, luck);
    StepFirst(w, Call, RunCalled(w.shared, i, luck));
    assert forall p :: t.callers[i := p] == w.callers + [p];
  }

  // ---- What holds over every run ----

  predicate InFlight(p: Phase) {
    !p.Called? && !p.Gated? && !p.Returned?
  }

  ghost predicate OneBootstrap(w: World) {
    && (forall i, j :: 0 <= i < |w.callers| && 0 <= j < |w.callers| ==>
          InFlight(w.callers[i]) && InFlight(w.callers[j]) ==> i == j)
    && (w.shared.state == Bootstrapping <==> exists i :: 0 <= i < |w.callers| && InFlight(w.callers[i]))
  }

  /** What a caller in flight may rely on. */
  predicate CallerOk(m: Shared, p: Phase) {
    && (p.Claimed? || p.Reverting? ==> !m.dek)
    && (p.HasKey? || p.Settled? || p.Reconciled? ==> m.dek || m.closed)
    && (p.Reconciled? ==> m.complete)
  }

  predicate StateOk(m: Shared) {
    && (m.state == Locked ==> !m.dek)
    && (m.state == Unlocked ==> m.complete && (m.dek || m.closed))
  }

  ghost predicate Inv(w: World) {
    OneBootstrap(w) && StateOk(w.shared) && forall i :: 0 <= i < |w.callers| ==> CallerOk(w.shared, w.callers[i])
  }

  /** A step by caller i: everyone else is where they were. */
  lemma MoveKeepsOne(w: World, i: nat, m: Shared, p: Phase)
    requires OneBootstrap(w) && i < |w.callers|
    requires InFlight(w.callers[i]) ==> (m.state == Bootstrapping <==> InFlight(p))
    requires !InFlight(w.callers[i]) && InFlight(p) ==> w.shared.state != Bootstrapping && m.state == Bootstrapping
    requires !InFlight(w.callers[i]) && !InFlight(p) ==> m.state == w.shared.state
    ensures OneBootstrap(Step(w, i, m, p))
  {
    var t := Step(w, i, m, p);
    assert forall j :: 0 <= j < |w.callers| && j != i ==> t.callers[j] == w.callers[j];
    if InFlight(p) {
      assert InFlight(t.callers[i]);
    } else if m.state == Bootstrapping {
      var j :| 0 <= j < |w.callers| && InFlight(w.callers[j]);
      assert InFlight(t.callers[j]);
    }
  }

  lemma StepKeepsOne(w: World, e: Event)
    requires OneBootstrap(w) && Enabled(w, e)
    ensures OneBootstrap(Apply(w, e))
  {
    if e.Call? {
      var t := Apply(w, e);
      assert forall j :: 0 <= j < |w.callers| ==> t.callers[j] == w.callers[j];
      assert forall j :: 0 <= j < |t.callers| && InFlight(t.callers[j]) ==> j < |w.callers|;
    } else if ByCaller(e) {
      MoveKeepsOne(w, e.i, Apply(w, e).shared, Apply(w, e).callers[e.i]);
    }
  }

  predicate ByCaller(e: Event) {
    !e.Call? && !e.Close? && !e.CloseSecrets? && !e.SetOffline?
  }

  /** While one caller is in flight the others change nothing. */
  lemma OthersChangeNothing(w: World, e: Event, j: nat)
    requires OneBootstrap(w) && Enabled(w, e) && ByCaller(e)
    requires j < |w.callers| && j != e.i && InFlight(w.callers[j])
    ensures Apply(w, e).shared == w.shared
  {
    assert w.shared.state == Bootstrapping && !InFlight(w.callers[e.i]);
  }

  lemma StepKeepsCallers(w: World, e: Event)
    requires Inv(w) && Enabled(w, e)
    ensures var t := Apply(w, e); forall j :: 0 <= j < |t.callers| ==> CallerOk(t.shared, t.callers[j])
  {
    var t := Apply(w, e);
    forall j | 0 <= j < |t.callers| ensures CallerOk(t.shared, t.callers[j]) {
      if j < |w.callers| {
        assert CallerOk(w.shared, w.callers[j]);
        if ByCaller(e) && j != e.i && InFlight(w.callers[j]) { OthersChangeNothing(w, e, j); }
      }
    }
  }

  lemma StepKeepsInv(w: World, e: Event)
    requires Inv(w) && Enabled(w, e)
    ensures Inv(Apply(w, e))
  {
    StepKeepsOne(w, e);
    StepKeepsCallers(w, e);
    assert StateOk(Apply(w, e).shared) by {
      if ByCaller(e) { assert CallerOk(w.shared, w.callers[e.i]); }
    }
  }

  /** For any number of Unlock callers and every interleaving of their steps with Close and the
      operator: exactly one bootstrap is in flight while the state is Bootstrapping and none
      otherwise, Unlocked means a complete index, and Locked means no DEK is held.  A read gets
      past its gate only with the DEK in memory and the index complete. */
  lemma {:induction false} UnlockIsSafe(w: World, run: seq<Event>)
    requires Inv(w) && IsRun(w, run)
    ensures Inv(Exec(w, run))
    ensures CheckOperational(Exec(w, run).shared) == Passes ==>
              Exec(w, run).shared.state == Unlocked && Exec(w, run).shared.complete && Exec(w, run).shared.dek
    ensures CheckOperational(Exec(w, run).shared) == IsLocked ==> !Exec(w, run).shared.dek
    decreases |run|
  {
    if run != [] {
      StepKeepsInv(w, run[0]);
      UnlockIsSafe(Apply(w, run[0]), run[1..]);
    }
  }

  /** Bootstrapping is never a dead end: the one caller in flight can always take its next step, and
      that step is its own. */
  lemma BootstrapCanMove(w: World) returns (e: Event)
    requires Inv(w) && w.shared.state == Bootstrapping
    ensures Enabled(w, e) && Apply(w, e).callers != w.callers
  {
    var i: nat :| i < |w.callers| && InFlight(w.callers[i]);
    var p := w.callers[i];
    e := if p.Claimed? then Unwrap(i, true)
         else if p.HasKey? then Settle(i, true, true)
         else if p.Settled? then Reconcile(i, true)
         else if p.Reconciled? then Open(i)
         else if p.Wiping? then Wipe(i)
         else Revert(i);
    assert Apply(w, e).callers[i] != w.callers[i];
  }

  // ---- The promoted resolver ----

  /** Some Unlock failed after it had unwrapped the DEK. */
  ghost predicate FailedLate(run: seq<Event>) {
    exists e :: e in run && e.Wipe?
  }

  predicate KeyedPhase(p: Phase) {
    p.HasKey? || p.Settled? || p.Reconciled? || p.Wiping?
  }

  /** A caller past the unwrap has a resolver over its key; and outside a bootstrap nobody does
      unless an earlier one failed late. */
  predicate CopyOk(m: Shared, p: Phase, late: bool) {
    && (KeyedPhase(p) ==> m.resolver == Default)
    && ((p.Claimed? || p.Reverting?) && !late ==> m.resolver == NoResolver)
  }

  ghost predicate CopyTracked(w: World, late: bool) {
    && (late ==> w.shared.resolver == Default)
    && (w.shared.state == Locked && !late ==> w.shared.resolver == NoResolver)
    && forall i :: 0 <= i < |w.callers| ==> CopyOk(w.shared, w.callers[i], late)
  }

  lemma CopyStepCallers(w: World, e: Event, late: bool)
    requires Inv(w) && CopyTracked(w, late) && Enabled(w, e) && !e.CloseSecrets?
    ensures var t := Apply(w, e); forall j :: 0 <= j < |t.callers| ==> CopyOk(t.shared, t.callers[j], late || e.Wipe?)
  {
    var t := Apply(w, e);
    forall j | 0 <= j < |t.callers| ensures CopyOk(t.shared, t.callers[j], late || e.Wipe?) {
      if j < |w.callers| {
        assert CopyOk(w.shared, w.callers[j], late) && CallerOk(w.shared, w.callers[j]);
        if ByCaller(e) && j != e.i && InFlight(w.callers[j]) { OthersChangeNothing(w, e, j); }
      }
    }
  }

  lemma CopyStep(w: World, e: Event, late: bool)
    requires Inv(w) && CopyTracked(w, late) && Enabled(w, e) && !e.CloseSecrets?
    ensures CopyTracked(Apply(w, e), late || e.Wipe?)
  {
    CopyStepCallers(w, e, late);
    if ByCaller(e) { assert CopyOk(w.shared, w.callers[e.i], late) && CallerOk(w.shared, w.callers[e.i]); }
  }

  lemma {:induction false} CopyOverRun(w: World, run: seq<Event>, late: bool)
    requires Inv(w) && CopyTracked(w, late) && IsRun(w, run)
    requires forall e :: e in run ==> !e.CloseSecrets?
    ensures CopyTracked(Exec(w, run), late || FailedLate(run))
    decreases |run|
  {
    if run != [] {
      var e, rest := run[0], run[1..];
      assert e in run && forall f :: f in rest ==> f in run;
      CopyStep(w, e, late);
      StepKeepsInv(w, e);
      CopyOverRun(Apply(w, e), rest, late || e.Wipe?);
      assert FailedLate(run) <==> e.Wipe? || FailedLate(rest) by {
        assert run == [e] + rest;
      }
    } else {
      assert !FailedLate(run);
    }
  }

  /** The wipe does not reach the resolver promoted over the DEK.  With no resolver injected, a Locked
      store that has not been closed still answers key lookups exactly when some earlier Unlock
      failed after unwrapping the DEK. */
  lemma LockedKeepsCopyExactlyWhen(w: World, run: seq<Event>)
    requires Inv(w) && w.shared.state == Locked && w.shared.resolver == NoResolver && IsRun(w, run)
    requires forall e :: e in run ==> !e.CloseSecrets?
    requires Exec(w, run).shared.state == Locked
    ensures !Exec(w, run).shared.dek
    ensures Exec(w, run).shared.resolver == Default <==> FailedLate(run)
  {
    assert CopyTracked(w, false);
    CopyOverRun(w, run, false);
    UnlockIsSafe(w, run);
  }

  // ---- A closed store ----

  /** The closed default resolver stays installed, and so does an injected one: nothing is ever
      promoted in their place. */
  lemma {:induction false} ResolverStays(w: World, run: seq<Event>)
    requires w.shared.resolver in {ClosedDefault, Injected} && IsRun(w, run)
    ensures Exec(w, run).shared.resolver == w.shared.resolver
    decreases |run|
  {
    if run != [] { ResolverStays(Apply(w, run[0]), run[1..]); }
  }

  /** Closing the secrets drops the DEK, and for good the copy under the promoted resolver; a resolver
      the host injected is the host's to close. */
  lemma SecretsDropped(w: World, run: seq<Event>)
    requires w.shared.closed && IsRun(Apply(w, CloseSecrets), run)
    ensures var t := Apply(w, CloseSecrets);
            && !t.shared.dek && t.callers == w.callers && t.shared.state == w.shared.state
            && (w.shared.resolver == NoResolver ==> t.shared.resolver == NoResolver)
            && (w.shared.resolver in {Default, ClosedDefault} ==> Exec(t, run).shared.resolver == ClosedDefault)
            && (w.shared.resolver == Injected ==> Exec(t, run).shared.resolver == Injected)
  {
    if w.shared.resolver != NoResolver { ResolverStays(Apply(w, CloseSecrets), run); }
  }

  lemma {:induction false} ClosedAdmitsNobody(w: World, run: seq<Event>, i: nat)
    requires w.shared.closed && IsRun(w, run)
    requires i < |w.callers| ==> w.callers[i] in {Called, Returned(false)}
    ensures Exec(w, run).shared.closed
    ensures i < |Exec(w, run).callers| ==> Exec(w, run).callers[i] in {Called, Returned(false)}
    decreases |run|
  {
    if run != [] { ClosedAdmitsNobody(Apply(w, run[0]), run[1..], i); }
  }

  /** From Close on every gate answers Closed, and no Unlock that had not passed its gate by then ever
      does more than fail. */
  lemma CloseShutsTheGate(w: World, run: seq<Event>, i: nat)
    requires IsRun(Apply(w, Close), run) && (i < |w.callers| ==> w.callers[i] == Called)
    ensures var t := Exec(Apply(w, Close), run);
            && EnterAdmin(t.shared) == Closed && CheckOperational(t.shared) == Closed
            && (i < |t.callers| ==> t.callers[i] in {Called, Returned(false)})
  {
    ClosedAdmitsNobody(Apply(w, Close), run, i);
  }

  /** The operator's Offline shuts every gate, and taking it back restores what was there. */
  lemma OfflineIsReversible(w: World)
    ensures var t := Apply(w, SetOffline(true));
            && EnterAdmin(t.shared) != Passes && CheckOperational(t.shared) != Passes
            && Apply(t, SetOffline(w.shared.offline)) == w
            && (EnterAdmin(Apply(t, SetOffline(false)).shared) == Passes <==>
                  !w.shared.closed && w.shared.state in {Locked, Unlocked})
  {
  }

  /** A caller that may still come back to Locked. */
  predicate MayRevert(p: Phase) {
    p.HasKey? || p.Settled? || p.Wiping? || p.Reverting?
  }

  /** Nobody is between claim and unwrap, and nobody who is through the gate can get there. */
  ghost predicate Drained(w: World) {
    && (forall i :: 0 <= i < |w.callers| ==> !w.callers[i].Claimed?)
    && ((forall i :: 0 <= i < |w.callers| ==> !w.callers[i].Gated?)
        || (w.shared.state != Locked && forall i :: 0 <= i < |w.callers| ==> !MayRevert(w.callers[i])))
  }

  lemma DrainedStep(w: World, e: Event)
    requires Drained(w) && w.shared.closed && !w.shared.dek && Enabled(w, e)
    ensures Drained(Apply(w, e)) && Apply(w, e).shared.closed && !Apply(w, e).shared.dek
  {
    var t := Apply(w, e);
    if ByCaller(e) {
      assert forall j :: 0 <= j < |w.callers| && j != e.i ==> t.callers[j] == w.callers[j];
    }
  }

  lemma {:induction false} DrainedStaysKeyless(w: World, run: seq<Event>)
    requires Drained(w) && w.shared.closed && !w.shared.dek && IsRun(w, run)
    ensures !Exec(w, run).shared.dek
    decreases |run|
  {
    if run != [] {
      DrainedStep(w, run[0]);
      DrainedStaysKeyless(Apply(w, run[0]), run[1..]);
    }
  }

  /** Through the gate before the close, g unwraps the DEK of the closed store. */
  lemma FromLocked(w: World, g: nat) returns (run: seq<Event>)
    requires g < |w.callers| && w.callers[g].Gated? && w.shared.state == Locked && !w.shared.dek
    ensures IsRun(w, run) && Exec(w, run).shared.dek
  {
    var t := Apply(w, Claim(g));
    StepFirst(t, Unwrap(g, true), []);
    StepFirst(w, Claim(g), [Unwrap(g, true)] + []);
    run := [Claim(g)] + ([Unwrap(g, true)] + []);
  }

  lemma FromReverting(w: World, g: nat, j: nat) returns (run: seq<Event>)
    requires g < |w.callers| && w.callers[g].Gated? && j < |w.callers| && w.callers[j].Reverting? && !w.shared.dek
    ensures IsRun(w, run) && Exec(w, run).shared.dek
  {
    run := FromLocked(Apply(w, Revert(j)), g);
    StepFirst(w, Revert(j), run);
    run := [Revert(j)] + run;
  }

  lemma FromWiping(w: World, g: nat, j: nat) returns (run: seq<Event>)
    requires g < |w.callers| && w.callers[g].Gated? && j < |w.callers| && w.callers[j].Wiping?
    ensures IsRun(w, run) && Exec(w, run).shared.dek
  {
    run := FromReverting(Apply(w, Wipe(j)), g, j);
    StepFirst(w, Wipe(j), run);
    run := [Wipe(j)] + run;
  }

  lemma FromBootstrap(w: World, g: nat, j: nat) returns (run: seq<Event>)
    requires g < |w.callers| && w.callers[g].Gated? && j < |w.callers|
    requires w.callers[j].HasKey? || w.callers[j].Settled?
    ensures IsRun(w, run) && Exec(w, run).shared.dek
  {
    var e := if w.callers[j].HasKey? then Settle(j, false, false) else Reconcile(j, false);
    run := FromWiping(Apply(w, e), g, j);
    StepFirst(w, e, run);
    run := [e] + run;
  }

  lemma KeyComesBack(w: World) returns (run: seq<Event>)
    requires !w.shared.dek && !Drained(w)
    ensures IsRun(w, run) && Exec(w, run).shared.dek
  {
    if i: nat :| i < |w.callers| && w.callers[i].Claimed? {
      StepFirst(w, Unwrap(i, true), []);
      run := [Unwrap(i, true)] + [];
    } else {
      var g: nat :| g < |w.callers| && w.callers[g].Gated?;
      if w.shared.state == Locked {
        run := FromLocked(w, g);
      } else {
        var j: nat :| j < |w.callers| && MayRevert(w.callers[j]);
        match w.callers[j] {
          case Reverting => run := FromReverting(w, g, j);
          case Wiping => run := FromWiping(w, g, j);
          case _ => run := FromBootstrap(w, g, j);
        }
      }
    }
  }

  /** A closed store whose secrets are dropped never holds a DEK again, whatever happens, exactly when
      at that moment nobody stands between claim and unwrap and nobody who passed the gate before
      the close can still get there. */
  lemma ClosedForGoodExactlyWhen(w: World)
    requires w.shared.closed && !w.shared.dek
    ensures (forall run :: IsRun(w, run) ==> !Exec(w, run).shared.dek) <==> Drained(w)
  {
    if Drained(w) {
      forall run | IsRun(w, run) ensures !Exec(w, run).shared.dek { DrainedStaysKeyless(w, run); }
    } else {
      var run := KeyComesBack(w);
    }
  }
}
