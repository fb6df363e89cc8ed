/** The lease protocol over one shared cell (engine/lease/lease.go), with the ownership classifier it
    consults (domain/store_ownership.go). */
module Lease {

  // ---- domain/store_ownership.go ----

  datatype StoreOwnership = Unknown | Own | Foreign

  /** Foreign needs an explicit mismatch; an id missing on either side is never foreign, and the two
      sides are interchangeable. */
  function ClassifyStoreOwnership(recorded: string, authoritative: string): (r: StoreOwnership)
    ensures r.Foreign? <==> recorded != "" && authoritative != "" && recorded != authoritative
    ensures r.Own? ==> recorded == authoritative
    ensures recorded == "" || authoritative == "" <==> r.Unknown?
  {
    if recorded == "" || authoritative == "" then Unknown
    else if recorded == authoritative then Own
    else Foreign
  }

  // ---- The cell ----

  /** A nonce is drawn afresh by each Acquire; it is modelled as the number of that call. */
  datatype Record = Record(host: string, expires: int, nonce: nat, store: string)

  /** `Damaged`: a file is there and does not decode or verify. */
  datatype Cell = Empty | Damaged | Live(rec: Record)

  predicate Expired(r: Record, now: int) {
    r.expires <= now
  }

  datatype Config = Config(host: string, store: string, ttl: int, force: bool)

  /** The one case in which Acquire gives way to the record it read. */
  predicate Refuses(c: Config, current: Record, now: int) {
    && !ClassifyStoreOwnership(current.store, c.store).Foreign?
    && !Expired(current, now) && current.host != c.host && !c.force
  }

  function RecordOf(c: Config, nonce: nat, now: int): Record {
    Record(c.host, now + c.ttl, nonce, c.store)
  }

  // ---- One process at a time ----

  datatype Result = Acquired(prev: seq<Record>) | LeaseHeld | LeaseLost | Failed | Ok

  class Slot {
    var cell: Cell

    constructor (c: Cell)
      ensures cell == c
    {
      cell := c;
    }

    method Write(r: Record, exclusive: bool) returns (ok: bool)
      modifies this
      ensures ok <==> !exclusive || old(cell).Empty?
      ensures cell == if ok then Live(r) else old(cell)
    {
      if exclusive && !cell.Empty? { return false; }
      cell := Live(r);
      ok := true;
    }

    /** Undisturbed, Acquire succeeds on an empty cell and on every record it may displace; it reports
        the record it displaced when that was another host's.  A damaged cell is never acquired. */
    method Acquire(c: Config, nonce: nat, now: int) returns (r: Result)
      requires c.ttl > 0 && c.host != ""
      modifies this
      ensures r.Acquired? <==>
              || old(cell).Empty?
              || (old(cell).Live? && var rec := old(cell).rec;
                  || rec.expires <= now || rec.host == c.host || c.force
                  || (rec.store != "" && c.store != "" && rec.store != c.store))
      ensures r.Acquired? ==> cell == Live(RecordOf(c, nonce, now)) && !Expired(cell.rec, now)
      ensures r.Acquired? ==> r.prev == if old(cell).Live? && old(cell).rec.host != c.host then [old(cell).rec] else []
      ensures !r.Acquired? ==> r == LeaseHeld && cell == old(cell)
    {
      var mine := RecordOf(c, nonce, now);
      if !cell.Live? {
        var won := Write(mine, true);
        return if won then Acquired([]) else LeaseHeld;
      }
      var current := cell.rec;
      if Refuses(c, current, now) { return LeaseHeld; }
      var _ := Write(mine, false);
      if cell.rec.nonce != nonce { return LeaseHeld; }
      r := Acquired(if current.host != c.host then [current] else []);
    }

    method Renew(c: Config, nonce: nat, now: int) returns (r: Result)
      modifies this
      ensures r == Ok <==> old(cell).Live? && old(cell).rec.host == c.host && old(cell).rec.nonce == nonce
      ensures r == LeaseLost <==> !old(cell).Damaged? && r != Ok
      ensures cell == if r == Ok then Live(RecordOf(c, nonce, now)) else old(cell)
    {
      if cell.Empty? { return LeaseLost; }
      if cell.Damaged? { return Failed; }
      if cell.rec.host != c.host || cell.rec.nonce != nonce { return LeaseLost; }
      var _ := Write(RecordOf(c, nonce, now), false);
      r := Ok;
    }

    method Release(c: Config, nonce: nat) returns (r: Result)
      modifies this
      ensures r == Failed <==> old(cell).Damaged?
      ensures cell == if old(cell).Live? && old(cell).rec.host == c.host && old(cell).rec.nonce == nonce then Empty
                      else old(cell)
    {
      if cell.Damaged? { return Failed; }
      if cell.Live? && cell.rec.host == c.host && cell.rec.nonce == nonce { cell := Empty; }
      r := Ok;
    }
  }

  // ---- Any number of processes, every access to the cell a step of its own ----

  datatype Phase =
    | Started               // before the first read
    | Creating              // read an empty or damaged cell
    | TakingOver            // read a record it may displace
    | Verifying             // wrote, about to read back
    | Holding               // Acquire returned this handle
    | Renewing              // Renew found its own record, about to write
    | Releasing             // Release found its own record, about to remove
    | Ended                 // Acquire failed, or Release returned

  datatype Handle = Handle(config: Config, phase: Phase)

  /** The handle of nonce n is `handles[n]`. */
  datatype State = State(cell: Cell, clock: int, handles: seq<Handle>)

  datatype Event =
    | Begin(config: Config)
    | Read(i: nat)
    | Create(i: nat)
    | Overwrite(i: nat)
    | Verify(i: nat)
    | RenewRead(i: nat)
    | RenewWrite(i: nat)
    | ReleaseRead(i: nat)
    | ReleaseRemove(i: nat)
    | Tick(delta: nat)
    | Damage

  predicate Mine(s: State, i: nat) {
    i < |s.handles| && s.cell.Live? && s.cell.rec.host == s.handles[i].config.host && s.cell.rec.nonce == i
  }

  predicate Enabled(s: State, e: Event) {
    match e
    case Begin(c) => c.ttl > 0 && c.host != ""
    case Read(i) => i < |s.handles| && s.handles[i].phase == Started
    case Create(i) => i < |s.handles| && s.handles[i].phase == Creating
    case Overwrite(i) => i < |s.handles| && s.handles[i].phase == TakingOver
    case Verify(i) => i < |s.handles| && s.handles[i].phase == Verifying
    case RenewRead(i) => i < |s.handles| && s.handles[i].phase == Holding
    case RenewWrite(i) => i < |s.handles| && s.handles[i].phase == Renewing
    case ReleaseRead(i) => i < |s.handles| && s.handles[i].phase == Holding
    case ReleaseRemove(i) => i < |s.handles| && s.handles[i].phase == Releasing
    case Tick(_) => true
    case Damage => true
  }

  function To(s: State, i: nat, p: Phase): State
    requires i < |s.handles|
  {
    s.(handles := s.handles[i := s.handles[i].(phase := p)])
  }

  function Fill(s: State, i: nat): State
    requires i < |s.handles|
  {
    s.(cell := Live(RecordOf(s.handles[i].config, i, s.clock)))
  }

  /** A Renew that does not find its own record returns an error and leaves the handle as it was: the
      holder may ask again. */
  function Apply(s: State, e: Event): State
    requires Enabled(s, e)
  {
    match e
    case Begin(c) => s.(handles := s.handles + [Handle(c, Started)])
    case Read(i) =>
      if !s.cell.Live? then To(s, i, Creating)
      else if Refuses(s.handles[i].config, s.cell.rec, s.clock) then To(s, i, Ended)
      else To(s, i, TakingOver)
    case Create(i) => if s.cell.Empty? then To(Fill(s, i), i, Holding) else To(s, i, Ended)
    case Overwrite(i) => To(Fill(s, i), i, Verifying)
    case Verify(i) => if s.cell.Live? && s.cell.rec.nonce == i then To(s, i, Holding) else To(s, i, Ended)
    case RenewRead(i) => if Mine(s, i) then To(s, i, Renewing) else s
    case RenewWrite(i) => To(Fill(s, i), i, Holding)
    case ReleaseRead(i) => if Mine(s, i) then To(s, i, Releasing) else To(s, i, Ended)
    case ReleaseRemove(i) => To(s.(cell := Empty), i, Ended)
    case Tick(delta) => s.(clock := s.clock + delta)
    case Damage => s.(cell := Damaged)
  }

  predicate IsRun(s: State, run: seq<Event>)
    decreases |run|
  {
    run == [] || (Enabled(s, run[0]) && IsRun(Apply(s, run[0]), run[1..]))
  }

  function Exec(s: State, run: seq<Event>): State
    requires IsRun(s, run)
    decreases |run|
  {
    if run == [] then s else Exec(Apply(s, run[0]), run[1..])
  }

  predicate Holds(s: State, n: nat) {
    s.cell.Live? && s.cell.rec.nonce == n
  }

  /** The handle has put its nonce into the cell at some time. */
  predicate Entered(s: State, n: nat) {
    n < |s.handles| && !(s.handles[n].phase.Started? || s.handles[n].phase.Creating? || s.handles[n].phase.TakingOver?)
  }

  predicate Inv(s: State) {
    s.cell.Live? ==> Entered(s, s.cell.rec.nonce) && s.cell.rec.host == s.handles[s.cell.rec.nonce].config.host
  }

  lemma StepKeepsInv(s: State, e: Event)
    requires Inv(s) && Enabled(s, e)
    ensures Inv(Apply(s, e))
    ensures forall n :: Entered(s, n) ==> Entered(Apply(s, e), n)
  {
  }

  lemma {:induction false} RunKeepsInv(s: State, run: seq<Event>)
    requires Inv(s) && IsRun(s, run)
    ensures Inv(Exec(s, run))
    ensures forall n :: Entered(s, n) ==> Entered(Exec(s, run), n)
    decreases |run|
  {
    if run != [] {
      StepKeepsInv(s, run[0]);
      RunKeepsInv(Apply(s, run[0]), run[1..]);
    }
  }

  lemma {:induction false} ExecInTwo(s: State, run: seq<Event>, rest: seq<Event>)
    ensures IsRun(s, run + rest) <==> IsRun(s, run) && IsRun(Exec(s, run), rest)
    ensures IsRun(s, run + rest) ==> Exec(s, run + rest) == Exec(Exec(s, run), rest)
    decreases |run|
  {
    if run == [] {
      assert run + rest == rest;
    } else {
      assert (run + rest)[1..] == run[1..] + rest;
      if Enabled(s, run[0]) { ExecInTwo(Apply(s, run[0]), run[1..], rest); }
    }
  }

  lemma OneStep(s: State, e: Event)
    requires Enabled(s, e)
    ensures IsRun(s, [e]) && Exec(s, [e]) == Apply(s, e)
  {
    assert [e][1..] == [];
    assert IsRun(Apply(s, e), []);
  }

  // ---- Who gets in ----

  /** The grounds on which a live record may be displaced: it ran out, it is of the same host, the
      caller insists, or it is explicitly another store's. */
  predicate MayDisplace(c: Config, rec: Record, now: int) {
    || rec.expires <= now || rec.host == c.host || c.force
    || (rec.store != "" && c.store != "" && rec.store != c.store)
  }

  /** Only the handle n moves, and time stands still. */
  ghost predicate Alone(run: seq<Event>, n: nat) {
    forall k :: 0 <= k < |run| ==> !run[k].Begin? && !run[k].Tick? && !run[k].Damage? && run[k].i == n
  }

  lemma EndedIsOver(s: State, run: seq<Event>, n: nat)
    requires IsRun(s, run) && Alone(run, n) && n < |s.handles| && s.handles[n].phase == Ended
    ensures run == []
  {
  }

  predicate IsHolder(s: State, n: nat) {
    n < |s.handles| && s.handles[n].phase == Holding
  }

  /** A newcomer that finds a record, undisturbed, comes to hold the lease exactly on one of the four
      grounds. */
  lemma NewcomerHoldsExactlyWhen(s: State, c: Config)
    requires s.cell.Live? && c.ttl > 0 && c.host != ""
    ensures var n, t := |s.handles|, Apply(s, Begin(c));
            (exists run :: IsRun(t, run) && Alone(run, n) && IsHolder(Exec(t, run), n)) <==>
            MayDisplace(c, s.cell.rec, s.clock)
  {
    var n, t := |s.handles|, Apply(s, Begin(c));
    if MayDisplace(c, s.cell.rec, s.clock) {
      var run := TakeOver(t, n);
    } else {
      forall run | IsRun(t, run) && Alone(run, n) ensures !IsHolder(Exec(t, run), n) { RefusedEnds(t, run, n); }
    }
  }

  lemma TakeOver(t: State, n: nat) returns (run: seq<Event>)
    requires n < |t.handles| && t.handles[n].phase == Started && t.cell.Live?
    requires MayDisplace(t.handles[n].config, t.cell.rec, t.clock)
    ensures IsRun(t, run) && Alone(run, n) && |Exec(t, run).handles| == |t.handles|
    ensures IsHolder(Exec(t, run), n) && Holds(Exec(t, run), n)
  {
    var t1 := Apply(t, Read(n));
    var t2 := Apply(t1, Overwrite(n));
    OneStep(t, Read(n));
    OneStep(t1, Overwrite(n));
    OneStep(t2, Verify(n));
    ExecInTwo(t1, [Overwrite(n)], [Verify(n)]);
    ExecInTwo(t, [Read(n)], [Overwrite(n)] + [Verify(n)]);
    run := [Read(n)] + ([Overwrite(n)] + [Verify(n)]);
  }

  lemma RefusedEnds(t: State, run: seq<Event>, n: nat)
    requires n < |t.handles| && t.handles[n].phase == Started && t.cell.Live? && IsRun(t, run) && Alone(run, n)
    requires !MayDisplace(t.handles[n].config, t.cell.rec, t.clock)
    ensures !IsHolder(Exec(t, run), n)
  {
    if run != [] {
      assert Alone(run[1..], n);
      EndedIsOver(Apply(t, run[0]), run[1..], n);
    }
  }

  /** Acquire returns a handle only at a moment when the handle's own record is in the cell. */
  lemma AcquiredIsHeld(s: State, e: Event, n: nat)
    requires Enabled(s, e) && IsHolder(Apply(s, e), n) && !IsHolder(s, n)
    ensures Holds(Apply(s, e), n)
  {
  }

  /** An undisturbed Renew pushes the expiry of the holder's own record to a full term from now, and
      does nothing when the record is not its own. */
  lemma RenewsExactlyWhen(s: State, n: nat)
    requires Inv(s) && IsHolder(s, n)
    ensures var t := Apply(s, RenewRead(n));
            if Holds(s, n) then
              && Enabled(t, RenewWrite(n)) && IsHolder(Apply(t, RenewWrite(n)), n)
              && var c := s.handles[n].config;
                 Apply(t, RenewWrite(n)).cell == Live(Record(c.host, s.clock + c.ttl, n, c.store))
            else t == s
  {
  }

  /** An undisturbed Release empties the cell exactly when the record is the holder's own. */
  lemma ReleasesExactlyWhen(s: State, n: nat)
    requires Inv(s) && IsHolder(s, n)
    ensures var t := Apply(s, ReleaseRead(n));
            if Holds(s, n) then
              && Enabled(t, ReleaseRemove(n)) && Apply(t, ReleaseRemove(n)).cell == Empty
              && Apply(t, ReleaseRemove(n)).handles[n].phase == Ended
            else t.cell == s.cell && t.handles[n].phase == Ended
  {
  }

  // ---- Displaced holders ----

  /** The handle once held the cell and does not hold it now. */
  predicate Displaced(s: State, n: nat) {
    Entered(s, n) && !Holds(s, n)
  }

  lemma {:induction false} StaysDisplaced(s: State, run: seq<Event>, n: nat)
    requires IsRun(s, run) && Displaced(s, n) && !s.handles[n].phase.Renewing?
    ensures var t := Exec(s, run);
            && Displaced(t, n) && !Mine(t, n) && !t.handles[n].phase.Renewing?
            && (!s.handles[n].phase.Releasing? ==> !t.handles[n].phase.Releasing?)
    decreases |run|
  {
    if run != [] { StaysDisplaced(Apply(s, run[0]), run[1..], n); }
  }

  /** A displaced nonce never returns, whatever anybody does from then on, exactly when its Renew was
      not past its own check at the time: every later Renew finds a foreign or empty cell. */
  lemma DisplacedForGoodExactlyWhen(s: State, n: nat)
    requires Displaced(s, n)
    ensures (forall run :: IsRun(s, run) ==> !Holds(Exec(s, run), n)) <==> !s.handles[n].phase.Renewing?
  {
    if s.handles[n].phase.Renewing? {
      OneStep(s, RenewWrite(n));
      assert Holds(Exec(s, [RenewWrite(n)]), n);
    } else {
      forall run | IsRun(s, run) ensures !Holds(Exec(s, run), n) { StaysDisplaced(s, run, n); }
    }
  }

  /** The write or the removal of a handle that no longer holds the cell: it hits the record of
      another. */
  predicate Late(e: Event, s: State, n: nat) {
    (e == RenewWrite(n) || e == ReleaseRemove(n)) && Enabled(s, e) && !Holds(s, n)
  }

  /** A displaced handle never touches the cell of its successor, over every run, exactly when neither
      its Renew nor its Release was between check and write. */
  lemma HarmlessExactlyWhen(s: State, n: nat)
    requires Displaced(s, n)
    ensures (forall run, e :: IsRun(s, run) ==> !Late(e, Exec(s, run), n)) <==>
            !s.handles[n].phase.Renewing? && !s.handles[n].phase.Releasing?
  {
    assert IsRun(s, []) && Exec(s, []) == s;
    if s.handles[n].phase.Renewing? {
      assert Late(RenewWrite(n), Exec(s, []), n);
    } else if s.handles[n].phase.Releasing? {
      assert Late(ReleaseRemove(n), Exec(s, []), n);
    } else {
      forall run, e | IsRun(s, run) ensures !Late(e, Exec(s, run), n) { StaysDisplaced(s, run, n); }
    }
  }

  /** Mutual exclusion over runs: a handle that holds the cell at both ends held it all the time in
      between, and nobody else did, unless it was displaced in the middle of its own Renew. */
  lemma HoldsDoNotInterleave(s: State, run: seq<Event>, rest: seq<Event>, n: nat)
    requires Inv(s) && IsRun(s, run + rest) && Holds(s, n) && Holds(Exec(s, run + rest), n)
    ensures IsRun(s, run)
    ensures var t := Exec(s, run);
            if Holds(t, n) then forall other :: other != n ==> !Holds(t, other) && !Mine(t, other)
            else Displaced(t, n) && t.handles[n].phase.Renewing?
  {
    ExecInTwo(s, run, rest);
    RunKeepsInv(s, run);
    var t := Exec(s, run);
    if !Holds(t, n) && !t.handles[n].phase.Renewing? { StaysDisplaced(t, rest, n); }
  }

  const Initial := State(Empty, 0, [])

  lemma OneMore(run: seq<Event>, e: Event)
    requires IsRun(Initial, run) && Enabled(Exec(Initial, run), e)
    ensures IsRun(Initial, run + [e]) && Exec(Initial, run + [e]) == Apply(Exec(Initial, run), e)
  {
    OneStep(Exec(Initial, run), e);
    ExecInTwo(Initial, run, [e]);
  }

  /** A acquires, and its Renew has read its own record. */
  lemma RenewingRun(a: Config) returns (run: seq<Event>)
    requires a.ttl > 0 && a.host != ""
    ensures IsRun(Initial, run)
    ensures Exec(Initial, run) == State(Live(RecordOf(a, 0, 0)), 0, [Handle(a, Renewing)])
  {
    run := [Begin(a)];
    OneStep(Initial, Begin(a));
    OneMore(run, Read(0));
    run := run + [Read(0)];
    OneMore(run, Create(0));
    run := run + [Create(0)];
    OneMore(run, RenewRead(0));
    run := run + [RenewRead(0)];
  }

  /** The lease runs out, and B acquires it. */
  lemma TakenOverRun(a: Config, b: Config) returns (run: seq<Event>)
    requires a.ttl > 0 && a.host != "" && b.ttl > 0 && b.host != ""
    ensures IsRun(Initial, run)
    ensures Exec(Initial, run) == State(Live(RecordOf(b, 1, a.ttl)), a.ttl, [Handle(a, Renewing), Handle(b, Holding)])
  {
    run := RenewingRun(a);
    OneMore(run, Tick(a.ttl));
    run := run + [Tick(a.ttl)];
    OneMore(run, Begin(b));
    run := run + [Begin(b)];
    OneMore(run, Read(1));
    run := run + [Read(1)];
    OneMore(run, Overwrite(1));
    run := run + [Overwrite(1)];
    OneMore(run, Verify(1));
    run := run + [Verify(1)];
  }

  /** The exception is real, for any two processes: A checks, B finds the lease expired, takes over
      and verifies, and then A writes.  Both Acquires succeeded and A's record is back in the cell. */
  lemma LateWriteHappens(a: Config, b: Config) returns (run: seq<Event>)
    requires a.ttl > 0 && a.host != "" && b.ttl > 0 && b.host != ""
    ensures IsRun(Initial, run)
    ensures var s := Exec(Initial, run);
            && Holds(s, 1) && Displaced(s, 0) && |s.handles| == 2 && s.handles[1] == Handle(b, Holding)
            && Late(RenewWrite(0), s, 0) && Holds(Apply(s, RenewWrite(0)), 0)
  {
    run := TakenOverRun(a, b);
  }

  lemma {:induction false} StaysFilled(s: State, run: seq<Event>)
    requires !s.cell.Empty? && IsRun(s, run) && forall e :: e in run ==> !e.ReleaseRemove?
    ensures !Exec(s, run).cell.Empty?
    decreases |run|
  {
    if run != [] {
      assert run[0] in run && forall e :: e in run[1..] ==> e in run;
      StaysFilled(Apply(s, run[0]), run[1..]);
    }
  }

  /** One exclusive create per empty period: of any number of handles that saw the cell empty, the
      first to write wins, and until a Release empties the cell every other create loses and
      leaves the cell alone. */
  lemma OneCreateWins(s: State, i: nat, j: nat, run: seq<Event>)
    requires s.cell.Empty? && Enabled(s, Create(i)) && IsRun(Apply(s, Create(i)), run)
    requires forall e :: e in run ==> !e.ReleaseRemove?
    requires Enabled(Exec(Apply(s, Create(i)), run), Create(j))
    ensures var t := Exec(Apply(s, Create(i)), run);
            && Apply(s, Create(i)).handles[i].phase == Holding && Holds(Apply(s, Create(i)), i)
            && Apply(t, Create(j)).handles[j].phase == Ended && Apply(t, Create(j)).cell == t.cell
  {
    StaysFilled(Apply(s, Create(i)), run);
  }

  // ---- A punctual holder ----

  /** A contender that would have to respect the lease of n: another host, no override, and not
      explicitly of another store. */
  predicate Respectful(c: Config, holder: Config) {
    c.host != holder.host && !c.force && !ClassifyStoreOwnership(holder.store, c.store).Foreign?
  }

  /** Nobody but n is past a read that entitles it to change the cell. */
  predicate Shielded(s: State, n: nat) {
    && Entered(s, n) && Holds(s, n) && !s.handles[n].phase.Releasing?
    && s.cell.rec == RecordOf(s.handles[n].config, n, s.cell.rec.expires - s.handles[n].config.ttl)
    && forall i :: 0 <= i < |s.handles| && i != n ==>
         && !s.handles[i].phase.TakingOver? && !s.handles[i].phase.Renewing? && !s.handles[i].phase.Releasing?
         && (s.handles[i].phase.Started? ==> Respectful(s.handles[i].config, s.handles[n].config))
  }

  /** The holder renews in time and does not release, and every newcomer is respectful. */
  predicate Punctual(s: State, run: seq<Event>, n: nat)
    requires IsRun(s, run)
    decreases |run|
  {
    && n < |s.handles|
    && (s.cell.Live? ==> !Expired(s.cell.rec, s.clock))
    && (run != [] ==>
          && !run[0].Damage? && run[0] != ReleaseRead(n)
          && (run[0].Begin? ==> Respectful(run[0].config, s.handles[n].config))
          && Punctual(Apply(s, run[0]), run[1..], n))
  }

  lemma ShieldedStep(s: State, e: Event, n: nat)
    requires Shielded(s, n) && Enabled(s, e) && !Expired(s.cell.rec, s.clock)
    requires !e.Damage? && e != ReleaseRead(n) && (e.Begin? ==> Respectful(e.config, s.handles[n].config))
    ensures Shielded(Apply(s, e), n)
  {
    if e.Begin? {
      var t := Apply(s, e);
      forall i | 0 <= i < |t.handles| && i != n
        ensures && !t.handles[i].phase.TakingOver? && !t.handles[i].phase.Renewing? && !t.handles[i].phase.Releasing?
                && (t.handles[i].phase.Started? ==> Respectful(t.handles[i].config, t.handles[n].config))
      {
        if i < |s.handles| { assert t.handles[i] == s.handles[i]; }
      }
    } else if e.Read? {
      assert Refuses(s.handles[e.i].config, s.cell.rec, s.clock);
    }
  }

  /** A lease whose holder renews in time is never taken: over every run with any number of
      contenders from other hosts that neither force nor belong to another store, the record
      stays the holder's. */
  lemma {:induction false} PunctualHolderKeepsLease(s: State, run: seq<Event>, n: nat)
    requires Shielded(s, n) && IsRun(s, run) && Punctual(s, run, n)
    ensures Shielded(Exec(s, run), n) && Holds(Exec(s, run), n)
    decreases |run|
  {
    if run != [] {
      ShieldedStep(s, run[0], n);
      PunctualHolderKeepsLease(Apply(s, run[0]), run[1..], n);
    }
  }

  // ---- A damaged cell ----

  /** Nobody is past a read of an undamaged cell. */
  predicate Stuck(s: State) {
    s.cell.Damaged? && forall i :: 0 <= i < |s.handles| ==>
      !s.handles[i].phase.TakingOver? && !s.handles[i].phase.Renewing? && !s.handles[i].phase.Releasing?
  }

  /** A damaged cell is not reclaimed: no step of the protocol repairs it, and no Acquire that begins
      on it ever succeeds. */
  lemma {:induction false} DamageIsPermanent(s: State, run: seq<Event>)
    requires Stuck(s) && IsRun(s, run)
    ensures Stuck(Exec(s, run)) && |s.handles| <= |Exec(s, run).handles|
    ensures forall i :: 0 <= i < |Exec(s, run).handles| && Exec(s, run).handles[i].phase.Holding? ==>
              i < |s.handles| && s.handles[i].phase.Holding?
    decreases |run|
  {
    if run != [] {
      var t := Apply(s, run[0]);
      assert Stuck(t) && |s.handles| <= |t.handles| by {
        forall i | 0 <= i < |t.handles|
          ensures !t.handles[i].phase.TakingOver? && !t.handles[i].phase.Renewing? && !t.handles[i].phase.Releasing?
        {
          if i < |s.handles| { assert !s.handles[i].phase.TakingOver?; }
        }
      }
      DamageIsPermanent(t, run[1..]);
    }
  }

  /** A damaged cell is beyond repair, over every run, exactly when nobody was past a read of it at
      the time of the damage. */
  lemma DamagedForGoodExactlyWhen(s: State)
    requires s.cell.Damaged?
    ensures (forall run :: IsRun(s, run) ==> Exec(s, run).cell.Damaged?) <==> Stuck(s)
  {
    if Stuck(s) {
      forall run | IsRun(s, run) ensures Exec(s, run).cell.Damaged? { DamageIsPermanent(s, run); }
    } else {
      var i :| 0 <= i < |s.handles| &&
        (s.handles[i].phase.TakingOver? || s.handles[i].phase.Renewing? || s.handles[i].phase.Releasing?);
      var e := if s.handles[i].phase.TakingOver? then Overwrite(i)
               else if s.handles[i].phase.Renewing? then RenewWrite(i) else ReleaseRemove(i);
      OneStep(s, e);
      assert !Exec(s, [e]).cell.Damaged?;
    }
  }
}
