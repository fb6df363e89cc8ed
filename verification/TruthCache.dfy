/** Manifest files are the truth, index rows are a cache of them.  This module models the writers
    (`Put`, `Delete`, `DeleteExternal`) as two steps each, with a crash allowed between any two
    steps, and the open path as plan, settle, reconcile. */
module TruthCache {
  import opened StoreIndex

  /** What a Location holds and what the index holds.  `torn` are the fragments left by interrupted
      writes: files whose bytes do not hash to their name. */
  datatype Media = Media(whole: set<Manifest>, torn: set<Manifest>, idx: Index)

  // ---- The open-time reconciliation (engine/store/internal/orphanscan) ----

  /** How the files read during one pass.  `trouble` are the files for which the index cannot answer,
      the read fails for any other reason, or a removal fails: they are reported and left alone.
      `malformed` are the files whose load is reported as corruption although they hash to their
      name. */
  datatype Reading = Reading(trouble: set<Manifest>, malformed: set<Manifest>)

  /** One listed file.  Corruption removes it, whether its bytes or its blocks gave rise to it. */
  function Visit(d: Media, x: Reading, f: Manifest): Media {
    if f in d.idx.rows || f in x.trouble then d
    else if f in d.whole && f !in x.malformed then if f.Indexable() then d.(idx := Indexed(d.idx, f)) else d
    else d.(whole := d.whole - {f}, torn := d.torn - {f})
  }

  function Reconciled(d: Media, x: Reading, listing: seq<Manifest>): Media
    decreases |listing|
  {
    if listing == [] then d
    else Visit(Reconciled(d, x, listing[..|listing| - 1]), x, listing[|listing| - 1])
  }

  class Location {
    var whole: set<Manifest>
    var torn: set<Manifest>
    const index: IndexTables

    ghost function Value(): Media
      reads this, index
    {
      Media(whole, torn, index.Value())
    }

    constructor ()
      ensures Value() == Media({}, {}, EmptyIndex)
      ensures fresh(index)
    {
      whole, torn := {}, {};
      index := new IndexTables();
    }

    /** Asks the index for one artifact, and the Location for one file only where that can matter. */
    method PlanIndexOpen(a: OpenArgs) returns (r: Plan)
      ensures r == PlanOpen(Value(), a)
      ensures var artifacts := exists m :: m in index.rows && m.handle != "";
              var files := whole != {} || torn != {};
              && (r == Refuse(IndexDamaged) <==> a.damaged && !a.allowRecovery)
              && (r == Refuse(ProbeFailed) <==> !a.damaged && !artifacts && !a.ephemeral && a.listFails)
              && (r == Refuse(IndexIncomplete) <==>
                  !a.damaged && !artifacts && !a.ephemeral && !a.listFails && files && !a.allowRecovery)
              && (r == Recover <==>
                  || (a.damaged && a.allowRecovery)
                  || (!a.damaged && !artifacts && (a.ephemeral || (!a.listFails && files && a.allowRecovery))))
              && (r == Complete <==> !a.damaged && (artifacts || (!a.ephemeral && !a.listFails && !files)))
    {
      PlanExactlyWhen(Value(), a);
      if a.damaged { return if a.allowRecovery then Recover else Refuse(IndexDamaged); }
      var rest, found := index.rows.Keys, false;
      while rest != {} && !found
        invariant rest <= index.rows.Keys && (found ==> exists m :: m in index.rows && m.handle != "")
        invariant !found ==> forall m :: m in index.rows && m !in rest ==> m.handle == ""
        decreases rest
      {
        var m :| m in rest;
        rest := rest - {m};
        if m.handle != "" { found := true; }
      }
      if found { return Complete; }
      if a.ephemeral { return Recover; }
      if a.listFails { return Refuse(ProbeFailed); }
      if whole == {} && torn == {} { return Complete; }
      r := if a.allowRecovery then Recover else Refuse(IndexIncomplete);
    }

    /** Reads the file named by the digest, verifies and decodes it, and writes the row the index is
        missing.  Corruption is a hash mismatch, or a block the decoder finds garbled. */
    method IngestManifest(f: Manifest, x: Reading) returns (ok: bool, corrupted: bool)
      modifies index
      ensures corrupted == (f !in x.trouble && ((f !in whole && f in torn) || (f in whole && f in x.malformed)))
      ensures ok == (f !in x.trouble && f in whole && f !in x.malformed && f.Indexable())
      ensures index.Value() == if ok then Indexed(old(index.Value()), f) else old(index.Value())
    {
      if f in x.trouble { return false, false; }
      if f !in whole { return false, f in torn; }
      if f in x.malformed { return false, true; }
      ok := index.IndexManifest(f);
      corrupted := false;
    }

    method Reconcile(listing: seq<Manifest>, x: Reading)
      modifies this, index
      ensures Value() == Reconciled(old(Value()), x, listing)
    {
      var i := 0;
      while i < |listing|
        invariant 0 <= i <= |listing|
        invariant Value() == Reconciled(old(Value()), x, listing[..i])
      {
        var f := listing[i];
        assert listing[..i + 1][..i] == listing[..i];
        if f !in x.trouble && f !in index.rows {
          var ok, corrupted := IngestManifest(f, x);
          if corrupted { whole, torn := whole - {f}, torn - {f}; }
        }
        i := i + 1;
      }
      assert listing[..i] == listing;
    }
  }

  /** The listed manifests the pass can read. */
  function Readable(d: Media, x: Reading, listing: seq<Manifest>): set<Manifest> {
    set f | f in listing && f in d.whole && f !in x.trouble && f !in x.malformed && f.Indexable()
  }

  /** The listed whole files the pass takes for corrupted: the index does not know them. */
  function Rejected(d: Media, x: Reading, listing: seq<Manifest>): set<Manifest> {
    set f | f in listing && f in d.whole && f !in x.trouble && f in x.malformed && f !in d.idx.rows
  }

  /** The listed fragments the index does not know. */
  function Fragments(d: Media, x: Reading, listing: seq<Manifest>): set<Manifest> {
    set f | f in listing && f !in d.whole && f !in x.trouble && f !in d.idx.rows
  }

  lemma VisitEffect(d: Media, x: Reading, f: Manifest)
    requires d.whole !! d.torn
    ensures var r, unknown := Visit(d, x, f), f !in x.trouble && f !in d.idx.rows;
            && r.whole == d.whole - (if f in d.whole && f in x.malformed && unknown then {f} else {})
            && r.idx.rows.Keys == d.idx.rows.Keys
                 + (if f in d.whole && f !in x.trouble && f !in x.malformed && f.Indexable() then {f} else {})
            && r.torn == d.torn - (if f !in d.whole && unknown then {f} else {})
            && (Covers(d.idx) <==> Covers(r.idx))
            && (Exact(d.idx) ==> Exact(r.idx))
  {
    IndexedCounts(d.idx, f);
  }

  lemma OneMoreListed(d: Media, x: Reading, init: seq<Manifest>, f: Manifest)
    ensures var unknown := f !in x.trouble && f !in d.idx.rows;
            && Readable(d, x, init + [f]) == Readable(d, x, init)
                 + (if f in d.whole && f !in x.trouble && f !in x.malformed && f.Indexable() then {f} else {})
            && Rejected(d, x, init + [f]) == Rejected(d, x, init)
                 + (if f in d.whole && f in x.malformed && unknown then {f} else {})
            && Fragments(d, x, init + [f]) == Fragments(d, x, init)
                 + (if f !in d.whole && unknown then {f} else {})
  {
  }

  /** What visiting the listed files has made of d. */
  ghost predicate Visited(d: Media, x: Reading, listing: seq<Manifest>, r: Media) {
    && r.whole == d.whole - Rejected(d, x, listing)
    && r.torn == d.torn - Fragments(d, x, listing)
    && r.idx.rows.Keys == d.idx.rows.Keys + Readable(d, x, listing)
  }

  lemma VisitedNext(d: Media, r: Media, x: Reading, init: seq<Manifest>, f: Manifest)
    requires d.whole !! d.torn && Visited(d, x, init, r)
    ensures Visited(d, x, init + [f], Visit(r, x, f))
  {
    VisitEffect(r, x, f);
    OneMoreListed(d, x, init, f);
    assert f in d.whole && f !in r.whole ==> f in x.malformed && f !in x.trouble && f !in r.torn;
  }

  lemma {:induction false} ReconcileVisits(d: Media, x: Reading, listing: seq<Manifest>)
    requires d.whole !! d.torn
    ensures Visited(d, x, listing, Reconciled(d, x, listing))
    decreases |listing|
  {
    if listing != [] {
      var init, f := listing[..|listing| - 1], listing[|listing| - 1];
      ReconcileVisits(d, x, init);
      VisitedNext(d, Reconciled(d, x, init), x, init, f);
      assert listing == init + [f];
    }
  }

  lemma {:induction false} ReconcileCounts(d: Media, x: Reading, listing: seq<Manifest>)
    ensures Covers(d.idx) <==> Covers(Reconciled(d, x, listing).idx)
    ensures Exact(d.idx) ==> Exact(Reconciled(d, x, listing).idx)
    decreases |listing|
  {
    if listing != [] {
      var init, f := listing[..|listing| - 1], listing[|listing| - 1];
      ReconcileCounts(d, x, init);
      IndexedCounts(Reconciled(d, x, init).idx, f);
    }
  }

  /** The pass in one statement: it adds a row for every listed whole manifest it can read, removes
      the listed fragments and the listed malformed files the index does not know, touches no
      other file, drops no row, and never registers a manifest twice. */
  lemma ReconcileEffect(d: Media, x: Reading, listing: seq<Manifest>)
    requires d.whole !! d.torn
    ensures var r := Reconciled(d, x, listing);
            && r.whole == d.whole - Rejected(d, x, listing)
            && r.torn == d.torn - Fragments(d, x, listing)
            && r.idx.rows.Keys == d.idx.rows.Keys + Readable(d, x, listing)
            && (Covers(d.idx) <==> Covers(r.idx))
            && (Exact(d.idx) ==> Exact(r.idx))
  {
    ReconcileVisits(d, x, listing);
    ReconcileCounts(d, x, listing);
  }

  // ---- The plan (engine/store/index_readiness.go) ----

  datatype Posture = Populated | Empty | Damaged

  /** The probe asks for one row; only artifacts with a handle are iterated. */
  predicate HasUserRow(i: Index) {
    exists m :: m in i.rows && m.handle != ""
  }

  function Probe(i: Index, damaged: bool): Posture {
    if damaged then Damaged else if HasUserRow(i) then Populated else Empty
  }

  datatype Plan = Refuse(reason: Refusal) | Recover | Complete
  datatype Refusal = IndexDamaged | ProbeFailed | IndexIncomplete

  /** `ephemeral`: a Paranoid store over an index that declares itself ephemeral.  `listFails`: the
      Location could not be listed. */
  datatype OpenArgs = OpenArgs(allowRecovery: bool, ephemeral: bool, damaged: bool, listFails: bool,
                               checkpoint: OptionalIndex, reading: Reading)
  datatype OptionalIndex = NoIndex | SomeIndex(idx: Index)

  function PlanOpen(d: Media, a: OpenArgs): Plan {
    match Probe(d.idx, a.damaged)
    case Damaged => if a.allowRecovery then Recover else Refuse(IndexDamaged)
    case Populated => Complete
    case Empty =>
      if a.ephemeral then Recover
      else if a.listFails then Refuse(ProbeFailed)
      else if d.whole + d.torn == {} then Complete
      else if a.allowRecovery then Recover
      else Refuse(IndexIncomplete)
  }

  /** Exactly when an open is refused and for which reason, when it recovers, and when the index is
      taken for complete: in terms of rows, files and what the caller allows. */
  lemma PlanExactlyWhen(d: Media, a: OpenArgs)
    ensures var r := PlanOpen(d, a);
            var artifacts := exists m :: m in d.idx.rows && m.handle != "";
            var files := d.whole != {} || d.torn != {};
            && (r == Refuse(IndexDamaged) <==> a.damaged && !a.allowRecovery)
            && (r == Refuse(ProbeFailed) <==> !a.damaged && !artifacts && !a.ephemeral && a.listFails)
            && (r == Refuse(IndexIncomplete) <==>
                !a.damaged && !artifacts && !a.ephemeral && !a.listFails && files && !a.allowRecovery)
            && (r == Recover <==>
                || (a.damaged && a.allowRecovery)
                || (!a.damaged && !artifacts && (a.ephemeral || (!a.listFails && files && a.allowRecovery))))
            && (r == Complete <==> !a.damaged && (artifacts || (!a.ephemeral && !a.listFails && !files)))
  {
    assert d.whole + d.torn == {} <==> d.whole == {} && d.torn == {};
  }

  /** Copying a checkpoint's tables into the index: rows of the checkpoint win.  The change counter
      is not one of the tables. */
  function Restored(i: Index, c: Index): Index {
    Index(i.rows + c.rows, i.refs + c.refs, i.csn)
  }

  predicate Restores(d: Media, a: OpenArgs) {
    PlanOpen(d, a).Recover? && a.checkpoint.SomeIndex?
  }

  /** The index the reconciliation starts from.  A failed restore is swallowed: it is the case
      without a checkpoint. */
  function Settled(d: Media, a: OpenArgs): Index {
    if Restores(d, a) then Restored(d.idx, a.checkpoint.idx) else d.idx
  }

  /** Settle, then reconcile. */
  function Opened(d: Media, a: OpenArgs, listing: seq<Manifest>): Media {
    Reconciled(d.(idx := Settled(d, a)), a.reading, listing)
  }

  // ---- The store under crashes ----

  datatype Pending = RowToAdd(m: Manifest) | RowToDrop(m: Manifest) | FileToDrop(m: Manifest)

  /** `live`: a process has the store open.  `saved`: the index checkpoints taken so far. */
  datatype Store = Store(media: Media, live: bool, complete: bool, pending: multiset<Pending>, saved: set<Index>)

  datatype Event =
    | PutFile(m: Manifest)       // the manifest file is written
    | Arrive(m: Manifest)        // a whole file is placed by other means: a merged tree, a restored copy
    | PutTorn(m: Manifest)       // the write of a new file is interrupted
    | PutRow(m: Manifest)        // the row of a written file is added
    | DeleteFile(m: Manifest)    // Delete: the file goes first
    | DeleteRow(m: Manifest)     //         the row second
    | ExternalRow(m: Manifest)   // DeleteExternal: the row goes first
    | ExternalFile(m: Manifest)  //                 the file second
    | Checkpoint
    | Crash                      // also a close: whatever was in flight is lost
    | LoseIndex                  // an ephemeral index is gone, a persistent one is replaced
    | Open(args: OpenArgs, listing: seq<Manifest>)
    | OpenAborted(args: OpenArgs, listing: seq<Manifest>)  // fails or crashes after part of the pass

  ghost predicate Enabled(s: Store, e: Event) {
    match e
    case PutFile(m) => s.live && m.Indexable()
    case Arrive(_) => true
    case PutTorn(m) => s.live && m !in s.media.whole
    case PutRow(m) => s.live && RowToAdd(m) in s.pending
    case DeleteFile(m) => s.live && m.handle != ""
    case DeleteRow(m) => s.live && RowToDrop(m) in s.pending
    case ExternalRow(m) => s.live && m.handle == ""
    case ExternalFile(m) => s.live && FileToDrop(m) in s.pending
    case Checkpoint => s.live
    case Crash => true
    case LoseIndex => !s.live
    case Open(a, listing) =>
      && !s.live && !PlanOpen(s.media, a).Refuse?
      && (a.checkpoint.SomeIndex? ==> a.checkpoint.idx in s.saved)
      && (set f | f in listing) == s.media.whole + s.media.torn
    case OpenAborted(a, listing) =>
      && !s.live
      && (a.checkpoint.SomeIndex? ==> a.checkpoint.idx in s.saved)
      && (set f | f in listing) <= s.media.whole + s.media.torn
  }

  function Apply(s: Store, e: Event): Store {
    var d := s.media;
    match e
    case PutFile(m) =>
      s.(media := d.(whole := d.whole + {m}, torn := d.torn - {m}), pending := s.pending + multiset{RowToAdd(m)})
    case Arrive(m) => s.(media := d.(whole := d.whole + {m}, torn := d.torn - {m}))
    case PutTorn(m) => s.(media := d.(torn := d.torn + {m}))
    case PutRow(m) => s.(media := d.(idx := Indexed(d.idx, m)), pending := s.pending - multiset{RowToAdd(m)})
    case DeleteFile(m) =>
      s.(media := d.(whole := d.whole - {m}, torn := d.torn - {m}), pending := s.pending + multiset{RowToDrop(m)})
    case DeleteRow(m) => s.(media := d.(idx := Unindexed(d.idx, m)), pending := s.pending - multiset{RowToDrop(m)})
    case ExternalRow(m) => s.(media := d.(idx := Unindexed(d.idx, m)), pending := s.pending + multiset{FileToDrop(m)})
    case ExternalFile(m) =>
      s.(media := d.(whole := d.whole - {m}, torn := d.torn - {m}), pending := s.pending - multiset{FileToDrop(m)})
    case Checkpoint => s.(saved := s.saved + {d.idx})
    case Crash => s.(live := false, complete := false, pending := multiset{})
    case LoseIndex => s.(media := d.(idx := EmptyIndex))
    case Open(a, listing) => s.(media := Opened(d, a, listing), live := true, complete := true)
    case OpenAborted(a, listing) => s.(media := if PlanOpen(d, a).Refuse? then d else Opened(d, a, listing))
  }

  const Fresh := Store(Media({}, {}, EmptyIndex), true, true, multiset{}, {})

  ghost predicate IsRun(s: Store, run: seq<Event>)
    decreases |run|
  {
    run == [] || (Enabled(s, run[0]) && IsRun(Apply(s, run[0]), run[1..]))
  }

  function Exec(s: Store, run: seq<Event>): Store
    decreases |run|
  {
    if run == [] then s else Exec(Apply(s, run[0]), run[1..])
  }

  /** A name is a whole file or a fragment, never both. */
  ghost predicate Disjoint(s: Store) {
    s.media.whole !! s.media.torn
  }

  /** What either kind of open does to the files and the rows. */
  lemma OpenedEffect(d: Media, a: OpenArgs, listing: seq<Manifest>)
    requires d.whole !! d.torn
    ensures var i, r := d.(idx := Settled(d, a)), Opened(d, a, listing);
            && r.whole == d.whole - Rejected(i, a.reading, listing)
            && r.torn == d.torn - Fragments(i, a.reading, listing)
            && r.idx.rows.Keys == i.idx.rows.Keys + Readable(d, a.reading, listing)
            && (Covers(i.idx) <==> Covers(r.idx))
  {
    ReconcileEffect(d.(idx := Settled(d, a)), a.reading, listing);
  }

  lemma StepDisjoint(s: Store, e: Event)
    requires Disjoint(s) && Enabled(s, e)
    ensures Disjoint(Apply(s, e))
  {
    if e.Open? || e.OpenAborted? { OpenedEffect(s.media, e.args, e.listing); }
  }

  /** Unfolding a run from its front. */
  lemma RunFrom(s: Store, e: Event, rest: seq<Event>)
    ensures IsRun(s, [e] + rest) <==> Enabled(s, e) && IsRun(Apply(s, e), rest)
    ensures Exec(s, [e] + rest) == Exec(Apply(s, e), rest)
  {
    assert ([e] + rest)[1..] == rest;
  }

  lemma {:induction false} RunSplit(s: Store, run: seq<Event>, e: Event)
    requires Disjoint(s) && IsRun(s, run + [e])
    ensures IsRun(s, run) && Enabled(Exec(s, run), e) && Disjoint(Exec(s, run))
    ensures Exec(s, run + [e]) == Apply(Exec(s, run), e)
    decreases |run|
  {
    if run == [] {
      assert run + [e] == [e] && [e][1..] == [];
    } else {
      assert (run + [e])[1..] == run[1..] + [e];
      StepDisjoint(s, run[0]);
      RunSplit(Apply(s, run[0]), run[1..], e);
    }
  }

  lemma {:induction false} RunConcat(s: Store, run: seq<Event>, rest: seq<Event>)
    requires IsRun(s, run) && IsRun(Exec(s, run), rest)
    ensures IsRun(s, run + rest) && Exec(s, run + rest) == Exec(Exec(s, run), rest)
    decreases |run|
  {
    if run == [] {
      assert run + rest == rest;
    } else {
      assert (run + rest)[1..] == run[1..] + rest;
      RunConcat(Apply(s, run[0]), run[1..], rest);
    }
  }

  /** Four runs, one after the other. */
  lemma FourRuns(s: Store, a: seq<Event>, b: seq<Event>, c: seq<Event>, d: seq<Event>,
                 s1: Store, s2: Store, s3: Store, s4: Store)
    requires IsRun(s, a) && Exec(s, a) == s1 && IsRun(s1, b) && Exec(s1, b) == s2
    requires IsRun(s2, c) && Exec(s2, c) == s3 && IsRun(s3, d) && Exec(s3, d) == s4
    ensures IsRun(s, a + b + c + d) && Exec(s, a + b + c + d) == s4
  {
    RunConcat(s, a, b);
    RunConcat(s, a + b, c);
    RunConcat(s, a + b + c, d);
  }

  /** A put that completes: the file, then the row. */
  lemma PutCompletes(s: Store, m: Manifest) returns (run: seq<Event>)
    requires s.live && m.Indexable()
    ensures IsRun(s, run) && forall e :: e in run ==> e == PutFile(m) || e == PutRow(m)
    ensures Exec(s, run) == s.(media := Media(s.media.whole + {m}, s.media.torn - {m}, Indexed(s.media.idx, m)))
  {
    var t := Apply(s, PutFile(m));
    run := [PutFile(m)] + [PutRow(m)];
    RunFrom(s, PutFile(m), [PutRow(m)]);
    assert [PutRow(m)] + [] == [PutRow(m)];
    RunFrom(t, PutRow(m), []);
    assert t.pending - multiset{RowToAdd(m)} == s.pending;
  }

  lemma OneStep(s: Store, e: Event) returns (run: seq<Event>)
    requires Enabled(s, e)
    ensures IsRun(s, run) && Exec(s, run) == Apply(s, e) && forall f :: f in run ==> f == e
  {
    run := [e];
    assert run[1..] == [];
  }

  lemma TwoPuts(a: Manifest, b: Manifest) returns (run: seq<Event>)
    requires a.Indexable() && b.Indexable()
    ensures IsRun(Fresh, run)
    ensures Exec(Fresh, run) == Store(Media({a, b}, {}, Indexed(Indexed(EmptyIndex, a), b)), true, true, multiset{}, {})
  {
    var s1 := Store(Media({a}, {}, Indexed(EmptyIndex, a)), true, true, multiset{}, {});
    var first := PutCompletes(Fresh, a);
    assert Exec(Fresh, first) == s1;
    var second := PutCompletes(s1, b);
    assert {a} + {b} == {a, b};
    RunConcat(Fresh, first, second);
    run := first + second;
  }

  // ---- Nothing is lost, nothing comes back ----

  /** An open that completes and can read a whole manifest has a row for it afterwards. */
  lemma OpenReadsIn(s: Store, a: OpenArgs, listing: seq<Manifest>, m: Manifest)
    requires Disjoint(s) && Enabled(s, Open(a, listing)) && m in s.media.whole && m.Indexable()
    requires m !in a.reading.trouble && m !in a.reading.malformed
    ensures m in Apply(s, Open(a, listing)).media.idx.rows && m in Apply(s, Open(a, listing)).media.whole
  {
    OpenedEffect(s.media, a, listing);
    assert m in (set f | f in listing);
  }

  /** The steps that remove a whole file: either delete, and an open that lists it, has no row for it
      and reads it as corrupted. */
  predicate Removes(s: Store, e: Event, m: Manifest) {
    || e == DeleteFile(m) || e == ExternalFile(m)
    || ((e.Open? || (e.OpenAborted? && !PlanOpen(s.media, e.args).Refuse?))
        && m in e.listing && m !in Settled(s.media, e.args).rows
        && m !in e.args.reading.trouble && m in e.args.reading.malformed)
  }

  lemma StepRemovesExactlyWhen(s: Store, e: Event, m: Manifest)
    requires Disjoint(s) && Enabled(s, e) && m in s.media.whole
    ensures m !in Apply(s, e).media.whole <==> Removes(s, e, m)
  {
    if e.Open? || e.OpenAborted? { OpenedEffect(s.media, e.args, e.listing); }
  }

  ghost predicate NeverRemoved(s: Store, run: seq<Event>, m: Manifest)
    decreases |run|
  {
    run == [] || (!Removes(s, run[0], m) && NeverRemoved(Apply(s, run[0]), run[1..], m))
  }

  /** A completed open leaves no whole, indexable file without a row, unless it could not be read. */
  lemma OpenedIsKnown(s: Store, a: OpenArgs, listing: seq<Manifest>, m: Manifest)
    requires Disjoint(s) && Enabled(s, Open(a, listing)) && m in Apply(s, Open(a, listing)).media.whole
    requires m.Indexable() && m !in a.reading.trouble
    ensures m in Apply(s, Open(a, listing)).media.idx.rows
  {
    OpenedEffect(s.media, a, listing);
    assert m in (set f | f in listing);
  }

  /** Durability: a whole manifest file stays whole through every crash, index loss, checkpoint
      restore and open that does not remove it; a run that does not write it again keeps it if and
      only if no step removes it; and after a completed open that could read it the index knows
      it. */
  lemma {:induction false} NothingLost(s: Store, run: seq<Event>, m: Manifest)
    requires Disjoint(s) && IsRun(s, run) && m in s.media.whole
    ensures Disjoint(Exec(s, run))
    ensures NeverRemoved(s, run, m) ==> m in Exec(s, run).media.whole
    ensures PutFile(m) !in run && Arrive(m) !in run ==> (m in Exec(s, run).media.whole <==> NeverRemoved(s, run, m))
    ensures (run != [] && run[|run| - 1].Open? && m.Indexable() && m in Exec(s, run).media.whole
             && m !in run[|run| - 1].args.reading.trouble) ==> m in Exec(s, run).media.idx.rows
    decreases |run|
  {
    RunDisjoint(s, run);
    if run != [] {
      var e, t, rest := run[0], Apply(s, run[0]), run[1..];
      assert forall f :: f in rest ==> f in run;
      StepDisjoint(s, e);
      StepRemovesExactlyWhen(s, e, m);
      if m in t.media.whole {
        NothingLost(t, rest, m);
      } else if PutFile(m) !in run && Arrive(m) !in run {
        NothingResurrected(t, rest, m);
      }
      var init, last := run[..|run| - 1], run[|run| - 1];
      if last.Open? && m.Indexable() && m in Exec(s, run).media.whole && m !in last.args.reading.trouble {
        assert run == init + [last];
        RunSplit(s, init, last);
        OpenedIsKnown(Exec(s, init), last.args, last.listing, m);
      }
    }
  }

  lemma {:induction false} RunDisjoint(s: Store, run: seq<Event>)
    requires Disjoint(s) && IsRun(s, run)
    ensures Disjoint(Exec(s, run))
    decreases |run|
  {
    if run != [] {
      StepDisjoint(s, run[0]);
      RunDisjoint(Apply(s, run[0]), run[1..]);
    }
  }

  /** The pass does delete whole files: one that arrives, is unknown and reads as corrupted. */
  lemma MalformedFileIsDeleted(m: Manifest)
    ensures var a := OpenArgs(true, false, false, false, NoIndex, Reading({}, {m}));
            var run := [Arrive(m), Crash, Open(a, [m])];
            IsRun(Fresh, run) && m in Apply(Fresh, Arrive(m)).media.whole && m !in Exec(Fresh, run).media.whole
  {
    var a := OpenArgs(true, false, false, false, NoIndex, Reading({}, {m}));
    var e := Open(a, [m]);
    var s1 := Apply(Fresh, Arrive(m));
    var s2 := Apply(s1, Crash);
    assert (set f | f in [m]) == {m} == s2.media.whole + s2.media.torn;
    assert Enabled(s2, e);
    StepRemovesExactlyWhen(s2, e, m);
    RunFrom(s2, e, []);
    RunFrom(s1, Crash, [e]);
    RunFrom(Fresh, Arrive(m), [Crash, e]);
    assert [e] + [] == [e] && [Crash] + [e] == [Crash, e] && [Arrive(m)] + [Crash, e] == [Arrive(m), Crash, e];
  }

  /** No row for the manifest exists or is about to: not in the index, not in a checkpoint, not in a
      write in flight. */
  ghost predicate Uncached(s: Store, m: Manifest) {
    m !in s.media.idx.rows && RowToAdd(m) !in s.pending && forall c :: c in s.saved ==> m !in c.rows
  }

  lemma OpenResurrectsNothing(s: Store, e: Event, m: Manifest)
    requires Disjoint(s) && (e.Open? || e.OpenAborted?) && Enabled(s, e) && m !in s.media.whole
    ensures m !in Apply(s, e).media.whole
    ensures Uncached(s, m) ==> m !in Apply(s, e).media.idx.rows
  {
    OpenedEffect(s.media, e.args, e.listing);
    assert Uncached(s, m) ==> m !in Settled(s.media, e.args).rows;
  }

  lemma WriterResurrectsNothing(s: Store, e: Event, m: Manifest)
    requires Enabled(s, e) && !e.Open? && !e.OpenAborted? && m !in s.media.whole && e != PutFile(m) && e != Arrive(m)
    ensures m !in Apply(s, e).media.whole
    ensures m !in s.media.idx.rows && RowToAdd(m) !in s.pending ==>
              m !in Apply(s, e).media.idx.rows && RowToAdd(m) !in Apply(s, e).pending
  {
  }

  lemma StepResurrectsNothing(s: Store, e: Event, m: Manifest)
    requires Disjoint(s) && Enabled(s, e) && m !in s.media.whole && e != PutFile(m) && e != Arrive(m)
    ensures m !in Apply(s, e).media.whole
    ensures Uncached(s, m) ==> Uncached(Apply(s, e), m)
  {
    if e.Open? || e.OpenAborted? {
      OpenResurrectsNothing(s, e, m);
    } else {
      WriterResurrectsNothing(s, e, m);
    }
  }

  /** No resurrection: once a file is gone and is not put again it never returns, whatever crashes,
      restores and opens follow; and no row for it appears unless it was already cached. */
  lemma {:induction false} NothingResurrected(s: Store, run: seq<Event>, m: Manifest)
    requires Disjoint(s) && IsRun(s, run) && m !in s.media.whole
    requires PutFile(m) !in run && Arrive(m) !in run
    ensures m !in Exec(s, run).media.whole
    ensures Uncached(s, m) ==> Uncached(Exec(s, run), m)
    decreases |run|
  {
    if run != [] {
      var e := run[0];
      assert e in run && forall f :: f in run[1..] ==> f in run;
      StepDisjoint(s, e);
      StepResurrectsNothing(s, e, m);
      NothingResurrected(Apply(s, e), run[1..], m);
    }
  }

  /** With nothing between its two steps a put leaves file and row, and nothing in flight. */
  lemma UndisturbedPut(s: Store, m: Manifest)
    requires s.live
    ensures var t := Apply(Apply(s, PutFile(m)), PutRow(m));
            && Enabled(Apply(s, PutFile(m)), PutRow(m)) && t.pending == s.pending
            && m in t.media.whole && m !in t.media.torn && m in t.media.idx.rows
  {
  }

  /** A deletion, in either order, leaves neither file, fragment nor row. */
  lemma UndisturbedDelete(s: Store, m: Manifest)
    requires s.live
    ensures var t := Apply(Apply(s, DeleteFile(m)), DeleteRow(m));
            && Enabled(Apply(s, DeleteFile(m)), DeleteRow(m)) && t.pending == s.pending
            && m !in t.media.whole && m !in t.media.torn && m !in t.media.idx.rows
    ensures var t := Apply(Apply(s, ExternalRow(m)), ExternalFile(m));
            && Enabled(Apply(s, ExternalRow(m)), ExternalFile(m)) && t.pending == s.pending
            && m !in t.media.whole && m !in t.media.torn && m !in t.media.idx.rows
  {
  }

  /** A write cut short leaves a fragment, which the next open removes exactly when it can read it and
      no restored checkpoint has its row. */
  lemma InterruptedWriteGoneExactlyWhen(s: Store, m: Manifest, a: OpenArgs, listing: seq<Manifest>)
    requires Disjoint(s) && Enabled(s, PutTorn(m)) && m !in s.media.idx.rows
    requires Enabled(Apply(Apply(s, PutTorn(m)), Crash), Open(a, listing))
    ensures var cut := Apply(Apply(s, PutTorn(m)), Crash);
            var t := Apply(cut, Open(a, listing));
            && m !in t.media.whole
            && (m !in t.media.torn <==> m !in a.reading.trouble && m !in Settled(cut.media, a).rows)
            && (m in t.media.idx.rows <==> m in Settled(cut.media, a).rows)
  {
    var cut := Apply(Apply(s, PutTorn(m)), Crash);
    OpenedEffect(cut.media, a, listing);
    AllListed(cut, listing);
  }

  /** The opposite order, which `DeleteExternal` uses: after the row is gone, a crash and an open, the
      row is back exactly when a restored checkpoint holds it, or the file is there and can be read
      in.  The file itself is not touched unless it reads as corrupted. */
  lemma RowFirstResurrectsExactlyWhen(s: Store, m: Manifest, a: OpenArgs, listing: seq<Manifest>)
    requires Disjoint(s) && Enabled(s, ExternalRow(m))
    requires Enabled(Apply(Apply(s, ExternalRow(m)), Crash), Open(a, listing))
    ensures var cut := Apply(Apply(s, ExternalRow(m)), Crash);
            var t := Apply(cut, Open(a, listing));
            && m !in cut.media.idx.rows && cut.media.whole == s.media.whole
            && (m in t.media.idx.rows <==>
                || m in Settled(cut.media, a).rows
                || (m in s.media.whole && m.Indexable() && m !in a.reading.trouble && m !in a.reading.malformed))
  {
    var cut := Apply(Apply(s, ExternalRow(m)), Crash);
    OpenedEffect(cut.media, a, listing);
    AllListed(cut, listing);
  }

  lemma StepKeepsRow(s: Store, e: Event, m: Manifest)
    requires Disjoint(s) && Enabled(s, e) && m in s.media.idx.rows && RowToDrop(m) !in s.pending
    requires !e.LoseIndex? && e != DeleteFile(m) && e != ExternalRow(m)
    ensures m in Apply(s, e).media.idx.rows && RowToDrop(m) !in Apply(s, e).pending
  {
    if e.Open? || e.OpenAborted? { OpenedEffect(s.media, e.args, e.listing); }
  }

  /** `Delete` interrupted between its two steps leaves a stale row, and the open that follows does
      not drop it: a row without a file stays for as long as the index itself is kept. */
  lemma {:induction false} StaleRowStays(s: Store, run: seq<Event>, m: Manifest)
    requires Disjoint(s) && IsRun(s, run) && m in s.media.idx.rows
    requires RowToDrop(m) !in s.pending
    requires forall e :: e in run ==> !e.LoseIndex? && e != DeleteFile(m) && e != ExternalRow(m)
    ensures m in Exec(s, run).media.idx.rows
    decreases |run|
  {
    if run != [] {
      var e := run[0];
      assert e in run && forall f :: f in run[1..] ==> f in run;
      StepDisjoint(s, e);
      StepKeepsRow(s, e, m);
      StaleRowStays(Apply(s, e), run[1..], m);
    }
  }

  /** Exactly when a completed open leaves the row set equal to the whole manifests on disk: no
      cached row was stale to begin with, and every file without a row could be read or was
      removed. */
  lemma OpenSyncsExactlyWhen(s: Store, a: OpenArgs, listing: seq<Manifest>)
    requires Disjoint(s) && Enabled(s, Open(a, listing))
    ensures var t, x, known := Apply(s, Open(a, listing)), a.reading, Settled(s.media, a).rows.Keys;
            && t.complete
            && known <= t.media.idx.rows.Keys
            && t.media.torn <= known + x.trouble
            && t.media.whole == (set f | f in s.media.whole && (f in known || f in x.trouble || f !in x.malformed))
            && (t.media.idx.rows.Keys == t.media.whole <==>
                && known <= s.media.whole
                && forall f :: f in s.media.whole && f !in known ==>
                     f !in x.trouble && (f in x.malformed || f.Indexable()))
  {
    OpenedEffect(s.media, a, listing);
    AllListed(s, listing);
    var t, x, known := Apply(s, Open(a, listing)), a.reading, Settled(s.media, a).rows.Keys;
    var rows, whole := t.media.idx.rows.Keys, t.media.whole;
    assert forall f :: f in rows <==>
      f in known || (f in s.media.whole && f !in x.trouble && f !in x.malformed && f.Indexable());
    assert forall f :: f in whole <==> f in s.media.whole && (f in known || f in x.trouble || f !in x.malformed);
    if rows == whole {
      forall f | f in s.media.whole && f !in known ensures f !in x.trouble && (f in x.malformed || f.Indexable()) {
        assert f in rows <==> f in whole;
      }
    }
  }

  lemma AllListed(s: Store, listing: seq<Manifest>)
    requires (set f | f in listing) == s.media.whole + s.media.torn
    ensures forall f :: f in s.media.whole || f in s.media.torn <==> f in listing
  {
    forall f ensures f in s.media.whole || f in s.media.torn <==> f in listing {
      assert f in s.media.whole + s.media.torn <==> f in (set g | g in listing);
    }
  }
}
