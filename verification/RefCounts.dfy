/** Reference counts over every run of the store: how they survive crashes, recoveries and checkpoint
    restores (engine/index/storeindex.go, engine/index/sqlite/checkpoint.go). */
module RefCounts {
  import opened StoreIndex
  import opened TruthCache

  /** The count the checkpoint brings for a blob covers its own references and those of the rows it
      lacks. */
  ghost predicate Fits(i: Index, c: Index) {
    forall b :: b in c.refs ==> c.refs[b] >= Uses(c.rows.Keys, b) + Uses(i.rows.Keys - c.rows.Keys, b)
  }

  lemma {:induction false} UsesUnion(ms: set<Manifest>, ns: set<Manifest>, b: Blob)
    ensures Uses(ms + ns, b) == Uses(ms, b) + Uses(ns - ms, b)
    decreases ns
  {
    if ns == {} {
      assert ms + ns == ms;
    } else {
      var m :| m in ns;
      UsesUnion(ms, ns - {m}, b);
      if m in ms {
        assert ms + ns == ms + (ns - {m}) && ns - ms == ns - {m} - ms;
      } else {
        assert ms + ns - {m} == ms + (ns - {m}) && ns - ms - {m} == ns - {m} - ms;
        UsesWithout(ms + ns, m, b);
        UsesWithout(ns - ms, m, b);
      }
    }
  }

  lemma {:induction false} UsedBy(ms: set<Manifest>, b: Blob)
    ensures Uses(ms, b) > 0 <==> exists m :: m in ms && b in m.Edges()
    decreases ms
  {
    if ms != {} {
      var m :| m in ms;
      UsesWithout(ms, m, b);
      UsedBy(ms - {m}, b);
      assert b in m.Edges() <==> multiset(m.Edges())[b] > 0;
    }
  }

  lemma RestoredUses(i: Index, c: Index, b: Blob)
    ensures Uses(Restored(i, c).rows.Keys, b) == Uses(c.rows.Keys, b) + Uses(i.rows.Keys - c.rows.Keys, b)
    ensures Uses(i.rows.Keys - c.rows.Keys, b) <= Uses(i.rows.Keys, b)
  {
    assert Restored(i, c).rows.Keys == c.rows.Keys + i.rows.Keys;
    UsesUnion(c.rows.Keys, i.rows.Keys, b);
    UsesMonotone(i.rows.Keys - c.rows.Keys, i.rows.Keys, b);
  }

  /** Copying a checkpoint over rows the index already has keeps the counts sound exactly when the two
      fit. */
  lemma RestoreCoversExactlyWhen(i: Index, c: Index)
    requires Covers(i) && Covers(c)
    ensures Covers(Restored(i, c)) <==> Fits(i, c)
  {
    var r := Restored(i, c);
    forall b ensures Count(r.refs, b) >= Uses(r.rows.Keys, b) <==>
                     b in c.refs ==> c.refs[b] >= Uses(c.rows.Keys, b) + Uses(i.rows.Keys - c.rows.Keys, b) {
      RestoredUses(i, c, b);
      assert Count(i.refs, b) >= Uses(i.rows.Keys, b) && Count(c.refs, b) >= Uses(c.rows.Keys, b);
    }
  }

  /** A checkpoint without surplus fits exactly when no row it lacks uses a blob it counts. */
  lemma ExactFitsExactlyWhen(i: Index, c: Index)
    requires Exact(c)
    ensures Fits(i, c) <==> forall m, b :: m in i.rows && m !in c.rows && b in m.Edges() ==> b !in c.refs
  {
    var lacking := i.rows.Keys - c.rows.Keys;
    forall b ensures Count(c.refs, b) == Uses(c.rows.Keys, b) {}
    forall b | b in c.refs
      ensures c.refs[b] >= Uses(c.rows.Keys, b) + Uses(lacking, b) <==> forall m :: m in lacking ==> b !in m.Edges()
    {
      UsedBy(lacking, b);
      assert Count(c.refs, b) == Uses(c.rows.Keys, b);
    }
  }

  // ---- Over runs ----

  /** If the step restores a checkpoint, it fits the rows already there.  In an index without rows it
      always does. */
  ghost predicate CleanRecovery(s: Store, e: Event) {
    (e.Open? || e.OpenAborted?) && Restores(s.media, e.args) ==> Fits(s.media.idx, e.args.checkpoint.idx)
  }

  ghost predicate CleanRun(s: Store, run: seq<Event>)
    decreases |run|
  {
    run == [] || (CleanRecovery(s, run[0]) && CleanRun(Apply(s, run[0]), run[1..]))
  }

  ghost predicate CountsSound(s: Store) {
    Covers(s.media.idx) && forall c :: c in s.saved ==> Covers(c)
  }

  lemma StepCounts(s: Store, e: Event)
    requires Disjoint(s) && CountsSound(s) && Enabled(s, e) && CleanRecovery(s, e)
    ensures CountsSound(Apply(s, e))
  {
    if e.PutRow? { IndexedCounts(s.media.idx, e.m); }
    if e.DeleteRow? || e.ExternalRow? { UnindexedCounts(s.media.idx, e.m); }
    if e.Open? || e.OpenAborted? {
      if Restores(s.media, e.args) { RestoreCoversExactlyWhen(s.media.idx, e.args.checkpoint.idx); }
      OpenedEffect(s.media, e.args, e.listing);
    }
  }

  lemma {:induction false} RunCounts(s: Store, run: seq<Event>)
    requires Disjoint(s) && CountsSound(s) && IsRun(s, run)
    ensures CleanRun(s, run) ==> CountsSound(Exec(s, run))
    decreases |run|
  {
    if run != [] && CleanRun(s, run) {
      StepDisjoint(s, run[0]);
      StepCounts(s, run[0]);
      RunCounts(Apply(s, run[0]), run[1..]);
    }
  }

  /** Over every run from a fresh store whose restores fit, no blob's ref_count is ever below the
      number of references the rows hold; and right after an open without unreadable files it is
      not below the number of references the manifests on disk hold, so a blob with count 0 belongs
      to none of them. */
  lemma CountsNeverTooLow(run: seq<Event>)
    requires IsRun(Fresh, run)
    ensures CleanRun(Fresh, run) ==> Covers(Exec(Fresh, run).media.idx)
    ensures (CleanRun(Fresh, run) && run != [] && run[|run| - 1].Open? && run[|run| - 1].args.reading.trouble == {}
             && (forall m :: m in Exec(Fresh, run).media.whole ==> m.Indexable())) ==>
            forall b :: Count(Exec(Fresh, run).media.idx.refs, b) >= Uses(Exec(Fresh, run).media.whole, b)
  {
    assert Covers(EmptyIndex);
    RunCounts(Fresh, run);
    if run != [] && run[|run| - 1].Open? && run[|run| - 1].args.reading.trouble == {}
       && (forall m :: m in Exec(Fresh, run).media.whole ==> m.Indexable()) {
      var t := Exec(Fresh, run);
      forall m | m in t.media.whole ensures m in t.media.idx.rows { KnownAfterOpen(run, m); }
      forall b ensures Uses(t.media.idx.rows.Keys, b) >= Uses(t.media.whole, b) {
        UsesMonotone(t.media.whole, t.media.idx.rows.Keys, b);
      }
    }
  }

  lemma KnownAfterOpen(run: seq<Event>, m: Manifest)
    requires IsRun(Fresh, run) && run != [] && run[|run| - 1].Open? && m !in run[|run| - 1].args.reading.trouble
    requires m in Exec(Fresh, run).media.whole && m.Indexable()
    ensures m in Exec(Fresh, run).media.idx.rows
  {
    var init, e := run[..|run| - 1], run[|run| - 1];
    assert run == init + [e];
    RunSplit(Fresh, init, e);
    OpenedIsKnown(Exec(Fresh, init), e.args, e.listing, m);
  }

  /** The counts are sound at every step. */
  ghost predicate SoundThroughout(s: Store, run: seq<Event>)
    decreases |run|
  {
    Covers(s.media.idx) && (run == [] || SoundThroughout(Apply(s, run[0]), run[1..]))
  }

  /** A restore that does not fit leaves a count too low, and reading files in does not mend it. */
  lemma MisfitShows(d: Media, a: OpenArgs, listing: seq<Manifest>)
    requires Covers(d.idx) && Restores(d, a) && Covers(a.checkpoint.idx) && !Fits(d.idx, a.checkpoint.idx)
    ensures !Covers(Opened(d, a, listing).idx)
  {
    RestoreCoversExactlyWhen(d.idx, a.checkpoint.idx);
    ReconcileCounts(d.(idx := Settled(d, a)), a.reading, listing);
  }

  /** Over whole runs, whatever checkpoints they restore: the counts are sound at every step if and
      only if every restore fits the rows it meets. */
  lemma {:induction false} SoundThroughoutExactlyWhen(s: Store, run: seq<Event>)
    requires Disjoint(s) && CountsSound(s) && IsRun(s, run)
    ensures SoundThroughout(s, run) <==> CleanRun(s, run)
    decreases |run|
  {
    if run != [] {
      var e, rest := run[0], run[1..];
      StepDisjoint(s, e);
      if CleanRecovery(s, e) {
        StepCounts(s, e);
        SoundThroughoutExactlyWhen(Apply(s, e), rest);
      } else {
        MisfitShows(s.media, e.args, e.listing);
      }
    }
  }

  /** An index of containers looks empty to the probe, so a restore over it happens: two containers
      that share a blob are put, a checkpoint is taken between them, and an open that allows
      recovery ends with the blob's count too low. */
  lemma RestoreOverContainersUndercounts(n: Manifest, m: Manifest, b: Blob)
    requires n != m && n.handle == m.handle == "" && b in n.Edges() && b in m.Edges()
    ensures exists run, a: OpenArgs, listing ::
              && IsRun(Fresh, run + [Open(a, listing)]) && CleanRun(Fresh, run)
              && Restores(Exec(Fresh, run).media, a) && Exact(a.checkpoint.idx)
              && !Covers(Exec(Fresh, run + [Open(a, listing)]).media.idx)
  {
    var c := Indexed(EmptyIndex, n);
    var a := OpenArgs(true, false, false, false, SomeIndex(c), Reading({}, {}));
    var run := ContainersRun(n, m);
    var end := Exec(Fresh, run);
    ContainersReopen(end, n, m, c, a);
    ContainersUndercount(end.media, n, m, b, a);
    RunConcat(Fresh, run, [Open(a, [n, m])]);
    assert Exec(end, [Open(a, [n, m])]) == Apply(end, Open(a, [n, m]));
    assert IsRun(Fresh, run + [Open(a, [n, m])]) && CleanRun(Fresh, run);
  }

  lemma ContainersReopen(s: Store, n: Manifest, m: Manifest, c: Index, a: OpenArgs)
    requires s == Store(Media({n, m}, {}, Indexed(c, m)), false, false, multiset{}, {c}) && c == Indexed(EmptyIndex, n)
    requires n.handle == m.handle == "" && a == OpenArgs(true, false, false, false, SomeIndex(c), Reading({}, {}))
    ensures Enabled(s, Open(a, [n, m])) && Restores(s.media, a)
    ensures IsRun(s, [Open(a, [n, m])]) && Exec(s, [Open(a, [n, m])]) == Apply(s, Open(a, [n, m]))
  {
    assert (set f | f in [n, m]) == {n, m};
    assert !HasUserRow(s.media.idx);
    assert [Open(a, [n, m])][1..] == [];
  }

  lemma ContainersUndercount(d: Media, n: Manifest, m: Manifest, b: Blob, a: OpenArgs)
    requires n != m && b in n.Edges() && b in m.Edges()
    requires d.idx == Indexed(Indexed(EmptyIndex, n), m)
    requires Restores(d, a) && a.checkpoint == SomeIndex(Indexed(EmptyIndex, n))
    ensures Exact(a.checkpoint.idx) && !Covers(Opened(d, a, [n, m]).idx)
  {
    var c := Indexed(EmptyIndex, n);
    assert Covers(EmptyIndex) && Exact(EmptyIndex);
    IndexedCounts(EmptyIndex, n);
    IndexedCounts(c, m);
    SharedBlobMisfits(n, m, b);
    MisfitShows(d, a, [n, m]);
  }

  ghost predicate NoOpens(run: seq<Event>) {
    forall e :: e in run ==> !e.Open? && !e.OpenAborted?
  }

  lemma PutAndSave(s: Store, n: Manifest) returns (run: seq<Event>)
    requires s.live && n.Indexable()
    ensures IsRun(s, run) && NoOpens(run)
    ensures var c := Indexed(s.media.idx, n);
            Exec(s, run) == s.(media := Media(s.media.whole + {n}, s.media.torn - {n}, c), saved := s.saved + {c})
  {
    var put := PutCompletes(s, n);
    var save := OneStep(Exec(s, put), Checkpoint);
    RunConcat(s, put, save);
    run := put + save;
  }

  lemma PutAndCrash(s: Store, m: Manifest) returns (run: seq<Event>)
    requires s.live && m.Indexable()
    ensures IsRun(s, run) && NoOpens(run)
    ensures Exec(s, run) == Store(Media(s.media.whole + {m}, s.media.torn - {m}, Indexed(s.media.idx, m)),
                                  false, false, multiset{}, s.saved)
  {
    var put := PutCompletes(s, m);
    var crash := OneStep(Exec(s, put), Crash);
    RunConcat(s, put, crash);
    run := put + crash;
  }

  lemma ContainersRun(n: Manifest, m: Manifest) returns (run: seq<Event>)
    requires n.Indexable() && m.Indexable()
    ensures IsRun(Fresh, run) && CleanRun(Fresh, run)
    ensures var c := Indexed(EmptyIndex, n);
            Exec(Fresh, run) == Store(Media({n, m}, {}, Indexed(c, m)), false, false, multiset{}, {c})
  {
    var first := PutAndSave(Fresh, n);
    var s := Exec(Fresh, first);
    assert s.media.whole == {n} && s.saved == {Indexed(EmptyIndex, n)};
    var second := PutAndCrash(s, m);
    assert {n} + {m} == {n, m};
    RunConcat(Fresh, first, second);
    run := first + second;
    NoOpensAreClean(Fresh, run);
  }

  lemma {:induction false} NoOpensAreClean(s: Store, run: seq<Event>)
    requires NoOpens(run)
    ensures CleanRun(s, run)
    decreases |run|
  {
    if run != [] {
      assert run[0] in run && forall e :: e in run[1..] ==> e in run;
      NoOpensAreClean(Apply(s, run[0]), run[1..]);
    }
  }

  lemma SharedBlobMisfits(n: Manifest, m: Manifest, b: Blob)
    requires n != m && b in n.Edges() && b in m.Edges()
    ensures Exact(Indexed(EmptyIndex, n)) && !Fits(Indexed(Indexed(EmptyIndex, n), m), Indexed(EmptyIndex, n))
  {
    assert Exact(EmptyIndex);
    IndexedCounts(EmptyIndex, n);
    BumpCount(EmptyIndex.refs, n.Edges(), b);
    assert b in multiset(n.Edges());
    assert b in Indexed(EmptyIndex, n).refs;
    ExactFitsExactlyWhen(Indexed(Indexed(EmptyIndex, n), m), Indexed(EmptyIndex, n));
  }
}
