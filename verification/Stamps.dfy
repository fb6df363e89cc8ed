/** The change sequence numbers of index rows (engine/index/sqlite/csn.go): of several rows with one
    handle the one stamped last is to answer.  A restored checkpoint brings its stamps along but not
    the counter that issued them (engine/index/sqlite/checkpoint.go). */
module Stamps {
  import opened StoreIndex
  import opened TruthCache

  /** No two rows share a stamp, and none is ahead of the counter. */
  ghost predicate Sequenced(i: Index) {
    && (forall m :: m in i.rows ==> 1 <= i.rows[m] <= i.csn)
    && (forall a, b :: a in i.rows && b in i.rows && i.rows[a] == i.rows[b] ==> a == b)
  }

  ghost predicate AllSequenced(s: Store) {
    Sequenced(s.media.idx) && forall c :: c in s.saved ==> Sequenced(c)
  }

  lemma {:induction false} ReconcileKeepsSequence(d: Media, x: Reading, listing: seq<Manifest>)
    requires Sequenced(d.idx)
    ensures Sequenced(Reconciled(d, x, listing).idx)
    decreases |listing|
  {
    if listing != [] { ReconcileKeepsSequence(d, x, listing[..|listing| - 1]); }
  }

  ghost predicate RestoresNothing(s: Store, run: seq<Event>)
    decreases |run|
  {
    run == [] || ((run[0].Open? || run[0].OpenAborted? ==> !Restores(s.media, run[0].args))
                  && RestoresNothing(Apply(s, run[0]), run[1..]))
  }

  lemma WriterKeepsSequence(s: Store, e: Event)
    requires Sequenced(s.media.idx) && Enabled(s, e) && !e.Open? && !e.OpenAborted?
    ensures Sequenced(Apply(s, e).media.idx)
  {
  }

  lemma StepKeepsSequence(s: Store, e: Event)
    requires AllSequenced(s) && Enabled(s, e) && (e.Open? || e.OpenAborted? ==> Sequenced(Settled(s.media, e.args)))
    ensures AllSequenced(Apply(s, e))
  {
    if e.Open? || e.OpenAborted? {
      ReconcileKeepsSequence(s.media.(idx := Settled(s.media, e.args)), e.args.reading, e.listing);
    } else {
      WriterKeepsSequence(s, e);
    }
  }

  /** Over every run from a fresh store that restores no checkpoint, whatever crashes, index losses
      and opens it has: stamps are distinct and the counter is ahead of them all. */
  lemma StampsStayInOrder(run: seq<Event>)
    requires IsRun(Fresh, run) && RestoresNothing(Fresh, run)
    ensures AllSequenced(Exec(Fresh, run))
  {
    OrderFrom(Fresh, run);
  }

  lemma {:induction false} OrderFrom(s: Store, run: seq<Event>)
    requires AllSequenced(s) && IsRun(s, run) && RestoresNothing(s, run)
    ensures AllSequenced(Exec(s, run))
    decreases |run|
  {
    if run != [] {
      StepKeepsSequence(s, run[0]);
      OrderFrom(Apply(s, run[0]), run[1..]);
    }
  }

  /** The row written last answers for its handle, against every other row of that handle. */
  lemma LastIndexedAnswers(i: Index, m: Manifest, o: Manifest)
    requires Sequenced(i) && o in Indexed(i, m).rows && o != m
    ensures Sequenced(Indexed(i, m)) && Indexed(i, m).rows[m] > Indexed(i, m).rows[o]
  {
  }

  /** No stamp of the checkpoint is ahead of the counter, or taken by a row it does not replace. */
  ghost predicate StampsFit(i: Index, c: Index) {
    && (forall m :: m in c.rows ==> c.rows[m] <= i.csn)
    && (forall a, b :: a in i.rows && a !in c.rows && b in c.rows ==> i.rows[a] != c.rows[b])
  }

  lemma FittingKeepsOrder(i: Index, c: Index)
    requires Sequenced(i) && Sequenced(c) && StampsFit(i, c)
    ensures Sequenced(Restored(i, c))
  {
    var r := Restored(i, c);
    assert forall m :: m in r.rows ==> r.rows[m] == if m in c.rows then c.rows[m] else i.rows[m];
  }

  lemma OrderMeansFitting(i: Index, c: Index)
    requires Sequenced(Restored(i, c))
    ensures StampsFit(i, c)
  {
    var r := Restored(i, c);
    forall m | m in c.rows ensures c.rows[m] <= i.csn { assert r.rows[m] == c.rows[m]; }
    forall a, b | a in i.rows && a !in c.rows && b in c.rows ensures i.rows[a] != c.rows[b] {
      assert r.rows[a] == i.rows[a] && r.rows[b] == c.rows[b];
    }
  }

  /** Exactly when a restore keeps the order. */
  lemma RestoreKeepsOrderExactlyWhen(i: Index, c: Index)
    requires Sequenced(i) && Sequenced(c)
    ensures Sequenced(Restored(i, c)) <==> StampsFit(i, c)
  {
    if StampsFit(i, c) { FittingKeepsOrder(i, c); }
    if Sequenced(Restored(i, c)) { OrderMeansFitting(i, c); }
  }

  /** An index that was just created has a counter of 0: only a checkpoint without rows fits it. */
  lemma NothingFitsANewIndex(c: Index)
    requires Sequenced(c)
    ensures StampsFit(EmptyIndex, c) <==> c.rows == map[]
  {
    if StampsFit(EmptyIndex, c) {
      assert c.rows.Keys == {};
    }
  }

  /** In the ordinary recovery, into an index that was just created, the first manifest read in gets
      stamp 1: it never comes before a restored row, however much newer it is. */
  lemma FirstReadInNeverOutranks(c: Index, m: Manifest, o: Manifest)
    requires Sequenced(c) && o in c.rows && m !in c.rows
    ensures var i := Indexed(Restored(EmptyIndex, c), m);
            i.rows[m] == 1 && i.rows[o] == c.rows[o] >= i.rows[m]
  {
  }

  /** And that is reached: an artifact is put, a checkpoint taken, a second form of it put, the index
      lost and recovered.  The two rows of the handle then carry the same stamp. */
  lemma RecoveryTiesStamps(n: Manifest, m: Manifest)
    requires n != m && n.handle == m.handle && n.Indexable() && m.Indexable()
    ensures exists run :: IsRun(Fresh, run)
              && n in Exec(Fresh, run).media.idx.rows && m in Exec(Fresh, run).media.idx.rows
              && Exec(Fresh, run).media.idx.rows[n] == Exec(Fresh, run).media.idx.rows[m]
  {
    var c := Indexed(EmptyIndex, n);
    var run := LostAfterCheckpoint(n, m);
    var s := Store(Media({n, m}, {}, EmptyIndex), false, false, multiset{}, {c});
    var a := OpenArgs(true, false, false, false, SomeIndex(c), Reading({}, {}));
    RecoveredRows(s, n, m, c, a);
    var last := OneStep(s, Open(a, [n, m]));
    RunConcat(Fresh, run, last);
    assert IsRun(Fresh, run + last);
  }

  lemma RecoveredRows(s: Store, n: Manifest, m: Manifest, c: Index, a: OpenArgs)
    requires n != m && n.Indexable() && m.Indexable() && c == Indexed(EmptyIndex, n)
    requires s == Store(Media({n, m}, {}, EmptyIndex), false, false, multiset{}, {c})
    requires a == OpenArgs(true, false, false, false, SomeIndex(c), Reading({}, {}))
    ensures Enabled(s, Open(a, [n, m]))
    ensures var i := Apply(s, Open(a, [n, m])).media.idx; n in i.rows && m in i.rows && i.rows[n] == i.rows[m] == 1
  {
    assert (set f | f in [n, m]) == {n, m};
    var d := s.media.(idx := Settled(s.media, a));
    assert d.idx.rows == c.rows && d.idx.csn == 0;
    assert [n, m][..1] == [n] && [n][..0] == [];
    assert Reconciled(d, a.reading, [n]) == d;
    assert Reconciled(d, a.reading, [n, m]) == d.(idx := Indexed(d.idx, m));
  }

  lemma LostAfterCheckpoint(n: Manifest, m: Manifest) returns (run: seq<Event>)
    requires n.Indexable() && m.Indexable()
    ensures IsRun(Fresh, run)
    ensures Exec(Fresh, run) == Store(Media({n, m}, {}, EmptyIndex), false, false, multiset{}, {Indexed(EmptyIndex, n)})
  {
    var c := Indexed(EmptyIndex, n);
    var s1 := Store(Media({n}, {}, c), true, true, multiset{}, {});
    var s2 := s1.(saved := {c});
    var s3 := Store(Media({n, m}, {}, Indexed(c, m)), true, true, multiset{}, {c});
    var s4 := Apply(s3, Crash);
    var putN := PutCompletes(Fresh, n);
    var save := OneStep(s1, Checkpoint);
    var putM := PutCompletes(s2, m);
    var crash := OneStep(s3, Crash);
    var lose := OneStep(s4, LoseIndex);
    assert {} + {n} == {n} && {n} + {m} == {n, m};
    FourRuns(Fresh, putN, save, putM, crash, s1, s2, s3, s4);
    RunConcat(Fresh, putN + save + putM + crash, lose);
    run := putN + save + putM + crash + lose;
  }
}
