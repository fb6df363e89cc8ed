/** Rollbacks that are cut short, any number of times, between two deletions or inside one, with or
    without a crash and the open that follows it (engine/store/data_rollback.go,
    engine/store/data_delete.go). */
module Interruption {
  import opened Rollback
  import opened StoreIndex
  import opened TruthCache

  /** What follows a cut: nothing, or a crash and an open. */
  datatype Aftermath = Stay | Reopen(args: OpenArgs, files: seq<Manifest>)

  /** A call that is cut after k of its deletions; `inside` when the file of the next one is gone too
      and its row is not. */
  datatype Attempt = Attempt(x: Context, listing: seq<Manifest>, k: nat, inside: bool, after: Aftermath)

  /** The first half of a deletion. */
  ghost function FileGone(d: Media, x: Context, id: string): Media {
    if Deleted(d, x, id).1 != Done then d
    else
      var m := Load(d, x, id).m;
      d.(whole := d.whole - {m}, torn := d.torn - {m})
  }

  ghost predicate CutInside(at: Attempt) {
    at.inside && at.k < |at.listing|
  }

  ghost function Cut(d: Media, session: string, at: Attempt): Media {
    var ids := Handles(at.listing);
    if session == "" || PreCheck(d, at.x, ids) != Done || at.x.noDelete then d
    else if at.k >= |ids| then DeletedAll(d, at.x, ids).0
    else
      var c := DeletedAll(d, at.x, ids[..at.k]).0;
      if at.inside then FileGone(c, at.x, ids[at.k]) else c
  }

  ghost function Next(d: Media, session: string, at: Attempt): Media {
    match at.after
    case Stay => Cut(d, session, at)
    case Reopen(a, files) => Opened(Cut(d, session, at), a, files)
  }

  ghost function Series(d: Media, session: string, attempts: seq<Attempt>): Media
    decreases |attempts|
  {
    if attempts == [] then d else Series(Next(d, session, attempts[0]), session, attempts[1..])
  }

  /** A row that would join the session or share one of its handles. */
  ghost predicate Concerns(o: Manifest, session: string, s: set<Manifest>) {
    o.handle != "" && (o.session == session || exists m :: m in s && m.handle == o.handle)
  }

  /** Where a checkpoint concerns the session it agrees with the index, up to rows of the session that
      are gone. */
  ghost predicate Consistent(i: Index, c: Index, session: string, s: set<Manifest>) {
    forall o :: o in c.rows && Concerns(o, session, s) ==> if o in i.rows then c.rows[o] == i.rows[o] else o in s
  }

  /** The open lists files that are there and is not refused; a checkpoint it restores is consistent
      with the index. */
  ghost predicate Plausible(d: Media, session: string, s: set<Manifest>, after: Aftermath) {
    after.Reopen? ==>
      && !PlanOpen(d, after.args).Refuse?
      && (Restores(d, after.args) ==> Consistent(d.idx, after.args.checkpoint.idx, session, s))
      && forall f :: f in after.files ==> f in d.whole || f in d.torn
  }

  /** Each attempt lists the session as it then is, and comes later than the one before. */
  ghost predicate Proper(d: Media, x: Context, session: string, s: set<Manifest>, attempts: seq<Attempt>)
    decreases |attempts|
  {
    attempts == [] ||
    var at := attempts[0];
    && Lists(d.idx, session, at.listing) && Later(x, at.x) && Plausible(Cut(d, session, at), session, s, at.after)
    && Proper(Next(d, session, at), at.x, session, s, attempts[1..])
  }

  /** The open restores a checkpoint with a row of the session whose file is gone. */
  ghost predicate Revives(d: Media, s: set<Manifest>, after: Aftermath) {
    && after.Reopen? && Restores(d, after.args)
    && exists m :: m in s && m in after.args.checkpoint.idx.rows && m !in d.whole
  }

  /** No cut fell inside a deletion, and no open revived a row of the session. */
  ghost predicate Clean(d: Media, session: string, s: set<Manifest>, attempts: seq<Attempt>)
    decreases |attempts|
  {
    attempts == [] ||
    var at := attempts[0];
    && !CutInside(at) && !Revives(Cut(d, session, at), s, at.after)
    && Clean(Next(d, session, at), session, s, attempts[1..])
  }

  function LastContext(x: Context, attempts: seq<Attempt>): Context
    decreases |attempts|
  {
    if attempts == [] then x else LastContext(attempts[0].x, attempts[1..])
  }

  /** A file the index does not know, should an open read it in, does not concern the session. */
  ghost predicate Neutral(d: Media, session: string, s: set<Manifest>) {
    forall f :: f in d.whole && f !in d.idx.rows ==> !Concerns(f, session, s)
  }

  /** On the way: what is left of the session can be undone, what is gone is gone, and nothing else
      was touched. */
  ghost predicate Underway(d0: Media, session: string, s: set<Manifest>, d: Media, x: Context) {
    var left := SessionRows(d.idx, session);
    && d.whole !! d.torn && Neutral(d, session, s)
    && left <= s && Undoable(d, x, left) && (s - left) !! d.whole
    && d0.idx.rows.Keys - s <= d.idx.rows.Keys && d0.whole * d0.idx.rows.Keys - s <= d.whole
  }

  /** Stuck: an artifact of the session has its row and not its file. */
  ghost predicate Stale(s: set<Manifest>, d: Media) {
    d.whole !! d.torn && exists m :: m in s && m in d.idx.rows && m !in d.whole
  }

  // ---- Counting down ----

  lemma {:induction false} LeftToDelete(d: Media, x: Context, s: set<Manifest>, ids: seq<string>, k: nat)
    requires Ranked(x) && s <= d.idx.rows.Keys && OnTop(x, d.idx, s) && !x.noDelete && k <= |ids|
    requires forall m :: m in s ==> Deletable(d, x, m) && m.handle != ""
    requires forall id :: |OfHandle(s, id)| == multiset(ids)[id]
    ensures var c := DeletedAll(d, x, ids[..k]).0;
            forall id :: |OfHandle(s * c.idx.rows.Keys, id)| == multiset(ids[k..])[id]
    decreases k
  {
    if k == 0 {
      assert ids[..0] == [] && ids[0..] == ids && s * d.idx.rows.Keys == s;
    } else {
      var id := ids[0];
      assert multiset(ids)[id] > 0;
      TopInSession(x, d.idx, s, id);
      var top := Resolve(x, d.idx, id).m;
      var e, s' := Without(d, top), s - {top};
      forall h ensures |OfHandle(s', h)| == multiset(ids[1..])[h] {
        OneFewer(s, top, ids, h);
        assert |OfHandle(s, h)| == multiset(ids)[h];
      }
      OnTopWithout(d, x, s, top);
      LeftToDelete(e, x, s', ids[1..], k - 1);
      assert ids[..k][1..] == ids[1..][..k - 1] && ids[1..][k - 1..] == ids[k..];
      var c := DeletedAll(e, x, ids[1..][..k - 1]).0;
      assert DeletedAll(d, x, ids[..k]) == DeletedAll(e, x, ids[1..][..k - 1]);
      LoopEffect(e, x, ids[1..][..k - 1]);
      assert s' * c.idx.rows.Keys == s * c.idx.rows.Keys;
    }
  }

  lemma OnTopWithout(d: Media, x: Context, s: set<Manifest>, top: Manifest)
    requires OnTop(x, d.idx, s) && top in s && top in d.idx.rows && s <= d.idx.rows.Keys
    requires forall m :: m in s ==> Deletable(d, x, m)
    ensures OnTop(x, Without(d, top).idx, s - {top}) && s - {top} <= Without(d, top).idx.rows.Keys
    ensures forall m :: m in s - {top} ==> Deletable(Without(d, top), x, m)
  {
    var e := Without(d, top);
    forall a, b | a in s - {top} && b in e.idx.rows && b !in s - {top} && a.handle == b.handle
      ensures AtLeast(x, e.idx, a, b)
    {
      assert AtLeast(x, d.idx, a, b);
    }
  }

  // ---- One attempt ----

  lemma PassesCheck(d: Media, x: Context, session: string, at: Attempt)
    requires session != "" && Ranked(at.x) && Later(x, at.x) && Undoable(d, x, SessionRows(d.idx, session))
    requires Lists(d.idx, session, at.listing)
    ensures PreCheck(d, at.x, Handles(at.listing)) == Done
  {
    ListingFacts(d.idx, session, at.listing);
    UndoableAfterCut(d, d, x, at.x, session);
    UndoableSucceeds(d, at.x, SessionRows(d.idx, session), Handles(at.listing));
  }

  lemma PrefixLeavesOver(d: Media, x: Context, session: string, at: Attempt, k: nat)
    requires Ranked(at.x) && Later(x, at.x) && Undoable(d, x, SessionRows(d.idx, session))
    requires Lists(d.idx, session, at.listing) && k <= |at.listing|
    ensures LeftOver(d, DeletedAll(d, at.x, Handles(at.listing)[..k]).0, SessionRows(d.idx, session))
  {
    ListingFacts(d.idx, session, at.listing);
    UndoableAfterCut(d, d, x, at.x, session);
    CutFacts(d, at.x, SessionRows(d.idx, session), Handles(at.listing), k);
  }

  /** Up to its cut the call is a prefix of the deletions. */
  lemma PrefixDeleted(d: Media, x: Context, session: string, at: Attempt, k: nat)
    requires session != "" && Ranked(at.x) && Later(x, at.x) && Undoable(d, x, SessionRows(d.idx, session))
    requires Lists(d.idx, session, at.listing) && k <= |at.listing|
    requires if at.k < |at.listing| then k == at.k && !at.inside else k == |at.listing|
    ensures Cut(d, session, at) == DeletedAll(d, at.x, Handles(at.listing)[..k]).0
    ensures LeftOver(d, Cut(d, session, at), SessionRows(d.idx, session))
  {
    PassesCheck(d, x, session, at);
    var ids := Handles(at.listing);
    assert ids[..|ids|] == ids;
    PrefixLeavesOver(d, x, session, at, k);
  }

  lemma LeftOverUnderway(d0: Media, session: string, s: set<Manifest>, d: Media, x: Context, c: Media, y: Context)
    requires Underway(d0, session, s, d, x) && Later(x, y) && LeftOver(d, c, SessionRows(d.idx, session))
    ensures Underway(d0, session, s, c, y)
  {
    UndoableAfterCut(d, c, x, y, session);
    var left, rest := SessionRows(d.idx, session), SessionRows(c.idx, session);
    assert rest == left * c.idx.rows.Keys;
    forall m | m in s - rest ensures m !in c.whole { assert m in s - left || m in left - rest; }
  }

  /** Cut between two deletions. */
  lemma CutBetween(d0: Media, session: string, s: set<Manifest>, d: Media, x: Context, at: Attempt)
    requires Underway(d0, session, s, d, x) && session != "" && Ranked(at.x) && Later(x, at.x)
    requires Lists(d.idx, session, at.listing) && !CutInside(at)
    ensures Underway(d0, session, s, Cut(d, session, at), at.x)
  {
    var k := if at.k < |at.listing| then at.k else |at.listing|;
    PrefixDeleted(d, x, session, at, k);
    LeftOverUnderway(d0, session, s, d, x, Cut(d, session, at), at.x);
  }

  lemma SessionLeft(d: Media, x: Context, session: string, ids: seq<string>)
    ensures var c := DeletedAll(d, x, ids).0;
            SessionRows(c.idx, session) == SessionRows(d.idx, session) * c.idx.rows.Keys
  {
    LoopEffect(d, x, ids);
  }

  /** The deletion that is next at the cut finds an artifact of the session. */
  lemma NextInSession(d: Media, x: Context, session: string, at: Attempt)
    requires session != "" && Ranked(at.x) && Later(x, at.x) && Undoable(d, x, SessionRows(d.idx, session))
    requires Lists(d.idx, session, at.listing) && at.k < |at.listing|
    ensures var c := DeletedAll(d, at.x, Handles(at.listing)[..at.k]).0;
            |OfHandle(SessionRows(c.idx, session), Handles(at.listing)[at.k])| > 0
  {
    var left, ids := SessionRows(d.idx, session), Handles(at.listing);
    ListingFacts(d.idx, session, at.listing);
    UndoableAfterCut(d, d, x, at.x, session);
    LeftToDelete(d, at.x, left, ids, at.k);
    var c, id := DeletedAll(d, at.x, ids[..at.k]).0, ids[at.k];
    SessionLeft(d, at.x, session, ids[..at.k]);
    assert ids[at.k..][0] == id && multiset(ids[at.k..])[id] > 0;
    assert |OfHandle(left * c.idx.rows.Keys, id)| == multiset(ids[at.k..])[id];
  }

  /** Cut inside a deletion: the artifact whose turn it was has its row still, and no file. */
  lemma CutWithin(d0: Media, session: string, s: set<Manifest>, d: Media, x: Context, at: Attempt)
    requires Underway(d0, session, s, d, x) && session != "" && Ranked(at.x) && Later(x, at.x)
    requires Lists(d.idx, session, at.listing) && CutInside(at)
    ensures Stale(s, Cut(d, session, at))
  {
    var before, id := at.(inside := false), Handles(at.listing)[at.k];
    var c := Cut(d, session, before);
    PrefixDeleted(d, x, session, before, at.k);
    LeftOverUnderway(d0, session, s, d, x, c, at.x);
    NextInSession(d, x, session, at);
    TopInSession(at.x, c.idx, SessionRows(c.idx, session), id);
    NextIsStale(c, at.x, s, id);
    PassesCheck(d, x, session, at);
  }

  lemma NextIsStale(c: Media, x: Context, s: set<Manifest>, id: string)
    requires c.whole !! c.torn && !x.noDelete
    requires Resolve(x, c.idx, id).Found? && IsTop(x, c.idx, id, Resolve(x, c.idx, id).m)
    requires Resolve(x, c.idx, id).m in s && Resolve(x, c.idx, id).m.handle != ""
    requires Deletable(c, x, Resolve(x, c.idx, id).m)
    ensures Stale(s, FileGone(c, x, id))
  {
    var m := Resolve(x, c.idx, id).m;
    assert Load(c, x, id) == Found(m);
    var g := FileGone(c, x, id);
    assert m in g.idx.rows && m !in g.whole;
  }

  // ---- The open in between ----

  lemma {:induction false} PassKeepsStamps(d: Media, r: Reading, files: seq<Manifest>)
    ensures forall m :: m in d.idx.rows ==>
              m in Reconciled(d, r, files).idx.rows && Reconciled(d, r, files).idx.rows[m] == d.idx.rows[m]
    decreases |files|
  {
    if files != [] { PassKeepsStamps(d, r, files[..|files| - 1]); }
  }

  /** What such an open does: known files stay, no row goes, and where the session is concerned the
      rows and their stamps are the same. */
  ghost predicate MildOpen(d: Media, r: Media, session: string, s: set<Manifest>) {
    && r.whole <= d.whole && r.torn <= d.torn && d.idx.rows.Keys <= r.idx.rows.Keys
    && (forall o :: o in r.idx.rows && Concerns(o, session, s) ==> o in d.idx.rows && r.idx.rows[o] == d.idx.rows[o])
    && d.whole * d.idx.rows.Keys <= r.whole
  }

  /** The rows the pass starts from. */
  lemma SettledMildly(d: Media, session: string, s: set<Manifest>, after: Aftermath)
    requires after.Reopen? && Plausible(d, session, s, after) && !Revives(d, s, after)
    requires s * d.whole <= d.idx.rows.Keys
    ensures var i := Settled(d, after.args);
            && d.idx.rows.Keys <= i.rows.Keys
            && forall o :: o in i.rows && Concerns(o, session, s) ==> o in d.idx.rows && i.rows[o] == d.idx.rows[o]
  {
    var i, a := Settled(d, after.args), after.args;
    if Restores(d, a) {
      forall o | o in i.rows && Concerns(o, session, s) ensures o in d.idx.rows && i.rows[o] == d.idx.rows[o] {
        assert o in s && o in a.checkpoint.idx.rows ==> o in d.whole;
      }
    }
  }

  lemma OpensMildly(d: Media, session: string, s: set<Manifest>, after: Aftermath)
    requires after.Reopen? && Plausible(d, session, s, after) && !Revives(d, s, after)
    requires d.whole !! d.torn && Neutral(d, session, s) && s * d.whole <= d.idx.rows.Keys
    ensures MildOpen(d, Opened(d, after.args, after.files), session, s)
  {
    var a, files := after.args, after.files;
    var start := d.(idx := Settled(d, a));
    SettledMildly(d, session, s, after);
    OpenedEffect(d, a, files);
    PassKeepsStamps(start, a.reading, files);
    var r := Opened(d, a, files);
    forall o | o in r.idx.rows && Concerns(o, session, s) ensures o in d.idx.rows && r.idx.rows[o] == d.idx.rows[o] {
      assert o in start.idx.rows;
    }
  }

  lemma MildKeepsSession(d: Media, r: Media, session: string, s: set<Manifest>)
    requires MildOpen(d, r, session, s) && Neutral(d, session, s)
    ensures Neutral(r, session, s) && SessionRows(r.idx, session) == SessionRows(d.idx, session)
  {
    forall m ensures m in SessionRows(r.idx, session) <==> m in SessionRows(d.idx, session) {
      if m in SessionRows(r.idx, session) { assert Concerns(m, session, s); }
    }
  }

  /** Rows of the session's handles compare as before. */
  lemma MildComparesAlike(d: Media, r: Media, x: Context, session: string, s: set<Manifest>, a: Manifest, b: Manifest)
    requires MildOpen(d, r, session, s) && a in s && a.handle == b.handle != ""
    requires a in r.idx.rows && b in r.idx.rows
    ensures a in d.idx.rows && b in d.idx.rows && (AtLeast(x, r.idx, a, b) <==> AtLeast(x, d.idx, a, b))
  {
    assert Concerns(a, session, s) && Concerns(b, session, s);
  }

  lemma MildKeepsTop(d: Media, r: Media, x: Context, session: string, s: set<Manifest>, m: Manifest)
    requires MildOpen(d, r, session, s) && m in s && m.handle != "" && m in d.idx.rows
    requires IsTop(x, r.idx, m.handle, m)
    ensures IsTop(x, d.idx, m.handle, m)
  {
    forall o | o in d.idx.rows && o.handle == m.handle ensures AtLeast(x, d.idx, m, o) {
      assert AtLeast(x, r.idx, m, o);
      MildComparesAlike(d, r, x, session, s, m, o);
    }
  }

  lemma MildKeepsOnTop(d: Media, r: Media, x: Context, session: string, s: set<Manifest>, left: set<Manifest>)
    requires MildOpen(d, r, session, s) && OnTop(x, d.idx, left) && left <= s && left <= d.idx.rows.Keys
    requires forall m :: m in left ==> m.handle != ""
    ensures OnTop(x, r.idx, left)
  {
    forall a, b | a in left && b in r.idx.rows && b !in left && a.handle == b.handle ensures AtLeast(x, r.idx, a, b) {
      MildComparesAlike(d, r, x, session, s, a, b);
      assert AtLeast(x, d.idx, a, b);
    }
  }

  lemma MildKeepsUnderway(d0: Media, session: string, s: set<Manifest>, d: Media, x: Context, r: Media)
    requires Underway(d0, session, s, d, x) && MildOpen(d, r, session, s)
    ensures Underway(d0, session, s, r, x)
  {
    var left := SessionRows(d.idx, session);
    MildKeepsSession(d, r, session, s);
    MildKeepsOnTop(d, r, x, session, s, left);
    forall m | m in left ensures Deletable(r, x, m) && (IsTop(x, r.idx, m.handle, m) ==> !Active(m, x.now)) {
      assert Deletable(d, x, m);
      if IsTop(x, r.idx, m.handle, m) { MildKeepsTop(d, r, x, session, s, m); }
    }
  }

  /** The open that follows a cut between deletions: on the way still, or stuck, according to whether
      it revived a row. */
  lemma NextUnderway(d0: Media, session: string, s: set<Manifest>, c: Media, x: Context, after: Aftermath)
    requires Underway(d0, session, s, c, x) && after.Reopen? && Plausible(c, session, s, after)
    ensures var r := Opened(c, after.args, after.files);
            if Revives(c, s, after) then Stale(s, r) else Underway(d0, session, s, r, x)
  {
    if Revives(c, s, after) {
      ReviveIsStale(s, c, after.args, after.files);
    } else {
      OpensMildly(c, session, s, after);
      MildKeepsUnderway(d0, session, s, c, x, Opened(c, after.args, after.files));
    }
  }

  lemma ReviveIsStale(s: set<Manifest>, d: Media, a: OpenArgs, files: seq<Manifest>)
    requires d.whole !! d.torn && Restores(d, a) && exists m :: m in s && m in a.checkpoint.idx.rows && m !in d.whole
    ensures Stale(s, Opened(d, a, files))
  {
    var m :| m in s && m in a.checkpoint.idx.rows && m !in d.whole;
    OpenedEffect(d, a, files);
    assert m in Opened(d, a, files).idx.rows;
  }

  // ---- Any number of attempts ----

  /** No deletion removes a row without its file, and no open drops one. */
  lemma CutStaysStale(session: string, s: set<Manifest>, d: Media, at: Attempt)
    requires Stale(s, d)
    ensures Stale(s, Cut(d, session, at))
  {
    var m :| m in s && m in d.idx.rows && m !in d.whole;
    var ids := Handles(at.listing);
    LoopEffect(d, at.x, ids);
    if at.k <= |ids| { LoopEffect(d, at.x, ids[..at.k]); }
    assert m in Cut(d, session, at).idx.rows && m !in Cut(d, session, at).whole;
  }

  lemma OpenStaysStale(s: set<Manifest>, d: Media, a: OpenArgs, files: seq<Manifest>)
    requires Stale(s, d)
    ensures Stale(s, Opened(d, a, files))
  {
    var m :| m in s && m in d.idx.rows && m !in d.whole;
    OpenedEffect(d, a, files);
    assert m in Opened(d, a, files).idx.rows;
  }

  lemma {:induction false} StaleForGood(session: string, s: set<Manifest>, d: Media, attempts: seq<Attempt>)
    requires Stale(s, d)
    ensures Stale(s, Series(d, session, attempts))
    decreases |attempts|
  {
    if attempts != [] {
      var at := attempts[0];
      CutStaysStale(session, s, d, at);
      if at.after.Reopen? { OpenStaysStale(s, Cut(d, session, at), at.after.args, at.after.files); }
      StaleForGood(session, s, Next(d, session, at), attempts[1..]);
    }
  }

  /** The call finished: no artifact of the session is left, and of everything else no row and no
      known file is missing. */
  ghost predicate Finished(d0: Media, s: set<Manifest>, r: (Media, Outcome)) {
    && r.1 == Done && s !! r.0.idx.rows.Keys && s !! r.0.whole
    && d0.idx.rows.Keys - s <= r.0.idx.rows.Keys && d0.whole * d0.idx.rows.Keys - s <= r.0.whole
  }

  lemma UnderwayFinishes(d0: Media, session: string, s: set<Manifest>, d: Media, x: Context, y: Context,
                         again: seq<Manifest>)
    requires Underway(d0, session, s, d, x) && session != "" && Ranked(y) && Later(x, y) && Lists(d.idx, session, again)
    requires forall m :: m in s ==> m.session == session && m.handle != ""
    ensures Finished(d0, s, RolledBack(d, y, session, again))
  {
    var left := SessionRows(d.idx, session);
    ListingFacts(d.idx, session, again);
    UndoableAfterCut(d, d, x, y, session);
    UndoableSucceeds(d, y, left, Handles(again));
    assert forall m :: m in s && m in d.idx.rows ==> m in left;
  }

  lemma StaleNeverFinishes(d0: Media, session: string, s: set<Manifest>, d: Media, y: Context, again: seq<Manifest>)
    requires Stale(s, d)
    ensures !Finished(d0, s, RolledBack(d, y, session, again))
  {
    var m :| m in s && m in d.idx.rows && m !in d.whole;
    LoopEffect(d, y, Handles(again));
    assert m in RolledBack(d, y, session, again).0.idx.rows;
  }

  lemma {:induction false} FromHere(d0: Media, session: string, s: set<Manifest>, d: Media, x: Context,
                                    attempts: seq<Attempt>, y: Context, again: seq<Manifest>)
    requires Underway(d0, session, s, d, x) && session != "" && Ranked(x) && Proper(d, x, session, s, attempts)
    requires forall m :: m in s ==> m.session == session && m.handle != ""
    requires Later(LastContext(x, attempts), y) && Lists(Series(d, session, attempts).idx, session, again)
    ensures Finished(d0, s, RolledBack(Series(d, session, attempts), y, session, again)) <==>
            Clean(d, session, s, attempts)
    decreases |attempts|
  {
    if attempts == [] {
      UnderwayFinishes(d0, session, s, d, x, y, again);
    } else {
      var at, rest := attempts[0], attempts[1..];
      var c, next := Cut(d, session, at), Next(d, session, at);
      if CutInside(at) {
        CutWithin(d0, session, s, d, x, at);
        if at.after.Reopen? { OpenStaysStale(s, c, at.after.args, at.after.files); }
      } else {
        CutBetween(d0, session, s, d, x, at);
        if at.after.Reopen? { NextUnderway(d0, session, s, c, at.x, at.after); }
      }
      if CutInside(at) || Revives(c, s, at.after) {
        StaleForGood(session, s, next, rest);
        StaleNeverFinishes(d0, session, s, Series(next, session, rest), y, again);
      } else {
        FromHere(d0, session, s, next, at.x, rest, y, again);
      }
    }
  }

  /** Any series of attempts, each cut where it may be and each followed by nothing or by a crash and
      an open, and then one complete call: it finishes the rollback if and only if no cut fell
      inside a deletion and no open restored the row of an artifact of the session that was gone. */
  lemma SeriesFinishesExactlyWhen(d: Media, x: Context, session: string, attempts: seq<Attempt>, y: Context,
                                  again: seq<Manifest>)
    requires Ranked(x) && session != "" && d.whole !! d.torn && Undoable(d, x, SessionRows(d.idx, session))
    requires Neutral(d, session, SessionRows(d.idx, session))
    requires Proper(d, x, session, SessionRows(d.idx, session), attempts)
    requires Later(LastContext(x, attempts), y) && Lists(Series(d, session, attempts).idx, session, again)
    ensures Finished(d, SessionRows(d.idx, session), RolledBack(Series(d, session, attempts), y, session, again)) <==>
            Clean(d, session, SessionRows(d.idx, session), attempts)
  {
    FromHere(d, session, SessionRows(d.idx, session), d, x, attempts, y, again);
  }

  /** An attempt that is not cut short is the whole call. */
  lemma UncutIsTheCall(d: Media, session: string, at: Attempt)
    requires at.k >= |at.listing|
    ensures Cut(d, session, at) == RolledBack(d, at.x, session, at.listing).0
  {
  }

  // ---- The attempts are runs of the store ----

  lemma {:induction false} DeletionsAreARun(s: Store, x: Context, ids: seq<string>) returns (run: seq<Event>)
    requires s.live
    ensures IsRun(s, run) && Exec(s, run) == s.(media := DeletedAll(s.media, x, ids).0)
    decreases |ids|
  {
    run := [];
    if ids != [] {
      var r := Deleted(s.media, x, ids[0]);
      var t := s.(media := r.0);
      var first: seq<Event> := [];
      if r.1 == Done { first := DeletionIsTwoSteps(s, x, ids[0]); }
      if !Stops(r.1) {
        var rest := DeletionsAreARun(t, x, ids[1..]);
        RunConcat(s, first, rest);
        run := first + rest;
      }
    }
  }

  /** A deletion is the two steps of the store: the file, then the row; and half of it is the first. */
  lemma DeletionIsTwoSteps(s: Store, x: Context, id: string) returns (run: seq<Event>)
    requires s.live && Deleted(s.media, x, id).1 == Done
    ensures var m := Load(s.media, x, id).m;
            && Enabled(s, DeleteFile(m)) && Apply(s, DeleteFile(m)).media == FileGone(s.media, x, id)
    ensures IsRun(s, run) && Exec(s, run) == s.(media := Deleted(s.media, x, id).0)
  {
    var m := Load(s.media, x, id).m;
    var t := Apply(s, DeleteFile(m));
    var file := OneStep(s, DeleteFile(m));
    var row := OneStep(t, DeleteRow(m));
    RunConcat(s, file, row);
    run := file + row;
    assert t.pending - multiset{RowToDrop(m)} == s.pending;
  }

  /** Every attempt is a run: its deletions, at most half of another, and if it ends in a crash the
      open. */
  lemma AttemptIsARun(s: Store, session: string, at: Attempt) returns (run: seq<Event>)
    requires s.live
    requires at.after.Reopen? ==>
               var c := Cut(s.media, session, at);
               && !PlanOpen(c, at.after.args).Refuse?
               && (at.after.args.checkpoint.SomeIndex? ==> at.after.args.checkpoint.idx in s.saved)
               && (set f | f in at.after.files) == c.whole + c.torn
    ensures IsRun(s, run) && Exec(s, run).media == Next(s.media, session, at) && Exec(s, run).live
  {
    run := CutIsARun(s, session, at);
    if at.after.Reopen? {
      var t := Exec(s, run);
      var crash := OneStep(t, Crash);
      RunConcat(s, run, crash);
      var reopen := OneStep(Apply(t, Crash), Open(at.after.args, at.after.files));
      RunConcat(s, run + crash, reopen);
      run := run + crash + reopen;
    }
  }

  lemma CutIsARun(s: Store, session: string, at: Attempt) returns (run: seq<Event>)
    requires s.live
    ensures IsRun(s, run) && Exec(s, run).live && Exec(s, run).saved == s.saved
    ensures Exec(s, run).media == Cut(s.media, session, at)
  {
    var ids := Handles(at.listing);
    run := [];
    if session != "" && PreCheck(s.media, at.x, ids) == Done && !at.x.noDelete {
      var k := if at.k >= |ids| then |ids| else at.k;
      assert ids[..|ids|] == ids;
      run := DeletionsAreARun(s, at.x, ids[..k]);
      var t := Exec(s, run);
      if at.inside && at.k < |ids| && Deleted(t.media, at.x, ids[k]).1 == Done {
        var m := Load(t.media, at.x, ids[k]).m;
        var whole := DeletionIsTwoSteps(t, at.x, ids[k]);
        var half := OneStep(t, DeleteFile(m));
        RunConcat(s, run, half);
        run := run + half;
      }
    }
  }
}
