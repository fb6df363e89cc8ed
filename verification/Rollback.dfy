/** `Delete` and `RollbackSession` (engine/store/data_delete.go, engine/store/data_rollback.go): a
    session is a tag, and rolling it back is a pre-check over its artifacts followed by one
    `Delete` per artifact. */
module Rollback {
  import opened Stamps
  import opened StoreIndex
  import opened TruthCache

  /** `now` is the instant of the pre-check, `later` the instant of the deletions, `unreadable` the
      manifest files that cannot be opened.  `rank` is the order in which the index scans rows: it
      decides between rows of one handle that carry the same stamp. */
  datatype Context = Context(noDelete: bool, now: int, later: int, unreadable: set<Manifest>, rank: Manifest -> int)

  ghost predicate Ranked(x: Context) {
    forall a, b :: x.rank(a) == x.rank(b) ==> a == b
  }

  datatype Outcome = Done | Missing | EmptySession | RetentionActive | Forbidden | LoadFailed

  datatype Lookup = Found(m: Manifest) | NotFound | Unreadable

  predicate Active(m: Manifest, t: int) {
    m.retention != 0 && m.retention > t
  }

  // ---- Resolving a handle ----

  function OfHandle(s: set<Manifest>, id: string): set<Manifest> {
    set m | m in s && m.handle == id
  }

  predicate AtLeast(x: Context, i: Index, a: Manifest, b: Manifest)
    requires a in i.rows && b in i.rows
  {
    i.rows[a] > i.rows[b] || (i.rows[a] == i.rows[b] && x.rank(a) >= x.rank(b))
  }

  /** Several rows may share a handle; the one with the highest stamp answers for it, and among equal
      stamps the one of highest rank. */
  ghost predicate IsTop(x: Context, i: Index, id: string, m: Manifest) {
    m in i.rows && m.handle == id && forall o :: o in i.rows && o.handle == id ==> AtLeast(x, i, m, o)
  }

  ghost function Resolve(x: Context, i: Index, id: string): Lookup {
    if exists m :: IsTop(x, i, id, m) then
      var m :| IsTop(x, i, id, m);
      Found(m)
    else NotFound
  }

  lemma {:induction false} HighestStamp(x: Context, i: Index, s: set<Manifest>) returns (top: Manifest)
    requires s != {} && s <= i.rows.Keys
    ensures top in s && forall o :: o in s ==> AtLeast(x, i, top, o)
    decreases s
  {
    var m :| m in s;
    if s == {m} {
      top := m;
    } else {
      top := HighestStamp(x, i, s - {m});
      if !AtLeast(x, i, top, m) {
        forall o | o in s ensures AtLeast(x, i, m, o) {
          assert o == m || o in s - {m};
          assert o in s - {m} ==> AtLeast(x, i, top, o);
        }
        top := m;
      }
    }
  }

  lemma Resolves(x: Context, i: Index, m: Manifest)
    requires m in i.rows
    ensures Resolve(x, i, m.handle).Found? && IsTop(x, i, m.handle, Resolve(x, i, m.handle).m)
  {
    assert m in OfHandle(i.rows.Keys, m.handle);
    var top := HighestStamp(x, i, OfHandle(i.rows.Keys, m.handle));
    assert IsTop(x, i, m.handle, top);
  }

  lemma TopIsUnique(x: Context, i: Index, id: string, m: Manifest, o: Manifest)
    requires Ranked(x) && IsTop(x, i, id, m) && IsTop(x, i, id, o)
    ensures m == o
  {
    assert AtLeast(x, i, m, o) && AtLeast(x, i, o, m);
  }

  /** While stamps are in order the scan order is never consulted: the row written last answers. */
  lemma OrderedStampsDecide(x: Context, y: Context, i: Index, id: string)
    requires Sequenced(i)
    ensures Resolve(x, i, id) == Resolve(y, i, id)
  {
    if m :| m in i.rows && m.handle == id {
      Resolves(x, i, m);
      Resolves(y, i, m);
      var a, b := Resolve(x, i, id).m, Resolve(y, i, id).m;
      assert AtLeast(x, i, a, b) && AtLeast(y, i, b, a);
    }
  }

  ghost function Load(d: Media, x: Context, id: string): Lookup {
    match Resolve(x, d.idx, id)
    case NotFound => NotFound
    case Unreadable => Unreadable
    case Found(m) =>
      if m in x.unreadable || m in d.torn then Unreadable
      else if m !in d.whole || m.handle == "" then NotFound
      else Found(m)
  }

  // ---- Specification of the two loops ----

  function Without(d: Media, m: Manifest): Media {
    Media(d.whole - {m}, d.torn - {m}, Unindexed(d.idx, m))
  }

  ghost function PreCheck(d: Media, x: Context, ids: seq<string>): Outcome
    decreases |ids|
  {
    if ids == [] then Done
    else if !Load(d, x, ids[0]).Found? then LoadFailed
    else if Active(Load(d, x, ids[0]).m, x.now) then RetentionActive
    else PreCheck(d, x, ids[1..])
  }

  ghost function Deleted(d: Media, x: Context, id: string): (Media, Outcome) {
    match Load(d, x, id)
    case NotFound => (d, Missing)
    case Unreadable => (d, LoadFailed)
    case Found(m) =>
      if Active(m, x.later) then (d, RetentionActive)
      else if x.noDelete then (d, Forbidden)
      else (Without(d, m), Done)
  }

  /** An artifact that is already gone is skipped; any other refusal ends the loop. */
  predicate Stops(o: Outcome) {
    o != Done && o != Missing
  }

  ghost function DeletedAll(d: Media, x: Context, ids: seq<string>): (Media, Outcome)
    decreases |ids|
  {
    if ids == [] then (d, Done)
    else
      var r := Deleted(d, x, ids[0]);
      if Stops(r.1) then r else DeletedAll(r.0, x, ids[1..])
  }

  function Handles(ms: seq<Manifest>): (ids: seq<string>)
    ensures |ids| == |ms| && forall i :: 0 <= i < |ms| ==> ids[i] == ms[i].handle
    decreases |ms|
  {
    if ms == [] then [] else Handles(ms[..|ms| - 1]) + [ms[|ms| - 1].handle]
  }

  ghost function RolledBack(d: Media, x: Context, session: string, listing: seq<Manifest>): (Media, Outcome) {
    var ids := Handles(listing);
    if session == "" then (d, EmptySession)
    else if ids == [] then (d, Done)
    else if PreCheck(d, x, ids) != Done then (d, PreCheck(d, x, ids))
    else if x.noDelete then (d, Forbidden)
    else DeletedAll(d, x, ids)
  }

  function Members(ms: seq<Manifest>): set<Manifest> {
    set m | m in ms
  }

  function SessionRows(i: Index, session: string): set<Manifest> {
    set m | m in i.rows && m.session == session && m.handle != ""
  }

  /** `GetBySession` scans each matching row once, in any order. */
  ghost predicate Lists(i: Index, session: string, listing: seq<Manifest>) {
    && (forall j, k :: 0 <= j < k < |listing| ==> listing[j] != listing[k])
    && Members(listing) == SessionRows(i, session)
  }

  // ---- The imperative form ----

  method ResolveDigest(tables: IndexTables, x: Context, id: string) returns (r: Lookup)
    requires Ranked(x)
    ensures r == Resolve(x, tables.Value(), id)
  {
    var i := Index(tables.rows, tables.refs, tables.csn);
    var rest := i.rows.Keys;
    r := NotFound;
    while rest != {}
      invariant rest <= i.rows.Keys && !r.Unreadable?
      invariant r.Found? ==> r.m in i.rows && r.m.handle == id
      invariant forall o :: o in i.rows && o !in rest && o.handle == id ==> r.Found? && AtLeast(x, i, r.m, o)
      decreases rest
    {
      var m :| m in rest;
      rest := rest - {m};
      if m.handle == id && (!r.Found? || !AtLeast(x, i, r.m, m)) { r := Found(m); }
    }
    if r.Found? {
      assert IsTop(x, i, id, r.m);
      TopIsUnique(x, i, id, r.m, Resolve(x, i, id).m);
    }
  }

  method LoadManifest(loc: Location, x: Context, id: string) returns (r: Lookup)
    requires id != "" && Ranked(x)
    ensures r == Load(loc.Value(), x, id)
  {
    r := ResolveDigest(loc.index, x, id);
    if r.Found? {
      if r.m in x.unreadable || r.m in loc.torn {
        r := Unreadable;
      } else if r.m !in loc.whole {
        r := NotFound;
      }
    }
  }

  /** Truth first, cache second: the file is removed before the row. */
  method Delete(loc: Location, x: Context, id: string) returns (r: Outcome)
    requires id != "" && Ranked(x)
    modifies loc, loc.index
    ensures (loc.Value(), r) == Deleted(old(loc.Value()), x, id)
    ensures forall m :: IsTop(x, old(loc.index.Value()), id, m) ==>
              DeletedOnlyIfFree(old(loc.Value()), x, m, loc.Value(), r)
    ensures (forall m :: m in old(loc.index.rows) ==> m.handle != id) ==>
              r == Missing && loc.Value() == old(loc.Value())
  {
    DeleteExactlyWhen(loc.Value(), x, id);
    var l := LoadManifest(loc, x, id);
    match l {
      case NotFound => return Missing;
      case Unreadable => return LoadFailed;
      case Found(m) =>
        if Active(m, x.later) { return RetentionActive; }
        if x.noDelete { return Forbidden; }
        loc.whole := loc.whole - {m};
        loc.torn := loc.torn - {m};
        loc.index.DeleteManifest(m);
        return Done;
    }
  }

  /** What a delete made of the row m that answers for its handle.  It is gone, with its file, exactly
      when it could be read, its retention is over and the store allows deletion; and then
      nothing else is.  Otherwise nothing changed, and the first of these to fail is the reason. */
  ghost predicate DeletedOnlyIfFree(d: Media, x: Context, m: Manifest, r: Media, o: Outcome) {
    var readable := m in d.whole && m !in d.torn && m !in x.unreadable;
    var retained := m.retention != 0 && m.retention > x.later;
    && (o == Done <==> readable && !retained && !x.noDelete)
    && (if o == Done
        then r.whole == d.whole - {m} && r.torn == d.torn && r.idx.rows.Keys == d.idx.rows.Keys - {m}
        else r == d)
    && (m in r.idx.rows <==> o != Done)
    && (o == Forbidden <==> readable && !retained && x.noDelete)
    && (o == RetentionActive <==> readable && retained)
    && (o == LoadFailed <==> m in d.torn || m in x.unreadable)
    && (o == Missing <==> m !in d.whole && m !in d.torn && m !in x.unreadable)
  }

  lemma DeleteExactlyWhen(d: Media, x: Context, id: string)
    requires Ranked(x) && id != ""
    ensures forall m :: IsTop(x, d.idx, id, m) ==> DeletedOnlyIfFree(d, x, m, Deleted(d, x, id).0, Deleted(d, x, id).1)
    ensures (forall m :: m in d.idx.rows ==> m.handle != id) ==> Deleted(d, x, id) == (d, Missing)
  {
    forall m | IsTop(x, d.idx, id, m)
      ensures DeletedOnlyIfFree(d, x, m, Deleted(d, x, id).0, Deleted(d, x, id).1)
    {
      Resolves(x, d.idx, m);
      TopIsUnique(x, d.idx, id, m, Resolve(x, d.idx, id).m);
    }
  }

  method CheckAll(loc: Location, x: Context, ids: seq<string>) returns (r: Outcome)
    requires Ranked(x) && "" !in ids
    ensures r == PreCheck(loc.Value(), x, ids)
  {
    var i := 0;
    while i < |ids|
      invariant 0 <= i <= |ids|
      invariant PreCheck(loc.Value(), x, ids) == PreCheck(loc.Value(), x, ids[i..])
    {
      assert ids[i] in ids && ids[i..][1..] == ids[i + 1..];
      var l := LoadManifest(loc, x, ids[i]);
      if !l.Found? { return LoadFailed; }
      if Active(l.m, x.now) { return RetentionActive; }
      i := i + 1;
    }
    r := Done;
  }

  method DeleteAll(loc: Location, x: Context, ids: seq<string>) returns (r: Outcome)
    requires Ranked(x) && "" !in ids
    modifies loc, loc.index
    ensures (loc.Value(), r) == DeletedAll(old(loc.Value()), x, ids)
  {
    var i := 0;
    while i < |ids|
      invariant 0 <= i <= |ids|
      invariant DeletedAll(old(loc.Value()), x, ids) == DeletedAll(loc.Value(), x, ids[i..])
    {
      assert ids[i] in ids && ids[i..][1..] == ids[i + 1..];
      r := Delete(loc, x, ids[i]);
      if Stops(r) { return; }
      i := i + 1;
    }
    r := Done;
  }

  method RollbackSession(loc: Location, x: Context, session: string, listing: seq<Manifest>) returns (r: Outcome)
    requires Ranked(x) && Lists(loc.index.Value(), session, listing)
    modifies loc, loc.index
    ensures (loc.Value(), r) == RolledBack(old(loc.Value()), x, session, listing)
  {
    if session == "" { return EmptySession; }
    var ids := Handles(listing);
    ListingFacts(loc.index.Value(), session, listing);
    if |ids| == 0 { return Done; }
    r := CheckAll(loc, x, ids);
    if r != Done { return; }
    if x.noDelete { return Forbidden; }
    r := DeleteAll(loc, x, ids);
  }

  // ---- What a rollback removes ----

  /** Every row of the session comes before every row of the same handle outside it. */
  ghost predicate OnTop(x: Context, i: Index, s: set<Manifest>) {
    forall a, b :: a in s && a in i.rows && b in i.rows && b !in s && a.handle == b.handle ==> AtLeast(x, i, a, b)
  }

  ghost predicate Deletable(d: Media, x: Context, m: Manifest) {
    m in d.whole && m !in d.torn && m !in x.unreadable && !Active(m, x.later)
  }

  lemma HandleAppended(init: seq<Manifest>, last: Manifest, id: string)
    ensures multiset(Handles(init + [last]))[id] ==
            multiset(Handles(init))[id] + if last.handle == id then 1 else 0
  {
    var all := init + [last];
    assert all[..|all| - 1] == init;
    assert Handles(all) == Handles(init) + [last.handle];
  }

  lemma {:induction false} HandlesCounted(listing: seq<Manifest>, id: string)
    requires forall j, k :: 0 <= j < k < |listing| ==> listing[j] != listing[k]
    ensures |OfHandle(Members(listing), id)| == multiset(Handles(listing))[id]
    decreases |listing|
  {
    if listing == [] {
      assert OfHandle(Members(listing), id) == {};
    } else {
      var init, last := listing[..|listing| - 1], listing[|listing| - 1];
      assert listing == init + [last] && last !in init;
      HandlesCounted(init, id);
      OneMore(init, last, id);
      HandleAppended(init, last, id);
    }
  }

  lemma OneMore(init: seq<Manifest>, last: Manifest, id: string)
    requires last !in init
    ensures |OfHandle(Members(init + [last]), id)| == |OfHandle(Members(init), id)| + if last.handle == id then 1 else 0
  {
    var t := OfHandle(Members(init), id);
    assert OfHandle(Members(init + [last]), id) == if last.handle == id then t + {last} else t;
  }

  /** The handles `GetBySession` returns: one per row of the session, none of them empty. */
  lemma ListingFacts(i: Index, session: string, listing: seq<Manifest>)
    requires Lists(i, session, listing)
    ensures listing == [] <==> SessionRows(i, session) == {}
    ensures forall id :: |OfHandle(SessionRows(i, session), id)| == multiset(Handles(listing))[id]
    ensures forall m :: m in SessionRows(i, session) ==> m.handle in Handles(listing)
    ensures forall id :: id in Handles(listing) ==>
              id != "" && exists m :: m in SessionRows(i, session) && m.handle == id
  {
    var s, ids := SessionRows(i, session), Handles(listing);
    if listing != [] { assert listing[0] in Members(listing); }
    forall id ensures |OfHandle(s, id)| == multiset(ids)[id] { HandlesCounted(listing, id); }
    forall m | m in s ensures m.handle in ids {
      assert m in Members(listing);
      var j :| 0 <= j < |listing| && listing[j] == m;
      assert ids[j] == m.handle;
    }
    forall id | id in ids ensures id != "" && exists m :: m in s && m.handle == id {
      var j :| 0 <= j < |ids| && ids[j] == id;
      assert listing[j] in Members(listing);
    }
  }

  lemma TopInSession(x: Context, i: Index, s: set<Manifest>, id: string)
    requires Ranked(x) && s <= i.rows.Keys && OnTop(x, i, s) && |OfHandle(s, id)| > 0
    ensures Resolve(x, i, id).Found? && IsTop(x, i, id, Resolve(x, i, id).m) && Resolve(x, i, id).m in s
  {
    var a :| a in OfHandle(s, id);
    Resolves(x, i, a);
    var top := Resolve(x, i, id).m;
    assert AtLeast(x, i, top, a);
    assert top !in s ==> AtLeast(x, i, a, top) && a == top;
  }

  /** Taking the top row of a handle out of the session uses up one of its ids. */
  lemma OneFewer(s: set<Manifest>, top: Manifest, ids: seq<string>, h: string)
    requires ids != [] && top in s && top.handle == ids[0]
    ensures |OfHandle(s - {top}, h)| - multiset(ids[1..])[h] == |OfHandle(s, h)| - multiset(ids)[h]
  {
    assert ids == [ids[0]] + ids[1..];
    assert OfHandle(s - {top}, h) == OfHandle(s, h) - {top};
    if h == top.handle { assert top in OfHandle(s, h); }
  }

  /** With the session on top, the deletions remove exactly its rows, whatever their order. */
  lemma {:induction false} LoopRemoves(d: Media, x: Context, s: set<Manifest>, ids: seq<string>)
    requires Ranked(x) && s <= d.idx.rows.Keys && OnTop(x, d.idx, s) && !x.noDelete
    requires forall m :: m in s ==> Deletable(d, x, m) && m.handle != ""
    requires forall id :: |OfHandle(s, id)| == multiset(ids)[id]
    ensures var r := DeletedAll(d, x, ids);
            r.1 == Done && r.0.whole == d.whole - s && r.0.torn == d.torn && r.0.idx.rows.Keys == d.idx.rows.Keys - s
    decreases |ids|
  {
    if ids == [] {
      forall m ensures m !in s { assert OfHandle(s, m.handle) == {} && (m in s ==> m in OfHandle(s, m.handle)); }
    } else {
      var id := ids[0];
      assert multiset(ids)[id] > 0;
      TopInSession(x, d.idx, s, id);
      var top := Resolve(x, d.idx, id).m;
      var e, s' := Without(d, top), s - {top};
      assert e.torn == d.torn;
      forall h ensures |OfHandle(s', h)| == multiset(ids[1..])[h] {
        OneFewer(s, top, ids, h);
        assert |OfHandle(s, h)| == multiset(ids)[h];
      }
      LoopRemoves(e, x, s', ids[1..]);
      assert d.whole - s == e.whole - s' && d.idx.rows.Keys - s == e.idx.rows.Keys - s';
    }
  }

  /** Rows only went, files went with their rows, each was deletable, and none was stamped before a
      row of the same handle that stayed. */
  ghost predicate Shrunk(d: Media, x: Context, r: Media) {
    && r.idx.rows.Keys <= d.idx.rows.Keys
    && (forall m :: m in r.idx.rows ==> r.idx.rows[m] == d.idx.rows[m])
    && r.whole == d.whole - (d.idx.rows.Keys - r.idx.rows.Keys)
    && r.torn == d.torn
    && (forall a :: a in d.idx.rows && a !in r.idx.rows ==> Deletable(d, x, a))
    && (forall a, b :: a in d.idx.rows && a !in r.idx.rows && b in r.idx.rows && a.handle == b.handle ==>
          AtLeast(x, d.idx, a, b))
  }

  lemma OneDeleted(d: Media, x: Context, id: string)
    requires Deleted(d, x, id).1 == Done
    ensures Shrunk(d, x, Deleted(d, x, id).0)
  {
    var top := Load(d, x, id).m;
    assert IsTop(x, d.idx, id, top);
    assert Without(d, top).torn == d.torn;
  }

  lemma ShrunkTwice(d: Media, x: Context, e: Media, r: Media)
    requires Shrunk(d, x, e) && Shrunk(e, x, r)
    ensures Shrunk(d, x, r)
  {
    forall a | a in d.idx.rows && a !in r.idx.rows ensures Deletable(d, x, a) {
      if a in e.idx.rows { assert Deletable(e, x, a); }
    }
    forall a, b | a in d.idx.rows && a !in r.idx.rows && b in r.idx.rows && a.handle == b.handle
      ensures AtLeast(x, d.idx, a, b)
    {
      if a in e.idx.rows { assert AtLeast(x, e.idx, a, b); }
    }
  }

  /** Whatever the input: rows only go, files go with their rows, each was deletable, and none was
      stamped before a row of the same handle that stays. */
  lemma {:induction false} LoopEffect(d: Media, x: Context, ids: seq<string>)
    ensures Shrunk(d, x, DeletedAll(d, x, ids).0)
    ensures x.noDelete ==> DeletedAll(d, x, ids).0 == d
    decreases |ids|
  {
    if ids != [] {
      var one := Deleted(d, x, ids[0]);
      if one.1 == Done {
        OneDeleted(d, x, ids[0]);
        LoopEffect(one.0, x, ids[1..]);
        ShrunkTwice(d, x, one.0, DeletedAll(one.0, x, ids[1..]).0);
      } else if one.1 == Missing {
        LoopEffect(d, x, ids[1..]);
      }
    }
  }

  lemma {:induction false} PreCheckMeaning(d: Media, x: Context, ids: seq<string>)
    ensures PreCheck(d, x, ids) == Done <==>
            forall id :: id in ids ==> Load(d, x, id).Found? && !Active(Load(d, x, id).m, x.now)
    decreases |ids|
  {
    if ids != [] {
      PreCheckMeaning(d, x, ids[1..]);
      assert ids == [ids[0]] + ids[1..];
    }
  }

  /** The handle passes the pre-check. */
  ghost predicate Clear(d: Media, x: Context, id: string) {
    Load(d, x, id).Found? && !Active(Load(d, x, id).m, x.now)
  }

  /** The first handle whose row cannot be loaded or is retained decides, and which of the two it is. */
  lemma {:induction false} PreCheckReason(d: Media, x: Context, ids: seq<string>) returns (k: nat)
    requires PreCheck(d, x, ids) != Done
    ensures k < |ids| && !Clear(d, x, ids[k]) && forall j :: 0 <= j < k ==> Clear(d, x, ids[j])
    ensures PreCheck(d, x, ids) == if Load(d, x, ids[k]).Found? then RetentionActive else LoadFailed
    decreases |ids|
  {
    if Clear(d, x, ids[0]) {
      k := PreCheckReason(d, x, ids[1..]);
      k := k + 1;
      assert forall j :: 0 < j < k ==> ids[j] == ids[1..][j - 1];
    } else {
      k := 0;
    }
  }

  /** Without the handles that have no row. */
  function Present(ids: seq<string>, absent: set<string>): seq<string>
    decreases |ids|
  {
    if ids == [] then []
    else (if ids[0] in absent then [] else [ids[0]]) + Present(ids[1..], absent)
  }

  /** An artifact that is already gone is skipped: leaving its handle out changes nothing. */
  lemma {:induction false} AbsentAreSkipped(d: Media, x: Context, ids: seq<string>, absent: set<string>)
    requires forall m :: m in d.idx.rows ==> m.handle !in absent
    ensures DeletedAll(d, x, ids) == DeletedAll(d, x, Present(ids, absent))
    decreases |ids|
  {
    if ids != [] {
      var r := Deleted(d, x, ids[0]);
      if ids[0] in absent {
        AbsentAreSkipped(d, x, ids[1..], absent);
        assert [] + Present(ids[1..], absent) == Present(ids[1..], absent);
      } else {
        var rest := Present(ids[1..], absent);
        assert ([ids[0]] + rest)[1..] == rest;
        if !Stops(r.1) { AbsentAreSkipped(r.0, x, ids[1..], absent); }
      }
    }
  }

  /** The session sits on top of every handle it wrote, each of its artifacts can be read, none is
      under retention, and the store allows deletion.  The pre-check looks only at the top row
      of a handle, so only that row must be free of retention already at the first instant. */
  ghost predicate Undoable(d: Media, x: Context, s: set<Manifest>) {
    && !x.noDelete && OnTop(x, d.idx, s)
    && forall m :: m in s ==> Deletable(d, x, m) && (IsTop(x, d.idx, m.handle, m) ==> !Active(m, x.now))
  }

  lemma UndoableSucceeds(d: Media, x: Context, s: set<Manifest>, ids: seq<string>)
    requires Ranked(x) && s <= d.idx.rows.Keys && Undoable(d, x, s)
    requires forall m :: m in s ==> m.handle != ""
    requires forall id :: |OfHandle(s, id)| == multiset(ids)[id]
    ensures PreCheck(d, x, ids) == Done
    ensures var r := DeletedAll(d, x, ids);
            r.1 == Done && r.0.whole == d.whole - s && r.0.torn == d.torn && r.0.idx.rows.Keys == d.idx.rows.Keys - s
  {
    PreCheckMeaning(d, x, ids);
    forall id | id in ids ensures Load(d, x, id).Found? && !Active(Load(d, x, id).m, x.now) {
      assert multiset(ids)[id] > 0;
      assert |OfHandle(s, id)| == multiset(ids)[id];
      TopInSession(x, d.idx, s, id);
    }
    LoopRemoves(d, x, s, ids);
  }

  lemma RemovedIsOnTop(d: Media, x: Context, s: set<Manifest>, ids: seq<string>)
    requires d.idx.rows.Keys - DeletedAll(d, x, ids).0.idx.rows.Keys == s
    ensures OnTop(x, d.idx, s) && forall m :: m in s ==> Deletable(d, x, m)
  {
    LoopEffect(d, x, ids);
  }

  lemma PassedIsFree(d: Media, x: Context, ids: seq<string>, m: Manifest)
    requires Ranked(x) && PreCheck(d, x, ids) == Done && m.handle in ids && IsTop(x, d.idx, m.handle, m)
    ensures !Active(m, x.now)
  {
    PreCheckMeaning(d, x, ids);
    TopIsUnique(x, d.idx, m.handle, m, Load(d, x, m.handle).m);
  }

  lemma OnlyUndoableSucceeds(d: Media, x: Context, s: set<Manifest>, ids: seq<string>)
    requires Ranked(x) && !x.noDelete && forall m :: m in s ==> m.handle in ids
    requires PreCheck(d, x, ids) == Done && d.idx.rows.Keys - DeletedAll(d, x, ids).0.idx.rows.Keys == s
    ensures Undoable(d, x, s)
  {
    RemovedIsOnTop(d, x, s, ids);
    forall m | m in s && IsTop(x, d.idx, m.handle, m) ensures !Active(m, x.now) { PassedIsFree(d, x, ids, m); }
  }

  /** Whatever the outcome, files go with their rows and nothing else changes. */
  lemma RollbackEffect(d: Media, x: Context, session: string, listing: seq<Manifest>)
    ensures var r := RolledBack(d, x, session, listing);
            && r.0.idx.rows.Keys <= d.idx.rows.Keys
            && r.0.whole == d.whole - (d.idx.rows.Keys - r.0.idx.rows.Keys)
            && r.0.torn == d.torn
  {
    LoopEffect(d, x, Handles(listing));
  }

  lemma UndoableIsUndone(d: Media, x: Context, session: string, listing: seq<Manifest>)
    requires Ranked(x) && Lists(d.idx, session, listing) && session != "" && Undoable(d, x, SessionRows(d.idx, session))
    ensures var s, r := SessionRows(d.idx, session), RolledBack(d, x, session, listing);
            r.1 == Done && d.idx.rows.Keys - r.0.idx.rows.Keys == s
  {
    ListingFacts(d.idx, session, listing);
    UndoableSucceeds(d, x, SessionRows(d.idx, session), Handles(listing));
  }

  lemma UndoneIsUndoable(d: Media, x: Context, session: string, listing: seq<Manifest>)
    requires Ranked(x) && Lists(d.idx, session, listing) && listing != []
    requires var r := RolledBack(d, x, session, listing);
             r.1 == Done && d.idx.rows.Keys - r.0.idx.rows.Keys == SessionRows(d.idx, session)
    ensures session != "" && Undoable(d, x, SessionRows(d.idx, session))
  {
    ListingFacts(d.idx, session, listing);
    OnlyUndoableSucceeds(d, x, SessionRows(d.idx, session), Handles(listing));
  }

  /** Exactly when the call undoes the session and nothing else. */
  lemma RollbackExactlyWhen(d: Media, x: Context, session: string, listing: seq<Manifest>)
    requires Ranked(x) && Lists(d.idx, session, listing) && listing != []
    ensures var s, r := SessionRows(d.idx, session), RolledBack(d, x, session, listing);
            && r.0.idx.rows.Keys <= d.idx.rows.Keys
            && r.0.whole == d.whole - (d.idx.rows.Keys - r.0.idx.rows.Keys)
            && r.0.torn == d.torn
            && (r.1 == Done && d.idx.rows.Keys - r.0.idx.rows.Keys == s <==> session != "" && Undoable(d, x, s))
  {
    var s, r := SessionRows(d.idx, session), RolledBack(d, x, session, listing);
    RollbackEffect(d, x, session, listing);
    if session != "" && Undoable(d, x, s) { UndoableIsUndone(d, x, session, listing); }
    if r.1 == Done && d.idx.rows.Keys - r.0.idx.rows.Keys == s { UndoneIsUndoable(d, x, session, listing); }
  }

  /** The row that answers for some handle of the session cannot be read or is under retention. */
  ghost predicate RefusedUpFront(d: Media, x: Context, s: set<Manifest>) {
    exists m :: m in s && (!Load(d, x, m.handle).Found? || Active(Load(d, x, m.handle).m, x.now))
  }

  lemma RefusalMeaning(d: Media, x: Context, session: string, listing: seq<Manifest>)
    requires Lists(d.idx, session, listing)
    ensures RefusedUpFront(d, x, SessionRows(d.idx, session)) <==> PreCheck(d, x, Handles(listing)) != Done
  {
    ListingFacts(d.idx, session, listing);
    PreCheckMeaning(d, x, Handles(listing));
  }

  lemma {:induction false} ForbiddenMeansPolicy(d: Media, x: Context, ids: seq<string>)
    ensures DeletedAll(d, x, ids).1 == Forbidden ==> x.noDelete
    ensures DeletedAll(d, x, ids).1 != EmptySession && DeletedAll(d, x, ids).1 != Missing
    decreases |ids|
  {
    if ids != [] {
      var r := Deleted(d, x, ids[0]);
      if !Stops(r.1) { ForbiddenMeansPolicy(r.0, x, ids[1..]); }
    }
  }

  /** The call names the policy exactly when the store forbids deletion and nothing was refused
      before; and it asks for a session first of all. */
  lemma RefusalExactlyWhen(d: Media, x: Context, session: string, listing: seq<Manifest>)
    requires Lists(d.idx, session, listing)
    ensures var r, s := RolledBack(d, x, session, listing).1, SessionRows(d.idx, session);
            && (r == EmptySession <==> session == "")
            && (r == Forbidden <==> session != "" && s != {} && x.noDelete && !RefusedUpFront(d, x, s))
  {
    ListingFacts(d.idx, session, listing);
    RefusalMeaning(d, x, session, listing);
    ForbiddenMeansPolicy(d, x, Handles(listing));
    if PreCheck(d, x, Handles(listing)) != Done { var _ := PreCheckReason(d, x, Handles(listing)); }
  }

  lemma PassedRemovesOne(d: Media, x: Context, ids: seq<string>)
    requires ids != [] && PreCheck(d, x, ids) == Done && !x.noDelete && x.now <= x.later
    ensures DeletedAll(d, x, ids).0 != d
  {
    var top := Load(d, x, ids[0]).m;
    assert IsTop(x, d.idx, ids[0], top);
    LoopEffect(Without(d, top), x, ids[1..]);
    assert top !in DeletedAll(d, x, ids).0.idx.rows;
  }

  /** Exactly when the call is atomic, that is, undoes the session or changes nothing. */
  lemma AtomicExactlyWhen(d: Media, x: Context, session: string, listing: seq<Manifest>)
    requires Ranked(x) && Lists(d.idx, session, listing) && listing != [] && x.now <= x.later
    ensures var s, r := SessionRows(d.idx, session), RolledBack(d, x, session, listing);
            r.0 == d || (r.1 == Done && d.idx.rows.Keys - r.0.idx.rows.Keys == s) <==>
            session == "" || x.noDelete || RefusedUpFront(d, x, s) || Undoable(d, x, s)
  {
    RollbackExactlyWhen(d, x, session, listing);
    RefusalMeaning(d, x, session, listing);
    if session != "" && !x.noDelete && PreCheck(d, x, Handles(listing)) == Done {
      PassedRemovesOne(d, x, Handles(listing));
    }
  }

  /** Not atomic in general: two forms of one artifact put in one session, the first one retained.
      The second is deleted before the retention of the first is noticed. */
  lemma RetentionSeenTooLate(a: Manifest, b: Manifest, x: Context)
    requires a != b && a.handle == b.handle != "" && a.session == b.session != "" && a.Indexable() && b.Indexable()
    requires Active(a, x.later) && !Active(b, x.now) && !Active(b, x.later) && !x.noDelete && x.unreadable == {}
    ensures exists run :: IsRun(Fresh, run)
              && var d := Exec(Fresh, run).media;
                 && Lists(d.idx, a.session, [a, b])
                 && RolledBack(d, x, a.session, [a, b]) == (Without(d, b), RetentionActive) && Without(d, b) != d
  {
    var run := TwoPuts(a, b);
    OlderRetained(a, b, x, Exec(Fresh, run).media);
    assert IsRun(Fresh, run);
  }

  lemma OlderRetained(a: Manifest, b: Manifest, x: Context, d: Media)
    requires a != b && a.handle == b.handle != "" && a.session == b.session != ""
    requires Active(a, x.later) && !Active(b, x.now) && !Active(b, x.later) && !x.noDelete && x.unreadable == {}
    requires d.whole == {a, b} && d.torn == {} && d.idx.rows == map[a := 1, b := 2]
    ensures Lists(d.idx, a.session, [a, b])
    ensures RolledBack(d, x, a.session, [a, b]) == (Without(d, b), RetentionActive) && Without(d, b) != d
  {
    var e, h := Without(d, b), a.handle;
    assert Members([a, b]) == {a, b} == SessionRows(d.idx, a.session);
    assert Handles([a, b]) == [h, h];
    assert Load(d, x, h) == Found(b) by { Resolves(x, d.idx, a); }
    assert Load(e, x, h) == Found(a) by {
      assert e.idx.rows.Keys == {a};
      Resolves(x, e.idx, a);
    }
    RefusedOnSecond(d, x, h);
  }

  lemma RefusedOnSecond(d: Media, x: Context, h: string)
    requires Load(d, x, h).Found? && !x.noDelete
    requires var b := Load(d, x, h).m; !Active(b, x.now) && !Active(b, x.later)
    requires var e := Without(d, Load(d, x, h).m); Load(e, x, h).Found? && Active(Load(e, x, h).m, x.later)
    ensures PreCheck(d, x, [h, h]) == Done
    ensures DeletedAll(d, x, [h, h]) == (Without(d, Load(d, x, h).m), RetentionActive)
  {
    var e := Without(d, Load(d, x, h).m);
    assert [h, h][1..] == [h] && [h][1..] == [];
    assert PreCheck(d, x, [h]) == Done;
    assert Deleted(d, x, h) == (e, Done) && DeletedAll(e, x, [h]) == (e, RetentionActive);
  }

  ghost predicate UniqueHandles(i: Index) {
    forall a, b :: a in i.rows && b in i.rows && a.handle == b.handle && a.handle != "" ==> a == b
  }

  /** With unique handles the pre-check has seen every artifact of the session. */
  lemma PreCheckSeesAll(d: Media, x: Context, s: set<Manifest>, ids: seq<string>)
    requires UniqueHandles(d.idx) && s <= d.idx.rows.Keys && x.now <= x.later && !x.noDelete
    requires forall m :: m in s ==> m.handle in ids && m.handle != ""
    requires PreCheck(d, x, ids) == Done
    ensures Undoable(d, x, s) && forall m :: m in s ==> !Active(m, x.now)
  {
    PreCheckMeaning(d, x, ids);
    forall m | m in s ensures Deletable(d, x, m) && !Active(m, x.now) {
      Resolves(x, d.idx, m);
    }
  }

  /** All or nothing: while no two rows share a handle, either the whole session is gone and
      nothing else is, or nothing changed at all; one artifact under retention, a store that
      forbids deletion or one artifact that cannot be read keeps the entire session. */
  lemma RollbackAllOrNothing(d: Media, x: Context, session: string, listing: seq<Manifest>)
    requires Ranked(x) && UniqueHandles(d.idx) && Lists(d.idx, session, listing) && x.now <= x.later
    ensures var s, r := SessionRows(d.idx, session), RolledBack(d, x, session, listing);
            if session != ""
               && (s == {} || (!x.noDelete && forall m :: m in s ==> Deletable(d, x, m) && !Active(m, x.now)))
            then r.1 == Done && r.0.idx.rows.Keys == d.idx.rows.Keys - s
                 && r.0.whole == d.whole - s && r.0.torn == d.torn
            else r.1 != Done && r.0 == d
  {
    var s, ids := SessionRows(d.idx, session), Handles(listing);
    ListingFacts(d.idx, session, listing);
    if s != {} {
      RollbackExactlyWhen(d, x, session, listing);
      if session != "" && !x.noDelete && PreCheck(d, x, ids) == Done {
        PreCheckSeesAll(d, x, s, ids);
      }
    }
  }

  /** A later call, in a store that still allows deletion, reads no less and scans in the same order. */
  ghost predicate Later(x: Context, y: Context) {
    x.later <= y.now <= y.later && !y.noDelete && y.unreadable <= x.unreadable && y.rank == x.rank
  }

  /** A cut run removes only rows of the session. */
  lemma CutFacts(d: Media, x: Context, s: set<Manifest>, ids: seq<string>, k: nat)
    requires Ranked(x) && s <= d.idx.rows.Keys && Undoable(d, x, s) && k <= |ids|
    requires forall m :: m in s ==> m.handle != ""
    requires forall id :: |OfHandle(s, id)| == multiset(ids)[id]
    ensures LeftOver(d, DeletedAll(d, x, ids[..k]).0, s)
  {
    UndoableSucceeds(d, x, s, ids);
    assert ids == ids[..k] + ids[k..];
    DeletedInTwo(d, x, ids[..k], ids[k..]);
    LoopEffect(d, x, ids[..k]);
    LoopEffect(DeletedAll(d, x, ids[..k]).0, x, ids[k..]);
  }

  /** The rows that are left keep their stamps, so they keep their order. */
  ghost predicate LeftOver(d: Media, cut: Media, s: set<Manifest>) {
    && cut.idx.rows.Keys <= d.idx.rows.Keys && (forall m :: m in cut.idx.rows ==> cut.idx.rows[m] == d.idx.rows[m])
    && cut.whole == d.whole - (d.idx.rows.Keys - cut.idx.rows.Keys) && cut.torn == d.torn
    && d.idx.rows.Keys - cut.idx.rows.Keys <= s
  }

  lemma OnTopAfterCut(d: Media, cut: Media, x: Context, y: Context, s: set<Manifest>, t: set<Manifest>)
    requires OnTop(x, d.idx, s) && LeftOver(d, cut, s) && y.rank == x.rank && t == s * cut.idx.rows.Keys
    ensures OnTop(y, cut.idx, t)
  {
    forall a, b | a in t && b in cut.idx.rows && b !in t && a.handle == b.handle ensures AtLeast(y, cut.idx, a, b) {
      assert AtLeast(x, d.idx, a, b);
    }
  }

  lemma UndoableAfterCut(d: Media, cut: Media, x: Context, y: Context, session: string)
    requires Undoable(d, x, SessionRows(d.idx, session)) && Later(x, y) && LeftOver(d, cut, SessionRows(d.idx, session))
    ensures Undoable(cut, y, SessionRows(cut.idx, session))
    ensures cut.idx.rows.Keys - SessionRows(cut.idx, session) == d.idx.rows.Keys - SessionRows(d.idx, session)
    ensures cut.whole - SessionRows(cut.idx, session) == d.whole - SessionRows(d.idx, session)
  {
    var s, s' := SessionRows(d.idx, session), SessionRows(cut.idx, session);
    assert s' == s * cut.idx.rows.Keys;
    OnTopAfterCut(d, cut, x, y, s, s');
    forall m | m in s' ensures Deletable(cut, y, m) && !Active(m, y.now) { assert Deletable(d, x, m); }
  }

  lemma {:induction false} DeletedInTwo(d: Media, x: Context, ids: seq<string>, rest: seq<string>)
    requires DeletedAll(d, x, ids + rest).1 == Done
    ensures DeletedAll(d, x, ids + rest) == DeletedAll(DeletedAll(d, x, ids).0, x, rest)
    decreases |ids|
  {
    if ids == [] {
      assert ids + rest == rest;
    } else {
      assert (ids + rest)[1..] == ids[1..] + rest;
      DeletedInTwo(Deleted(d, x, ids[0]).0, x, ids[1..], rest);
    }
  }

  lemma StaleRowFailsCheck(d: Media, x: Context, session: string, listing: seq<Manifest>, stale: Manifest)
    requires Ranked(x) && Lists(d.idx, session, listing)
    requires stale in SessionRows(d.idx, session) && IsTop(x, d.idx, stale.handle, stale) && stale !in d.whole
    ensures PreCheck(d, x, Handles(listing)) != Done && listing != []
  {
    ListingFacts(d.idx, session, listing);
    Resolves(x, d.idx, stale);
    TopIsUnique(x, d.idx, stale.handle, stale, Resolve(x, d.idx, stale.handle).m);
    PreCheckMeaning(d, x, Handles(listing));
  }

  /** A delete that was interrupted between file and row blocks the rollback of its session: the
      pre-check cannot load the row, and nothing is removed however often the call is repeated. */
  lemma StaleRowBlocks(d: Media, x: Context, session: string, listing: seq<Manifest>, stale: Manifest)
    requires Ranked(x) && Lists(d.idx, session, listing) && session != ""
    requires stale in SessionRows(d.idx, session) && IsTop(x, d.idx, stale.handle, stale) && stale !in d.whole
    ensures RolledBack(d, x, session, listing).0 == d && RolledBack(d, x, session, listing).1 != Done
  {
    StaleRowFailsCheck(d, x, session, listing, stale);
  }

  // ---- Reference counts ----

  /** Exact counts stay exact, and counts that cover every reference still do. */
  lemma {:induction false} RollbackKeepsCounts(d: Media, x: Context, ids: seq<string>)
    requires Covers(d.idx)
    ensures Covers(DeletedAll(d, x, ids).0.idx)
    ensures Exact(d.idx) ==> Exact(DeletedAll(d, x, ids).0.idx)
    decreases |ids|
  {
    if ids != [] {
      var one := Deleted(d, x, ids[0]);
      if Load(d, x, ids[0]).Found? { UnindexedCounts(d.idx, Load(d, x, ids[0]).m); }
      if !Stops(one.1) { RollbackKeepsCounts(one.0, x, ids[1..]); }
    }
  }
}
