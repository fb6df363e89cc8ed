/** Extension scopes over the system store (extension/scopedstore.go). */
module ScopedStore {
  import opened Basics
  import opened NamedStore

  // ---- Scopes ----

  predicate ValidScope(name: string) {
    name != "" && forall i :: 0 <= i < |name| ==> name[i] !in {'.', '/', ' ', '\t', '\n'}
  }

  function Prefix(scope: string): string {
    "extension." + scope + "."
  }

  function ScopeName(scope: string, local: string): Option<string> {
    if local == "" then None else Some(Prefix(scope) + local)
  }

  /** Keep 0 overwrites the cell; otherwise the next version is claimed and all but the newest `keep`
      are pruned, except those whose removal fails. */
  datatype Op =
    | PutCell(local: string, e: Envelope)
    | PutVersion(local: string, e: Envelope, keep: nat, failed: set<nat>)
    | Delete(local: string, trouble: Trouble)

  /** `refused`: a malformed name, a veto, a write that fails.  Nothing is written then. */
  datatype Call = Call(op: Op, refused: bool)

  /** What an operation that is carried out does. */
  ghost predicate Takes(s: Sys, s': Sys, name: string, op: Op) {
    match op
    case PutCell(_, e) => s' == s.(files := s.files[Key(name, Cell) := e])
    case PutVersion(_, e, keep, failed) =>
      exists n: nat :: Next(s.files, name, n) && s' == s.(files := Published(s.files, name, n, e, keep, failed))
    case Delete(_, t) => s' == Deleted(s, name, t).0
  }

  ghost predicate Through(s: Sys, s': Sys, scope: string, c: Call) {
    if c.refused || c.op.local == "" then s' == s else Takes(s, s', Prefix(scope) + c.op.local, c.op)
  }

  /** A run: the states in order, each reached from the one before through the scope. */
  ghost predicate IsRun(states: seq<Sys>, scope: string, calls: seq<Call>) {
    |states| == |calls| + 1 && forall i :: 0 <= i < |calls| ==> Through(states[i], states[i + 1], scope, calls[i])
  }

  ghost function ScopedEnvelope(s: Sys, scope: string, local: string): Option<Envelope> {
    match ScopeName(scope, local)
    case None => None
    case Some(name) => ActiveEnvelope(s.files, name)
  }

  ghost function ScopedGet(s: Sys, scope: string, local: string): Option<string> {
    match ScopeName(scope, local)
    case None => None
    case Some(name) => Get(s, name)
  }

  /** The listing filters paths, not names, by prefix. */
  predicate Matches(k: Key, prefix: string) {
    prefix <= Path(k)
  }

  /** A listed file: a matching cell, or the highest of the matching versions of its name. */
  ghost predicate Listed(f: Files, prefix: string, k: Key) {
    && k in f && Matches(k, prefix)
    && (k.leaf.Version? ==>
          forall o :: o in f && o.name == k.name && o.leaf.Version? && Matches(o, prefix) ==> o.leaf.n <= k.leaf.n)
  }

  ghost function Walk(f: Files, prefix: string): set<(string, Envelope)> {
    set k | k in f && Listed(f, prefix, k) :: (k.name, f[k])
  }

  function Trim(name: string, prefix: string): string {
    if prefix <= name then name[|prefix|..] else name
  }

  ghost function ScopedWalk(f: Files, scope: string, prefix: string): set<(string, Envelope)> {
    set e | e in Walk(f, Prefix(scope) + prefix) :: (Trim(e.0, Prefix(scope)), e.1)
  }

  class ScopedSystemStore {
    const scope: string
    const sys: Backing

    constructor (scope: string, sys: Backing)
      ensures this.scope == scope && this.sys == sys
    {
      this.scope, this.sys := scope, sys;
    }

    method PutCell(local: string, e: Envelope) returns (ok: bool)
      modifies sys
      ensures ok <==> local != ""
      ensures Through(old(sys.Value()), sys.Value(), scope, Call(Op.PutCell(local, e), false))
    {
      if local == "" { return false; }
      sys.PutCell(Prefix(scope) + local, e);
      ok := true;
    }

    method PutVersion(local: string, e: Envelope, keep: nat, failed: set<nat>) returns (ok: bool)
      modifies sys
      ensures ok <==> local != ""
      ensures Through(old(sys.Value()), sys.Value(), scope, Call(Op.PutVersion(local, e, keep, failed), false))
    {
      if local == "" { return false; }
      sys.PutVersion(Prefix(scope) + local, e, keep, failed);
      ok := true;
    }

    method Delete(local: string, t: Trouble) returns (ok: bool)
      modifies sys
      ensures Through(old(sys.Value()), sys.Value(), scope, Call(Op.Delete(local, t), false))
      ensures ok <==> local != "" && ScopedEnvelope(sys.Value(), scope, local) == None
    {
      if local == "" { return false; }
      DeleteReads(sys.Value(), Prefix(scope) + local, t);
      ok := sys.Delete(Prefix(scope) + local, t);
    }
  }

  /** A scope is granted to a single clean token only. */
  method NewScopedSystemStore(name: string, sys: Backing) returns (r: Option<ScopedSystemStore>)
    ensures r.Some? <==>
            name != "" && '.' !in name && '/' !in name && ' ' !in name && '\t' !in name && '\n' !in name
    ensures r.Some? ==> r.value.scope == name && r.value.sys == sys
  {
    assert forall i :: 0 <= i < |name| ==> name[i] in name;
    if !ValidScope(name) { return None; }
    var s := new ScopedSystemStore(name, sys);
    r := Some(s);
  }

  // ---- Non-interference ----

  /** No path of one scope begins with the prefix of another: scope names have no dots, so the text up
      to the second dot decides. */
  lemma ScopesApart(a: string, b: string, rest: string)
    requires ValidScope(a) && ValidScope(b) && Prefix(b) <= Prefix(a) + rest
    ensures a == b
  {
    var s := Prefix(a) + rest;
    var n := |"extension."|;
    assert forall i :: 0 <= i < |a| ==> s[n + i] == a[i];
    assert forall i :: 0 <= i < |b| ==> s[n + i] == Prefix(b)[n + i] == b[i];
    assert s[n + |a|] == '.' && s[n + |b|] == Prefix(b)[n + |b|] == '.';
    assert |a| == |b|;
  }

  /** The files a scope can see. */
  ghost predicate SameFor(f: Files, f': Files, scope: string) {
    forall k :: Prefix(scope) <= Path(k) ==> (k in f <==> k in f') && (k in f ==> f[k] == f'[k])
  }

  lemma TakesFrame(s: Sys, s': Sys, name: string, op: Op, k: Key)
    requires Takes(s, s', name, op) && k.name != name
    ensures (k in s.files <==> k in s'.files) && (k in s.files ==> s.files[k] == s'.files[k])
  {
  }

  lemma OwnPathIs(scope: string, local: string, leaf: Leaf)
    ensures Path(Key(Prefix(scope) + local, leaf)) == Prefix(scope) + (local + "." + Text(leaf))
  {
    Regroup(Prefix(scope), local, Text(leaf));
  }

  lemma Regroup(a: string, b: string, c: string)
    ensures (a + b) + "." + c == a + (b + "." + c)
  {
  }

  lemma OnlyOurs(a: string, b: string, local: string, k: Key)
    requires ValidScope(a) && ValidScope(b) && k.name == Prefix(a) + local && Prefix(b) <= Path(k)
    ensures a == b
  {
    OwnPathIs(a, local, k.leaf);
    ScopesApart(a, b, local + "." + Text(k.leaf));
  }

  lemma StepLeavesOthersAlone(s: Sys, s': Sys, a: string, c: Call, b: string)
    requires ValidScope(a) && ValidScope(b) && a != b && Through(s, s', a, c)
    ensures SameFor(s.files, s'.files, b)
  {
    if s' != s {
      var f, f' := s.files, s'.files;
      forall k | Prefix(b) <= Path(k) ensures (k in f <==> k in f') && (k in f ==> f[k] == f'[k]) {
        if k.name == Prefix(a) + c.op.local { OnlyOurs(a, b, c.op.local, k); }
        TakesFrame(s, s', Prefix(a) + c.op.local, c.op, k);
      }
    }
  }

  lemma NameInPath(scope: string, local: string, leaf: Leaf)
    ensures Prefix(scope) <= Path(Key(Prefix(scope) + local, leaf))
  {
    OwnPathIs(scope, local, leaf);
  }

  lemma SameEnvelope(s: Sys, s': Sys, scope: string, local: string)
    requires SameFor(s.files, s'.files, scope)
    ensures ScopedEnvelope(s, scope, local) == ScopedEnvelope(s', scope, local)
  {
    if local != "" {
      var f, f', name := s.files, s'.files, Prefix(scope) + local;
      forall k: Key | k.name == name ensures (k in f <==> k in f') && (k in f ==> f[k] == f'[k]) {
        NameInPath(scope, local, k.leaf);
        assert k == Key(name, k.leaf);
      }
      forall k: Key | k.name == name ensures Active(f, k) <==> Active(f', k) {}
      if k :| Active(f, k) && k.name == name {
        ActiveAnswers(f, k);
        ActiveAnswers(f', k);
      }
    }
  }

  lemma SameWalk(f: Files, f': Files, scope: string, prefix: string)
    requires SameFor(f, f', scope)
    ensures ScopedWalk(f, scope, prefix) == ScopedWalk(f', scope, prefix)
  {
    var p := Prefix(scope) + prefix;
    forall k | Matches(k, p) ensures Prefix(scope) <= Path(k) { assert Prefix(scope) <= p; }
    forall k: Key ensures Listed(f, p, k) <==> Listed(f', p, k) {}
    assert Walk(f, p) == Walk(f', p);
  }

  /** The payload of the data plane the call deletes. */
  ghost function Cascade(s: Sys, scope: string, c: Call): Option<string> {
    if c.refused || c.op.local == "" || !c.op.Delete? || c.op.trouble.cascade then None
    else Target(s.files, Prefix(scope) + c.op.local, c.op.trouble)
  }

  /** A call takes at most that payload away, and adds none. */
  lemma StepLosesOnlyCascade(s: Sys, s': Sys, scope: string, c: Call, ref: string)
    requires Through(s, s', scope, c) && ref in s.external
    ensures ref in s'.external <==> Cascade(s, scope, c) != Some(ref)
    ensures ref in s'.external ==> s'.external[ref] == s.external[ref]
  {
  }

  lemma StepAddsNoPayload(s: Sys, s': Sys, scope: string, c: Call, ref: string)
    requires Through(s, s', scope, c) && ref !in s.external
    ensures ref !in s'.external
  {
  }

  lemma {:induction false} PayloadStaysExactlyWhen(states: seq<Sys>, scope: string, calls: seq<Call>, ref: string)
    requires IsRun(states, scope, calls)
    ensures ref !in states[0].external ==> ref !in states[|calls|].external
    ensures ref in states[0].external ==>
              (ref in states[|calls|].external <==>
               forall i :: 0 <= i < |calls| ==> Cascade(states[i], scope, calls[i]) != Some(ref))
    ensures ref in states[0].external && ref in states[|calls|].external ==>
              states[|calls|].external[ref] == states[0].external[ref]
    decreases |calls|
  {
    if calls != [] {
      var n := |calls| - 1;
      var init, before := states[..|calls|], calls[..n];
      assert Through(states[n], states[n + 1], scope, calls[n]);
      PayloadStaysExactlyWhen(init, scope, before, ref);
      assert forall i :: 0 <= i < n ==> init[i] == states[i] && before[i] == calls[i];
      if ref in states[n].external {
        StepLosesOnlyCascade(states[n], states[n + 1], scope, calls[n], ref);
      } else {
        StepAddsNoPayload(states[n], states[n + 1], scope, calls[n], ref);
      }
    }
  }

  lemma SameForTwice(f: Files, g: Files, h: Files, scope: string)
    requires SameFor(f, g, scope) && SameFor(g, h, scope)
    ensures SameFor(f, h, scope)
  {
  }

  lemma {:induction false} FilesStay(states: seq<Sys>, a: string, calls: seq<Call>, b: string)
    requires ValidScope(a) && ValidScope(b) && a != b && IsRun(states, a, calls)
    ensures SameFor(states[0].files, states[|calls|].files, b)
    decreases |calls|
  {
    if calls != [] {
      var n := |calls| - 1;
      assert Through(states[n], states[n + 1], a, calls[n]);
      StepLeavesOthersAlone(states[n], states[n + 1], a, calls[n], b);
      FilesStay(states[..|calls|], a, calls[..n], b);
      SameForTwice(states[0].files, states[n].files, states[n + 1].files, b);
    }
  }

  /** The artifact points to a payload that can be read. */
  ghost predicate PointsTo(s: Sys, scope: string, local: string, ref: string) {
    ScopedEnvelope(s, scope, local) == Some(Pointer(ref)) && ref in s.external
  }

  /** Whatever one extension does through its scope, in any number of puts, prunings and deletes: every
      listing through another scope, and the envelope of every artifact, stay what they were; and so
      does every read, if and only if no delete of the run had the payload it points to as its own. */
  lemma ScopesDoNotInterfere(states: seq<Sys>, a: string, calls: seq<Call>, b: string, local: string, prefix: string)
    requires ValidScope(a) && ValidScope(b) && a != b && IsRun(states, a, calls)
    ensures ScopedWalk(states[|calls|].files, b, prefix) == ScopedWalk(states[0].files, b, prefix)
    ensures ScopedEnvelope(states[|calls|], b, local) == ScopedEnvelope(states[0], b, local)
    ensures ScopedGet(states[|calls|], b, local) == ScopedGet(states[0], b, local) <==>
            forall i, ref :: 0 <= i < |calls| && PointsTo(states[0], b, local, ref) ==>
              Cascade(states[i], a, calls[i]) != Some(ref)
  {
    FilesStay(states, a, calls, b);
    SameEnvelope(states[0], states[|calls|], b, local);
    SameWalk(states[0].files, states[|calls|].files, b, prefix);
    var e := ScopedEnvelope(states[0], b, local);
    if e.Some? && e.value.Pointer? { PayloadStaysExactlyWhen(states, a, calls, e.value.ref); }
  }

  /** Put a pointer, then delete it. */
  lemma PointerRun(s: Sys, a: string, local: string, ref: string) returns (states: seq<Sys>, calls: seq<Call>)
    requires local != ""
    ensures IsRun(states, a, calls) && states[0] == s
    ensures exists i :: 0 <= i < |calls| && Cascade(states[i], a, calls[i]) == Some(ref)
  {
    var name, none := Prefix(a) + local, Trouble(false, false, {}, false);
    var n := NextExists(s.files, name);
    var s1 := s.(files := Published(s.files, name, n, Pointer(ref), 1, {}));
    NewestStays(s.files, name, n, Pointer(ref), 1, {});
    ActiveAnswers(s1.files, Key(name, Version(n)));
    var put := Call(PutVersion(local, Pointer(ref), 1, {}), false);
    var delete := Call(Delete(local, none), false);
    states, calls := [s, s1, Deleted(s1, name, none).0], [put, delete];
    assert Cascade(states[1], a, calls[1]) == Some(ref);
  }

  lemma NextExists(f: Files, name: string) returns (n: nat)
    ensures Next(f, name, n)
  {
    n := 1;
    if VersionsOf(f, name) != {} {
      HasHighest(VersionsOf(f, name));
      var top: nat :| IsHighest(VersionsOf(f, name), top);
      n := top + 1;
    }
  }

  ghost predicate Unaffected(states: seq<Sys>, calls: seq<Call>, b: string, local: string) {
    |states| == |calls| + 1 && ScopedGet(states[|calls|], b, local) == ScopedGet(states[0], b, local)
  }

  /** A read through one scope is out of reach of another scope, over every run through that scope,
      exactly when the artifact does not point to a payload: a scope may name any digest, and a
      delete does not ask whose payload it is. */
  lemma IsolatedExactlyWhen(s: Sys, a: string, b: string, local: string)
    requires ValidScope(a) && ValidScope(b) && a != b
    ensures (forall states, calls ::
               IsRun(states, a, calls) && states[0] == s ==> Unaffected(states, calls, b, local)) <==>
            !exists ref :: PointsTo(s, b, local, ref)
  {
    forall states, calls | IsRun(states, a, calls) && states[0] == s && !exists ref :: PointsTo(s, b, local, ref)
      ensures Unaffected(states, calls, b, local)
    {
      ScopesDoNotInterfere(states, a, calls, b, local, "");
    }
    if ref :| PointsTo(s, b, local, ref) {
      var states, calls := PointerRun(s, a, "p", ref);
      ScopesDoNotInterfere(states, a, calls, b, local, "");
      assert !Unaffected(states, calls, b, local);
    }
  }

  // ---- The scope's own reads ----

  /** A put that succeeds is what the next read finds: a version whatever is pruned and whatever was
      there, a cell exactly when the name has no versions.  A pointer reads as the payload it
      names. */
  lemma PutIsRead(s: Sys, s': Sys, scope: string, op: Op)
    requires op.local != "" && !op.Delete? && Through(s, s', scope, Call(op, false))
    ensures var before := ScopedEnvelope(s, scope, op.local);
            var versioned := VersionsOf(s.files, Prefix(scope) + op.local) != {};
            ScopedEnvelope(s', scope, op.local) == if op.PutCell? && versioned then before else Some(op.e)
    ensures (op.PutVersion? || VersionsOf(s.files, Prefix(scope) + op.local) == {}) ==>
              ScopedGet(s', scope, op.local) == Content(s.external, op.e)
  {
    var name := Prefix(scope) + op.local;
    if op.PutCell? {
      CellPutReads(s.files, name, op.e);
    } else {
      var n: nat :| Next(s.files, name, n) && s' == s.(files := Published(s.files, name, n, op.e, op.keep, op.failed));
      NewestStays(s.files, name, n, op.e, op.keep, op.failed);
      ActiveAnswers(s'.files, Key(name, Version(n)));
    }
  }

  // ---- What a listing yields ----

  /** The local names of a scope's files. */
  ghost function LocalNames(f: Files, scope: string, prefix: string): set<string> {
    set k | k in f && Prefix(scope) <= k.name && prefix <= k.name[|Prefix(scope)|..] :: k.name[|Prefix(scope)|..]
  }

  ghost function WalkedNames(f: Files, scope: string, prefix: string): set<string> {
    set e | e in ScopedWalk(f, scope, prefix) :: e.0
  }

  /** The prefix reaches into the leaf of some name: it is a non-empty name, a dot, and the beginning
      of a version number or of "cell". */
  ghost predicate ReachesLeaf(prefix: string) {
    exists n: string, leaf: Leaf :: n != "" && n + "." <= prefix && prefix <= n + "." + Text(leaf)
  }

  /** Every file of the scope has a non-empty local name: the name "extension.<scope>" itself is not
      used. */
  ghost predicate OwnNamesOnly(f: Files, scope: string) {
    forall k :: k in f && Prefix(scope) <= Path(k) ==> Prefix(scope) < k.name
  }

  lemma {:induction false} HighestMatch(f: Files, prefix: string, k: Key, bound: nat) returns (top: Key)
    requires k in f && k.leaf.Version? && Matches(k, prefix)
    requires forall o :: o in f && o.name == k.name && o.leaf.Version? ==> o.leaf.n <= bound
    ensures top.name == k.name && Listed(f, prefix, top)
    decreases bound - k.leaf.n
  {
    if o :| o in f && o.name == k.name && o.leaf.Version? && Matches(o, prefix) && o.leaf.n > k.leaf.n {
      top := HighestMatch(f, prefix, o, bound);
    } else {
      top := k;
    }
  }

  lemma {:induction false} Bound(ks: set<Key>) returns (b: nat)
    ensures forall o :: o in ks && o.leaf.Version? ==> o.leaf.n <= b
    decreases ks
  {
    if ks == {} {
      b := 0;
    } else {
      var k :| k in ks;
      b := Bound(ks - {k});
      if k.leaf.Version? && k.leaf.n > b { b := k.leaf.n; }
    }
  }

  /** A name is walked exactly when one of its paths matches. */
  lemma WalkedExactlyWhen(f: Files, prefix: string, name: string)
    ensures (exists e :: e in Walk(f, prefix) && e.0 == name) <==>
            exists k :: k in f && k.name == name && Matches(k, prefix)
  {
    if k :| k in f && k.name == name && Matches(k, prefix) {
      if k.leaf.Cell? {
        assert Listed(f, prefix, k);
        assert (name, f[k]) in Walk(f, prefix);
      } else {
        var b := Bound(f.Keys);
        var top := HighestMatch(f, prefix, k, b);
        assert (name, f[top]) in Walk(f, prefix);
      }
    }
  }

  lemma Cancel(s: string, a: string, b: string)
    ensures s + a <= s + b <==> a <= b
  {
    if s + a <= s + b {
      assert a == (s + a)[|s|..] && b == (s + b)[|s|..];
      assert forall i :: 0 <= i < |a| ==> a[i] == (s + a)[|s| + i] && b[i] == (s + b)[|s| + i];
    }
  }

  lemma ReachesPast(prefix: string, l: string, leaf: string)
    requires prefix <= l + "." + leaf && !(prefix <= l)
    ensures l + "." <= prefix
  {
    var t := l + "." + leaf;
    assert l == t[..|l|] && l + "." == t[..|l| + 1];
  }

  lemma OwnPath(scope: string, l: string, leaf: Leaf, prefix: string)
    ensures Matches(Key(Prefix(scope) + l, leaf), Prefix(scope) + prefix) <==> prefix <= l + "." + Text(leaf)
  {
    OwnPathIs(scope, l, leaf);
    Cancel(Prefix(scope), prefix, l + "." + Text(leaf));
  }

  lemma KeyIsWalked(f: Files, scope: string, prefix: string, k: Key, l: string)
    requires k in f && k.name == Prefix(scope) + l && prefix <= l + "." + Text(k.leaf)
    ensures l in WalkedNames(f, scope, prefix)
  {
    var s := Prefix(scope);
    OwnPath(scope, l, k.leaf, prefix);
    assert k == Key(s + l, k.leaf);
    WalkedExactlyWhen(f, s + prefix, k.name);
    var e :| e in Walk(f, s + prefix) && e.0 == k.name;
    assert (Trim(e.0, s), e.1) in ScopedWalk(f, scope, prefix);
    assert Trim(e.0, s) == l;
  }

  lemma WalkedFrom(f: Files, scope: string, prefix: string, l: string) returns (k: Key)
    requires l in WalkedNames(f, scope, prefix)
    ensures k in f && Matches(k, Prefix(scope) + prefix) && l == Trim(k.name, Prefix(scope))
  {
    var p := Prefix(scope) + prefix;
    var e :| e in ScopedWalk(f, scope, prefix) && e.0 == l;
    var w :| w in Walk(f, p) && e == (Trim(w.0, Prefix(scope)), w.1);
    k :| k in f && Listed(f, p, k) && w == (k.name, f[k]);
  }

  lemma PrefixOfPrefix(s: string, prefix: string, path: string)
    requires s + prefix <= path
    ensures s <= path
  {
    assert s == (s + prefix)[..|s|] == path[..|s|];
  }

  lemma WalkedKey(f: Files, scope: string, prefix: string, l: string) returns (k: Key)
    requires OwnNamesOnly(f, scope) && l in WalkedNames(f, scope, prefix)
    ensures k in f && k.name == Prefix(scope) + l && l != "" && prefix <= l + "." + Text(k.leaf)
  {
    k := WalkedFrom(f, scope, prefix, l);
    PrefixOfPrefix(Prefix(scope), prefix, Path(k));
    assert Prefix(scope) < k.name && k.name == Prefix(scope) + l;
    assert k == Key(Prefix(scope) + l, k.leaf);
    OwnPath(scope, l, k.leaf, prefix);
  }

  /** A listing never misses a name of the scope with the prefix, and names nothing outside the scope. */
  lemma WalkCoversScope(f: Files, scope: string, prefix: string)
    requires OwnNamesOnly(f, scope)
    ensures LocalNames(f, scope, prefix) <= WalkedNames(f, scope, prefix)
    ensures WalkedNames(f, scope, prefix) <= LocalNames(f, scope, "")
  {
    var s := Prefix(scope);
    forall l | l in LocalNames(f, scope, prefix) ensures l in WalkedNames(f, scope, prefix) {
      var k :| k in f && s <= k.name && prefix <= k.name[|s|..] && l == k.name[|s|..];
      KeyIsWalked(f, scope, prefix, k, l);
    }
    forall l | l in WalkedNames(f, scope, prefix) ensures l in LocalNames(f, scope, "") {
      var k := WalkedKey(f, scope, prefix, l);
      assert l == k.name[|s|..];
    }
  }

  lemma ReportedFrom(f: Files, scope: string, prefix: string, l: string, e: Envelope) returns (k: Key)
    requires OwnNamesOnly(f, scope) && (l, e) in ScopedWalk(f, scope, prefix)
    ensures k in f && k.name == Prefix(scope) + l && e == f[k] && Listed(f, Prefix(scope) + prefix, k)
  {
    var s, p := Prefix(scope), Prefix(scope) + prefix;
    var w :| w in Walk(f, p) && (l, e) == (Trim(w.0, s), w.1);
    k :| k in f && Listed(f, p, k) && w == (k.name, f[k]);
    PrefixOfPrefix(s, prefix, Path(k));
    Trimmed(k.name, s);
  }

  lemma Trimmed(name: string, prefix: string)
    requires prefix < name
    ensures name == prefix + Trim(name, prefix)
  {
  }

  /** The file whose envelope is reported of a name: its cell, or of its versions the highest. */
  ghost predicate Reported(f: Files, k: Key) {
    k in f && (k.leaf.Version? ==> IsHighest(VersionsOf(f, k.name), k.leaf.n))
  }

  /** What a listing reports of each name with the prefix. */
  lemma WalkedExactlyThese(f: Files, scope: string, prefix: string, l: string, e: Envelope)
    requires OwnNamesOnly(f, scope) && prefix <= l
    ensures (l, e) in ScopedWalk(f, scope, prefix) <==>
            exists k :: Reported(f, k) && k.name == Prefix(scope) + l && e == f[k]
  {
    var name := Prefix(scope) + l;
    forall leaf: Leaf ensures Matches(Key(name, leaf), Prefix(scope) + prefix) { OwnPath(scope, l, leaf, prefix); }
    if (l, e) in ScopedWalk(f, scope, prefix) {
      var k := ReportedFrom(f, scope, prefix, l, e);
      if k.leaf.Version? { ListedIsHighest(f, Prefix(scope) + prefix, k); }
      assert Reported(f, k);
    }
    if k :| Reported(f, k) && k.name == name && e == f[k] {
      assert k == Key(name, k.leaf);
      KeyIsReported(f, scope, prefix, l, k);
    }
  }

  lemma ListedIsHighest(f: Files, prefix: string, k: Key)
    requires Listed(f, prefix, k) && k.leaf.Version? && forall leaf: Leaf :: Matches(Key(k.name, leaf), prefix)
    ensures IsHighest(VersionsOf(f, k.name), k.leaf.n)
  {
    forall v | v in VersionsOf(f, k.name) ensures v <= k.leaf.n {
      var o :| o in f && o.name == k.name && o.leaf.Version? && o.leaf.n == v;
      assert o == Key(k.name, o.leaf);
    }
  }

  lemma KeyIsReported(f: Files, scope: string, prefix: string, l: string, k: Key)
    requires k in f && k.name == Prefix(scope) + l && Matches(k, Prefix(scope) + prefix)
    requires k.leaf.Version? ==> IsHighest(VersionsOf(f, k.name), k.leaf.n)
    ensures (l, f[k]) in ScopedWalk(f, scope, prefix)
  {
    assert forall o :: o in f && o.name == k.name && o.leaf.Version? ==> o.leaf.n in VersionsOf(f, k.name);
    assert Listed(f, Prefix(scope) + prefix, k);
    assert (k.name, f[k]) in Walk(f, Prefix(scope) + prefix);
    assert Trim(k.name, Prefix(scope)) == l;
  }

  /** Exactly when Walk(prefix) yields the scope's own names with that prefix, whatever is stored: the
      prefix does not reach into a leaf.  Walk("x.") and Walk("x.00") also report "x". */
  lemma WalkIsExactExactlyWhen(scope: string, prefix: string)
    requires ValidScope(scope)
    ensures (forall f: Files :: OwnNamesOnly(f, scope) ==>
               WalkedNames(f, scope, prefix) == LocalNames(f, scope, prefix)) <==>
            !ReachesLeaf(prefix)
  {
    if ReachesLeaf(prefix) {
      var n, leaf :| n != "" && n + "." <= prefix && prefix <= n + "." + Text(leaf);
      OverreachingWalk(scope, prefix, n, leaf);
    } else {
      forall f: Files | OwnNamesOnly(f, scope) ensures WalkedNames(f, scope, prefix) == LocalNames(f, scope, prefix) {
        WalkCoversScope(f, scope, prefix);
        forall l | l in WalkedNames(f, scope, prefix) ensures l in LocalNames(f, scope, prefix) {
          WalkedHasPrefix(f, scope, prefix, l);
        }
      }
    }
  }

  lemma WalkedHasPrefix(f: Files, scope: string, prefix: string, l: string)
    requires OwnNamesOnly(f, scope) && !ReachesLeaf(prefix) && l in WalkedNames(f, scope, prefix)
    ensures l in LocalNames(f, scope, prefix)
  {
    var k := WalkedKey(f, scope, prefix, l);
    assert l == k.name[|Prefix(scope)|..];
    if !(prefix <= l) { ReachesPast(prefix, l, Text(k.leaf)); }
  }

  /** One stored name is enough to show the overreach. */
  lemma OverreachingWalk(scope: string, prefix: string, n: string, leaf: Leaf)
    requires n != "" && n + "." <= prefix && prefix <= n + "." + Text(leaf)
    ensures exists f: Files :: OwnNamesOnly(f, scope) && WalkedNames(f, scope, prefix) != LocalNames(f, scope, prefix)
  {
    var k := Key(Prefix(scope) + n, leaf);
    var f: Files := map[k := Inline("data")];
    assert OwnNamesOnly(f, scope);
    KeyIsWalked(f, scope, prefix, k, n);
    assert k.name[|Prefix(scope)|..] == n;
    assert n !in LocalNames(f, scope, prefix);
  }
}
