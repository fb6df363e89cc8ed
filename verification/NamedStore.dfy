/** The system store (engine/systemstore/systemstore.go): named artifacts as flat files, each name a
    series of numbered versions or a cell (engine/internal/named). */
module NamedStore {
  import opened Basics

  /** A file holds its payload, or the digest of a payload kept in the data plane. */
  datatype Envelope = Inline(body: string) | Pointer(ref: string)

  // ---- Files ----

  /** A name is a series of numbered versions or a cell. */
  datatype Leaf = Version(n: nat) | Cell

  datatype Key = Key(name: string, leaf: Leaf)

  type Files = map<Key, Envelope>

  const SeqWidth := 10

  /** Zero-padded decimal of fixed width. */
  function Decimal(n: nat, width: nat): (s: string)
    ensures |s| == width && forall i :: 0 <= i < |s| ==> '0' <= s[i] <= '9'
    decreases width
  {
    if width == 0 then "" else Decimal(n / 10, width - 1) + [('0' as int + n % 10) as char]
  }

  function Text(leaf: Leaf): string {
    match leaf
    case Version(n) => Decimal(n, SeqWidth)
    case Cell => "cell"
  }

  /** The path below the root: "<name>.<seq>" or "<name>.cell". */
  function Path(k: Key): string {
    k.name + "." + Text(k.leaf)
  }

  function Pow10(w: nat): nat {
    if w == 0 then 1 else 10 * Pow10(w - 1)
  }

  lemma {:induction false} DecimalInjective(a: nat, b: nat, w: nat)
    requires a < Pow10(w) && b < Pow10(w) && Decimal(a, w) == Decimal(b, w)
    ensures a == b
    decreases w
  {
    if w > 0 {
      var x, y := Decimal(a / 10, w - 1), Decimal(b / 10, w - 1);
      assert x == Decimal(a, w)[..w - 1] && y == Decimal(b, w)[..w - 1];
      assert Decimal(a, w)[w - 1] == Decimal(b, w)[w - 1];
      DecimalInjective(a / 10, b / 10, w - 1);
    }
  }

  predicate InRange(k: Key) {
    k.leaf.Version? ==> k.leaf.n < Pow10(SeqWidth)
  }

  lemma LeafHasNoDot(leaf: Leaf)
    ensures '.' !in Text(leaf)
  {
  }

  /** Splitting at the last dot recovers name and leaf: two files never share a path. */
  lemma PathInjective(k: Key, o: Key)
    requires InRange(k) && InRange(o) && Path(k) == Path(o)
    ensures k == o
  {
    LeafHasNoDot(k.leaf);
    LeafHasNoDot(o.leaf);
    LastDot(k.name, Text(k.leaf), o.name, Text(o.leaf));
    if k.leaf.Version? && o.leaf.Version? { DecimalInjective(k.leaf.n, o.leaf.n, SeqWidth); }
  }

  /** The last dot is where the name ends. */
  lemma DotAt(a: string, b: string, i: nat)
    requires '.' !in b && i < |a + "." + b|
    ensures (a + "." + b)[|a|] == '.' && (i > |a| ==> (a + "." + b)[i] != '.')
  {
    if i > |a| { assert (a + "." + b)[i] == b[i - |a| - 1] && b[i - |a| - 1] in b; }
  }

  lemma LastDot(a: string, b: string, x: string, y: string)
    requires '.' !in b && '.' !in y && a + "." + b == x + "." + y
    ensures a == x && b == y
  {
    DotAt(a, b, |x|);
    DotAt(x, y, |a|);
    assert |a| == |x|;
    assert a == (a + "." + b)[..|a|] && x == (x + "." + y)[..|x|];
    assert b == (a + "." + b)[|a| + 1..] && y == (x + "." + y)[|x| + 1..];
  }

  // ---- Reading ----

  /** The files, and the payloads of the data plane that can be read by digest. */
  datatype Sys = Sys(files: Files, external: map<string, string>)

  /** The file that answers for a name: its highest version, or its cell when it has none. */
  ghost predicate Active(f: Files, k: Key) {
    k in f && forall o :: o in f && o.name == k.name && o.leaf.Version? ==> k.leaf.Version? && o.leaf.n <= k.leaf.n
  }

  ghost function ActiveEnvelope(f: Files, name: string): Option<Envelope> {
    if exists k :: Active(f, k) && k.name == name then
      var k :| Active(f, k) && k.name == name;
      Some(f[k])
    else None
  }

  function Content(external: map<string, string>, e: Envelope): Option<string> {
    match e
    case Inline(body) => Some(body)
    case Pointer(ref) => if ref in external then Some(external[ref]) else None
  }

  ghost function Get(s: Sys, name: string): Option<string> {
    match ActiveEnvelope(s.files, name)
    case None => None
    case Some(e) => Content(s.external, e)
  }

  lemma ActiveUnique(f: Files, k: Key, o: Key)
    requires Active(f, k) && Active(f, o) && k.name == o.name
    ensures k == o
  {
  }

  lemma ActiveAnswers(f: Files, k: Key)
    requires Active(f, k)
    ensures ActiveEnvelope(f, k.name) == Some(f[k])
  {
    forall o: Key | Active(f, o) && o.name == k.name ensures o == k { ActiveUnique(f, o, k); }
  }

  lemma HasVersion(f: Files, k: Key)
    requires k in f && k.leaf.Version?
    ensures k.leaf.n in VersionsOf(f, k.name)
  {
  }

  /** Without versions the cell answers, if there is one. */
  lemma CellAnswers(f: Files, name: string)
    requires VersionsOf(f, name) == {}
    ensures ActiveEnvelope(f, name) == if Key(name, Cell) in f then Some(f[Key(name, Cell)]) else None
  {
    forall o | o in f && o.name == name ensures o == Key(name, Cell) {
      if o.leaf.Version? { HasVersion(f, o); }
    }
    if Key(name, Cell) in f { ActiveAnswers(f, Key(name, Cell)); }
  }

  lemma HighestAnswers(f: Files, name: string, top: nat)
    requires IsHighest(VersionsOf(f, name), top)
    ensures Key(name, Version(top)) in f && ActiveEnvelope(f, name) == Some(f[Key(name, Version(top))])
  {
    forall o | o in f && o.name == name && o.leaf.Version? ensures o.leaf.n <= top {
      assert o.leaf.n in VersionsOf(f, name);
    }
    ActiveAnswers(f, Key(name, Version(top)));
  }

  // ---- Writing and removing ----

  function VersionsOf(f: Files, name: string): set<nat> {
    set k | k in f && k.name == name && k.leaf.Version? :: k.leaf.n
  }

  /** One above the highest version there is. */
  ghost predicate Next(f: Files, name: string, n: nat) {
    n >= 1 && (n > 1 ==> n - 1 in VersionsOf(f, name)) && forall v :: v in VersionsOf(f, name) ==> v < n
  }

  function Newer(vs: set<nat>, n: nat): set<nat> {
    set m | m in vs && m > n
  }

  /** The versions with at least `keep` newer ones; the newest is never among them. */
  function Prunable(vs: set<nat>, keep: nat): set<nat> {
    set n | n in vs && |Newer(vs, n)| >= if keep < 1 then 1 else keep
  }

  ghost function Published(f: Files, name: string, n: nat, p: Envelope, keep: nat, failed: set<nat>): Files {
    var g := f[Key(name, Version(n)) := p];
    g - Versions(name, Prunable(VersionsOf(g, name), keep) - failed)
  }

  /** How a delete goes wrong: the envelope cannot be opened, the payload it points to cannot be
      deleted, these versions or the cell cannot be removed. */
  datatype Trouble = Trouble(blind: bool, cascade: bool, versions: set<nat>, cell: bool)

  /** The payload a delete sets out to delete first. */
  ghost function Target(f: Files, name: string, t: Trouble): Option<string> {
    match ActiveEnvelope(f, name)
    case Some(Pointer(ref)) => if t.blind then None else Some(ref)
    case _ => None
  }

  /** The payload, every version that can be removed, and when none is left the cell. */
  ghost function Deleted(s: Sys, name: string, t: Trouble): (Sys, bool) {
    var target, vs := Target(s.files, name, t), VersionsOf(s.files, name);
    if target.Some? && t.cascade then (s, false)
    else
      var external := if target.Some? then s.external - {target.value} else s.external;
      var r := Sys(s.files - Versions(name, vs - t.versions), external);
      if vs * t.versions != {} then (r, false)
      else if t.cell && Key(name, Cell) in s.files then (r, false)
      else (r.(files := r.files - {Key(name, Cell)}), true)
  }

  class Backing {
    var files: Files
    var external: map<string, string>

    function Value(): Sys
      reads this
    {
      Sys(files, external)
    }

    constructor (s: Sys)
      ensures Value() == s
    {
      files, external := s.files, s.external;
    }

    method PutCell(name: string, e: Envelope)
      modifies this
      ensures Value() == old(Value()).(files := old(files)[Key(name, Cell) := e])
    {
      files := files[Key(name, Cell) := e];
    }

    method ResolveActiveSeq(name: string) returns (top: Option<nat>)
      ensures top.None? <==> VersionsOf(files, name) == {}
      ensures top.Some? ==> top.value in VersionsOf(files, name)
      ensures forall v :: v in VersionsOf(files, name) ==> top.Some? && v <= top.value
    {
      var vs := VersionsOf(files, name);
      var rest := vs;
      top := None;
      while rest != {}
        invariant rest <= vs && (top.Some? ==> top.value in vs)
        invariant forall v :: v in vs && v !in rest ==> top.Some? && v <= top.value
        decreases rest
      {
        var v :| v in rest;
        rest := rest - {v};
        if top.None? || v > top.value { top := Some(v); }
      }
    }

    /** Read the highest number, create the next one exclusively, and on a lost race read again.
        `rivals(i)` are the files as other writers have left them when attempt i comes to create.
        The version claimed was nobody's, and nothing else is touched; undisturbed, it is the
        next one, at the first attempt. */
    method ClaimVersion(name: string, e: Envelope, rivals: nat -> Option<Files>) returns (r: Option<nat>)
      modifies this`files
      ensures r.Some? ==> exists f: Files ::
                && Key(name, Version(r.value)) !in f && files == f[Key(name, Version(r.value)) := e]
                && (f == old(files) || exists i: nat :: i < MaxClaimAttempts && rivals(i) == Some(f))
      ensures r.None? ==> forall i: nat :: i < MaxClaimAttempts ==> rivals(i).Some?
      ensures rivals(0).None? ==>
                r.Some? && Next(old(files), name, r.value)
                && files == old(files)[Key(name, Version(r.value)) := e]
    {
      var attempt := 0;
      while attempt < MaxClaimAttempts
        invariant 0 <= attempt <= MaxClaimAttempts
        invariant forall i: nat :: i < attempt ==> rivals(i).Some?
        invariant files == old(files) || exists i: nat :: i < attempt && rivals(i) == Some(files)
        invariant rivals(0).None? ==> attempt == 0 && files == old(files)
      {
        var highest := ResolveActiveSeq(name);
        var next := if highest.Some? then highest.value + 1 else 1;
        assert Next(files, name, next);
        ghost var seen := files;
        if rivals(attempt).Some? { files := rivals(attempt).value; }
        ghost var f := files;
        assert f == seen || rivals(attempt) == Some(f);
        if Key(name, Version(next)) !in files {
          files := files[Key(name, Version(next)) := e];
          return Some(next);
        }
        assert f == seen ==> next in VersionsOf(f, name);
        attempt := attempt + 1;
      }
      r := None;
    }

    /** Drops everything except the newest `keep`; a failed removal does not stop the others. */
    method Prune(name: string, keep: nat, failed: set<nat>)
      modifies this`files
      ensures files == old(files) - Versions(name, Prunable(VersionsOf(old(files), name), keep) - failed)
    {
      var limit := if keep < 1 then 1 else keep;
      var vs := VersionsOf(files, name);
      var rest, kept := vs, 0;
      while kept < limit && rest != {}
        invariant 0 <= kept <= limit && rest == AtLeastNewer(vs, kept) && files == old(files)
        decreases limit - kept
      {
        HasHighest(rest);
        var top :| top in rest && IsHighest(rest, top);
        OneMoreKept(vs, kept, top);
        rest := rest - {top};
        kept := kept + 1;
      }
      if rest == {} { NoneLeft(vs, kept, limit); }
      var gone := rest - failed;
      assert gone == Prunable(VersionsOf(old(files), name), keep) - failed;
      files := files - Versions(name, gone);
    }

    method PutVersion(name: string, e: Envelope, keep: nat, failed: set<nat>)
      modifies this
      ensures external == old(external)
      ensures exists n: nat ::
                Next(old(files), name, n) && files == Published(old(files), name, n, e, keep, failed)
    {
      var n := ClaimVersion(name, e, _ => None);
      Prune(name, keep, failed);
    }

    method LoadEnvelope(name: string) returns (e: Option<Envelope>)
      ensures e == ActiveEnvelope(files, name)
    {
      var top := ResolveActiveSeq(name);
      if top.Some? {
        HighestAnswers(files, name, top.value);
        return Some(files[Key(name, Version(top.value))]);
      }
      CellAnswers(files, name);
      e := if Key(name, Cell) in files then Some(files[Key(name, Cell)]) else None;
    }

    /** Goes on after a failed removal. */
    method RemoveAll(name: string, failed: set<nat>) returns (ok: bool)
      modifies this`files
      ensures ok <==> VersionsOf(old(files), name) * failed == {}
      ensures files == old(files) - Versions(name, VersionsOf(old(files), name) - failed)
    {
      ghost var vs := VersionsOf(files, name);
      var rest, gone := VersionsOf(files, name), {};
      ok := true;
      while rest != {}
        invariant rest + gone <= vs && gone !! failed && vs - rest - gone <= failed
        invariant files == old(files) - Versions(name, gone)
        invariant ok <==> (vs - rest) * failed == {}
        decreases rest
      {
        var v :| v in rest;
        rest := rest - {v};
        if v in failed {
          ok := false;
          assert v in (vs - rest) * failed;
        } else {
          gone := gone + {v};
          files := files - {Key(name, Version(v))};
        }
      }
      assert gone == vs - failed;
    }

    method Delete(name: string, t: Trouble) returns (ok: bool)
      modifies this
      ensures (Value(), ok) == Deleted(old(Value()), name, t)
    {
      var e := LoadEnvelope(name);
      if e.Some? && e.value.Pointer? && !t.blind {
        if t.cascade { return false; }
        external := external - {e.value.ref};
      }
      ok := RemoveAll(name, t.versions);
      if !ok { return false; }
      if t.cell && Key(name, Cell) in files { return false; }
      files := files - {Key(name, Cell)};
    }
  }

  predicate IsHighest(vs: set<nat>, top: nat) {
    top in vs && forall v :: v in vs ==> v <= top
  }

  lemma {:induction false} HasHighest(vs: set<nat>)
    requires vs != {}
    ensures exists top :: IsHighest(vs, top)
    decreases vs
  {
    var v :| v in vs;
    var rest := vs - {v};
    assert forall w :: w in vs ==> w == v || w in rest;
    if rest == {} {
      assert IsHighest(vs, v);
    } else {
      HasHighest(rest);
      var t :| IsHighest(rest, t);
      assert IsHighest(vs, if t < v then v else t);
    }
  }

  lemma {:induction false} HasLowest(vs: set<nat>) returns (low: nat)
    requires vs != {}
    ensures low in vs && forall v :: v in vs ==> low <= v
    decreases vs
  {
    low :| low in vs;
    if vs != {low} {
      var l := HasLowest(vs - {low});
      assert forall v :: v in vs ==> v == low || v in vs - {low};
      if l < low { low := l; }
    }
  }

  function AtLeastNewer(vs: set<nat>, k: nat): set<nat> {
    set n | n in vs && |Newer(vs, n)| >= k
  }

  /** The next version up has one newer version less. */
  lemma NextUp(vs: set<nat>, n: nat) returns (v: nat)
    requires Newer(vs, n) != {}
    ensures v in vs && v > n && |Newer(vs, n)| == |Newer(vs, v)| + 1
  {
    v := HasLowest(Newer(vs, n));
    assert Newer(vs, n) == Newer(vs, v) + {v};
  }

  /** Among those with at least k newer versions the highest has exactly k. */
  lemma OneMoreKept(vs: set<nat>, k: nat, top: nat)
    requires IsHighest(AtLeastNewer(vs, k), top)
    ensures AtLeastNewer(vs, k + 1) == AtLeastNewer(vs, k) - {top}
  {
    forall n | n in AtLeastNewer(vs, k) && n != top ensures |Newer(vs, n)| >= k + 1 {
      assert Newer(vs, top) + {top} <= Newer(vs, n);
      SubsetSize(Newer(vs, top) + {top}, Newer(vs, n));
    }
    if Newer(vs, top) != {} {
      var v := NextUp(vs, top);
      assert v !in AtLeastNewer(vs, k);
    }
  }

  lemma NoneLeft(vs: set<nat>, k: nat, limit: nat)
    requires AtLeastNewer(vs, k) == {} && k <= limit
    ensures AtLeastNewer(vs, limit) == {}
  {
    forall n | n in vs ensures |Newer(vs, n)| < limit { assert n !in AtLeastNewer(vs, k); }
  }

  lemma KeptOneMore(vs: set<nat>, k: nat)
    ensures AtLeastNewer(vs, k + 1) <= AtLeastNewer(vs, k) <= vs
    ensures |AtLeastNewer(vs, k + 1)| == if AtLeastNewer(vs, k) == {} then 0 else |AtLeastNewer(vs, k)| - 1
  {
    if AtLeastNewer(vs, k) == {} {
      NoneLeft(vs, k, k + 1);
    } else {
      HasHighest(AtLeastNewer(vs, k));
      var top :| IsHighest(AtLeastNewer(vs, k), top);
      OneMoreKept(vs, k, top);
    }
  }

  lemma {:induction false} PrunedCount(vs: set<nat>, k: nat)
    ensures AtLeastNewer(vs, k) <= vs && |AtLeastNewer(vs, k)| == if |vs| < k then 0 else |vs| - k
    decreases k
  {
    if k == 0 {
      assert AtLeastNewer(vs, 0) == vs;
    } else {
      PrunedCount(vs, k - 1);
      KeptOneMore(vs, k - 1);
    }
  }

  function Versions(name: string, ns: set<nat>): set<Key> {
    set n | n in ns :: Key(name, Version(n))
  }

  // ---- What is read afterwards ----

  lemma NewestStays(f: Files, name: string, n: nat, p: Envelope, keep: nat, failed: set<nat>)
    requires Next(f, name, n)
    ensures var g, k := Published(f, name, n, p, keep, failed), Key(name, Version(n));
            Active(g, k) && g[k] == p
  {
    var g := f[Key(name, Version(n)) := p];
    forall v | v in VersionsOf(g, name) ensures v <= n { assert v == n || v in VersionsOf(f, name); }
    assert Newer(VersionsOf(g, name), n) == {};
    forall o | o in g && o.name == name && o.leaf.Version? ensures o.leaf.n <= n {
      assert o.leaf.n in VersionsOf(g, name);
    }
  }

  /** After a put whose removals all succeed exactly the newest `keep` versions are left, or all of
      them where there are fewer. */
  lemma KeepsNewest(vs: set<nat>, keep: nat)
    ensures |vs - Prunable(vs, keep)| == if |vs| < keep then |vs| else if keep < 1 && vs != {} then 1 else keep
    ensures forall a, b :: a in vs - Prunable(vs, keep) && b in Prunable(vs, keep) ==> b < a
  {
    var k := if keep < 1 then 1 else keep;
    PrunedCount(vs, k);
    assert Prunable(vs, keep) == AtLeastNewer(vs, k);
    assert vs == (vs - AtLeastNewer(vs, k)) + AtLeastNewer(vs, k);
    forall a, b | a in vs - Prunable(vs, keep) && b in Prunable(vs, keep) ensures b < a {
      if a <= b {
        assert Newer(vs, b) <= Newer(vs, a);
        SubsetSize(Newer(vs, b), Newer(vs, a));
      }
    }
  }

  /** A cell that is put answers exactly when the name has no versions; otherwise the read is what it
      was. */
  lemma CellPutReads(f: Files, name: string, e: Envelope)
    ensures ActiveEnvelope(f[Key(name, Cell) := e], name) ==
            if VersionsOf(f, name) == {} then Some(e) else ActiveEnvelope(f, name)
  {
    var g := f[Key(name, Cell) := e];
    assert VersionsOf(g, name) == VersionsOf(f, name);
    if VersionsOf(f, name) == {} {
      CellAnswers(g, name);
    } else {
      HasHighest(VersionsOf(f, name));
      var top: nat :| IsHighest(VersionsOf(f, name), top);
      HighestAnswers(f, name, top);
      HighestAnswers(g, name, top);
    }
  }

  /** The next version number is the highest plus one, or 1. */
  lemma NextExactlyWhen(f: Files, name: string, n: nat)
    ensures Next(f, name, n) <==>
            if exists v :: v in VersionsOf(f, name) && v > 0 then n > 0 && IsHighest(VersionsOf(f, name), n - 1)
            else n == 1
  {
  }

  /** The payload behind the active envelope goes exactly when the delete can open the envelope and
      delete the payload; no other payload does. */
  lemma PayloadGoneExactlyWhen(s: Sys, name: string, t: Trouble, ref: string)
    requires ref in s.external
    ensures var gone := ActiveEnvelope(s.files, name) == Some(Pointer(ref)) && !t.blind && !t.cascade;
            var r := Deleted(s, name, t).0.external;
            (ref in r <==> !gone) && (ref in r ==> r[ref] == s.external[ref])
  {
  }

  /** What a delete leaves to be read: the highest version that could not be removed, however old; else
      the cell, if that could not; else nothing.  Nothing is left exactly when it reports success. */
  lemma DeleteReads(s: Sys, name: string, t: Trouble)
    ensures var r, left := Deleted(s, name, t), VersionsOf(s.files, name) * t.versions;
            && (r.1 <==> ActiveEnvelope(r.0.files, name) == None)
            && (Target(s.files, name, t).Some? && t.cascade ==> r.0 == s)
            && (!(Target(s.files, name, t).Some? && t.cascade) ==>
                  if left != {} then
                    exists top :: IsHighest(left, top) && Key(name, Version(top)) in s.files
                      && ActiveEnvelope(r.0.files, name) == Some(s.files[Key(name, Version(top))])
                  else ActiveEnvelope(r.0.files, name) ==
                       if t.cell && Key(name, Cell) in s.files then Some(s.files[Key(name, Cell)]) else None)
  {
    var r, left := Deleted(s, name, t), VersionsOf(s.files, name) * t.versions;
    if !(Target(s.files, name, t).Some? && t.cascade) {
      assert VersionsOf(r.0.files, name) == left;
      if left == {} {
        CellAnswers(r.0.files, name);
      } else {
        HasHighest(left);
        var top: nat :| IsHighest(left, top);
        HighestAnswers(r.0.files, name, top);
      }
    }
  }
}
