/** The index of one store (engine/index/storeindex.go, engine/index/sqlite/manifest.go): manifest
    rows, their blob edges, and one reference count per blob. */
module StoreIndex {

  type Blob = string

  /** A manifest as the index and the deletion path see it.  A manifest file is named by the hash of
      its bytes; the hash is idealised as injective, so a manifest stands for its own digest.
      `form` tells apart two files that agree on everything else (creation time, nonce, crypto
      form).  `handle` is "" for a container, `retention` is 0 when no retention was set. */
  datatype Manifest = Manifest(handle: string, session: string, retention: int, inlined: bool,
                               blobs: seq<Blob>, form: nat)
  {
    /** An inline manifest has no rows in the blob tables. */
    function Edges(): seq<Blob> {
      if inlined then [] else blobs
    }

    /** `IndexManifest` refuses a manifest that is neither inline nor names a blob. */
    predicate Indexable() {
      inlined || blobs != []
    }
  }

  /** `rows` maps each indexed manifest to its change sequence number. */
  datatype Index = Index(rows: map<Manifest, nat>, refs: map<Blob, nat>, csn: nat)

  const EmptyIndex := Index(map[], map[], 0)

  function Count(refs: map<Blob, nat>, b: Blob): nat {
    if b in refs then refs[b] else 0
  }

  /** One upsert and one increment per listed blob. */
  function Bump(refs: map<Blob, nat>, bs: seq<Blob>): map<Blob, nat>
    decreases |bs|
  {
    if bs == [] then refs
    else Bump(refs, bs[..|bs| - 1])[bs[|bs| - 1] := Count(Bump(refs, bs[..|bs| - 1]), bs[|bs| - 1]) + 1]
  }

  function DropOne(refs: map<Blob, nat>, b: Blob): map<Blob, nat> {
    if b in refs && refs[b] > 0 then refs[b := refs[b] - 1] else refs
  }

  /** One guarded decrement per edge. */
  function Drop(refs: map<Blob, nat>, bs: seq<Blob>): map<Blob, nat>
    decreases |bs|
  {
    if bs == [] then refs else DropOne(Drop(refs, bs[..|bs| - 1]), bs[|bs| - 1])
  }

  /** Registering a manifest, also when the row is already there: the row and the edges are kept,
      the counts are raised again and the row is re-stamped. */
  function Indexed(i: Index, m: Manifest): Index {
    Index(i.rows[m := i.csn + 1], Bump(i.refs, m.Edges()), i.csn + 1)
  }

  function Unindexed(i: Index, m: Manifest): Index {
    if m in i.rows then Index(i.rows - {m}, Drop(i.refs, m.Edges()), i.csn + 1) else i
  }

  class IndexTables {
    var rows: map<Manifest, nat>
    var refs: map<Blob, nat>
    var csn: nat

    ghost function Value(): Index
      reads this
    {
      Index(rows, refs, csn)
    }

    constructor ()
      ensures Value() == EmptyIndex
    {
      rows, refs, csn := map[], map[], 0;
    }

    method IndexManifest(m: Manifest) returns (ok: bool)
      modifies this
      ensures ok <==> m.inlined || m.blobs != []
      ensures Value() == if ok then Indexed(old(Value()), m) else old(Value())
    {
      if !m.inlined && m.blobs == [] { return false; }
      if !m.inlined {
        var i := 0;
        while i < |m.blobs|
          invariant 0 <= i <= |m.blobs|
          invariant refs == Bump(old(refs), m.blobs[..i])
          invariant rows == old(rows) && csn == old(csn)
        {
          if m.blobs[i] !in refs { refs := refs[m.blobs[i] := 0]; }
          refs := refs[m.blobs[i] := refs[m.blobs[i]] + 1];
          i := i + 1;
          assert m.blobs[..i][..i - 1] == m.blobs[..i - 1];
        }
        assert m.blobs[..i] == m.blobs;
      }
      csn := csn + 1;
      rows := rows[m := csn];
      return true;
    }

    /** Idempotent: deleting an absent manifest changes nothing. */
    method DeleteManifest(m: Manifest)
      modifies this
      ensures Value() == Unindexed(old(Value()), m)
    {
      if m !in rows { return; }
      var edges := m.Edges();
      var i := 0;
      while i < |edges|
        invariant 0 <= i <= |edges|
        invariant refs == Drop(old(refs), edges[..i])
        invariant rows == old(rows) && csn == old(csn)
      {
        if edges[i] in refs && refs[edges[i]] > 0 { refs := refs[edges[i] := refs[edges[i]] - 1]; }
        i := i + 1;
        assert edges[..i][..i - 1] == edges[..i - 1];
      }
      assert edges[..i] == edges;
      rows := rows - {m};
      csn := csn + 1;
    }
  }

  function Min(a: int, b: int): int {
    if a < b then a else b
  }

  lemma {:induction false} BumpCount(refs: map<Blob, nat>, bs: seq<Blob>, b: Blob)
    ensures Count(Bump(refs, bs), b) == Count(refs, b) + multiset(bs)[b]
    decreases |bs|
  {
    if bs != [] {
      BumpCount(refs, bs[..|bs| - 1], b);
      assert bs == bs[..|bs| - 1] + [bs[|bs| - 1]];
    }
  }

  lemma {:induction false} DropCount(refs: map<Blob, nat>, bs: seq<Blob>, b: Blob)
    ensures Count(Drop(refs, bs), b) == Count(refs, b) - Min(Count(refs, b), multiset(bs)[b])
    decreases |bs|
  {
    if bs != [] {
      DropCount(refs, bs[..|bs| - 1], b);
      assert bs == bs[..|bs| - 1] + [bs[|bs| - 1]];
    }
  }

  /** How many references to `b` a set of manifests holds, counting every position. */
  ghost function Uses(ms: set<Manifest>, b: Blob): nat {
    if ms == {} then 0 else
    var m :| m in ms;
    multiset(m.Edges())[b] + Uses(ms - {m}, b)
  }

  lemma {:induction false} UsesWithout(ms: set<Manifest>, m: Manifest, b: Blob)
    requires m in ms
    ensures Uses(ms, b) == multiset(m.Edges())[b] + Uses(ms - {m}, b)
  {
    var n :| n in ms && Uses(ms, b) == multiset(n.Edges())[b] + Uses(ms - {n}, b);
    if n != m {
      UsesWithout(ms - {n}, m, b);
      UsesWithout(ms - {m}, n, b);
      assert ms - {n} - {m} == ms - {m} - {n};
    }
  }

  lemma {:induction false} UsesMonotone(ms: set<Manifest>, ns: set<Manifest>, b: Blob)
    requires ms <= ns
    ensures Uses(ms, b) <= Uses(ns, b)
  {
    if ms != {} {
      var m :| m in ms;
      UsesWithout(ms, m, b);
      UsesWithout(ns, m, b);
      UsesMonotone(ms - {m}, ns - {m}, b);
    }
  }

  /** No blob's count is below the number of references the rows hold: nothing in use looks free. */
  ghost predicate Covers(i: Index) {
    forall b :: Count(i.refs, b) >= Uses(i.rows.Keys, b)
  }

  /** Every count is exactly the number of references. */
  ghost predicate Exact(i: Index) {
    forall b :: Count(i.refs, b) == Uses(i.rows.Keys, b)
  }

  /** What each call does to one count: an inline manifest holds no blob, any other one reference per
      listed position, and no count goes below zero. */
  lemma CountsMove(i: Index, m: Manifest, b: Blob)
    ensures Count(Indexed(i, m).refs, b) == Count(i.refs, b) + if m.inlined then 0 else multiset(m.blobs)[b]
    ensures var left := Count(i.refs, b) - if m.inlined then 0 else multiset(m.blobs)[b];
            m in i.rows ==> Count(Unindexed(i, m).refs, b) == if left < 0 then 0 else left
  {
    BumpCount(i.refs, m.Edges(), b);
    DropCount(i.refs, m.Edges(), b);
  }

  /** Deleting undoes indexing, and each of the two takes a new stamp. */
  lemma DeleteUndoesIndex(i: Index, m: Manifest)
    requires m !in i.rows
    ensures var j := Unindexed(Indexed(i, m), m);
            j.rows == i.rows && j.csn == i.csn + 2 && forall b :: Count(j.refs, b) == Count(i.refs, b)
    ensures Unindexed(i, m) == i
  {
    var j := Unindexed(Indexed(i, m), m);
    forall b ensures Count(j.refs, b) == Count(i.refs, b) {
      CountsMove(i, m, b);
      CountsMove(Indexed(i, m), m, b);
    }
    assert j.rows == i.rows;
  }

  lemma IndexedCounts(i: Index, m: Manifest)
    ensures Covers(i) ==> Covers(Indexed(i, m))
    ensures m !in i.rows && Covers(Indexed(i, m)) ==> Covers(i)
    ensures Exact(i) ==> (Exact(Indexed(i, m)) <==> m !in i.rows || m.Edges() == [])
  {
    var j := Indexed(i, m);
    forall b
      ensures Count(j.refs, b) == Count(i.refs, b) + multiset(m.Edges())[b]
      ensures Uses(j.rows.Keys, b) == Uses(i.rows.Keys, b) + if m in i.rows then 0 else multiset(m.Edges())[b]
    {
      BumpCount(i.refs, m.Edges(), b);
      assert j.rows.Keys == i.rows.Keys + {m};
      if m in i.rows {
        assert j.rows.Keys == i.rows.Keys;
      } else {
        UsesWithout(j.rows.Keys, m, b);
        assert j.rows.Keys - {m} == i.rows.Keys;
      }
    }
    if m !in i.rows && Covers(j) {
      forall b ensures Count(i.refs, b) >= Uses(i.rows.Keys, b) {
        assert Count(j.refs, b) >= Uses(j.rows.Keys, b);
      }
    }
    if Exact(i) && m in i.rows && m.Edges() != [] {
      var b := m.Edges()[0];
      assert b in multiset(m.Edges());
      assert Count(j.refs, b) > Uses(j.rows.Keys, b);
    }
  }

  lemma UnindexedCounts(i: Index, m: Manifest)
    requires Covers(i)
    ensures Covers(Unindexed(i, m))
    ensures Exact(i) ==> Exact(Unindexed(i, m))
  {
    var j := Unindexed(i, m);
    if m in i.rows {
      assert j.rows.Keys == i.rows.Keys - {m};
      forall b
        ensures Count(j.refs, b) == Count(i.refs, b) - multiset(m.Edges())[b]
        ensures Uses(j.rows.Keys, b) == Uses(i.rows.Keys, b) - multiset(m.Edges())[b]
      {
        UsesWithout(i.rows.Keys, m, b);
        DropCount(i.refs, m.Edges(), b);
      }
    }
  }
}
