/** Encoder chains on the way in, decoder chains on the way out, and the hashes taken in between
    (engine/pipeline/runner.go).  The chain is pulled from its far end, and some stages read ahead
    in the background, so each level delivers in chunks of its own and at times of its own. */
module Pipeline {
  import opened Basics
  import opened CryptoIdentity

  /** One encoder instance with the IV and key it drew.  `run` maps a whole stream to a whole
      stream. */
  datatype Encoder = Encoder(algorithm: string, run: Bytes -> Bytes, iv: Bytes, keyID: string)

  /** What a factory draws for a new encoder. */
  datatype Instance = Instance(run: Bytes -> Bytes, iv: Bytes, keyID: string)

  /** The registered transformers: which exist, which are AEADs, and how a recorded stage is undone. */
  datatype Registry =
    Registry(known: set<string>, aead: set<string>, decode: (string, Bytes, string, Bytes) -> Option<Bytes>)

  /** The checksum and its two spellings: bare, and prefixed with the name of the algorithm. */
  datatype Digest = Digest(sum: Bytes -> Bytes, bare: Bytes -> string, named: Bytes -> string)

  /** The contract of a transformer: its decoder, set up from the recorded stage, inverts its
      encoder. */
  ghost predicate Inverts(reg: Registry, e: Encoder) {
    e.algorithm in reg.known && forall x: Bytes {:trigger reg.decode(e.algorithm, e.iv, e.keyID, e.run(x))} ::
      reg.decode(e.algorithm, e.iv, e.keyID, e.run(x)) == Some(x)
  }

  /** A stage of either chain. */
  datatype Transform = Encode(enc: Encoder) | Decode(reg: Registry, stage: Stage)

  function Result(t: Transform, x: Bytes): Option<Bytes> {
    match t
    case Encode(e) => Some(e.run(x))
    case Decode(reg, s) => reg.decode(s.algorithm, s.iv, s.keyID, x)
  }

  /** The whole stream after the first k stages, if none of them fails. */
  function Upto(chain: seq<Transform>, source: Bytes, k: nat): Option<Bytes>
    requires k <= |chain|
  {
    if k == 0 then Some(source)
    else match Upto(chain, source, k - 1)
      case None => None
      case Some(x) => Result(chain[k - 1], x)
  }

  // ---- Reading in pieces ----

  /** What a level has handed out so far.  Level 0 is the source, level k the output of stage k. */
  datatype Level = Level(out: Bytes, eof: bool)

  /** One Read at a level: the bytes it returned, and whether it reported the end. */
  datatype Delivery = Delivery(level: nat, chunk: Bytes, eof: bool)

  function Start(n: nat): (s: seq<Level>)
    ensures |s| == n + 1 && forall k :: 0 <= k <= n ==> s[k] == Level([], false)
  {
    seq(n + 1, _ => Level([], false))
  }

  /** The law of readers.  The source hands out its bytes in order and ends after the last one.  A
      stage may hand out anything at any time, but it reports the end only after its own source
      did, and has then handed out the transformation of all it read.  After the end there is
      nothing. */
  predicate Allowed(chain: seq<Transform>, source: Bytes, s: seq<Level>, d: Delivery)
    requires |s| == |chain| + 1
  {
    && d.level < |s|
    && (s[d.level].eof ==> d.chunk == [] && d.eof)
    && var out := s[d.level].out + d.chunk;
       if d.level == 0 then out <= source && (d.eof ==> out == source)
       else d.eof ==> s[d.level - 1].eof && Result(chain[d.level - 1], s[d.level - 1].out) == Some(out)
  }

  function Delivered(s: seq<Level>, d: Delivery): seq<Level>
    requires d.level < |s|
  {
    s[d.level := Level(s[d.level].out + d.chunk, d.eof)]
  }

  predicate IsRun(chain: seq<Transform>, source: Bytes, s: seq<Level>, run: seq<Delivery>)
    requires |s| == |chain| + 1
    decreases |run|
  {
    run == [] || (Allowed(chain, source, s, run[0]) && IsRun(chain, source, Delivered(s, run[0]), run[1..]))
  }

  function Exec(chain: seq<Transform>, source: Bytes, s: seq<Level>, run: seq<Delivery>): (r: seq<Level>)
    requires |s| == |chain| + 1 && IsRun(chain, source, s, run)
    ensures |r| == |s|
    decreases |run|
  {
    if run == [] then s else Exec(chain, source, Delivered(s, run[0]), run[1..])
  }

  /** The far end has reported the end of the stream. */
  predicate Drained(s: seq<Level>) {
    s != [] && s[|s| - 1].eof
  }

  ghost predicate EndIsFinal(chain: seq<Transform>, source: Bytes, s: seq<Level>)
    requires |s| == |chain| + 1
  {
    && (s[0].eof ==> s[0].out == source)
    && forall k :: 0 < k < |s| && s[k].eof ==> s[k - 1].eof && Result(chain[k - 1], s[k - 1].out) == Some(s[k].out)
  }

  lemma StepKeepsEnd(chain: seq<Transform>, source: Bytes, s: seq<Level>, d: Delivery)
    requires |s| == |chain| + 1 && EndIsFinal(chain, source, s) && Allowed(chain, source, s, d)
    ensures EndIsFinal(chain, source, Delivered(s, d))
  {
    var t := Delivered(s, d);
    assert s[d.level].eof ==> t == s by { assert s[d.level].eof ==> s[d.level].out + d.chunk == s[d.level].out; }
    forall k | 0 < k < |t| && t[k].eof ensures t[k - 1].eof && Result(chain[k - 1], t[k - 1].out) == Some(t[k].out) {
      if k != d.level { assert s[k].eof; }
    }
  }

  lemma {:induction false} RunKeepsEnd(chain: seq<Transform>, source: Bytes, s: seq<Level>, run: seq<Delivery>)
    requires |s| == |chain| + 1 && EndIsFinal(chain, source, s) && IsRun(chain, source, s, run)
    ensures EndIsFinal(chain, source, Exec(chain, source, s, run))
    decreases |run|
  {
    if run != [] {
      StepKeepsEnd(chain, source, s, run[0]);
      RunKeepsEnd(chain, source, Delivered(s, run[0]), run[1..]);
    }
  }

  lemma {:induction false} EndedIsWhole(chain: seq<Transform>, source: Bytes, s: seq<Level>, top: nat, k: nat)
    requires |s| == |chain| + 1 && EndIsFinal(chain, source, s) && k <= top <= |chain| && s[top].eof
    ensures s[k].eof && Upto(chain, source, k) == Some(s[k].out)
    decreases top, k
  {
    if k < top {
      EndedIsWhole(chain, source, s, top - 1, k);
    } else if k > 0 {
      EndedIsWhole(chain, source, s, k - 1, k - 1);
    }
  }

  /** Once the far end is drained every level is: each tee on the way has absorbed its whole stream,
      whatever the pieces and whatever their order. */
  lemma DrainedIsWhole(chain: seq<Transform>, source: Bytes, run: seq<Delivery>)
    requires IsRun(chain, source, Start(|chain|), run) && Drained(Exec(chain, source, Start(|chain|), run))
    ensures var s := Exec(chain, source, Start(|chain|), run);
            forall k :: 0 <= k <= |chain| ==> s[k].eof && Upto(chain, source, k) == Some(s[k].out)
  {
    RunKeepsEnd(chain, source, Start(|chain|), run);
    var s := Exec(chain, source, Start(|chain|), run);
    forall k | 0 <= k <= |chain| ensures s[k].eof && Upto(chain, source, k) == Some(s[k].out) {
      EndedIsWhole(chain, source, s, |chain|, k);
    }
  }

  lemma {:induction false} ExecAppend(chain: seq<Transform>, source: Bytes, s: seq<Level>, run: seq<Delivery>,
                                      d: Delivery)
    requires |s| == |chain| + 1 && IsRun(chain, source, s, run)
    requires Allowed(chain, source, Exec(chain, source, s, run), d)
    ensures IsRun(chain, source, s, run + [d])
    ensures Exec(chain, source, s, run + [d]) == Delivered(Exec(chain, source, s, run), d)
    decreases |run|
  {
    if run == [] {
      assert run + [d] == [d] && [d][1..] == [];
      assert IsRun(chain, source, Delivered(s, d), []);
    } else {
      ExecAppend(chain, source, Delivered(s, run[0]), run[1..], d);
      assert (run + [d])[1..] == run[1..] + [d];
    }
  }

  /** Each level in one piece, from the source on. */
  lemma {:induction false} WholeReads(chain: seq<Transform>, source: Bytes, k: nat) returns (run: seq<Delivery>)
    requires k <= |chain| && Upto(chain, source, k).Some?
    ensures IsRun(chain, source, Start(|chain|), run)
    ensures var s := Exec(chain, source, Start(|chain|), run);
            && s[k] == Level(Upto(chain, source, k).value, true)
            && forall j :: k < j <= |chain| ==> s[j] == Level([], false)
    decreases k
  {
    run := [];
    var d := Delivery(k, Upto(chain, source, k).value, true);
    if k > 0 { run := WholeReads(chain, source, k - 1); }
    var s := Exec(chain, source, Start(|chain|), run);
    assert s[k].out + d.chunk == d.chunk;
    ExecAppend(chain, source, Start(|chain|), run, d);
    run := run + [d];
  }

  /** The chain can be drained exactly when no stage rejects what reaches it: a stage that does never
      lets the far end see the end of the stream. */
  lemma DrainsExactlyWhen(chain: seq<Transform>, source: Bytes)
    ensures (exists run ::
               IsRun(chain, source, Start(|chain|), run) && Drained(Exec(chain, source, Start(|chain|), run))) <==>
            Upto(chain, source, |chain|).Some?
  {
    if Upto(chain, source, |chain|).Some? {
      var run := WholeReads(chain, source, |chain|);
      assert Drained(Exec(chain, source, Start(|chain|), run));
    }
    forall run | IsRun(chain, source, Start(|chain|), run) && Drained(Exec(chain, source, Start(|chain|), run))
      ensures Upto(chain, source, |chain|).Some?
    {
      DrainedIsWhole(chain, source, run);
    }
  }

  // ---- The write path ----

  class Hasher {
    var absorbed: Bytes

    constructor ()
      ensures absorbed == []
    {
      absorbed := [];
    }

    method Write(p: Bytes)
      modifies this
      ensures absorbed == old(absorbed) + p
    {
      absorbed := absorbed + p;
    }
  }

  function Encoders(encs: seq<Encoder>): (c: seq<Transform>)
    ensures |c| == |encs| && forall i :: 0 <= i < |encs| ==> c[i] == Encode(encs[i])
  {
    seq(|encs|, i requires 0 <= i < |encs| => Encode(encs[i]))
  }

  /** The encoders `BuildPut` instantiates. */
  function Drawn(algos: seq<string>, draw: nat -> Instance): (e: seq<Encoder>)
    ensures |e| == |algos| && forall i :: 0 <= i < |algos| ==> e[i] == DrawnAt(algos[i], draw(i))
  {
    seq(|algos|, i requires 0 <= i < |algos| => DrawnAt(algos[i], draw(i)))
  }

  function DrawnAt(algo: string, inst: Instance): Encoder {
    Encoder(algo, inst.run, inst.iv, inst.keyID)
  }

  /** The recorded stages: each carries the hash of what left that stage. */
  function Recorded(h: Digest, encs: seq<Encoder>, s: seq<Level>): (stages: seq<Stage>)
    requires |s| == |encs| + 1
    ensures |stages| == |encs|
    ensures forall i :: 0 <= i < |encs| ==> stages[i] == RecordedAt(h, encs[i], s[i + 1].out)
  {
    seq(|encs|, i requires 0 <= i < |encs| => RecordedAt(h, encs[i], s[i + 1].out))
  }

  function RecordedAt(h: Digest, e: Encoder, out: Bytes): Stage {
    Stage(e.algorithm, h.named(h.sum(out)), e.iv, e.keyID)
  }

  class PutPipeline {
    const encs: seq<Encoder>
    const content: Hasher
    const blob: Hasher
    const tees: seq<Hasher>
    var read: nat
    ghost var levels: seq<Level>

    /** Every hasher has absorbed what its level has handed out.  The last stage shares its hasher
        with BlobRef, and only an empty pipeline tees the input into it. */
    ghost predicate Valid()
      reads this, content, blob, tees
    {
      && |levels| == |encs| + 1 && |tees| == |encs|
      && content != blob && content !in tees && (forall i, j :: 0 <= i < j < |tees| ==> tees[i] != tees[j])
      && (if tees == [] then blob.absorbed == levels[0].out else blob == tees[|tees| - 1])
      && content.absorbed == levels[0].out && read == |levels[0].out|
      && forall i :: 0 <= i < |tees| ==> tees[i].absorbed == levels[i + 1].out
    }

    constructor (encs: seq<Encoder>, content: Hasher, blob: Hasher, tees: seq<Hasher>)
      requires |tees| == |encs| && content != blob && content !in tees
      requires forall i, j :: 0 <= i < j < |tees| ==> tees[i] != tees[j]
      requires tees == [] || blob == tees[|tees| - 1]
      requires content.absorbed == [] && blob.absorbed == [] && forall t :: t in tees ==> t.absorbed == []
      ensures Valid() && levels == Start(|encs|)
      ensures this.encs == encs && this.content == content && this.blob == blob && this.tees == tees
    {
      this.encs, this.content, this.blob, this.tees := encs, content, blob, tees;
      read := 0;
      levels := Start(|encs|);
    }

    /** One Read through the tee of a level. */
    method Tee(d: Delivery)
      requires Valid() && d.level < |levels|
      modifies this, content, blob, tees
      ensures Valid() && levels == Delivered(old(levels), d)
    {
      if d.level == 0 {
        content.Write(d.chunk);
        read := read + |d.chunk|;
        if |tees| == 0 { blob.Write(d.chunk); }
      } else {
        tees[d.level - 1].Write(d.chunk);
      }
      levels := Delivered(levels, d);
    }

    method Drain(source: Bytes, run: seq<Delivery>)
      requires Valid() && IsRun(Encoders(encs), source, levels, run)
      modifies this, content, blob, tees
      ensures Valid() && levels == Exec(Encoders(encs), source, old(levels), run)
    {
      var i := 0;
      assert run[0..] == run;
      while i < |run|
        invariant 0 <= i <= |run| && Valid() && IsRun(Encoders(encs), source, levels, run[i..])
        invariant Exec(Encoders(encs), source, levels, run[i..]) == Exec(Encoders(encs), source, old(levels), run)
      {
        assert run[i..][1..] == run[i + 1..];
        Tee(run[i]);
        i := i + 1;
      }
    }

    method Finalize(h: Digest) returns (contentHash: string, blobRef: string, stages: seq<Stage>)
      requires Valid()
      ensures contentHash == h.bare(h.sum(levels[0].out)) && blobRef == h.bare(h.sum(levels[|encs|].out))
      ensures stages == Recorded(h, encs, levels)
    {
      contentHash, blobRef := h.bare(h.sum(content.absorbed)), h.bare(h.sum(blob.absorbed));
      stages := [];
      var i := 0;
      while i < |encs|
        invariant 0 <= i <= |encs| && stages == Recorded(h, encs, levels)[..i]
      {
        stages := stages + [RecordedAt(h, encs[i], tees[i].absorbed)];
        i := i + 1;
      }
    }
  }

  /** Composes the chain; fails on the first stage without a factory. */
  method BuildPut(reg: Registry, algos: seq<string>, draw: nat -> Instance) returns (p: PutPipeline?)
    ensures p == null <==> exists i :: 0 <= i < |algos| && algos[i] !in reg.known
    ensures p != null ==> fresh(p) && fresh(p.content) && fresh(p.blob) && forall t :: t in p.tees ==> fresh(t)
    ensures p != null ==> p.Valid() && p.encs == Drawn(algos, draw) && p.levels == Start(|algos|)
  {
    var content := new Hasher();
    var blob := new Hasher();
    var encs: seq<Encoder> := [];
    var tees: seq<Hasher> := [];
    var i := 0;
    while i < |algos|
      invariant 0 <= i <= |algos| == |Drawn(algos, draw)| && |tees| == i && encs == Drawn(algos, draw)[..i]
      invariant forall j :: 0 <= j < i ==> algos[j] in reg.known
      invariant content.absorbed == [] && blob.absorbed == [] && content !in tees
      invariant forall t :: t in tees ==> fresh(t) && t.absorbed == []
      invariant forall j :: 0 <= j < i ==> (tees[j] == blob <==> j == |algos| - 1)
      invariant forall j, k :: 0 <= j < k < i ==> tees[j] != tees[k]
    {
      if algos[i] !in reg.known { return null; }
      var stage := blob;
      if i != |algos| - 1 { stage := new Hasher(); }
      encs := encs + [DrawnAt(algos[i], draw(i))];
      tees := tees + [stage];
      i := i + 1;
    }
    p := new PutPipeline(encs, content, blob, tees);
  }

  // ---- The read path ----

  /** The decoders, the last stage first. */
  function Decoders(reg: Registry, stages: seq<Stage>): (c: seq<Transform>)
    ensures |c| == |stages| && forall j :: 0 <= j < |stages| ==> c[j] == Decode(reg, stages[|stages| - 1 - j])
  {
    seq(|stages|, j requires 0 <= j < |stages| => Decode(reg, stages[|stages| - 1 - j]))
  }

  method BuildGet(reg: Registry, stages: seq<Stage>) returns (chain: Option<seq<Transform>>)
    ensures chain.None? <==> exists i :: 0 <= i < |stages| && stages[i].algorithm !in reg.known
    ensures chain.Some? ==> chain.value == Decoders(reg, stages)
  {
    var cur: seq<Transform> := [];
    var i := |stages|;
    while i > 0
      invariant 0 <= i <= |stages| && cur == Decoders(reg, stages)[..|stages| - i]
      invariant forall j :: i <= j < |stages| ==> stages[j].algorithm in reg.known
    {
      i := i - 1;
      if stages[i].algorithm !in reg.known { return None; }
      cur := cur + [Decode(reg, stages[i])];
    }
    chain := Some(cur);
  }

  /** The stream after the first k encoders. */
  function After(encs: seq<Encoder>, x: Bytes, k: nat): Bytes
    requires k <= |encs|
  {
    if k == 0 then x else encs[k - 1].run(After(encs, x, k - 1))
  }

  lemma {:induction false} EncodersReach(encs: seq<Encoder>, x: Bytes, k: nat)
    requires k <= |encs|
    ensures Upto(Encoders(encs), x, k) == Some(After(encs, x, k))
    decreases k
  {
    if k > 0 { EncodersReach(encs, x, k - 1); }
  }

  predicate Describes(s: Stage, e: Encoder) {
    s.algorithm == e.algorithm && s.iv == e.iv && s.keyID == e.keyID
  }

  lemma UndoOne(reg: Registry, encs: seq<Encoder>, stages: seq<Stage>, x: Bytes, i: nat)
    requires |stages| == |encs| && i < |encs| && Inverts(reg, encs[i]) && Describes(stages[i], encs[i])
    ensures Result(Decode(reg, stages[i]), After(encs, x, i + 1)) == Some(After(encs, x, i))
  {
    assert After(encs, x, i + 1) == encs[i].run(After(encs, x, i));
  }

  lemma OneMore(chain: seq<Transform>, source: Bytes, k: nat, before: Bytes, after: Option<Bytes>)
    requires 0 < k <= |chain| && Upto(chain, source, k - 1) == Some(before) && Result(chain[k - 1], before) == after
    ensures Upto(chain, source, k) == after
  {
  }

  /** The decoder chain of the recorded stages undoes the encoder chain, one stage after the other,
      whatever hashes were recorded. */
  lemma {:induction false} GetUndoesPut(reg: Registry, encs: seq<Encoder>, stages: seq<Stage>, x: Bytes, j: nat)
    requires |stages| == |encs| && j <= |encs|
    requires forall i :: 0 <= i < |encs| ==> Inverts(reg, encs[i]) && Describes(stages[i], encs[i])
    ensures Upto(Decoders(reg, stages), After(encs, x, |encs|), j) == Some(After(encs, x, |encs| - j))
    decreases j
  {
    var chain, stored := Decoders(reg, stages), After(encs, x, |encs|);
    if j > 0 {
      var i := |encs| - j;
      GetUndoesPut(reg, encs, stages, x, j - 1);
      UndoOne(reg, encs, stages, x, i);
      OneMore(chain, stored, j, After(encs, x, i + 1), Some(After(encs, x, i)));
    }
  }

  /** End to end: drain the write chain in any pieces, drain the read chain over the stored bytes in
      any other pieces, and the input is back.  Every hash is the hash of a whole stream: the
      content hash of the input, each stage's of what left that stage, BlobRef of what is stored. */
  lemma StoreAndLoad(reg: Registry, h: Digest, encs: seq<Encoder>, source: Bytes, puts: seq<Delivery>,
                     gets: seq<Delivery>)
    requires forall i :: 0 <= i < |encs| ==> Inverts(reg, encs[i])
    requires IsRun(Encoders(encs), source, Start(|encs|), puts)
    requires var w := Exec(Encoders(encs), source, Start(|encs|), puts);
             && Drained(w)
             && IsRun(Decoders(reg, Recorded(h, encs, w)), w[|encs|].out, Start(|encs|), gets)
             && Drained(Exec(Decoders(reg, Recorded(h, encs, w)), w[|encs|].out, Start(|encs|), gets))
    ensures var w := Exec(Encoders(encs), source, Start(|encs|), puts);
            && w[0].out == source
            && (forall i :: 0 <= i < |encs| ==>
                  Recorded(h, encs, w)[i].hash == h.named(h.sum(After(encs, source, i + 1))))
            && w[|encs|].out == After(encs, source, |encs|)
            && Exec(Decoders(reg, Recorded(h, encs, w)), w[|encs|].out, Start(|encs|), gets)[|encs|].out == source
  {
    var w := Exec(Encoders(encs), source, Start(|encs|), puts);
    var stages := Recorded(h, encs, w);
    DrainedIsWhole(Encoders(encs), source, puts);
    forall k | 0 <= k <= |encs| ensures w[k].out == After(encs, source, k) { EncodersReach(encs, source, k); }
    DrainedIsWhole(Decoders(reg, stages), w[|encs|].out, gets);
    GetUndoesPut(reg, encs, stages, source, |encs|);
  }

  // ---- Which pipelines are legal ----

  predicate AeadIsLast(reg: Registry, algos: seq<string>, i: nat)
    requires i < |algos|
  {
    algos[i] in reg.aead ==> i == |algos| - 1
  }

  predicate LegalOrder(reg: Registry, algos: seq<string>) {
    forall i :: 0 <= i < |algos| ==> AeadIsLast(reg, algos, i)
  }

  /** On the write path every stage must be known. */
  method ValidateAlgos(reg: Registry, algos: seq<string>) returns (ok: bool)
    requires reg.aead <= reg.known
    ensures ok <==> (forall i :: 0 <= i < |algos| ==> algos[i] in reg.known) && LegalOrder(reg, algos)
  {
    var i := 0;
    while i < |algos|
      invariant 0 <= i <= |algos|
      invariant forall j :: 0 <= j < i ==> algos[j] in reg.known && AeadIsLast(reg, algos, j)
    {
      if algos[i] !in reg.known { return false; }
      if !AeadIsLast(reg, algos, i) { return false; }
      i := i + 1;
    }
    ok := true;
  }

  /** At construction an unknown stage is passed over: it cannot be classified yet. */
  method ValidateComposition(reg: Registry, algos: seq<string>) returns (ok: bool)
    requires reg.aead <= reg.known
    ensures ok <==> LegalOrder(reg, algos)
  {
    var i := 0;
    while i < |algos|
      invariant 0 <= i <= |algos|
      invariant forall j :: 0 <= j < i ==> AeadIsLast(reg, algos, j)
    {
      if algos[i] in reg.known && !AeadIsLast(reg, algos, i) { return false; }
      i := i + 1;
    }
    ok := true;
  }
}
