/** A client's configuration against the store's active one (config/classes.go). */
module Connection {
  import opened Basics
  import opened CryptoIdentity
  import opened StoreConfig
  import Pipeline

  // ---- The crypto tail ----

  /** Where the maximal suffix of stages that all encrypt begins. */
  function TailStart(p: seq<string>): (i: nat)
    ensures i <= |p|
    decreases |p|
  {
    if p == [] || !IsCryptoAlgorithm(p[|p| - 1]) then |p| else TailStart(p[..|p| - 1])
  }

  function CryptoTail(p: seq<string>): seq<string> {
    p[TailStart(p)..]
  }

  predicate NoCrypto(p: seq<string>) {
    forall i :: 0 <= i < |p| ==> !IsCryptoAlgorithm(p[i])
  }

  method CryptoTailOf(p: seq<string>) returns (tail: seq<string>)
    ensures tail == CryptoTail(p)
  {
    var i := |p|;
    assert p[..i] == p;
    while i > 0 && IsCryptoAlgorithm(p[i - 1])
      invariant 0 <= i <= |p|
      invariant TailStart(p) == TailStart(p[..i])
    {
      assert p[..i][..i - 1] == p[..i - 1];
      i := i - 1;
    }
    assert TailStart(p[..i]) == i;
    tail := p[i..];
  }

  /** The client's pipeline ends with the store's crypto tail and encrypts nowhere else. */
  predicate CarriesTail(req: seq<string>, active: seq<string>) {
    var n := |CryptoTail(active)|;
    n <= |req| && req[|req| - n..] == CryptoTail(active) && NoCrypto(req[..|req| - n])
  }

  method EndsWith(req: seq<string>, tail: seq<string>) returns (ok: bool)
    requires |tail| <= |req|
    ensures ok == (req[|req| - |tail|..] == tail)
  {
    var at, i := |req| - |tail|, 0;
    while i < |tail|
      invariant 0 <= i <= |tail|
      invariant forall j :: 0 <= j < i ==> req[at..][j] == tail[j]
    {
      if req[at + i] != tail[i] {
        assert req[at..][i] != tail[i];
        return false;
      }
      i := i + 1;
    }
    ok := true;
  }

  method EncryptsNowhere(p: seq<string>) returns (ok: bool)
    ensures ok == NoCrypto(p)
  {
    var i := 0;
    while i < |p|
      invariant 0 <= i <= |p|
      invariant forall j :: 0 <= j < i ==> !IsCryptoAlgorithm(p[j])
    {
      if IsCryptoAlgorithm(p[i]) { return false; }
      i := i + 1;
    }
    ok := true;
  }

  method ValidateCryptoTail(req: seq<string>, active: seq<string>) returns (ok: bool)
    ensures ok == CarriesTail(req, active)
  {
    var tail := CryptoTailOf(active);
    if |req| < |tail| { return false; }
    ok := EndsWith(req, tail);
    if !ok { return; }
    ok := EncryptsNowhere(req[..|req| - |tail|]);
  }

  // ---- The plan and the merge ----

  predicate PipelineDiverges(req: Config, active: Config) {
    req.pipeline != [] && req.pipeline != active.pipeline
  }

  /** The populated session fields of a request. */
  function Overlay(req: Config): Config {
    Config(map f | f in req.vals && ClassOf(f) == Session :: req.vals[f], req.pipeline, 0)
  }

  datatype Plan = Accepted(overlay: Config) | ConfigMismatch | GovernanceMismatch

  ghost function PlanConnection(req: Config, active: Config): Plan {
    if !Agrees(req, active, Immutable) then ConfigMismatch
    else if !Agrees(req, active, Governance) then GovernanceMismatch
    else if (!Agrees(req, active, Session) || PipelineDiverges(req, active))
            && Get(active, SessionOverrides) == Text("Deny") then GovernanceMismatch
    else if req.pipeline != [] && !CarriesTail(req.pipeline, active.pipeline) then ConfigMismatch
    else Accepted(Overlay(req))
  }

  /** The request sets no field of the class to something other than the store has. */
  ghost predicate Keeps(req: Config, active: Config, k: Class) {
    forall f: Field :: ClassOf(f) == k && Get(req, f) != Zero(f) ==> Get(req, f) == Get(active, f)
  }

  /** There is a point from which on the store only encrypts, just before which it does not, and the
      client's pipeline is something that never encrypts, followed by that. */
  ghost predicate TailKept(req: seq<string>, active: seq<string>) {
    exists cut: nat :: cut <= |active| && IsTailStart(active, cut) && EndsAs(req, active[cut..])
  }

  /** Something that never encrypts, then the tail. */
  predicate EndsAs(req: seq<string>, tail: seq<string>) {
    |tail| <= |req| && req[|req| - |tail|..] == tail && NoCrypto(req[..|req| - |tail|])
  }

  predicate IsTailStart(p: seq<string>, cut: nat)
    requires cut <= |p|
  {
    && (forall i :: cut <= i < |p| ==> IsCryptoAlgorithm(p[i]))
    && (cut > 0 ==> !IsCryptoAlgorithm(p[cut - 1]))
  }

  /** What the answer to a request has to be.  Accepted: no fixed or governed field is changed, nothing
      at all where overrides are denied, and a pipeline keeps the crypto tail.  Otherwise a mismatch
      of governance exactly when the fixed fields agree and a governed one does not or an override
      is denied. */
  ghost predicate RightAnswer(req: Config, active: Config, r: Plan) {
    var silent := Keeps(req, active, Session) && (req.pipeline == [] || req.pipeline == active.pipeline);
    var allowed := Get(active, SessionOverrides) != Text("Deny") || silent;
    var tail := req.pipeline == [] || TailKept(req.pipeline, active.pipeline);
    && (r.Accepted? <==> Keeps(req, active, Immutable) && Keeps(req, active, Governance) && allowed && tail)
    && (r == GovernanceMismatch <==>
        Keeps(req, active, Immutable) && !(Keeps(req, active, Governance) && allowed))
    && (r.Accepted? ==>
          && (forall f: Field :: Get(r.overlay, f) == if ClassOf(f) == Session then Get(req, f) else Zero(f))
          && r.overlay.pipeline == req.pipeline && r.overlay.kdf == 0)
  }

  lemma TailKeptExactlyWhen(req: seq<string>, active: seq<string>)
    ensures CarriesTail(req, active) <==> TailKept(req, active)
  {
    assert IsTailStart(active, TailStart(active)) by { TailEncrypts(active); }
    if TailKept(req, active) {
      var cut: nat :| cut <= |active| && IsTailStart(active, cut) && EndsAs(req, active[cut..]);
      TailBeginsAt(active, cut);
    }
  }

  lemma AnswerIsRight(req: Config, active: Config)
    ensures RightAnswer(req, active, PlanConnection(req, active))
  {
    TailKeptExactlyWhen(req.pipeline, active.pipeline);
    forall k: Class ensures Agrees(req, active, k) <==> Keeps(req, active, k) { SameAgreement(req, active, k); }
  }

  lemma SameAgreement(req: Config, active: Config, k: Class)
    ensures Agrees(req, active, k) <==> Keeps(req, active, k)
  {
    if Keeps(req, active, k) {
      forall f: Field | ClassOf(f) == k ensures !Diverges(req, active, f) {}
    }
    if Agrees(req, active, k) {
      forall f: Field | ClassOf(f) == k && Get(req, f) != Zero(f) ensures Get(req, f) == Get(active, f) {
        assert !Diverges(req, active, f);
      }
    }
  }

  method Connect(req: Config, active: Config) returns (r: Plan)
    ensures r == PlanConnection(req, active) && RightAnswer(req, active, r)
  {
    AnswerIsRight(req, active);
    var fixed := DivergentByClass(req, active, Immutable);
    if |fixed| > 0 { return ConfigMismatch; }
    var gov := DivergentByClass(req, active, Governance);
    if |gov| > 0 { return GovernanceMismatch; }
    var ses := DivergentByClass(req, active, Session);
    if (|ses| > 0 || PipelineDiverges(req, active)) && Get(active, SessionOverrides) == Text("Deny") {
      return GovernanceMismatch;
    }
    if |req.pipeline| > 0 {
      var ok := ValidateCryptoTail(req.pipeline, active.pipeline);
      if !ok { return ConfigMismatch; }
    }
    r := Accepted(Overlay(req));
  }

  function Overlaid(eff: Config, overlay: Config, f: Field): Config {
    if Populated(overlay, f) then With(eff, f, Get(overlay, f)) else eff
  }

  /** Populated session fields of the overlay win; everything else is the store's. */
  function Merged(active: Config, overlay: Config): Config {
    var e := Overlaid(Overlaid(Overlaid(Overlaid(Overlaid(active, overlay, BlobStorage), overlay, VerifyOnRead),
                                        overlay, InlineBlobLimit), overlay, PackAlignment), overlay, EagerFetchLimit);
    if overlay.pipeline != [] then e.(pipeline := overlay.pipeline) else e
  }

  method MergeSession(active: Config, overlay: Config) returns (eff: Config)
    ensures eff == Merged(active, overlay)
  {
    eff := active;
    eff := OverlayField(eff, overlay, BlobStorage);
    eff := OverlayField(eff, overlay, VerifyOnRead);
    eff := OverlayField(eff, overlay, InlineBlobLimit);
    eff := OverlayField(eff, overlay, PackAlignment);
    eff := OverlayField(eff, overlay, EagerFetchLimit);
    if |overlay.pipeline| > 0 { eff := eff.(pipeline := overlay.pipeline); }
  }

  method OverlayField(active: Config, overlay: Config, f: Field) returns (eff: Config)
    ensures eff == Overlaid(active, overlay, f)
  {
    eff := active;
    if Get(overlay, f) != Zero(f) { eff := With(eff, f, Get(overlay, f)); }
  }

  /** Merging writes the session fields and no other. */
  lemma MergedAt(active: Config, overlay: Config, f: Field)
    ensures Get(Merged(active, overlay), f) ==
            if ClassOf(f) == Session && Populated(overlay, f) then Get(overlay, f) else Get(active, f)
    ensures Merged(active, overlay).kdf == active.kdf
    ensures Merged(active, overlay).pipeline == if overlay.pipeline != [] then overlay.pipeline else active.pipeline
  {
    var e1 := Overlaid(active, overlay, BlobStorage);
    var e2 := Overlaid(e1, overlay, VerifyOnRead);
    var e3 := Overlaid(e2, overlay, InlineBlobLimit);
    var e4 := Overlaid(e3, overlay, PackAlignment);
    OverlaidAt(active, overlay, BlobStorage, f);
    OverlaidAt(e1, overlay, VerifyOnRead, f);
    OverlaidAt(e2, overlay, InlineBlobLimit, f);
    OverlaidAt(e3, overlay, PackAlignment, f);
    OverlaidAt(e4, overlay, EagerFetchLimit, f);
    FieldClasses(f);
  }

  lemma OverlaidAt(eff: Config, overlay: Config, g: Field, f: Field)
    ensures Get(Overlaid(eff, overlay, g), f) ==
            if f == g && Populated(overlay, g) then Get(overlay, g) else Get(eff, f)
    ensures Overlaid(eff, overlay, g).pipeline == eff.pipeline && Overlaid(eff, overlay, g).kdf == eff.kdf
  {
  }

  // ---- What a connection may change ----

  lemma {:induction false} TailEncrypts(p: seq<string>)
    ensures forall i :: TailStart(p) <= i < |p| ==> IsCryptoAlgorithm(p[i])
    ensures TailStart(p) > 0 ==> !IsCryptoAlgorithm(p[TailStart(p) - 1])
    decreases |p|
  {
    if p != [] && IsCryptoAlgorithm(p[|p| - 1]) { TailEncrypts(p[..|p| - 1]); }
  }

  /** Two pipelines with the same last stages and nothing encrypting before them. */
  lemma TailBeginsAt(p: seq<string>, n: nat)
    requires n <= |p| && forall i :: n <= i < |p| ==> IsCryptoAlgorithm(p[i])
    requires n > 0 ==> !IsCryptoAlgorithm(p[n - 1])
    ensures TailStart(p) == n
  {
    TailEncrypts(p);
  }

  lemma CarriedTailIsMaximal(req: seq<string>, active: seq<string>)
    requires CarriesTail(req, active)
    ensures CryptoTail(req) == CryptoTail(active)
  {
    TailEncrypts(active);
    var tail := CryptoTail(active);
    var at := |req| - |tail|;
    forall i | at <= i < |req| ensures IsCryptoAlgorithm(req[i]) {
      assert req[i] == req[at..][i - at] == tail[i - at] == active[TailStart(active) + i - at];
    }
    if at > 0 { assert req[at - 1] == req[..at][at - 1]; }
    TailBeginsAt(req, at);
  }

  /** Whatever a connection is granted: the effective configuration equals the request on every field
      it populated and the store's on every other, it has the store's crypto tail, and where
      overrides are denied it is the store's configuration. */
  lemma ConnectionIsHonest(req: Config, active: Config)
    requires PlanConnection(req, active).Accepted?
    ensures var m := Merged(active, PlanConnection(req, active).overlay);
            && (forall f: Field :: Get(m, f) == if Populated(req, f) then Get(req, f) else Get(active, f))
            && (forall f: Field :: ClassOf(f) != Session ==> Get(m, f) == Get(active, f))
            && m.pipeline == (if req.pipeline != [] then req.pipeline else active.pipeline)
            && m.kdf == active.kdf
            && CryptoTail(m.pipeline) == CryptoTail(active.pipeline)
            && (Get(active, SessionOverrides) == Text("Deny") ==> m == active)
  {
    var o := Overlay(req);
    var m := Merged(active, o);
    forall f: Field ensures Get(m, f) == (if Populated(req, f) then Get(req, f) else Get(active, f))
                            && (ClassOf(f) != Session ==> Get(m, f) == Get(active, f)) {
      MergedAt(active, o, f);
      assert ClassOf(f) == Session ==> Get(o, f) == Get(req, f);
      assert ClassOf(f) == Immutable || ClassOf(f) == Governance ==> !Diverges(req, active, f);
    }
    MergedAt(active, o, BlobStorage);
    if req.pipeline != [] { CarriedTailIsMaximal(req.pipeline, active.pipeline); }
    if Get(active, SessionOverrides) == Text("Deny") { DeniedMergesNothing(req, active); }
  }

  lemma DeniedMergesNothing(req: Config, active: Config)
    requires Agrees(req, active, Session) && !PipelineDiverges(req, active)
    ensures Merged(active, Overlay(req)) == active
  {
    var o := Overlay(req);
    forall f | f in {BlobStorage, VerifyOnRead, InlineBlobLimit, PackAlignment, EagerFetchLimit}
      ensures Overlaid(active, o, f) == active
    {
      FieldClasses(f);
      assert !Diverges(req, active, f);
      assert Populated(o, f) ==> With(active, f, Get(active, f)).vals == active.vals;
    }
  }

  /** The elements with a property, in order. */
  function Chosen(c: string -> bool, p: seq<string>): seq<string>
    decreases |p|
  {
    if p == [] then [] else Chosen(c, p[..|p| - 1]) + if c(p[|p| - 1]) then [p[|p| - 1]] else []
  }

  lemma {:induction false} ChosenSplit(c: string -> bool, p: seq<string>, n: nat)
    requires n <= |p| && forall i :: n <= i < |p| ==> c(p[i])
    ensures Chosen(c, p) == Chosen(c, p[..n]) + p[n..]
    decreases |p|
  {
    if |p| == n {
      assert p[..n] == p;
    } else {
      var init := p[..|p| - 1];
      ChosenSplit(c, init, n);
      assert init[..n] == p[..n] && p[n..] == init[n..] + [p[|p| - 1]];
    }
  }

  lemma {:induction false} ChosenNone(c: string -> bool, p: seq<string>)
    ensures Chosen(c, p) == [] <==> forall i :: 0 <= i < |p| ==> !c(p[i])
    decreases |p|
  {
    if p != [] {
      ChosenNone(c, p[..|p| - 1]);
      assert forall i :: 0 <= i < |p| - 1 ==> p[..|p| - 1][i] == p[i];
    }
  }

  /** The encrypting stages of a pipeline, wherever they stand. */
  function CryptoOf(p: seq<string>): seq<string> {
    Chosen(IsCryptoAlgorithm, p)
  }

  lemma NoCryptoMeansNone(p: seq<string>)
    ensures CryptoOf(p) == [] <==> NoCrypto(p)
  {
    ChosenNone(IsCryptoAlgorithm, p);
  }

  /** The encrypting stages are those before the tail, then the tail. */
  lemma CryptoOfTail(p: seq<string>)
    ensures CryptoOf(p) == CryptoOf(p[..TailStart(p)]) + CryptoTail(p)
  {
    TailEncrypts(p);
    ChosenSplit(IsCryptoAlgorithm, p, TailStart(p));
  }

  /** A client pipeline keeps every encrypting stage of the store's exactly when the store encrypts
      only in its tail.  A stage that encrypts before a stage that does not is outside the tail
      and may be dropped by connecting. */
  lemma EncryptionKeptExactlyWhen(req: Config, active: Config)
    requires PlanConnection(req, active).Accepted? && req.pipeline != []
    ensures CryptoOf(req.pipeline) == CryptoTail(active.pipeline)
    ensures CryptoOf(req.pipeline) == CryptoOf(active.pipeline) <==>
            NoCrypto(active.pipeline[..TailStart(active.pipeline)])
  {
    KeptExactlyWhen(req.pipeline, active.pipeline);
  }

  lemma KeptExactlyWhen(req: seq<string>, active: seq<string>)
    requires CarriesTail(req, active)
    ensures CryptoOf(req) == CryptoTail(active)
    ensures CryptoOf(req) == CryptoOf(active) <==> NoCrypto(active[..TailStart(active)])
  {
    CarriedTailIsMaximal(req, active);
    CryptoOfTail(req);
    CryptoOfTail(active);
    assert TailStart(req) == |req| - |CryptoTail(active)|;
    NoCryptoMeansNone(req[..TailStart(req)]);
    NoCryptoMeansNone(active[..TailStart(active)]);
  }

  // ---- Opening: the plan, then the construction of the store (engine/store/lifecycle_construct.go) ----

  datatype Opening = Opened(effective: Config) | Mismatch(plan: Plan) | InvalidPipeline

  /** The store's own pipeline must be in a legal order; without a registry nothing is checked. */
  predicate Composable(active: Config, reg: Option<Pipeline.Registry>) {
    reg.Some? ==> Pipeline.LegalOrder(reg.value, active.pipeline)
  }

  ghost function OpeningOf(req: Config, active: Config, reg: Option<Pipeline.Registry>): Opening {
    var plan := PlanConnection(req, active);
    if !plan.Accepted? then Mismatch(plan)
    else if !Composable(active, reg) then InvalidPipeline
    else Opened(Merged(active, plan.overlay))
  }

  method OpenStore(req: Config, active: Config, reg: Option<Pipeline.Registry>) returns (r: Opening)
    requires reg.Some? ==> reg.value.aead <= reg.value.known
    ensures r == OpeningOf(req, active, reg)
  {
    var plan := Connect(req, active);
    if !plan.Accepted? { return Mismatch(plan); }
    if |active.pipeline| > 0 && reg.Some? {
      var ok := Pipeline.ValidateComposition(reg.value, active.pipeline);
      if !ok { return InvalidPipeline; }
    }
    var eff := MergeSession(active, plan.overlay);
    r := Opened(eff);
  }

  /** The client gets in and its writes skip an encrypting stage of the store's. */
  ghost predicate Drops(req: Config, active: Config, reg: Option<Pipeline.Registry>) {
    var r := OpeningOf(req, active, reg);
    r.Opened? && CryptoOf(r.effective.pipeline) != CryptoOf(active.pipeline)
  }

  lemma DropNeedsEarlyStage(req: Config, active: Config, reg: Option<Pipeline.Registry>)
    requires Drops(req, active, reg)
    ensures Get(active, SessionOverrides) != Text("Deny") && Composable(active, reg)
    ensures !NoCrypto(active.pipeline[..TailStart(active.pipeline)])
  {
    ConnectionIsHonest(req, active);
    if req.pipeline != [] { EncryptionKeptExactlyWhen(req, active); }
  }

  /** The request that leaves out whatever may be left out. */
  lemma BareRequest(active: Config, plain: string)
    requires !IsCryptoAlgorithm(plain) && Get(active, SessionOverrides) != Text("Deny")
    ensures var req := Config(map[], [plain] + CryptoTail(active.pipeline), 0);
            PlanConnection(req, active).Accepted? && req.pipeline != []
  {
    var req := [plain] + CryptoTail(active.pipeline);
    assert req[1..] == CryptoTail(active.pipeline) && req[..1] == [plain];
    assert CarriesTail(req, active.pipeline);
  }

  /** Some client can drop an encrypting stage exactly when overrides are not denied, the store
      encrypts before its tail, and the order check lets that pass. */
  lemma DroppableExactlyWhen(active: Config, reg: Option<Pipeline.Registry>)
    ensures (exists req :: Drops(req, active, reg)) <==>
            && Get(active, SessionOverrides) != Text("Deny")
            && !NoCrypto(active.pipeline[..TailStart(active.pipeline)])
            && Composable(active, reg)
  {
    forall req | Drops(req, active, reg)
      ensures Get(active, SessionOverrides) != Text("Deny") && Composable(active, reg)
      ensures !NoCrypto(active.pipeline[..TailStart(active.pipeline)])
    {
      DropNeedsEarlyStage(req, active, reg);
    }
    if Get(active, SessionOverrides) != Text("Deny") && Composable(active, reg)
       && !NoCrypto(active.pipeline[..TailStart(active.pipeline)]) {
      PlainStage();
      var req := Config(map[], ["zstd"] + CryptoTail(active.pipeline), 0);
      BareRequest(active, "zstd");
      EncryptionKeptExactlyWhen(req, active);
      MergedAt(active, Overlay(req), BlobStorage);
      assert Drops(req, active, reg);
    }
  }

  lemma PlainStage()
    ensures !IsCryptoAlgorithm("zstd")
  {
    assert ToLower("zstd") == "zstd" && |"zstd"| == 4;
    assert |"aes-gcm"| == 7 && |"chacha20-poly1305"| == 17;
  }

  /** Where every encrypting algorithm of the store is registered as an AEAD, a legal order puts it
      last, and every client that gets in keeps it. */
  lemma RegisteredEncryptionIsKept(req: Config, active: Config, reg: Pipeline.Registry)
    requires OpeningOf(req, active, Some(reg)).Opened?
    requires forall algo :: algo in active.pipeline && IsCryptoAlgorithm(algo) ==> algo in reg.aead
    ensures NoCrypto(active.pipeline[..TailStart(active.pipeline)])
    ensures CryptoOf(OpeningOf(req, active, Some(reg)).effective.pipeline) == CryptoOf(active.pipeline)
  {
    var p := active.pipeline;
    forall i | 0 <= i < TailStart(p) ensures !IsCryptoAlgorithm(p[i]) {
      TailEncrypts(p);
      assert p[i] in p && Pipeline.AeadIsLast(reg, p, i);
    }
    assert NoCrypto(p[..TailStart(p)]);
    if Drops(req, active, Some(reg)) { DropNeedsEarlyStage(req, active, Some(reg)); }
  }

  lemma EarlyStageOutsideTail(early: string, late: string)
    requires IsCryptoAlgorithm(early) && !IsCryptoAlgorithm(late)
    ensures !NoCrypto([early, late][..TailStart([early, late])])
  {
    var p := [early, late];
    assert TailStart(p) == 2 && p[..2][0] == early;
  }

  /** Any store that encrypts first and then does something else, with the cipher unknown to the
      registry or no registry at all, and overrides not denied: some client drops it. */
  lemma EarlyStageCanBeDropped(c: Config, early: string, late: string, reg: Option<Pipeline.Registry>)
    requires Valid(c) && c.pipeline == [early, late] && Get(Defaulted(c), SessionOverrides) != Text("Deny")
    requires IsCryptoAlgorithm(early) && !IsCryptoAlgorithm(late) && (reg.Some? ==> early !in reg.value.aead)
    ensures Valid(Defaulted(c)) && exists req :: Drops(req, Defaulted(c), reg)
  {
    DefaultsAreValid(c);
    EarlyStageOutsideTail(early, late);
    DroppableExactlyWhen(Defaulted(c), reg);
  }

  /** Presenting the store's own configuration is accepted exactly when it encrypts only in its
      tail. */
  lemma OwnConfigAcceptedExactlyWhen(active: Config)
    ensures PlanConnection(active, active).Accepted? <==> NoCrypto(active.pipeline[..TailStart(active.pipeline)])
  {
    var p := active.pipeline;
    assert CarriesTail(p, p) <==> NoCrypto(p[..TailStart(p)]) by {
      assert |p| - |CryptoTail(p)| == TailStart(p);
    }
  }
}
