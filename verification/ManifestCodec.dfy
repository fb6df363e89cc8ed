/** Manifest files, plain, sealed and paranoid (engine/artifact/manifest.go, crypto.go, body.go,
    validate.go). */
module ManifestCodec {
  import opened Basics
  import opened CryptoIdentity
  import opened Header

  type Time = int  // 0 is the zero time

  datatype Manifest = Manifest(
    artifactID: string, name: string, digest: string,
    identityMetaHash: string, identityNonce: Bytes,
    sessionID: string, createdAt: Time,
    contentHash: string, originalSize: int, hashAlgo: string,
    blobRefs: seq<string>, handleRefs: seq<string>,
    blobStorage: string, pipeline: seq<Stage>, inlineBlob: Bytes,
    retentionUntil: Time, keyID: string,
    ext: Bytes, usr: Bytes)

  // ---- The body as it is written ----

  datatype JsonStage = JsonStage(algorithm: string, hash: string, iv: string, keyID: string)

  datatype Body = Body(
    ext: Bytes, inlineBlob: string, usr: Bytes,
    artifactID: string, blobRefs: seq<string>, contentHash: string, createdAt: string,
    handleRefs: seq<string>, hashAlgo: string, identityMetaHash: string, identityNonce: string,
    blobStorage: string, originalSize: Option<int>, pipeline: seq<JsonStage>,
    retentionUntil: string, schemaVersion: int, sessionID: string)

  const SchemaVersion := 1

  // ---- What the codec is built from ----

  /** Library behaviour the codec relies on: JSON of a body (absent when `ext` or `usr` is not JSON)
      and its parser, white-space removal in raw JSON, a quoted JSON string, base64, timestamps
      to the second, and a nonce-prefixed AEAD. */
  datatype Library = Library(
    marshal: Body -> Option<Bytes>, parse: Bytes -> Option<Body>, compact: Bytes -> Bytes,
    quote: string -> Bytes, unquote: Bytes -> Option<string>,
    b64: Bytes -> string, unb64: string -> Option<Bytes>,
    format: Time -> string, parseTime: string -> Option<Time>, toSecond: Time -> Time,
    seal: (Bytes, Bytes, Bytes, Bytes) -> Bytes, open: (Bytes, Bytes, Bytes) -> Option<Bytes>)

  ghost predicate LawfulJson(l: Library) {
    && (forall b :: l.marshal(b).Some? ==>
          l.parse(l.marshal(b).value) == Some(b.(ext := l.compact(b.ext), usr := l.compact(b.usr))))
    && l.compact([]) == []
    && (forall s :: l.unquote(l.quote(s)) == Some(s) && l.compact(l.quote(s)) == l.quote(s) && l.quote(s) != [])
  }

  ghost predicate LawfulText(l: Library) {
    && (forall x :: l.unb64(l.b64(x)) == Some(x))
    && (forall x :: l.b64(x) == "" <==> x == [])
    && (forall t :: l.format(t) == "" <==> t == 0)
    && l.toSecond(0) == 0
    && (forall t :: l.parseTime(l.format(t)) == None || l.parseTime(l.format(t)) == Some(l.toSecond(t)))
    && l.parseTime("") == Some(0)
  }

  /** An ideal AEAD: what was sealed opens with the same key and additional data, and with no other.
      Section 2 of RFC 5116. */
  ghost predicate LawfulAead(l: Library) {
    && (forall k, n, p, a :: l.open(k, l.seal(k, n, p, a), a) == Some(p))
    && (forall k, n, p, a, k', a' :: l.open(k', l.seal(k, n, p, a), a').Some? ==> k' == k && a' == a)
    && (forall k, n, p, a :: l.seal(k, n, p, a) != [])
  }

  ghost predicate Lawful(l: Library) {
    LawfulJson(l) && LawfulText(l) && LawfulAead(l)
  }

  /** The time survives being written: the year has four digits. */
  predicate Representable(l: Library, t: Time) {
    l.parseTime(l.format(t)).Some?
  }

  // ---- Errors ----

  datatype Failure =
    | TooManyRefs | InvalidHandleRef | InvalidManifestSlot
    | BadHeader(e: Error) | BadJson | BadBase64 | BadTime | UnsupportedSchemaVersion
    | EmptyDek | KeyNotFound | DecryptionFailed | Corrupted | ManifestTooLarge

  datatype Outcome<T> = Done(value: T) | Failed(why: Failure)

  // ---- Body conversions ----

  function StageToJson(l: Library, s: Stage): JsonStage {
    JsonStage(s.algorithm, s.hash, if s.iv == [] then "" else l.b64(s.iv), s.keyID)
  }

  function StageFromJson(l: Library, j: JsonStage): Option<Stage> {
    if j.iv == "" then Some(Stage(j.algorithm, j.hash, [], j.keyID))
    else match l.unb64(j.iv)
      case None => None
      case Some(iv) => Some(Stage(j.algorithm, j.hash, iv, j.keyID))
  }

  function PipelineToJson(l: Library, ss: seq<Stage>): (r: seq<JsonStage>)
    ensures |r| == |ss|
    decreases |ss|
  {
    if ss == [] then [] else PipelineToJson(l, ss[..|ss| - 1]) + [StageToJson(l, ss[|ss| - 1])]
  }

  function PipelineFromJson(l: Library, js: seq<JsonStage>): Option<seq<Stage>>
    decreases |js|
  {
    if js == [] then Some([])
    else
      var init, last := PipelineFromJson(l, js[..|js| - 1]), StageFromJson(l, js[|js| - 1]);
      if init.None? || last.None? then None else Some(init.value + [last.value])
  }

  lemma StageRoundTrip(l: Library, s: Stage)
    requires LawfulText(l)
    ensures StageFromJson(l, StageToJson(l, s)) == Some(s)
  {
  }

  lemma OneMoreStage(l: Library, js: seq<JsonStage>, j: JsonStage, ss: seq<Stage>, s: Stage)
    requires PipelineFromJson(l, js) == Some(ss) && StageFromJson(l, j) == Some(s)
    ensures PipelineFromJson(l, js + [j]) == Some(ss + [s])
  {
    var all := js + [j];
    assert all[..|all| - 1] == js && all[|all| - 1] == j;
  }

  lemma PipelineRoundTrip(l: Library, ss: seq<Stage>)
    requires LawfulText(l)
    ensures PipelineFromJson(l, PipelineToJson(l, ss)) == Some(ss)
  {
    forall s: Stage ensures StageFromJson(l, StageToJson(l, s)) == Some(s) { StageRoundTrip(l, s); }
    StagesRoundTrip(l, ss);
  }

  lemma {:induction false} StagesRoundTrip(l: Library, ss: seq<Stage>)
    requires forall s: Stage :: StageFromJson(l, StageToJson(l, s)) == Some(s)
    ensures PipelineFromJson(l, PipelineToJson(l, ss)) == Some(ss)
    decreases |ss|
  {
    if ss != [] {
      var init, last := ss[..|ss| - 1], ss[|ss| - 1];
      StagesRoundTrip(l, init);
      OneMoreStage(l, PipelineToJson(l, init), StageToJson(l, last), init, last);
      assert ss == init + [last];
    }
  }

  function ToBody(l: Library, m: Manifest): Body {
    Body(
      m.ext, if m.inlineBlob == [] then "" else l.b64(m.inlineBlob), m.usr,
      m.artifactID, m.blobRefs, m.contentHash, l.format(m.createdAt),
      m.handleRefs, m.hashAlgo, m.identityMetaHash, if m.identityNonce == [] then "" else l.b64(m.identityNonce),
      m.blobStorage, if m.originalSize == 0 then None else Some(m.originalSize), PipelineToJson(l, m.pipeline),
      if m.retentionUntil == 0 then "" else l.format(m.retentionUntil), SchemaVersion, m.sessionID)
  }

  function Unb64(l: Library, s: string): Option<Bytes> {
    if s == "" then Some([]) else l.unb64(s)
  }

  function ReadTime(l: Library, s: string): Option<Time> {
    if s == "" then Some(0) else l.parseTime(s)
  }

  function FromBody(l: Library, b: Body): Outcome<Manifest> {
    if b.schemaVersion != SchemaVersion then Failed(UnsupportedSchemaVersion)
    else if PipelineFromJson(l, b.pipeline).None? || Unb64(l, b.identityNonce).None? || Unb64(l, b.inlineBlob).None?
    then Failed(BadBase64)
    else if ReadTime(l, b.createdAt).None? || ReadTime(l, b.retentionUntil).None? then Failed(BadTime)
    else Done(Manifest(
      b.artifactID, "", "", b.identityMetaHash, Unb64(l, b.identityNonce).value,
      b.sessionID, ReadTime(l, b.createdAt).value,
      b.contentHash, if b.originalSize.Some? then b.originalSize.value else 0, b.hashAlgo,
      b.blobRefs, b.handleRefs, b.blobStorage, PipelineFromJson(l, b.pipeline).value, Unb64(l, b.inlineBlob).value,
      ReadTime(l, b.retentionUntil).value, "", b.ext, b.usr))
  }

  /** A text field that is there and is not base64. */
  predicate NotBase64(l: Library, s: string) {
    s != "" && l.unb64(s).None?
  }

  lemma {:induction false} PipelineFailsExactlyWhen(l: Library, js: seq<JsonStage>)
    ensures PipelineFromJson(l, js).None? <==> exists j :: j in js && NotBase64(l, j.iv)
    decreases |js|
  {
    if js != [] {
      var init, last := js[..|js| - 1], js[|js| - 1];
      PipelineFailsExactlyWhen(l, init);
      assert js == init + [last];
    }
  }

  /** Exactly which bodies become manifests, and why the others do not. */
  lemma ReadsExactlyWhen(l: Library, b: Body)
    ensures var r := FromBody(l, b);
            var garbled := NotBase64(l, b.identityNonce) || NotBase64(l, b.inlineBlob)
                           || exists j :: j in b.pipeline && NotBase64(l, j.iv);
            var badTime := (b.createdAt != "" && l.parseTime(b.createdAt).None?)
                           || (b.retentionUntil != "" && l.parseTime(b.retentionUntil).None?);
            && (r == Failed(UnsupportedSchemaVersion) <==> b.schemaVersion != 1)
            && (r == Failed(BadBase64) <==> b.schemaVersion == 1 && garbled)
            && (r == Failed(BadTime) <==> b.schemaVersion == 1 && !garbled && badTime)
            && (r.Done? <==> b.schemaVersion == 1 && !garbled && !badTime)
  {
    PipelineFailsExactlyWhen(l, b.pipeline);
  }

  function MarshalBody(l: Library, m: Manifest): Outcome<Bytes> {
    match l.marshal(ToBody(l, m))
    case None => Failed(BadJson)
    case Some(bytes) => Done(bytes)
  }

  function UnmarshalBody(l: Library, bytes: Bytes): Outcome<Manifest> {
    match l.parse(bytes)
    case None => Failed(BadJson)
    case Some(b) => FromBody(l, b)
  }

  /** What a body does not carry: the name, the digest and the key id are not written, times are cut
      to the second, and the two free blocks lose their white space. */
  function Stored(l: Library, m: Manifest): Manifest {
    m.(name := "", digest := "", keyID := "",
       createdAt := l.toSecond(m.createdAt), retentionUntil := l.toSecond(m.retentionUntil),
       ext := l.compact(m.ext), usr := l.compact(m.usr))
  }

  /** Both times survive. */
  predicate TimesSurvive(l: Library, m: Manifest) {
    Representable(l, m.createdAt) && Representable(l, m.retentionUntil)
  }

  lemma ToBodyReadsBack(l: Library, m: Manifest)
    requires Lawful(l)
    ensures var b := ToBody(l, m);
            && PipelineFromJson(l, b.pipeline) == Some(m.pipeline)
            && Unb64(l, b.identityNonce) == Some(m.identityNonce) && Unb64(l, b.inlineBlob) == Some(m.inlineBlob)
            && ReadTime(l, b.createdAt) ==
               (if Representable(l, m.createdAt) then Some(l.toSecond(m.createdAt)) else None)
            && ReadTime(l, b.retentionUntil) ==
               (if Representable(l, m.retentionUntil) then Some(l.toSecond(m.retentionUntil)) else None)
            && (b.originalSize == None <==> m.originalSize == 0)
  {
    PipelineRoundTrip(l, m.pipeline);
  }

  lemma BodyRoundTrip(l: Library, m: Manifest)
    requires Lawful(l) && MarshalBody(l, m).Done?
    ensures UnmarshalBody(l, MarshalBody(l, m).value) ==
            if TimesSurvive(l, m) then Done(Stored(l, m)) else Failed(BadTime)
  {
    ToBodyReadsBack(l, m);
    var b := ToBody(l, m);
    assert l.parse(l.marshal(b).value) == Some(b.(ext := l.compact(b.ext), usr := l.compact(b.usr)));
  }

  // ---- Validation ----

  const MaxRefs := 65535

  predicate GoodHandleRefs(refs: seq<string>) {
    (forall i :: 0 <= i < |refs| ==> refs[i] != "") && forall i, j :: 0 <= i < j < |refs| ==> refs[i] != refs[j]
  }

  method CheckHandleRefs(refs: seq<string>) returns (ok: bool)
    ensures ok == GoodHandleRefs(refs)
  {
    var seen: set<string> := {};
    var i := 0;
    while i < |refs|
      invariant 0 <= i <= |refs|
      invariant forall r :: r in seen <==> r in refs[..i]
      invariant GoodHandleRefs(refs[..i])
    {
      assert refs[..i + 1] == refs[..i] + [refs[i]];
      if refs[i] == "" { return false; }
      if refs[i] in seen {
        var j :| 0 <= j < i && refs[..i][j] == refs[i];
        assert refs[j] == refs[i];
        return false;
      }
      seen := seen + {refs[i]};
      i := i + 1;
    }
    assert refs[..i] == refs;
    ok := true;
  }

  predicate HasIdentityMeta(m: Manifest) {
    m.identityMetaHash != "" || m.identityNonce != []
  }

  /** A manifest is exactly one kind, decided by the identity slot that is filled. */
  predicate SlotIsValid(m: Manifest) {
    && (if m.artifactID != "" then m.name == "" && HasIdentityMeta(m)
        else if m.name != "" then m.inlineBlob != [] && m.blobStorage == "Inline" && !HasIdentityMeta(m)
        else m.blobRefs != [] && m.inlineBlob == [] && !HasIdentityMeta(m))
    && !(m.blobStorage == "Inline" && m.blobRefs != [])
  }

  function Validate(m: Manifest): Outcome<()> {
    if |m.blobRefs| > MaxRefs || |m.handleRefs| > MaxRefs then Failed(TooManyRefs)
    else if !GoodHandleRefs(m.handleRefs) then Failed(InvalidHandleRef)
    else if !SlotIsValid(m) then Failed(InvalidManifestSlot)
    else Done(())
  }

  // ---- Sealed blocks ----

  /** `nonces` are the three nonces a Sealed manifest draws, or the one of a Paranoid body. */
  datatype Nonces = Nonces(ext: Bytes, usr: Bytes, inline: Bytes)

  function Sealed(l: Library, m: Manifest, dek: Bytes, header: Bytes, n: Nonces): Manifest {
    m.(ext := if m.ext == [] then [] else l.quote(l.b64(l.seal(dek, n.ext, m.ext, BlockAAD(header, TagExt)))),
       usr := if m.usr == [] then [] else l.quote(l.b64(l.seal(dek, n.usr, m.usr, BlockAAD(header, TagUsr)))),
       inlineBlob := if m.inlineBlob == [] then []
                     else l.seal(dek, n.inline, m.inlineBlob, BlockAAD(header, TagInline)))
  }

  /** The first candidate that opens the ciphertext. */
  function TryDecrypt(l: Library, c: Bytes, candidates: seq<Bytes>, aad: Bytes): Option<Bytes>
    decreases |candidates|
  {
    if candidates == [] then None
    else if l.open(candidates[0], c, aad).Some? then l.open(candidates[0], c, aad)
    else TryDecrypt(l, c, candidates[1..], aad)
  }

  method FirstThatOpens(l: Library, c: Bytes, candidates: seq<Bytes>, aad: Bytes) returns (r: Option<Bytes>)
    ensures r == TryDecrypt(l, c, candidates, aad)
  {
    var i := 0;
    while i < |candidates|
      invariant 0 <= i <= |candidates|
      invariant TryDecrypt(l, c, candidates, aad) == TryDecrypt(l, c, candidates[i..], aad)
    {
      assert candidates[i..][1..] == candidates[i + 1..];
      r := l.open(candidates[i], c, aad);
      if r.Some? { return; }
      i := i + 1;
    }
    r := None;
  }

  /** Whatever other keys are tried first: the sealed text is recovered exactly when the write key is
      among the candidates. */
  lemma {:induction false} DecryptsExactlyWhen(l: Library, dek: Bytes, nonce: Bytes, plain: Bytes, aad: Bytes,
                                               candidates: seq<Bytes>)
    requires LawfulAead(l)
    ensures TryDecrypt(l, l.seal(dek, nonce, plain, aad), candidates, aad) ==
            if dek in candidates then Some(plain) else None
    decreases |candidates|
  {
    if candidates != [] {
      DecryptsExactlyWhen(l, dek, nonce, plain, aad, candidates[1..]);
    }
  }

  function OpenField(l: Library, field: Bytes, candidates: seq<Bytes>, aad: Bytes): Outcome<Bytes> {
    if field == [] then Done([])
    else match l.unquote(field)
      case None => Failed(Corrupted)
      case Some(text) =>
        match l.unb64(text)
        case None => Failed(Corrupted)
        case Some(c) =>
          match TryDecrypt(l, c, candidates, aad)
          case None => Failed(DecryptionFailed)
          case Some(plain) => Done(plain)
  }

  function OpenInline(l: Library, blob: Bytes, candidates: seq<Bytes>, aad: Bytes): Outcome<Bytes> {
    if blob == [] then Done([])
    else match TryDecrypt(l, blob, candidates, aad)
      case None => Failed(DecryptionFailed)
      case Some(plain) => Done(plain)
  }

  function Unsealed(l: Library, m: Manifest, candidates: seq<Bytes>, header: Bytes): Outcome<Manifest> {
    match OpenField(l, m.ext, candidates, BlockAAD(header, TagExt))
    case Failed(e) => Failed(e)
    case Done(ext) =>
      match OpenField(l, m.usr, candidates, BlockAAD(header, TagUsr))
      case Failed(e) => Failed(e)
      case Done(usr) =>
        match OpenInline(l, m.inlineBlob, candidates, BlockAAD(header, TagInline))
        case Failed(e) => Failed(e)
        case Done(blob) => Done(m.(ext := ext, usr := usr, inlineBlob := blob))
  }

  // ---- The codec ----

  const MaxManifestSize := 33_554_432

  function EncodeBody(l: Library, m: Manifest, crypto: string, dek: Bytes, header: Bytes, n: Nonces): Outcome<Bytes> {
    if crypto == "Sealed" then MarshalBody(l, Sealed(l, m, dek, header, n))
    else if crypto == "Paranoid" then
      match MarshalBody(l, m)
      case Failed(e) => Failed(e)
      case Done(plain) => Done(l.seal(dek, n.inline, plain, header))
    else MarshalBody(l, m)
  }

  function Encode(l: Library, m: Manifest, encoding: string, crypto: string, dek: Bytes, keyID: Bytes, n: Nonces)
    : Outcome<Bytes>
  {
    var plain := crypto == "" || crypto == "Plain";
    if !plain && dek == [] then Failed(EmptyDek)
    else if Validate(m).Failed? then Failed(Validate(m).why)
    else match WriteHeader(FileHeader(encoding, crypto, if plain then [] else keyID))
      case Err(e) => Failed(BadHeader(e))
      case Ok(header) =>
        match EncodeBody(l, m, crypto, dek, header, n)
        case Failed(e) => Failed(e)
        case Done(body) => Done(header + body)
  }

  // Each kind of manifest, by what it must and must not carry.

  predicate IsUserArtifact(m: Manifest) {
    m.artifactID != "" && m.name == "" && (m.identityMetaHash != "" || m.identityNonce != [])
  }

  predicate IsSystemArtifact(m: Manifest) {
    && m.artifactID == "" && m.name != "" && m.identityMetaHash == "" && m.identityNonce == []
    && m.inlineBlob != [] && m.blobStorage == "Inline"
  }

  predicate IsContainer(m: Manifest) {
    && m.artifactID == "" && m.name == "" && m.identityMetaHash == "" && m.identityNonce == []
    && m.inlineBlob == [] && m.blobRefs != []
  }

  /** A manifest may be written: it is of one kind, an inline one names no blob, and its edges are
      within bounds, non-empty and distinct. */
  ghost predicate WellFormed(m: Manifest) {
    && (IsUserArtifact(m) || IsSystemArtifact(m) || IsContainer(m))
    && (m.blobStorage == "Inline" ==> m.blobRefs == [])
    && |m.blobRefs| <= 65535 && |m.handleRefs| <= 65535
    && "" !in m.handleRefs && |set r | r in m.handleRefs| == |m.handleRefs|
  }

  lemma {:induction false} DistinctCount(refs: seq<string>)
    ensures |set r | r in refs| <= |refs|
    ensures |set r | r in refs| == |refs| <==> forall i, j :: 0 <= i < j < |refs| ==> refs[i] != refs[j]
    decreases |refs|
  {
    if refs != [] {
      var init, last := refs[..|refs| - 1], refs[|refs| - 1];
      DistinctCount(init);
      assert refs == init + [last];
      assert (set r | r in refs) == (set r | r in init) + {last};
      if last in init {
        var i :| 0 <= i < |init| && init[i] == last;
        assert refs[i] == refs[|refs| - 1];
      } else {
        assert forall i :: 0 <= i < |init| ==> refs[i] == init[i] && init[i] in init;
      }
    }
  }

  lemma ValidatesExactlyWhen(m: Manifest)
    ensures Validate(m).Done? <==> WellFormed(m)
    ensures Validate(m) == Failed(TooManyRefs) <==> |m.blobRefs| > 65535 || |m.handleRefs| > 65535
    ensures Validate(m) == Failed(InvalidHandleRef) <==>
            && |m.blobRefs| <= 65535 && |m.handleRefs| <= 65535
            && ("" in m.handleRefs || |set r | r in m.handleRefs| != |m.handleRefs|)
    ensures Validate(m).Failed? ==> Validate(m).why in {TooManyRefs, InvalidHandleRef, InvalidManifestSlot}
  {
    DistinctCount(m.handleRefs);
    assert "" in m.handleRefs <==> exists i :: 0 <= i < |m.handleRefs| && m.handleRefs[i] == "";
  }

  /** A header can be written and there is a key where one is needed. */
  predicate CanSeal(encoding: string, crypto: string, dek: Bytes, keyID: Bytes) {
    && encoding in {"", "JSON"}
    && (crypto in {"", "Plain"}
        || (crypto in {"Sealed", "Paranoid"} && dek != [] && |keyID| <= 255 && ValidUtf8(keyID)))
  }

  function HeaderFor(encoding: string, crypto: string, keyID: Bytes): Result<Bytes> {
    WriteHeader(FileHeader(encoding, crypto, if crypto == "" || crypto == "Plain" then [] else keyID))
  }

  lemma SealsExactlyWhen(encoding: string, crypto: string, dek: Bytes, keyID: Bytes)
    ensures CanSeal(encoding, crypto, dek, keyID) <==>
            HeaderFor(encoding, crypto, keyID).Ok? && (crypto == "" || crypto == "Plain" || dek != [])
  {
    var plain := crypto == "" || crypto == "Plain";
    WritesExactlyWhen(FileHeader(encoding, crypto, if plain then [] else keyID));
  }

  lemma EncodeSteps(l: Library, m: Manifest, encoding: string, crypto: string, dek: Bytes, keyID: Bytes, n: Nonces)
    ensures var header := HeaderFor(encoding, crypto, keyID);
            Encode(l, m, encoding, crypto, dek, keyID, n).Done? <==>
            && Validate(m).Done? && header.Ok? && (crypto == "" || crypto == "Plain" || dek != [])
            && l.marshal(ToBody(l, if crypto == "Sealed" then Sealed(l, m, dek, header.value, n) else m)).Some?
  {
  }

  /** Exactly which manifests are encoded: well formed, with a key where one is needed, a header that
      can be written, and a body that is JSON. */
  lemma EncodesExactlyWhen(l: Library, m: Manifest, encoding: string, crypto: string, dek: Bytes, keyID: Bytes,
                           n: Nonces)
    ensures var header := HeaderFor(encoding, crypto, keyID);
            Encode(l, m, encoding, crypto, dek, keyID, n).Done? <==>
            && WellFormed(m) && CanSeal(encoding, crypto, dek, keyID) && header.Ok?
            && l.marshal(ToBody(l, if crypto == "Sealed" then Sealed(l, m, dek, header.value, n) else m)).Some?
    ensures Encode(l, m, encoding, crypto, dek, keyID, n) == Failed(EmptyDek) <==> crypto !in {"", "Plain"} && dek == []
  {
    ValidatesExactlyWhen(m);
    SealsExactlyWhen(encoding, crypto, dek, keyID);
    EncodeSteps(l, m, encoding, crypto, dek, keyID, n);
  }

  function OpenSealed(l: Library, body: Bytes, candidates: seq<Bytes>, header: Bytes): Outcome<Manifest> {
    match UnmarshalBody(l, body)
    case Failed(e) => Failed(e)
    case Done(m) => Unsealed(l, m, candidates, header)
  }

  function OpenParanoid(l: Library, body: Bytes, candidates: seq<Bytes>, header: Bytes): Outcome<Manifest> {
    match TryDecrypt(l, body, candidates, header)
    case None => Failed(DecryptionFailed)
    case Some(plain) => UnmarshalBody(l, plain)
  }

  /** `keys` answers a key id with the candidate keys. */
  function DecodeEncrypted(l: Library, data: Bytes, keys: Bytes -> seq<Bytes>): Outcome<Manifest> {
    if |data| > MaxManifestSize then Failed(ManifestTooLarge)
    else match ReadHeader(data)
      case Err(e) => Failed(BadHeader(e))
      case Ok(p) =>
        assert p.end <= |data|;
        var header, body := data[..p.end], data[p.end..];
        if p.header.crypto == "Plain" then UnmarshalBody(l, body)
        else
          var candidates := keys(p.header.keyID);
          if candidates == [] then Failed(KeyNotFound)
          else if p.header.crypto == "Sealed" then OpenSealed(l, body, candidates, header)
          else OpenParanoid(l, body, candidates, header)
  }

  /** What comes back: sealed blocks are byte-exact, the others lose their white space. */
  function Returned(l: Library, m: Manifest, crypto: string): Manifest {
    var s := Stored(l, m);
    if crypto == "Sealed" then s.(ext := m.ext, usr := m.usr) else s
  }

  // ---- Round trips ----

  lemma FieldOpens(l: Library, dek: Bytes, nonce: Bytes, plain: Bytes, aad: Bytes, candidates: seq<Bytes>)
    requires Lawful(l) && dek in candidates
    ensures var field := if plain == [] then [] else l.quote(l.b64(l.seal(dek, nonce, plain, aad)));
            l.compact(field) == field && OpenField(l, field, candidates, aad) == Done(plain)
  {
    DecryptsExactlyWhen(l, dek, nonce, plain, aad, candidates);
    var c := l.seal(dek, nonce, plain, aad);
    assert l.unquote(l.quote(l.b64(c))) == Some(l.b64(c)) && l.unb64(l.b64(c)) == Some(c);
  }

  lemma InlineOpens(l: Library, dek: Bytes, nonce: Bytes, plain: Bytes, aad: Bytes, candidates: seq<Bytes>)
    requires Lawful(l) && dek in candidates
    ensures OpenInline(l, if plain == [] then [] else l.seal(dek, nonce, plain, aad), candidates, aad) == Done(plain)
  {
    DecryptsExactlyWhen(l, dek, nonce, plain, aad, candidates);
  }

  lemma SealedBlocksOpen(l: Library, m: Manifest, dek: Bytes, header: Bytes, n: Nonces, candidates: seq<Bytes>)
    requires Lawful(l) && dek in candidates
    ensures Unsealed(l, Stored(l, Sealed(l, m, dek, header, n)), candidates, header) == Done(Returned(l, m, "Sealed"))
    ensures TimesSurvive(l, Sealed(l, m, dek, header, n)) == TimesSurvive(l, m)
  {
    FieldOpens(l, dek, n.ext, m.ext, BlockAAD(header, TagExt), candidates);
    FieldOpens(l, dek, n.usr, m.usr, BlockAAD(header, TagUsr), candidates);
    InlineOpens(l, dek, n.inline, m.inlineBlob, BlockAAD(header, TagInline), candidates);
  }

  /** Decoding undoes encoding in all three modes, up to what a file does not carry: for every
      manifest that encodes and every list of candidates with the write key in it, the manifest
      comes back exactly when the file is within the read limit and both times have four-digit
      years; the write path checks neither. */
  lemma DecodeUndoesEncode(l: Library, m: Manifest, encoding: string, crypto: string, dek: Bytes, keyID: Bytes,
                           n: Nonces, keys: Bytes -> seq<Bytes>)
    requires Lawful(l) && Encode(l, m, encoding, crypto, dek, keyID, n).Done? && dek in keys(keyID)
    ensures var data := Encode(l, m, encoding, crypto, dek, keyID, n).value;
            DecodeEncrypted(l, data, keys) ==
            if |data| > MaxManifestSize then Failed(ManifestTooLarge)
            else if !TimesSurvive(l, m) then Failed(BadTime)
            else Done(Returned(l, m, crypto))
  {
    var plain := crypto == "" || crypto == "Plain";
    var h := FileHeader(encoding, crypto, if plain then [] else keyID);
    var header := WriteHeader(h).value;
    var body := EncodeBody(l, m, crypto, dek, header, n).value;
    var data := header + body;
    ReadsBackWritten(h, body);
    assert data[..|header|] == header && data[|header|..] == body;
    if crypto == "Sealed" {
      BodyRoundTrip(l, Sealed(l, m, dek, header, n));
      SealedBlocksOpen(l, m, dek, header, n, keys(keyID));
    } else if crypto == "Paranoid" {
      BodyRoundTrip(l, m);
      DecryptsExactlyWhen(l, dek, n.inline, MarshalBody(l, m).value, header, keys(keyID));
    } else {
      BodyRoundTrip(l, m);
    }
  }

  /** Decoding takes a file apart where encoding put it together. */
  lemma DecodesWritten(l: Library, h: FileHeader, body: Bytes, keys: Bytes -> seq<Bytes>)
    requires WriteHeader(h).Ok? && h.crypto in {"Sealed", "Paranoid"}
    ensures var header := WriteHeader(h).value;
            var r, candidates := DecodeEncrypted(l, header + body, keys), keys(h.keyID);
            if |header + body| > MaxManifestSize || candidates == [] then r.Failed?
            else if h.crypto == "Sealed" then r == OpenSealed(l, body, candidates, header)
            else r == OpenParanoid(l, body, candidates, header)
  {
    var header := WriteHeader(h).value;
    ReadsBackWritten(h, body);
    assert (header + body)[..|header|] == header && (header + body)[|header|..] == body;
  }

  /** Without the write key nothing encrypted is read: a Paranoid file never opens, and a Sealed one
      only when none of its blocks was sealed. */
  lemma WrongKeysReadNothing(l: Library, m: Manifest, encoding: string, crypto: string, dek: Bytes, keyID: Bytes,
                             n: Nonces, keys: Bytes -> seq<Bytes>)
    requires Lawful(l) && Encode(l, m, encoding, crypto, dek, keyID, n).Done? && dek !in keys(keyID)
    requires crypto == "Paranoid" || (crypto == "Sealed" && (m.ext != [] || m.usr != [] || m.inlineBlob != []))
    ensures DecodeEncrypted(l, Encode(l, m, encoding, crypto, dek, keyID, n).value, keys).Failed?
  {
    var h := FileHeader(encoding, crypto, keyID);
    var header := WriteHeader(h).value;
    var body := EncodeBody(l, m, crypto, dek, header, n).value;
    DecodesWritten(l, h, body, keys);
    if crypto == "Sealed" {
      BodyRoundTrip(l, Sealed(l, m, dek, header, n));
      SealedBlocksStayShut(l, m, dek, header, n, keys(keyID));
    } else {
      DecryptsExactlyWhen(l, dek, n.inline, MarshalBody(l, m).value, header, keys(keyID));
    }
  }

  lemma SealedBlocksStayShut(l: Library, m: Manifest, dek: Bytes, header: Bytes, n: Nonces, candidates: seq<Bytes>)
    requires Lawful(l) && dek !in candidates && (m.ext != [] || m.usr != [] || m.inlineBlob != [])
    ensures Unsealed(l, Stored(l, Sealed(l, m, dek, header, n)), candidates, header).Failed?
  {
    FieldStaysShut(l, dek, n.ext, m.ext, BlockAAD(header, TagExt), candidates);
    FieldStaysShut(l, dek, n.usr, m.usr, BlockAAD(header, TagUsr), candidates);
    DecryptsExactlyWhen(l, dek, n.inline, m.inlineBlob, BlockAAD(header, TagInline), candidates);
  }

  lemma FieldStaysShut(l: Library, dek: Bytes, nonce: Bytes, plain: Bytes, aad: Bytes, candidates: seq<Bytes>)
    requires Lawful(l) && dek !in candidates
    ensures var field := if plain == [] then [] else l.quote(l.b64(l.seal(dek, nonce, plain, aad)));
            l.compact(field) == field && (plain != [] ==> OpenField(l, field, candidates, aad).Failed?)
  {
    DecryptsExactlyWhen(l, dek, nonce, plain, aad, candidates);
    var c := l.seal(dek, nonce, plain, aad);
    assert l.unquote(l.quote(l.b64(c))) == Some(l.b64(c)) && l.unb64(l.b64(c)) == Some(c);
  }

  // ---- Files that hash to their name and are still reported as corrupted ----

  /** A sealed field that is there and is not the JSON string of a base64 text. */
  predicate Garbled(l: Library, field: Bytes) {
    field != [] && (l.unquote(field).None? || l.unb64(l.unquote(field).value).None?)
  }

  /** The decoder meets a garbled block: `ext`, or `usr` once `ext` is absent or opened. */
  predicate BlocksGarbled(l: Library, m: Manifest, candidates: seq<Bytes>, header: Bytes) {
    Garbled(l, m.ext) || (OpenField(l, m.ext, candidates, BlockAAD(header, TagExt)).Done? && Garbled(l, m.usr))
  }

  /** A Sealed file whose key id yields candidates, whose body parses and has a garbled block. */
  predicate GarbledFile(l: Library, data: Bytes, keys: Bytes -> seq<Bytes>) {
    && |data| <= MaxManifestSize && ReadHeader(data).Ok?
    && var p := ReadHeader(data).value;
       && p.end <= |data| && p.header.crypto == "Sealed" && keys(p.header.keyID) != []
       && UnmarshalBody(l, data[p.end..]).Done?
       && BlocksGarbled(l, UnmarshalBody(l, data[p.end..]).value, keys(p.header.keyID), data[..p.end])
  }

  /** Exactly when decoding reports corruption, which it does without looking at any hash. */
  lemma CorruptedExactlyWhen(l: Library, data: Bytes, keys: Bytes -> seq<Bytes>)
    ensures DecodeEncrypted(l, data, keys) == Failed(Corrupted) <==> GarbledFile(l, data, keys)
  {
    if |data| <= MaxManifestSize && ReadHeader(data).Ok? {
      var p := ReadHeader(data).value;
      var body := UnmarshalBody(l, data[p.end..]);
      assert body != Failed(Corrupted);
      if body.Done? { FieldCorruptedExactlyWhen(l, body.value, keys(p.header.keyID), data[..p.end]); }
    }
  }

  lemma FieldCorruptedExactlyWhen(l: Library, m: Manifest, candidates: seq<Bytes>, header: Bytes)
    ensures Unsealed(l, m, candidates, header) == Failed(Corrupted) <==> BlocksGarbled(l, m, candidates, header)
  {
  }

  /** No file this codec writes is ever reported as corrupted, whatever keys it is read with. */
  lemma EncodedIsNeverCorrupted(l: Library, m: Manifest, encoding: string, crypto: string, dek: Bytes, keyID: Bytes,
                                n: Nonces, keys: Bytes -> seq<Bytes>)
    requires Lawful(l) && Encode(l, m, encoding, crypto, dek, keyID, n).Done?
    ensures DecodeEncrypted(l, Encode(l, m, encoding, crypto, dek, keyID, n).value, keys) != Failed(Corrupted)
  {
    var plain := crypto == "" || crypto == "Plain";
    var h := FileHeader(encoding, crypto, if plain then [] else keyID);
    var header := WriteHeader(h).value;
    var body := EncodeBody(l, m, crypto, dek, header, n).value;
    var data := header + body;
    ReadsBackWritten(h, body);
    assert data[..|header|] == header && data[|header|..] == body;
    CorruptedExactlyWhen(l, data, keys);
    if crypto == "Sealed" {
      BodyRoundTrip(l, Sealed(l, m, dek, header, n));
      SealedIsNotGarbled(l, dek, n.ext, m.ext, BlockAAD(header, TagExt));
      SealedIsNotGarbled(l, dek, n.usr, m.usr, BlockAAD(header, TagUsr));
    }
  }

  lemma SealedIsNotGarbled(l: Library, dek: Bytes, nonce: Bytes, plain: Bytes, aad: Bytes)
    requires Lawful(l)
    ensures var field := if plain == [] then [] else l.quote(l.b64(l.seal(dek, nonce, plain, aad)));
            l.compact(field) == field && !Garbled(l, field)
  {
    var c := l.seal(dek, nonce, plain, aad);
    assert l.unquote(l.quote(l.b64(c))) == Some(l.b64(c)) && l.unb64(l.b64(c)) == Some(c);
  }

  /** Such a file: any manifest written under a Sealed header without sealing its `ext`, when that is
      not by chance the JSON string of a base64 text. */
  lemma UnsealedExtIsCorrupted(l: Library, m: Manifest, encoding: string, keyID: Bytes, keys: Bytes -> seq<Bytes>)
    requires Lawful(l) && MarshalBody(l, m).Done? && TimesSurvive(l, m) && Garbled(l, l.compact(m.ext))
    requires WriteHeader(FileHeader(encoding, "Sealed", keyID)).Ok? && keys(keyID) != []
    requires |WriteHeader(FileHeader(encoding, "Sealed", keyID)).value + MarshalBody(l, m).value| <= MaxManifestSize
    ensures var data := WriteHeader(FileHeader(encoding, "Sealed", keyID)).value + MarshalBody(l, m).value;
            GarbledFile(l, data, keys) && DecodeEncrypted(l, data, keys) == Failed(Corrupted)
  {
    var h := FileHeader(encoding, "Sealed", keyID);
    var header, body := WriteHeader(h).value, MarshalBody(l, m).value;
    var data := header + body;
    ReadsBackWritten(h, body);
    assert data[..|header|] == header && data[|header|..] == body;
    BodyRoundTrip(l, m);
    CorruptedExactlyWhen(l, data, keys);
  }
}
