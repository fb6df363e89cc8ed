/** The store configuration: its field table, defaults, checks and comparison (config/registry.go,
    config/model.go). */
module StoreConfig {
  import opened CryptoIdentity

  datatype Field =
    | PathTopology | ManifestEncoding | ManifestCrypto | EncryptedDedup | ContentHasher | SegmentSize
    | IdentityMode | DeletionPolicyLock
    | DeletionPolicy | RetentionPeriod | TombstoneGracePeriod | GCLeasePolicy | SessionOverrides | MaxArtifactSize
    | BlobStorage | VerifyOnRead | InlineBlobLimit | PackAlignment | EagerFetchLimit

  datatype Class = Immutable | Governance | Session

  datatype Value = Text(s: string) | Number(n: int) | Flag(b: bool)

  /** The rows of the table, in its order. */
  const Registry: seq<Field> := [
    PathTopology, ManifestEncoding, ManifestCrypto, EncryptedDedup, ContentHasher, SegmentSize,
    IdentityMode, DeletionPolicyLock,
    DeletionPolicy, RetentionPeriod, TombstoneGracePeriod, GCLeasePolicy, SessionOverrides, MaxArtifactSize,
    BlobStorage, VerifyOnRead, InlineBlobLimit, PackAlignment, EagerFetchLimit]

  function Zero(f: Field): Value {
    match f
    case DeletionPolicyLock => Flag(false)
    case SegmentSize | RetentionPeriod | TombstoneGracePeriod | MaxArtifactSize
      | InlineBlobLimit | PackAlignment | EagerFetchLimit => Number(0)
    case _ => Text("")
  }

  function ClassOf(f: Field): Class {
    match f
    case PathTopology | ManifestEncoding | ManifestCrypto | EncryptedDedup | ContentHasher | SegmentSize
      | IdentityMode | DeletionPolicyLock => Immutable
    case DeletionPolicy | RetentionPeriod | TombstoneGracePeriod | GCLeasePolicy | SessionOverrides
      | MaxArtifactSize => Governance
    case _ => Session
  }

  lemma FieldClasses(f: Field)
    ensures ClassOf(f) == Immutable <==>
            f in {PathTopology, ManifestEncoding, ManifestCrypto, EncryptedDedup, ContentHasher, SegmentSize,
                  IdentityMode, DeletionPolicyLock}
    ensures ClassOf(f) == Session <==> f in {BlobStorage, VerifyOnRead, InlineBlobLimit, PackAlignment, EagerFetchLimit}
  {
  }

  /** A field without an entry is zero; `kdf` is 0 when no KDF parameters are given. */
  datatype Config = Config(vals: map<Field, Value>, pipeline: seq<string>, kdf: nat)

  function Get(c: Config, f: Field): Value {
    if f in c.vals then c.vals[f] else Zero(f)
  }

  function With(c: Config, f: Field, v: Value): Config {
    c.(vals := c.vals[f := v])
  }

  predicate Populated(c: Config, f: Field) {
    Get(c, f) != Zero(f)
  }

  predicate HasCrypto(p: seq<string>) {
    exists i :: 0 <= i < |p| && IsCryptoAlgorithm(p[i])
  }

  predicate IsEncrypting(c: Config) {
    (Get(c, ManifestCrypto) != Text("") && Get(c, ManifestCrypto) != Text("Plain")) || HasCrypto(c.pipeline)
  }

  /** A store encrypts exactly when its manifests are sealed or some stage of its pipeline encrypts. */
  lemma EncryptsExactlyWhen(c: Config)
    ensures IsEncrypting(c) <==>
            || Get(c, ManifestCrypto) !in {Text(""), Text("Plain")}
            || exists a :: a in c.pipeline && IsCryptoAlgorithm(a)
  {
    if a :| a in c.pipeline && IsCryptoAlgorithm(a) {
      var i :| 0 <= i < |c.pipeline| && c.pipeline[i] == a;
    }
  }

  const Hour := 3_600_000_000_000

  // ---- Defaults ----

  /** The value the row of f gives to a field that is zero; Zero(f) when it gives none. */
  function DefaultValue(encrypting: bool, f: Field): Value {
    match f
    case PathTopology => Text("Sharded")
    case ManifestEncoding => Text("JSON")
    case ManifestCrypto => Text("Plain")
    case EncryptedDedup => if encrypting then Text("Disabled") else Text("")
    case ContentHasher => Text("sha256")
    case SegmentSize => if encrypting then Number(1_048_576) else Number(0)
    case DeletionPolicy => Text("Free")
    case TombstoneGracePeriod => Number(24 * Hour)
    case GCLeasePolicy => Text("Auto")
    case SessionOverrides => Text("Allow")
    case BlobStorage => Text("Target")
    case VerifyOnRead => Text("Auto")
    case PackAlignment => Number(-1)
    case _ => Zero(f)
  }

  function ApplyDefault(c: Config, f: Field): Config {
    var v := DefaultValue(IsEncrypting(c), f);
    if v != Zero(f) && !Populated(c, f) then With(c, f, v) else c
  }

  /** The loop over the rows. */
  function ApplyRows(c: Config, rows: seq<Field>): Config
    decreases |rows|
  {
    if rows == [] then c else ApplyDefault(ApplyRows(c, rows[..|rows| - 1]), rows[|rows| - 1])
  }

  predicate Wants(c: Config, f: Field) {
    !Populated(c, f) && DefaultValue(IsEncrypting(c), f) != Zero(f)
  }

  /** The same, all listed fields at once and each judged by the original configuration. */
  function Filled(c: Config, rows: seq<Field>): Config {
    c.(vals := c.vals + map f | f in rows && Wants(c, f) :: DefaultValue(IsEncrypting(c), f))
  }

  function Defaulted(c: Config): Config {
    Filled(c, Registry)
  }

  method ApplyDefaults(cfg: Config) returns (r: Config)
    ensures r == Defaulted(cfg)
  {
    r := cfg;
    var i := 0;
    while i < |Registry|
      invariant 0 <= i <= |Registry|
      invariant r == ApplyRows(cfg, Registry[..i])
    {
      assert Registry[..i + 1][..i] == Registry[..i];
      r := ApplyDefault(r, Registry[i]);
      i := i + 1;
    }
    assert Registry[..i] == Registry;
    RowsFill(cfg, Registry);
  }

  /** No field is without a row. */
  lemma HasRow(f: Field)
    ensures f in Registry
  {
    assert Registry[RowOf(f)] == f;
  }

  function RowOf(f: Field): (i: nat)
    ensures i < |Registry|
  {
    match f
    case PathTopology => 0
    case ManifestEncoding => 1
    case ManifestCrypto => 2
    case EncryptedDedup => 3
    case ContentHasher => 4
    case SegmentSize => 5
    case IdentityMode => 6
    case DeletionPolicyLock => 7
    case DeletionPolicy => 8
    case RetentionPeriod => 9
    case TombstoneGracePeriod => 10
    case GCLeasePolicy => 11
    case SessionOverrides => 12
    case MaxArtifactSize => 13
    case BlobStorage => 14
    case VerifyOnRead => 15
    case InlineBlobLimit => 16
    case PackAlignment => 17
    case EagerFetchLimit => 18
  }

  /** Filling does not change whether the configuration encrypts, so no row sees the effect of
      another. */
  lemma FilledAt(c: Config, rows: seq<Field>, f: Field)
    ensures var r := Filled(c, rows);
            && Get(r, f) == (if f in rows && !Populated(c, f) then DefaultValue(IsEncrypting(c), f) else Get(c, f))
            && IsEncrypting(r) == IsEncrypting(c)
  {
  }

  lemma {:induction false} RowsFill(c: Config, rows: seq<Field>)
    ensures ApplyRows(c, rows) == Filled(c, rows)
    decreases |rows|
  {
    if rows == [] {
      assert Filled(c, rows).vals == c.vals;
    } else {
      var init, last := rows[..|rows| - 1], rows[|rows| - 1];
      assert rows == init + [last];
      RowsFill(c, init);
      OneMoreRow(c, init, last);
    }
  }

  lemma RowEffect(c: Config, rows: seq<Field>, f: Field)
    ensures ApplyDefault(Filled(c, rows), f) ==
            if Wants(c, f) && f !in rows then With(Filled(c, rows), f, DefaultValue(IsEncrypting(c), f))
            else Filled(c, rows)
  {
    FilledAt(c, rows, f);
  }

  lemma FilledOneMore(c: Config, rows: seq<Field>, f: Field)
    requires Wants(c, f) && f !in rows
    ensures Filled(c, rows + [f]) == With(Filled(c, rows), f, DefaultValue(IsEncrypting(c), f))
  {
    var l, r := Filled(c, rows + [f]).vals, Filled(c, rows).vals[f := DefaultValue(IsEncrypting(c), f)];
    assert l.Keys == r.Keys;
    assert l == r;
  }

  lemma OneMoreRow(c: Config, rows: seq<Field>, f: Field)
    ensures ApplyDefault(Filled(c, rows), f) == Filled(c, rows + [f])
  {
    RowEffect(c, rows, f);
    if Wants(c, f) && f !in rows {
      FilledOneMore(c, rows, f);
    } else {
      SameFilled(c, rows, rows + [f]);
    }
  }

  lemma SameFilled(c: Config, rows: seq<Field>, more: seq<Field>)
    requires forall f: Field :: Wants(c, f) ==> (f in rows <==> f in more)
    ensures Filled(c, rows) == Filled(c, more)
  {
    assert Filled(c, rows).vals == Filled(c, more).vals;
  }

  /** The single forward pass gives the same configuration in whatever order the rows stand, as long
      as every field has one. */
  lemma AnyOrder(c: Config, rows: seq<Field>)
    requires forall f: Field :: f in rows
    ensures ApplyRows(c, rows) == Defaulted(c)
  {
    RowsFill(c, rows);
    forall f: Field ensures f in Registry { HasRow(f); }
    SameFilled(c, rows, Registry);
  }

  /** What a host gets for a field it leaves at zero; two of them depend on whether the store encrypts
      anything, which no default changes. */
  lemma DefaultsAre(c: Config, f: Field)
    requires !Populated(c, f)
    ensures IsEncrypting(Defaulted(c)) == IsEncrypting(c)
    ensures var v := Get(Defaulted(c), f);
            && (f == PathTopology ==> v == Text("Sharded"))
            && (f == ManifestEncoding ==> v == Text("JSON"))
            && (f == ManifestCrypto ==> v == Text("Plain"))
            && (f == EncryptedDedup ==> v == Text(if IsEncrypting(c) then "Disabled" else ""))
            && (f == ContentHasher ==> v == Text("sha256"))
            && (f == SegmentSize ==> v == Number(if IsEncrypting(c) then 1_048_576 else 0))
            && (f == DeletionPolicy ==> v == Text("Free"))
            && (f == TombstoneGracePeriod ==> v == Number(86_400_000_000_000))
            && (f == SessionOverrides ==> v == Text("Allow"))
            && (f == BlobStorage ==> v == Text("Target"))
            && (f == GCLeasePolicy || f == VerifyOnRead ==> v == Text("Auto"))
            && (f == PackAlignment ==> v == Number(-1))
            && (f in {IdentityMode, DeletionPolicyLock, RetentionPeriod, MaxArtifactSize} ==> v == Zero(f))
            && (f in {InlineBlobLimit, EagerFetchLimit} ==> v == Number(0))
  {
    DefaultedAt(c, f);
  }

  lemma DefaultedAt(c: Config, f: Field)
    ensures Get(Defaulted(c), f) == if Populated(c, f) then Get(c, f) else DefaultValue(IsEncrypting(c), f)
    ensures IsEncrypting(Defaulted(c)) == IsEncrypting(c)
  {
    HasRow(f);
    FilledAt(c, Registry, f);
  }

  lemma NothingWanted(c: Config, rows: seq<Field>)
    requires forall f: Field :: !Wants(c, f)
    ensures Filled(c, rows) == c
  {
    assert Filled(c, rows).vals == c.vals;
  }

  /** Defaulting twice is defaulting once. */
  lemma DefaultedTwice(c: Config)
    ensures Defaulted(Defaulted(c)) == Defaulted(c)
  {
    forall f: Field ensures !Wants(Defaulted(c), f) { DefaultedAt(c, f); }
    NothingWanted(Defaulted(c), Registry);
  }

  /** The KDF parameters do not enter into defaulting. */
  lemma DefaultedIgnoresKdf(c: Config, kdf: nat)
    ensures Defaulted(c.(kdf := kdf)) == Defaulted(c).(kdf := kdf)
  {
    assert Filled(c.(kdf := kdf), Registry).vals == Filled(c, Registry).vals;
  }

  // ---- Checks and comparison ----

  predicate OneOf(v: Value, allowed: seq<string>) {
    v.Text? && (v.s == "" || v.s in allowed)
  }

  /** A zero passes every check. */
  predicate Check(f: Field, v: Value) {
    match f
    case PathTopology => OneOf(v, ["Flat", "Sharded"])
    case ManifestEncoding => OneOf(v, ["JSON"])
    case ManifestCrypto => OneOf(v, ["Plain", "Sealed", "Paranoid"])
    case EncryptedDedup => OneOf(v, ["Disabled", "Convergent"])
    case ContentHasher => OneOf(v, ["sha256", "blake3"])
    case SegmentSize => v.Number? && (v.n == 0 || 4_096 <= v.n <= 1_073_741_824)
    case IdentityMode => OneOf(v, ["unique", "coalesced"])
    case DeletionPolicyLock => v.Flag?
    case DeletionPolicy => OneOf(v, ["Free", "Retention", "NoDelete"])
    case RetentionPeriod => v.Number? && (v.n == 0 || Hour <= v.n)
    case TombstoneGracePeriod => v.Number? && (v.n == 0 || Hour <= v.n)
    case GCLeasePolicy => OneOf(v, ["Auto", "SingleHost", "LeaderElection"])
    case SessionOverrides => OneOf(v, ["Allow", "Deny"])
    case MaxArtifactSize => v.Number? && 0 <= v.n
    case BlobStorage => OneOf(v, ["Target", "Inline"])
    case VerifyOnRead => OneOf(v, ["Auto", "ForceEnabled", "Disabled"])
    case InlineBlobLimit => v.Number? && v.n <= 65_536
    case PackAlignment => v.Number? && v.n in {-1, 0, 512, 4_096}
    case EagerFetchLimit => v.Number?
  }

  ghost predicate Valid(c: Config) {
    forall f: Field :: Check(f, Get(c, f))
  }

  // What a valid configuration may hold, field by field; unset is always legal.

  ghost predicate LegalFixed(c: Config) {
    && Get(c, PathTopology) in {Text(""), Text("Flat"), Text("Sharded")}
    && Get(c, ManifestEncoding) in {Text(""), Text("JSON")}
    && Get(c, ManifestCrypto) in {Text(""), Text("Plain"), Text("Sealed"), Text("Paranoid")}
    && Get(c, EncryptedDedup) in {Text(""), Text("Disabled"), Text("Convergent")}
    && Get(c, ContentHasher) in {Text(""), Text("sha256"), Text("blake3")}
    && (exists n :: Get(c, SegmentSize) == Number(n) && (n == 0 || 4_096 <= n <= 1_073_741_824))
    && Get(c, IdentityMode) in {Text(""), Text("unique"), Text("coalesced")}
    && Get(c, DeletionPolicyLock) in {Flag(false), Flag(true)}
  }

  ghost predicate LegalGoverned(c: Config) {
    && Get(c, DeletionPolicy) in {Text(""), Text("Free"), Text("Retention"), Text("NoDelete")}
    && (exists n :: Get(c, RetentionPeriod) == Number(n) && (n == 0 || Hour <= n))
    && (exists n :: Get(c, TombstoneGracePeriod) == Number(n) && (n == 0 || Hour <= n))
    && Get(c, GCLeasePolicy) in {Text(""), Text("Auto"), Text("SingleHost"), Text("LeaderElection")}
    && Get(c, SessionOverrides) in {Text(""), Text("Allow"), Text("Deny")}
    && (exists n :: Get(c, MaxArtifactSize) == Number(n) && 0 <= n)
  }

  ghost predicate LegalSession(c: Config) {
    && Get(c, BlobStorage) in {Text(""), Text("Target"), Text("Inline")}
    && Get(c, VerifyOnRead) in {Text(""), Text("Auto"), Text("ForceEnabled"), Text("Disabled")}
    && (exists n :: Get(c, InlineBlobLimit) == Number(n) && n <= 65_536)
    && Get(c, PackAlignment) in {Number(-1), Number(0), Number(512), Number(4_096)}
    && Get(c, EagerFetchLimit).Number?
  }

  ghost predicate Legal(c: Config) {
    LegalFixed(c) && LegalGoverned(c) && LegalSession(c)
  }

  /** The table of checks says exactly that. */
  lemma ValidExactlyWhen(c: Config)
    ensures Valid(c) <==> Legal(c)
  {
    if Legal(c) {
      forall f: Field ensures Check(f, Get(c, f)) { LegalField(c, f); }
    }
    if Valid(c) {
      ValidIsFixed(c);
      ValidIsGoverned(c);
      ValidIsSession(c);
    }
  }

  lemma LegalField(c: Config, f: Field)
    requires Legal(c)
    ensures Check(f, Get(c, f))
  {
  }

  lemma ValidIsFixed(c: Config)
    requires Valid(c)
    ensures LegalFixed(c)
  {
    assert Check(PathTopology, Get(c, PathTopology)) && Check(ManifestEncoding, Get(c, ManifestEncoding));
    assert Check(ManifestCrypto, Get(c, ManifestCrypto)) && Check(EncryptedDedup, Get(c, EncryptedDedup));
    assert Check(ContentHasher, Get(c, ContentHasher)) && Check(SegmentSize, Get(c, SegmentSize));
    assert Check(IdentityMode, Get(c, IdentityMode)) && Check(DeletionPolicyLock, Get(c, DeletionPolicyLock));
  }

  lemma ValidIsGoverned(c: Config)
    requires Valid(c)
    ensures LegalGoverned(c)
  {
    assert Check(DeletionPolicy, Get(c, DeletionPolicy)) && Check(RetentionPeriod, Get(c, RetentionPeriod));
    assert Check(TombstoneGracePeriod, Get(c, TombstoneGracePeriod)) && Check(GCLeasePolicy, Get(c, GCLeasePolicy));
    assert Check(SessionOverrides, Get(c, SessionOverrides)) && Check(MaxArtifactSize, Get(c, MaxArtifactSize));
  }

  lemma ValidIsSession(c: Config)
    requires Valid(c)
    ensures LegalSession(c)
  {
    assert Check(BlobStorage, Get(c, BlobStorage)) && Check(VerifyOnRead, Get(c, VerifyOnRead));
    assert Check(InlineBlobLimit, Get(c, InlineBlobLimit)) && Check(PackAlignment, Get(c, PackAlignment));
    assert Check(EagerFetchLimit, Get(c, EagerFetchLimit));
  }

  /** Populated and different. */
  predicate Diverges(req: Config, active: Config, f: Field) {
    Populated(req, f) && Get(req, f) != Get(active, f)
  }

  ghost predicate Agrees(req: Config, active: Config, k: Class) {
    forall f: Field :: ClassOf(f) == k ==> !Diverges(req, active, f)
  }

  method ValidateImmutable(c: Config) returns (ok: bool)
    ensures ok == Valid(c)
  {
    var i := 0;
    while i < |Registry|
      invariant 0 <= i <= |Registry|
      invariant forall j :: 0 <= j < i ==> Check(Registry[j], Get(c, Registry[j]))
    {
      if !Check(Registry[i], Get(c, Registry[i])) { return false; }
      i := i + 1;
    }
    forall f: Field ensures Check(f, Get(c, f)) { HasRow(f); }
    ok := true;
  }

  /** The diverging fields of one class, in the order of the table. */
  method DivergentByClass(req: Config, active: Config, k: Class) returns (out: seq<Field>)
    ensures forall f: Field :: f in out <==> ClassOf(f) == k && Diverges(req, active, f)
    ensures out == [] <==> Agrees(req, active, k)
  {
    out := [];
    var i := 0;
    while i < |Registry|
      invariant 0 <= i <= |Registry|
      invariant forall f: Field :: f in out <==> f in Registry[..i] && ClassOf(f) == k && Diverges(req, active, f)
    {
      var f := Registry[i];
      assert Registry[..i + 1] == Registry[..i] + [f];
      if ClassOf(f) == k && Diverges(req, active, f) { out := out + [f]; }
      i := i + 1;
    }
    assert Registry[..i] == Registry;
    forall f: Field ensures f in Registry { HasRow(f); }
    if out != [] { assert out[0] in out; }
  }

  /** The defaults pass the checks, so defaulting a valid configuration keeps it valid. */
  lemma DefaultsAreValid(c: Config)
    requires Valid(c)
    ensures Valid(Defaulted(c))
  {
    forall f: Field ensures Check(f, Get(Defaulted(c), f)) {
      DefaultedAt(c, f);
      DefaultPasses(IsEncrypting(c), f);
      assert Check(f, Get(c, f));
    }
  }

  lemma DefaultPasses(encrypting: bool, f: Field)
    ensures Check(f, DefaultValue(encrypting, f)) && Check(f, Zero(f))
  {
  }
}
