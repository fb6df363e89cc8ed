/** The reconciliation over real manifest files: what decides whether a file the index does not know is
    read in, left alone or deleted (engine/store/ingest_manifest.go, engine/internal/cas/read.go,
    engine/store/internal/orphanscan/orphanscan.go). */
module Ingestion {
  import opened Basics
  import Codec = ManifestCodec
  import opened StoreIndex
  import opened TruthCache

  /** The bytes of the files, and the keys in force: `content` names a file's bytes by its digest. */
  datatype Disk = Disk(lib: Codec.Library, content: Manifest -> Bytes, keys: Bytes -> seq<Bytes>)

  /** The whole files whose decoding reports corruption. */
  function Malformed(disk: Disk, files: set<Manifest>): set<Manifest> {
    set f | f in files && Codec.DecodeEncrypted(disk.lib, disk.content(f), disk.keys) == Codec.Failed(Codec.Corrupted)
  }

  /** Exactly which whole files the pass deletes: listed, unknown to the index, removable, Sealed, with
      candidates for their key id, and with a block that is not quoted base64 where the decoder
      reaches it.  Their bytes hash to their name. */
  lemma DeletedExactlyWhen(disk: Disk, d: Media, x: Reading, listing: seq<Manifest>, f: Manifest)
    requires d.whole !! d.torn && f in d.whole && x.malformed == Malformed(disk, d.whole)
    ensures f !in Reconciled(d, x, listing).whole <==>
            && f in listing && f !in d.idx.rows && f !in x.trouble
            && Codec.GarbledFile(disk.lib, disk.content(f), disk.keys)
  {
    ReconcileEffect(d, x, listing);
    Codec.CorruptedExactlyWhen(disk.lib, disk.content(f), disk.keys);
  }

  /** Over every run: a manifest written by this codec is lost only to a delete, as long as each open
      reads the files as they are. */
  lemma WrittenManifestsAreDurable(disk: Disk, s: Store, run: seq<Event>, f: Manifest, m: Codec.Manifest,
                                   encoding: string, crypto: string, dek: Bytes, keyID: Bytes, n: Codec.Nonces)
    requires Disjoint(s) && IsRun(s, run) && f in s.media.whole && Codec.Lawful(disk.lib)
    requires Codec.Encode(disk.lib, m, encoding, crypto, dek, keyID, n) == Codec.Done(disk.content(f))
    requires forall e :: e in run && (e.Open? || e.OpenAborted?) && f in e.args.reading.malformed ==>
               exists keys :: f in Malformed(disk.(keys := keys), {f})
    requires DeleteFile(f) !in run && ExternalFile(f) !in run
    ensures f in Exec(s, run).media.whole
  {
    forall keys ensures f !in Malformed(disk.(keys := keys), {f}) {
      Codec.EncodedIsNeverCorrupted(disk.lib, m, encoding, crypto, dek, keyID, n, keys);
    }
    NoneRemoves(s, run, f);
    NothingLost(s, run, f);
  }

  lemma {:induction false} NoneRemoves(s: Store, run: seq<Event>, f: Manifest)
    requires forall e :: e in run && (e.Open? || e.OpenAborted?) ==> f !in e.args.reading.malformed
    requires DeleteFile(f) !in run && ExternalFile(f) !in run
    ensures NeverRemoved(s, run, f)
    decreases |run|
  {
    if run != [] {
      assert run[0] in run && forall e :: e in run[1..] ==> e in run;
      NoneRemoves(Apply(s, run[0]), run[1..], f);
    }
  }
}
