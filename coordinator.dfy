/**
 * The store coordinator (the handlers of cmd/main.go) without HTTP: the upload rule
 * that decides between reuse, write-then-index and rejection, and the three read
 * paths. The upload handler runs under the process-wide exclusive lock, so each
 * handler is one atomic step over the three stores.
 */
module Coordinator {
  import opened Wrappers
  import opened KeyValue
  import opened FileRefs
  import opened HashLinker
  import opened Blobs

  /** `hasher` renders an MD5 sum as lower-case hex: 32 characters. */
  type Digest = s: string | |s| == 32 witness "00000000000000000000000000000000"

  /**
   * The library functions the handlers call but the model does not define: the content
   * digest (deterministic, otherwise unknown) and `path.Base`.
   */
  datatype Env = Env(digestOf: string -> Digest, baseName: string -> string)

  /** The error category a handler answers with (400, 404, 503). */
  datatype Failure = BadRequest | NotFound | ServiceUnavailable

  /** The decoded upload body: content, client path, and an optional digest. */
  datatype UploadRequest = UploadRequest(body: string, path: string, hash: string)

  /** The three stores a handler sees: digest index, blob store, reference catalog. */
  datatype Store = Store(index: map<string, string>, blobs: BlobState, catalog: Catalog)

  /** Where the content with digest `d` is written: its first seven characters plus ".txt". */
  function StorageKey(d: Digest): (k: string)
    ensures |k| == 11 && k[7..] == ".txt"
    ensures k[..7] == d[..7]
  {
    d[..7] + ".txt"
  }

  /** Two digests share a storage path exactly when their first seven characters agree. */
  lemma StorageKeyShared(d1: Digest, d2: Digest)
    ensures StorageKey(d1) == StorageKey(d2) <==> d1[..7] == d2[..7]
  {
  }

  /** The record an upload saves, before `Save` stamps its id. */
  function NewRecord(digest: string, req: UploadRequest, env: Env, now: Time): FileRef
  {
    FileRef(0, digest, env.baseName(req.path), "txt", now)
  }

  /** The last stage of every successful upload: append a record for the resolved digest. */
  function Register(s: Store, digest: string, req: UploadRequest, env: Env, now: Time): (r: (Store, Result<FileRef, Failure>))
  {
    var saved := Saved(s.catalog, NewRecord(digest, req, env, now));
    (s.(catalog := saved.0), Ok(saved.1))
  }

  /**
   * `uploader`: a supplied digest must already be indexed; otherwise a non-empty body is
   * digested, written and indexed unless its digest is already indexed; otherwise the
   * request is rejected. `deviceOk` is the blob device's answer to the write, if any.
   * `key` derives the storage path from the digest; the handler uses `StorageKey`.
   */
  function UploadWith(key: Digest -> string, s: Store, req: UploadRequest, env: Env, deviceOk: bool, now: Time): (r: (Store, Result<FileRef, Failure>))
  {
    if req.hash != "" then
      if Lookup(s.index, req.hash).Ok? then Register(s, req.hash, req, env, now)
      else (s, Err(BadRequest))
    else if req.body != "" then
      var digest := env.digestOf(req.body);
      var path := key(digest);
      if Lookup(s.index, digest).Ok? then Register(s, digest, req, env, now)
      else
        var blobs := Created(s.blobs, path, req.body, deviceOk);
        if !deviceOk then (s.(blobs := blobs), Err(ServiceUnavailable))
        else Register(Store(Added(s.index, digest, path), blobs, s.catalog), digest, req, env, now)
    else
      (s, Err(BadRequest))
  }

  /** The upload as the handler runs it, with the seven-character storage key. */
  function Upload(s: Store, req: UploadRequest, env: Env, deviceOk: bool, now: Time): (r: (Store, Result<FileRef, Failure>))
  {
    UploadWith(StorageKey, s, req, env, deviceOk, now)
  }

  /** `get`: the reference record stored under `id`. */
  function RefById(s: Store, id: int): (r: Result<FileRef, Failure>)
    ensures r.Ok? <==> id in s.catalog.store
    ensures r.Ok? ==> r.value == s.catalog.store[id]
    ensures r.Err? ==> r.error == NotFound
  {
    match Lookup(s.catalog.store, id)
    case Ok(ref) => Ok(ref)
    case Err(_) => Err(NotFound)
  }

  /** `getFile`: resolve the digest through the index, then read the blob at that path. */
  function FileByDigest(s: Store, h: string): (r: Result<string, Failure>)
    ensures h !in s.index <==> r == Err(BadRequest)
    ensures r.Ok? <==> h in s.index && s.index[h] in s.blobs.files
    ensures r.Ok? ==> r.value == s.blobs.files[s.index[h]]
    ensures h in s.index && s.index[h] !in s.blobs.files ==> r == Err(ServiceUnavailable)
  {
    match Lookup(s.index, h)
    case Err(_) => Err(BadRequest)
    case Ok(p) =>
      match Lookup(s.blobs.files, p)
      case Err(_) => Err(ServiceUnavailable)
      case Ok(content) => Ok(content)
  }

  /** `hashExists`: succeeds exactly for indexed digests. */
  function DigestExists(s: Store, h: string): (r: Outcome<Failure>)
    ensures r.Pass? <==> h in s.index
    ensures r.Fail? ==> r.error == NotFound
  {
    if Lookup(s.index, h).Ok? then Pass else Fail(NotFound)
  }

  /**
   * What the coordinator keeps true: every record's digest is indexed, every index
   * entry names a written blob, and every record sits under its own id below the counter.
   */
  predicate Inv(s: Store)
  {
    && (forall id :: id in s.catalog.store ==> s.catalog.store[id].fileHash in s.index)
    && (forall d :: d in s.index ==> s.index[d] in s.blobs.files)
    && IdsIssued(s.catalog)
  }

  /** The stores on a first start: empty index, no files, no records, counter at zero. */
  const Empty := Store(map[], BlobState(map[], []), Catalog(map[], 0))

  lemma EmptyInv()
    ensures Inv(Empty)
  {
  }

  /** Neither a digest nor a body: rejected, nothing changes. */
  lemma UploadNeitherField(s: Store, req: UploadRequest, env: Env, deviceOk: bool, now: Time)
    requires req.hash == "" && req.body == ""
    ensures Upload(s, req, env, deviceOk, now) == (s, Err(BadRequest))
  {
  }

  /**
   * A supplied digest wins over the body: unknown, it is rejected with nothing changed;
   * known, a record for it is appended and neither the index nor the blob store is touched.
   */
  lemma UploadHashFirst(s: Store, req: UploadRequest, env: Env, deviceOk: bool, now: Time)
    requires req.hash != ""
    ensures var (s', r) := Upload(s, req, env, deviceOk, now);
            && (req.hash !in s.index ==> s' == s && r == Err(BadRequest))
            && (req.hash in s.index ==> r.Ok? && r.value.fileHash == req.hash
                                        && s'.index == s.index && s'.blobs == s.blobs)
  {
  }

  /** A body whose digest is indexed is not written again: no Create, no Add. */
  lemma UploadDedup(s: Store, req: UploadRequest, env: Env, deviceOk: bool, now: Time)
    requires req.hash == "" && req.body != "" && env.digestOf(req.body) in s.index
    ensures var (s', r) := Upload(s, req, env, deviceOk, now);
            && s'.index == s.index && s'.blobs == s.blobs
            && r.Ok? && r.value.fileHash == env.digestOf(req.body)
  {
  }

  /**
   * A body whose digest is not indexed is written to its storage key first, and indexed
   * under that key only when the write succeeded; a failed write creates no index entry
   * and no record.
   */
  lemma UploadWriteThenIndex(s: Store, req: UploadRequest, env: Env, deviceOk: bool, now: Time)
    requires req.hash == "" && req.body != "" && env.digestOf(req.body) !in s.index
    ensures var (s', r) := Upload(s, req, env, deviceOk, now);
            var d := env.digestOf(req.body);
            && s'.blobs.creates == s.blobs.creates + [StorageKey(d)]
            && (deviceOk ==> r.Ok? && s'.index == s.index[d := StorageKey(d)]
                             && s'.blobs.files == s.blobs.files[StorageKey(d) := req.body])
            && (!deviceOk ==> r == Err(ServiceUnavailable) && s'.index == s.index
                              && s'.blobs.files == s.blobs.files && s'.catalog == s.catalog)
  {
  }

  /**
   * A successful upload appends exactly one record, under the old counter, for the
   * resolved digest, named after the base of the client path, of type "txt"; a failed
   * one changes neither the index, the files nor the catalog.
   */
  lemma UploadRecord(s: Store, req: UploadRequest, env: Env, deviceOk: bool, now: Time)
    ensures var (s', r) := Upload(s, req, env, deviceOk, now);
            && (r.Ok? ==>
                 && r.value == FileRef(s.catalog.counter, r.value.fileHash, env.baseName(req.path), "txt", now)
                 && r.value.fileHash == (if req.hash != "" then req.hash else env.digestOf(req.body))
                 && r.value.fileHash in s'.index
                 && s'.catalog == Catalog(s.catalog.store[s.catalog.counter := r.value], s.catalog.counter + 1))
            && (r.Err? ==> s'.index == s.index && s'.blobs.files == s.blobs.files && s'.catalog == s.catalog)
  {
  }

  /** Upload never changes nor drops an index entry it finds, although Add would overwrite. */
  lemma UploadKeepsIndexEntries(s: Store, req: UploadRequest, env: Env, deviceOk: bool, now: Time)
    ensures var s' := Upload(s, req, env, deviceOk, now).0;
            && s.index.Keys <= s'.index.Keys
            && (forall d :: d in s.index ==> s'.index[d] == s.index[d])
            && s.blobs.files.Keys <= s'.blobs.files.Keys
  {
  }

  lemma UploadPreservesInv(s: Store, req: UploadRequest, env: Env, deviceOk: bool, now: Time)
    requires Inv(s)
    ensures Inv(Upload(s, req, env, deviceOk, now).0)
  {
  }

  /** Every indexed digest can be read back: the blob was written before the entry was made. */
  lemma IndexedContentReadable(s: Store, h: string)
    requires Inv(s) && h in s.index
    ensures FileByDigest(s, h).Ok?
  {
  }

  /** Every stored reference resolves, through the index, to readable content. */
  lemma ReferenceReadable(s: Store, id: int)
    requires Inv(s) && RefById(s, id).Ok?
    ensures RefById(s, id).value.id == id
    ensures FileByDigest(s, RefById(s, id).value.fileHash).Ok?
  {
  }

  /**
   * Stored content agrees with its digest: every index entry names a file whose
   * content has exactly that digest.
   */
  predicate Intact(s: Store, env: Env)
  {
    forall d :: d in s.index ==> s.index[d] in s.blobs.files && env.digestOf(s.blobs.files[s.index[d]]) == d
  }

  /**
   * The write an upload of body `b` may issue lands on no indexed entry's path: either
   * the digest is already indexed (no write), or no index entry uses its storage key.
   */
  predicate KeyFree(s: Store, env: Env, b: string)
  {
    env.digestOf(b) in s.index || forall d :: d in s.index ==> s.index[d] != StorageKey(env.digestOf(b))
  }

  lemma EmptyIntact(env: Env)
    ensures Intact(Empty, env) && KeyInv(Empty, FullKey) && KeyInv(Empty, StorageKey)
  {
  }

  /** An upload keeps stored content agreeing with its digest unless its write hits an indexed path. */
  lemma UploadKeepsIntact(s: Store, req: UploadRequest, env: Env, deviceOk: bool, now: Time)
    requires Intact(s, env)
    requires req.hash == "" ==> KeyFree(s, env, req.body)
    ensures Intact(Upload(s, req, env, deviceOk, now).0, env)
  {
  }

  /**
   * After a successful upload, the resolved digest reads back content with that digest;
   * for a body upload, that is the body itself whenever the body had to be written.
   */
  lemma UploadReadsBack(s: Store, req: UploadRequest, env: Env, deviceOk: bool, now: Time)
    requires Intact(s, env)
    requires req.hash == "" ==> KeyFree(s, env, req.body)
    ensures var (s', r) := Upload(s, req, env, deviceOk, now);
            r.Ok? ==>
              && FileByDigest(s', r.value.fileHash).Ok?
              && env.digestOf(FileByDigest(s', r.value.fileHash).value) == r.value.fileHash
              && (req.hash == "" && env.digestOf(req.body) !in s.index ==>
                    FileByDigest(s', r.value.fileHash) == Ok(req.body))
  {
  }

  /** No two references disagree about content: each reads back bytes whose digest it records. */
  lemma ReferencesAgree(s: Store, env: Env, id: int)
    requires Inv(s) && Intact(s, env) && id in s.catalog.store
    ensures var h := s.catalog.store[id].fileHash;
            FileByDigest(s, h).Ok? && env.digestOf(FileByDigest(s, h).value) == h
  {
  }

  /** A storage path that keeps the whole digest: distinct digests never share a path. */
  function FullKey(d: Digest): (k: string)
    ensures |k| == 36 && k[..32] == d && k[32..] == ".txt"
  {
    d + ".txt"
  }

  lemma FullKeyInjective(d1: Digest, d2: Digest)
    ensures FullKey(d1) == FullKey(d2) <==> d1 == d2
  {
  }

  /** Every index entry is a digest filed at the path `key` derives from it. */
  predicate KeyInv(s: Store, key: Digest -> string)
  {
    forall d :: d in s.index ==> |d| == 32 && s.index[d] == key(d)
  }

  /** The handler's upload keeps its own index entries at their seven-character keys. */
  lemma UploadKeepsKeyInv(s: Store, req: UploadRequest, env: Env, deviceOk: bool, now: Time)
    requires KeyInv(s, StorageKey)
    ensures KeyInv(Upload(s, req, env, deviceOk, now).0, StorageKey)
  {
  }

  /**
   * With whole-digest paths, every upload keeps stored content agreeing with its digest,
   * with no condition on the body; a successful body upload reads back content with its
   * digest, and reads back the body itself whenever the body had to be written.
   */
  lemma FullKeyUploadKeepsIntact(s: Store, req: UploadRequest, env: Env, deviceOk: bool, now: Time)
    requires Intact(s, env) && KeyInv(s, FullKey)
    ensures var (s', r) := UploadWith(FullKey, s, req, env, deviceOk, now);
            && Intact(s', env) && KeyInv(s', FullKey)
            && (r.Ok? ==> FileByDigest(s', r.value.fileHash).Ok?
                          && env.digestOf(FileByDigest(s', r.value.fileHash).value) == r.value.fileHash)
            && (r.Ok? && req.hash == "" && env.digestOf(req.body) !in s.index ==>
                  FileByDigest(s', r.value.fileHash) == Ok(req.body))
  {
  }

  /** An unindexed digest is refused whatever the blob store holds: it is never consulted. */
  lemma UnindexedIgnoresBlobs(s: Store, blobs: BlobState, h: string)
    requires h !in s.index
    ensures FileByDigest(s, h) == FileByDigest(s.(blobs := blobs), h) == Err(BadRequest)
  {
  }

  /** `httpHandler`: the three stores, and the library functions it calls. */
  class Handler {
    const file: BlobStore
    const hash: ExampleHash
    const db: DB
    const env: Env

    ghost function Snapshot(): Store
      reads file, hash, db
    {
      Store(hash.store, file.Model(), db.Model())
    }

    constructor (file: BlobStore, hash: ExampleHash, db: DB, env: Env)
      ensures this.file == file && this.hash == hash && this.db == db && this.env == env
    {
      this.file := file;
      this.hash := hash;
      this.db := db;
      this.env := env;
    }

    method Uploader(req: UploadRequest, deviceOk: bool, now: Time) returns (r: Result<FileRef, Failure>)
      modifies file, hash, db
      ensures (Snapshot(), r) == Upload(old(Snapshot()), req, env, deviceOk, now)
      ensures old(Inv(Snapshot())) ==> Inv(Snapshot())
    {
      ghost var s := Snapshot();
      var digest := req.hash;
      if digest != "" {
        var found := hash.Get(digest);
        if found.Err? {
          return Err(BadRequest);
        }
      } else if req.body != "" {
        var d := env.digestOf(req.body);
        digest := d;
        var key := StorageKey(d);
        var found := hash.Get(d);
        if found.Err? {
          var created := file.Create(key, req.body, deviceOk);
          if created.Fail? {
            return Err(ServiceUnavailable);
          }
          var added := hash.Add(d, key);
          if added.Fail? {
            return Err(ServiceUnavailable);
          }
        }
      } else {
        return Err(BadRequest);
      }
      var saved, err := db.Save(NewRecord(digest, req, env, now));
      if err.Fail? {
        return Err(ServiceUnavailable);
      }
      r := Ok(saved);
      if Inv(s) {
        UploadPreservesInv(s, req, env, deviceOk, now);
      }
    }

    method Get(id: int) returns (r: Result<FileRef, Failure>)
      ensures r == RefById(Snapshot(), id)
    {
      var ref := db.Get(id);
      if ref.Err? {
        return Err(NotFound);
      }
      r := Ok(ref.value);
    }

    method GetFile(h: string) returns (r: Result<string, Failure>)
      ensures r == FileByDigest(Snapshot(), h)
    {
      var filePath := hash.Get(h);
      if filePath.Err? {
        return Err(BadRequest);
      }
      var content := file.Get(filePath.value);
      if content.Err? {
        return Err(ServiceUnavailable);
      }
      r := Ok(content.value);
    }

    method HashExists(h: string) returns (r: Outcome<Failure>)
      ensures r == DigestExists(Snapshot(), h)
    {
      var found := hash.Get(h);
      if found.Err? {
        return Fail(NotFound);
      }
      r := Pass;
    }
  }
}
