# unique_fs: a verified model of the deduplicating content store

unique_fs stores text content once per content digest. Clients upload either a body
or the digest of content that is already stored. They fetch a reference record by id,
fetch content by digest, or ask whether a digest is known. Three stores sit behind this:

- the **digest index** (`exampleHash`), a map from digest to storage path;
- the **reference catalog** (`DB`), a map from integer id to reference record, plus the counter that hands out ids;
- the **blob store** (`FileInterface`), which holds the bytes under a storage path.

The upload handler runs the dedup rule over them:

1. A supplied digest must already be indexed.
2. Otherwise, a body whose digest is indexed is not written again.
3. A body whose digest is new is written to `digest[:7] + ".txt"` first. It is indexed only after the write succeeded.
4. Every successful upload appends one reference record.

Modules. Each of the first five follows one source file, and `Traces` runs the handlers over many steps:

- `Wrappers` and `KeyValue` (`wrappers.dfy`) follow no single file. They hold the result types and the "not found" lookup rule that both map stores share.
- `FileRefs` (`file_ref.dfy`) models file-ref.go. The class `DB` has the `store` and `counter` fields. The datatype `Catalog` is its value, and `Saved` and `Deleted` say what `Save` and `Delete` do to it.
- `HashLinker` (`hash_bucket_linker.dfy`) models hash-bucket-linker.go. The class `ExampleHash` has the shared `store` map, specified by `Added`, `Removed` and `Lookup`.
- `Blobs` (`blob_store.dfy`) is an abstract blob store standing in for file.go. It is a map from path to content whose `Create` may fail. It keeps a ghost log of every `Create` call, so the model can state which steps write.
- `Coordinator` (`coordinator.dfy`) models cmd/main.go. `Upload` (the handler's `UploadWith` with its key `StorageKey`), `RefById`, `FileByDigest` and `DigestExists` are pure functions over the three stores. The class `Handler` has methods `Uploader`, `Get`, `GetFile` and `HashExists`, each proved equal to its function. `Inv` is the invariant the coordinator keeps:
  - every record's digest is indexed;
  - every index entry names a written blob;
  - every record sits under its own id, below the counter.
- `Traces` (`traces.dfy`) runs any sequence of uploads and catalog deletions, one atomic step at a time. It proves by induction that:
  - the invariant holds throughout;
  - ids are contiguous and fresh;
  - index entries are never repointed;
  - content is written at most once per digest.

Inputs from the environment:

- The MD5 hasher is `Env.digestOf`, an arbitrary deterministic function returning 32 characters (lower-case hex MD5). So `hash[:7]` is always defined.
- `path.Base` is `Env.baseName`, an arbitrary function.
- The result of each blob write (`deviceOk`) is a parameter.
- `time.Now()` (`now`) is a parameter.

The model follows the code where a reader might expect a stricter contract:

- `Add` overwrites an existing digest silently. No conflict is reported (`HashLinker.Added`).
- `getFile` answers an unknown digest with 400 Bad Request, not 404 (`Coordinator.FileByDigest`).
- `get` returns the reference record only. It does not resolve the record's digest to content.
- A supplied digest that is already indexed is trusted. No body is checked against it.

Storage keys keep only seven hex characters of the digest. Two different contents whose
digests share that prefix are written to the same path. The second write replaces the
first blob, so the first digest then reads back the second content
(`Traces.SharedPrefixOverwrites`). The invariant `Inv` only promises that an index
entry names a written blob. The stronger predicate `Intact` says that the blob holds
content with that digest. Every upload keeps `Intact` unless its write lands on the path
of an indexed entry (`KeyFree`). Under `Intact`, every reference reads back content with
the digest it records (`Coordinator.ReferencesAgree`). With `FullKey`, which keeps the whole
digest in the path, every upload keeps `Intact` with no condition
(`Coordinator.FullKeyUploadKeepsIntact`).

## Model

| member | source | states |
|---|---|---|
| `KeyValue.Lookup` | file-ref.go:69-77 | A lookup succeeds iff the key is present and then returns its value; otherwise it reports not found. |
| `FileRefs.Saved` | file-ref.go:56-67 | Save stamps the record with the old counter, stores it under that id, leaves every other id unchanged and advances the counter by exactly one. |
| `FileRefs.DB.Save` | file-ref.go:56-67 | The DB's new store and counter are those of `Saved`, the returned record carries its new id, and the error is always nil. |
| `FileRefs.DB.Get` | file-ref.go:69-77 | Returns the record stored under the id iff it is present, else not found; nothing changes. |
| `FileRefs.Deleted` | file-ref.go:79-83 | Delete removes exactly the given id, keeps every other record and leaves the counter alone. |
| `FileRefs.DB.Delete` | file-ref.go:79-83 | The DB's new state is that of `Deleted`, and the error is always nil. |
| `FileRefs.DeleteIdempotent` | file-ref.go:79-83 | Deleting twice equals deleting once, and the id then reads as not found. |
| `FileRefs.SaveTwice` | file-ref.go:56-64 | Two consecutive Saves yield ids n and n+1, and both records are kept. |
| `FileRefs.SaveKeepsIdsIssued` | file-ref.go:56-64 | When every record sits under its id below the counter, Save keeps that so and overwrites no record. |
| `FileRefs.DB.constructor` | file-ref.go:31-40 | A new DB holds the loaded records with the counter at zero. |
| `FileRefs.RestartOverwritesRecord` | file-ref.go:39 | With a loaded record 0 and the counter at zero, the first Save replaces record 0 and the catalog does not grow. |
| `FileRefs.NextFreeId` | file-ref.go:39 | The resume counter is non-negative, above every loaded id, and the least such value. |
| `FileRefs.DB.Resume` | file-ref.go:31-40 | The intended start: the loaded records, with the counter just above the largest loaded id (zero when none is loaded). |
| `FileRefs.ResumedSaveAdds` | file-ref.go:56-64 | With the counter above every stored id, Save adds one record under a new id, loses none, and keeps the counter above every id. |
| `HashLinker.Added` | hash-bucket-linker.go:53-57 | Add maps the key to the value whatever it held before, and leaves every other key unchanged. |
| `HashLinker.Removed` | hash-bucket-linker.go:68-73 | Remove drops exactly the key and keeps every other entry. |
| `HashLinker.GetAfterAdd` | hash-bucket-linker.go:53-66 | Get right after Add(k, v) returns v, even when k held a different value. |
| `HashLinker.GetAfterRemove` | hash-bucket-linker.go:59-73 | Get right after Remove(k) reports not found, and Remove is idempotent. |
| `HashLinker.ExampleHash.constructor` | hash-bucket-linker.go:42-51 | The index starts with the loaded entries, which are none on a first start. |
| `HashLinker.ExampleHash.Add` | hash-bucket-linker.go:53-57 | The store becomes `Added` of the old store, and the error is always nil. |
| `HashLinker.ExampleHash.Get` | hash-bucket-linker.go:59-66 | Returns the stored path iff the digest is present, else not found; nothing changes. |
| `HashLinker.ExampleHash.Remove` | hash-bucket-linker.go:68-73 | The store becomes `Removed` of the old store, and the error is always nil. |
| `Blobs.Created` | file.go:28-41 | Every Create is logged. The file at the path holds the content only when the device succeeded, and other paths are untouched. |
| `Blobs.BlobStore.constructor` | file.go:25-26 | The blob store starts with the files already present and no Create issued. |
| `Blobs.BlobStore.Create` | file.go:28-41 | The store's new state is that of `Created`, and Create reports success iff the device did. |
| `Blobs.BlobStore.Get` | file.go:43-46 | Returns the content at the path iff a file is there. |
| `Coordinator.StorageKey` | cmd/main.go:83 | The storage path is the digest's first seven characters followed by ".txt". |
| `Coordinator.StorageKeyShared` | cmd/main.go:83 | Two digests get the same path iff their first seven characters agree. |
| `Coordinator.FullKey` | cmd/main.go:83 | The corrected storage path: the whole digest followed by ".txt". |
| `Coordinator.FullKeyInjective` | cmd/main.go:83 | Two digests get the same corrected path iff they are equal. |
| `Coordinator.UploadNeitherField` | cmd/main.go:101-103 | With neither digest nor body, upload fails with BadRequest and changes nothing. |
| `Coordinator.UploadHashFirst` | cmd/main.go:69-78 | A supplied digest takes precedence over the body. If it is unknown, upload fails with BadRequest and nothing changes. If it is known, a record for it is created and the index and blob store are untouched. |
| `Coordinator.UploadDedup` | cmd/main.go:80-85 | A body whose digest is indexed issues no Create and no Add, and a record for that digest is created. |
| `Coordinator.UploadWriteThenIndex` | cmd/main.go:83-99 | A new body issues exactly one Create at its storage path. The digest is indexed under that path only if the write succeeded. A failed write returns ServiceUnavailable with no index entry and no record. |
| `Coordinator.UploadRecord` | cmd/main.go:106-113 | A successful upload appends exactly one record: old counter as id, the resolved digest, `path.Base` of the path, type "txt". That digest is indexed. A failed upload changes neither index, files nor catalog. |
| `Coordinator.UploadKeepsIndexEntries` | cmd/main.go:84-100 | Upload never removes or repoints an index entry and never removes a file. |
| `Coordinator.UploadPreservesInv` | cmd/main.go:58-122 | Every upload keeps the invariant: records' digests indexed, index entries written, ids below the counter. |
| `Coordinator.EmptyInv` | cmd/main.go:26-30 | The stores of a first start satisfy the invariant. |
| `Coordinator.RefById` | cmd/main.go:134-140 | `get` returns the record iff its id is stored, else NotFound. |
| `Coordinator.FileByDigest` | cmd/main.go:143-161 | `getFile` fails with BadRequest iff the digest is not indexed. It returns the blob's content iff the indexed path holds a file, else ServiceUnavailable. |
| `Coordinator.DigestExists` | cmd/main.go:163-174 | `hashExists` succeeds iff the digest is indexed, else NotFound. |
| `Coordinator.IndexedContentReadable` | cmd/main.go:146-156 | Under the invariant, every indexed digest can be read back. |
| `Coordinator.ReferenceReadable` | cmd/main.go:134-156 | Under the invariant, a stored record sits under its own id and its digest reads back content. |
| `Coordinator.EmptyIntact` | cmd/main.go:26-30 | On a first start, stored content trivially agrees with its digest, and every index entry trivially sits at its key under either key derivation. |
| `Coordinator.UploadKeepsIntact` | cmd/main.go:80-100 | An upload whose write does not land on an indexed entry's path keeps every index entry naming a file whose content has that digest. |
| `Coordinator.UploadKeepsKeyInv` | cmd/main.go:83-95 | Every upload keeps each index entry filed at the seven-character key of its own digest. |
| `Coordinator.FullKeyUploadKeepsIntact` | cmd/main.go:80-100 | With whole-digest paths and every entry at its own key, every upload keeps each index entry naming a file whose content has that digest, with no condition on the body. A successful upload's digest reads back content with that digest, and the body itself when the body had to be written. |
| `Coordinator.UploadReadsBack` | cmd/main.go:69-113 | Under `Intact` and with no such clash, a successful upload's digest reads back content with that digest. When the body had to be written, that content is the body itself. |
| `Coordinator.ReferencesAgree` | cmd/main.go:106-113 | Under `Inv` and `Intact`, every stored reference reads back bytes whose digest is the one it records. |
| `Coordinator.UnindexedIgnoresBlobs` | cmd/main.go:146-150 | For an unindexed digest `getFile` fails whatever the blob store holds, so the blob store is not consulted. |
| `Coordinator.Handler.constructor` | cmd/main.go:26-30 | The handler holds the given blob store, index and catalog. |
| `Coordinator.Handler.Uploader` | cmd/main.go:58-122 | The handler's new stores and reply are exactly those of `Upload`, and the invariant is preserved. |
| `Coordinator.Handler.Get` | cmd/main.go:124-141 | The reply is `RefById` of the current stores; nothing changes. |
| `Coordinator.Handler.GetFile` | cmd/main.go:143-161 | The reply is `FileByDigest` of the current stores; nothing changes. |
| `Coordinator.Handler.HashExists` | cmd/main.go:163-174 | The reply is `DigestExists` of the current stores; nothing changes. |
| `Traces.StepPreservesInv` | cmd/main.go:58-122 | One upload or catalog deletion keeps the invariant. |
| `Traces.RunPreservesInv` | cmd/main.go:58-122 | Any sequence of uploads and deletions from a state satisfying the invariant keeps it. |
| `Traces.StepIssues` | file-ref.go:56-62 | One step hands out the current counter as id or nothing, and advances the counter by exactly as many ids. |
| `Traces.IssuedContiguous` | file-ref.go:56-62 | The successful uploads of a run receive consecutive ids from the prior counter, and the counter ends just past them. |
| `Traces.IssuedFresh` | file-ref.go:56-62 | Under the invariant, the ids a run hands out strictly increase and none was already in use. |
| `Traces.StoredWereIssued` | file-ref.go:56-64 | Every record after a run was there before or was returned by an upload of the run. |
| `Traces.NeverIssuedNotFound` | cmd/main.go:134-138 | From a first start, `get` of an id no upload returned reports NotFound. |
| `Traces.IndexEntriesStable` | cmd/main.go:84-99 | Across any run, index entries are never removed or repointed. |
| `Traces.WriteNeedsMiss` | cmd/main.go:84-95 | A step writes content only when its digest was not indexed, and leaves the digest indexed. |
| `Traces.AtMostOneWrite` | cmd/main.go:82-100 | Across any run, each digest's content is written at most once, and never once it is indexed. |
| `Traces.SameBodyTwice` | cmd/main.go:58-122 | Uploading one body twice from a first start gives ids 0 and 1 with the same digest and a single Create. Both ids and the digest read back the body, and an unrelated digest is unknown. |
| `Traces.SharedPrefixOverwrites` | cmd/main.go:83 | Two new bodies whose distinct digests share seven characters share a path, so the first digest then reads back the second body. |

## Findings

| source | as written | input that shows it | evidently intended | confidence | as-written member | corrected member |
|---|---|---|---|---|---|---|
| cmd/main.go:83 | The storage path keeps only the digest's first seven characters. A new body whose digest shares that prefix with an indexed digest overwrites that digest's blob. | two bodies whose distinct MD5 digests agree in their first seven hex characters, uploaded one after the other | a new write never replaces content that another digest's index entry names | medium; not executed | `Traces.SharedPrefixOverwrites` | `Coordinator.FullKeyUploadKeepsIntact` |
| file-ref.go:39 | `NewDB` loads the saved records but restarts `counter` at 0, so the first Save after a restart stores under id 0 and replaces the loaded record 0. Ids are reused. | a db/db.json holding record 0, a restart, then one upload | the counter resumes above the largest loaded id | high; not executed | `FileRefs.RestartOverwritesRecord` | `FileRefs.DB.Resume` |

For the storage path, `Coordinator.UploadWith` is the upload with the key derivation as a
parameter; `Upload` is `UploadWith` at the source's `StorageKey`. With the corrected
`Coordinator.FullKey`, `Coordinator.FullKeyUploadKeepsIntact` proves the intended property
for every upload: each indexed digest keeps reading back its own content. For the
source's key, `Coordinator.UploadKeepsIntact` and `Coordinator.UploadReadsBack` prove it
only for writes that land on no indexed entry's path (`KeyFree`). The handler class keeps
the source's key.

`FileRefs.DB.Resume` computes its counter with `FileRefs.NextFreeId`. `FileRefs.ResumedSaveAdds`
proves that a Save after it adds a record and replaces none.

## Left out

- HTTP routing, JSON decoding of the upload body, parsing the id in `get` (`strconv.Atoi`), response rendering and status plumbing. Each handler's reply is reduced to its error category (`Failure`) or its value.
- The `sync.RWMutex` locking. Each handler is one atomic step. This is justified for uploads by the exclusive lock. `getFile` takes no lock, and its race with an upload is not modelled.
- The MD5 digest and its hex formatting. The hasher is an arbitrary deterministic function returning 32 characters.
- `path.Base`: an arbitrary function of the path.
- The JSON snapshot persistence (`saveAsJSON`, `saveHashAsJSON`) and the file loading in `NewDB` and `NewExampleHash`. Their errors are only logged. The constructors take the loaded maps as parameters.
- file.go's real file I/O and its 3-second delay. The blob store is an abstract map whose Create succeeds or fails as the `deviceOk` input says.
- Blobs.Created: a failed write leaves the files unchanged. A real `os.Create` followed by a failed copy may leave a truncated file at the path.
- No handler calls `DB.Delete` (cmd/main.go:33-36 routes only `get`, `getFile`, `uploader` and `hashExists`). `Traces.DeleteOp` adds catalog deletion to the runs as an extension, to show that the invariants survive it. It is not a handler path.
- The blob store's `Delete` and the index's `Remove` are never called by a handler. `Remove` is modelled; it is not part of the runs in `Traces`. Removing a referenced digest would break the invariant.
- `time.Now()`: the creation time is a parameter.
- `Handler.Uploader` and the runs in `Traces` keep the source's seven-character key, so they show its behaviour. The whole-digest key `FullKey` is proved correct for a single upload (`Coordinator.FullKeyUploadKeepsIntact`). No run or handler is built on it.
