/**
 * Runs of the coordinator: any sequence of uploads (each with its device answer and
 * clock reading) and catalog deletions, applied one atomic step at a time. The
 * properties here relate many steps: the invariant holds throughout, ids are handed
 * out contiguously and never reused, and no content is written twice.
 */
module Traces {
  import opened Wrappers
  import opened KeyValue
  import opened FileRefs
  import opened Blobs
  import opened Coordinator

  datatype Op =
    | UploadOp(req: UploadRequest, deviceOk: bool, now: Time)
    | DeleteOp(id: int)

  function Step(s: Store, op: Op, env: Env): Store
  {
    match op
    case UploadOp(req, deviceOk, now) => Upload(s, req, env, deviceOk, now).0
    case DeleteOp(id) => s.(catalog := Deleted(s.catalog, id))
  }

  function Run(s: Store, ops: seq<Op>, env: Env): Store
    decreases |ops|
  {
    if ops == [] then s else Run(Step(s, ops[0], env), ops[1..], env)
  }

  /** The ids of the records created by `ops`, in the order the uploads returned them. */
  function Issued(s: Store, ops: seq<Op>, env: Env): seq<int>
    decreases |ops|
  {
    if ops == [] then [] else IssuedBy(s, ops[0], env) + Issued(Step(s, ops[0], env), ops[1..], env)
  }

  /** The id returned by one step, if it is a successful upload. */
  function IssuedBy(s: Store, op: Op, env: Env): seq<int>
  {
    match op
    case UploadOp(req, deviceOk, now) =>
      var r := Upload(s, req, env, deviceOk, now).1;
      if r.Ok? then [r.value.id] else []
    case DeleteOp(_) => []
  }

  /** `lo, lo + 1, ..., lo + n - 1`. */
  function Range(lo: int, n: nat): (r: seq<int>)
    ensures |r| == n && forall i :: 0 <= i < n ==> r[i] == lo + i
  {
    seq(n, i => lo + i)
  }

  lemma StepPreservesInv(s: Store, op: Op, env: Env)
    requires Inv(s)
    ensures Inv(Step(s, op, env))
  {
  }

  /** The coordinator's invariant holds after any run that starts from it. */
  lemma {:induction false} RunPreservesInv(s: Store, ops: seq<Op>, env: Env)
    requires Inv(s)
    ensures Inv(Run(s, ops, env))
    decreases |ops|
  {
    if ops != [] {
      StepPreservesInv(s, ops[0], env);
      RunPreservesInv(Step(s, ops[0], env), ops[1..], env);
    }
  }

  /** One step hands out the current counter, or nothing, and advances the counter to match. */
  lemma StepIssues(s: Store, op: Op, env: Env)
    ensures var ids := IssuedBy(s, op, env);
            ids == Range(s.catalog.counter, |ids|) && |ids| <= 1
            && Step(s, op, env).catalog.counter == s.catalog.counter + |ids|
  {
    if op.UploadOp? {
      UploadRecord(s, op.req, env, op.deviceOk, op.now);
    }
  }

  lemma RangeAppend(lo: int, m: nat, n: nat)
    ensures Range(lo, m) + Range(lo + m, n) == Range(lo, m + n)
  {
  }

  /**
   * Successful uploads receive consecutive ids starting at the counter before the run,
   * and the counter ends just past the last one.
   */
  lemma {:induction false} IssuedContiguous(s: Store, ops: seq<Op>, env: Env)
    ensures var ids := Issued(s, ops, env);
            ids == Range(s.catalog.counter, |ids|)
            && Run(s, ops, env).catalog.counter == s.catalog.counter + |ids|
    decreases |ops|
  {
    if ops != [] {
      var s1 := Step(s, ops[0], env);
      var here, rest := IssuedBy(s, ops[0], env), Issued(s1, ops[1..], env);
      StepIssues(s, ops[0], env);
      IssuedContiguous(s1, ops[1..], env);
      RangeAppend(s.catalog.counter, |here|, |rest|);
    }
  }

  /** Hence ids are strictly increasing, pairwise distinct, and not already in use. */
  lemma IssuedFresh(s: Store, ops: seq<Op>, env: Env)
    requires Inv(s)
    ensures var ids := Issued(s, ops, env);
            && (forall i, j :: 0 <= i < j < |ids| ==> ids[i] < ids[j])
            && (forall i :: 0 <= i < |ids| ==> ids[i] !in s.catalog.store)
  {
    IssuedContiguous(s, ops, env);
  }

  /** Every record present after a run was present before it or was created by it. */
  lemma {:induction false} StoredWereIssued(s: Store, ops: seq<Op>, env: Env)
    ensures forall id :: id in Run(s, ops, env).catalog.store ==> id in s.catalog.store || id in Issued(s, ops, env)
    decreases |ops|
  {
    if ops != [] {
      var s1 := Step(s, ops[0], env);
      StoredWereIssued(s1, ops[1..], env);
      if ops[0].UploadOp? {
        var op := ops[0];
        UploadRecord(s, op.req, env, op.deviceOk, op.now);
      }
    }
  }

  /** From a first start, fetching an id that no upload returned reports not found. */
  lemma NeverIssuedNotFound(ops: seq<Op>, env: Env, id: int)
    requires id !in Issued(Empty, ops, env)
    ensures RefById(Run(Empty, ops, env), id) == Err(NotFound)
  {
    StoredWereIssued(Empty, ops, env);
  }

  /** Index entries survive every run: never removed, never repointed. */
  lemma {:induction false} IndexEntriesStable(s: Store, ops: seq<Op>, env: Env)
    ensures var s' := Run(s, ops, env);
            s.index.Keys <= s'.index.Keys && forall d :: d in s.index ==> s'.index[d] == s.index[d]
    decreases |ops|
  {
    if ops != [] {
      var s1 := Step(s, ops[0], env);
      if ops[0].UploadOp? {
        var op := ops[0];
        UploadKeepsIndexEntries(s, op.req, env, op.deviceOk, op.now);
      }
      IndexEntriesStable(s1, ops[1..], env);
    }
  }

  /** The step wrote the content of digest `d` to the blob store, successfully. */
  predicate WroteDigest(s: Store, op: Op, env: Env, d: string)
  {
    && op.UploadOp? && op.deviceOk && op.req.hash == "" && env.digestOf(op.req.body) == d
    && |Step(s, op, env).blobs.creates| > |s.blobs.creates|
  }

  /** How many steps of the run wrote the content of digest `d`. */
  function WritesOf(s: Store, ops: seq<Op>, env: Env, d: string): nat
    decreases |ops|
  {
    if ops == [] then 0
    else (if WroteDigest(s, ops[0], env, d) then 1 else 0) + WritesOf(Step(s, ops[0], env), ops[1..], env, d)
  }

  /** A step writes only content whose digest is not yet indexed, and indexes it when it does. */
  lemma WriteNeedsMiss(s: Store, op: Op, env: Env, d: string)
    ensures WroteDigest(s, op, env, d) ==> d !in s.index && d in Step(s, op, env).index
  {
  }

  /** Dedup: any run writes the content of a digest at most once, and never once it is indexed. */
  lemma {:induction false} AtMostOneWrite(s: Store, ops: seq<Op>, env: Env, d: string)
    ensures WritesOf(s, ops, env, d) <= if d in s.index then 0 else 1
    decreases |ops|
  {
    if ops != [] {
      var s1 := Step(s, ops[0], env);
      WriteNeedsMiss(s, ops[0], env, d);
      IndexEntriesStable(s, [ops[0]], env);
      assert Run(s, [ops[0]], env) == s1;
      AtMostOneWrite(s1, ops[1..], env, d);
    }
  }

  /**
   * Uploading the same body twice from a first start: two records with the same digest
   * and ids 0 and 1, one Create, and both ids and the digest read back the body.
   */
  lemma SameBodyTwice(env: Env, body: string, p1: string, p2: string, t1: Time, t2: Time, other: string)
    requires body != "" && other != env.digestOf(body)
    ensures var d := env.digestOf(body);
            var (s1, r1) := Upload(Empty, UploadRequest(body, p1, ""), env, true, t1);
            var (s2, r2) := Upload(s1, UploadRequest(body, p2, ""), env, true, t2);
            && r1.Ok? && r2.Ok? && r1.value.id == 0 && r2.value.id == 1
            && r1.value.fileHash == r2.value.fileHash == d
            && s2.blobs.creates == [StorageKey(d)]
            && FileByDigest(s2, RefById(s2, 0).value.fileHash) == Ok(body)
            && FileByDigest(s2, RefById(s2, 1).value.fileHash) == Ok(body)
            && DigestExists(s2, d) == Pass && DigestExists(s2, other) == Fail(NotFound)
  {
  }

  /**
   * Storage keys keep only seven characters of the digest. Two bodies whose digests
   * differ but share that prefix go to the same path, so after both uploads the first
   * digest reads back the second body.
   */
  lemma SharedPrefixOverwrites(s: Store, env: Env, b1: string, b2: string, p: string, t: Time)
    requires b1 != "" && b2 != ""
    requires env.digestOf(b1) != env.digestOf(b2) && env.digestOf(b1)[..7] == env.digestOf(b2)[..7]
    requires env.digestOf(b1) !in s.index && env.digestOf(b2) !in s.index
    ensures var s1 := Upload(s, UploadRequest(b1, p, ""), env, true, t).0;
            var s2 := Upload(s1, UploadRequest(b2, p, ""), env, true, t).0;
            FileByDigest(s2, env.digestOf(b1)) == Ok(b2)
  {
  }
}
