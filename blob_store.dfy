/**
 * The blob store (`FileInterface` in file.go) reduced to what the coordinator relies on:
 * a map from storage path to content whose Create may fail. The outcome of each write
 * is an input, since it depends on the device.
 */
module Blobs {
  import opened Wrappers
  import opened KeyValue

  /**
   * The stored files, and the paths of every Create call in order, successful or not;
   * the second part exists only to state which operations write.
   */
  datatype BlobState = BlobState(files: map<string, string>, creates: seq<string>)

  /** `Create(p, content)`: logged either way; the file is (re)written only when the device succeeds. */
  function Created(b: BlobState, p: string, content: string, deviceOk: bool): (r: BlobState)
    ensures r.creates == b.creates + [p]
    ensures r.files.Keys == if deviceOk then b.files.Keys + {p} else b.files.Keys
    ensures forall q :: q in b.files && q != p ==> r.files[q] == b.files[q]
    ensures deviceOk ==> r.files[p] == content
    ensures !deviceOk ==> r.files == b.files
  {
    BlobState(if deviceOk then b.files[p := content] else b.files, b.creates + [p])
  }

  class BlobStore {
    var files: map<string, string>
    ghost var creates: seq<string>

    ghost function Model(): BlobState
      reads this
    {
      BlobState(files, creates)
    }

    /** The files already on the device; no Create has been issued yet. */
    constructor (existing: map<string, string>)
      ensures Model() == BlobState(existing, [])
    {
      files := existing;
      creates := [];
    }

    method Create(p: string, content: string, deviceOk: bool) returns (err: Outcome<StoreError>)
      modifies this
      ensures Model() == Created(old(Model()), p, content, deviceOk)
      ensures err.Pass? <==> deviceOk
    {
      creates := creates + [p];
      if deviceOk {
        files := files[p := content];
        err := Pass;
      } else {
        err := Fail(IoError);
      }
    }

    method Get(p: string) returns (r: Result<string, StoreError>)
      ensures r == Lookup(files, p)
    {
      if p in files {
        r := Ok(files[p]);
      } else {
        r := Err(NotFoundError);
      }
    }
  }
}
