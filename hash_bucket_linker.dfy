/**
 * The digest index (hash-bucket-linker.go): a string map from content digest to
 * storage path behind the `HashStorageLinker` contract of Add, Get and Remove.
 */
module HashLinker {
  import opened Wrappers
  import opened KeyValue

  /** `Add`: set `k` to `v`, replacing whatever `k` held; no conflict is ever reported. */
  function Added(m: map<string, string>, k: string, v: string): (r: map<string, string>)
    ensures r.Keys == m.Keys + {k}
    ensures r[k] == v
    ensures forall x :: x in m && x != k ==> r[x] == m[x]
  {
    m[k := v]
  }

  /** `Remove`: drop `k` if present; every other entry stays. */
  function Removed(m: map<string, string>, k: string): (r: map<string, string>)
    ensures r.Keys == m.Keys - {k}
    ensures forall x :: x in r ==> r[x] == m[x]
  {
    m - {k}
  }

  /** Get right after Add returns the value just added, even over an older one. */
  lemma GetAfterAdd(m: map<string, string>, k: string, v: string)
    ensures Lookup(Added(m, k, v), k) == Ok(v)
    ensures k in m && m[k] != v ==> Lookup(Added(m, k, v), k) != Lookup(m, k)
  {
  }

  /** Get right after Remove reports not found, and a second Remove changes nothing. */
  lemma GetAfterRemove(m: map<string, string>, k: string)
    ensures Lookup(Removed(m, k), k) == Err(NotFoundError)
    ensures Removed(Removed(m, k), k) == Removed(m, k)
  {
  }

  /** `exampleHash`: the map is shared by every copy of the value, so updates are in place. */
  class ExampleHash {
    var store: map<string, string>

    /** `NewExampleHash`: the entries loaded from the snapshot (none on a first start). */
    constructor (loaded: map<string, string>)
      ensures store == loaded
    {
      store := loaded;
    }

    method Add(key: string, value: string) returns (err: Outcome<StoreError>)
      modifies this
      ensures store == Added(old(store), key, value)
      ensures err == Pass
    {
      store := store[key := value];
      err := Pass;
    }

    method Get(key: string) returns (r: Result<string, StoreError>)
      ensures r == Lookup(store, key)
    {
      if key in store {
        r := Ok(store[key]);
      } else {
        r := Err(NotFoundError);
      }
    }

    method Remove(key: string) returns (err: Outcome<StoreError>)
      modifies this
      ensures store == Removed(old(store), key)
      ensures err == Pass
    {
      store := store - {key};
      err := Pass;
    }
  }
}
