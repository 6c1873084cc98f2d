/**
 * The reference catalog (file-ref.go): an integer-keyed map of reference records
 * and the counter that stamps each new record with its id.
 */
module FileRefs {
  import opened Wrappers
  import opened KeyValue

  /** An instant; the wall clock is an input of the model. */
  type Time = int

  /** A reference record, as a client sees one upload. */
  datatype FileRef = FileRef(id: int, fileHash: string, name: string, fileType: string, createdAt: Time)

  /** The value of a `DB`: the record map and the next id to hand out. */
  datatype Catalog = Catalog(store: map<int, FileRef>, counter: int)

  /** Every stored record sits under its own id, and every id lies below the counter. */
  predicate IdsIssued(c: Catalog)
  {
    forall id :: id in c.store ==> c.store[id].id == id && id < c.counter
  }

  /** `Save`: stamp the record with the counter, store it under that id, advance the counter. */
  function Saved(c: Catalog, f: FileRef): (r: (Catalog, FileRef))
    ensures r.1 == f.(id := c.counter)
    ensures r.0.counter == c.counter + 1
    ensures r.0.store.Keys == c.store.Keys + {c.counter}
    ensures r.0.store[c.counter] == r.1
    ensures forall id :: id in c.store && id != c.counter ==> r.0.store[id] == c.store[id]
  {
    var stamped := f.(id := c.counter);
    (Catalog(c.store[c.counter := stamped], c.counter + 1), stamped)
  }

  /** `Delete`: drop one id; the counter is untouched, so the id is never handed out again. */
  function Deleted(c: Catalog, id: int): (r: Catalog)
    ensures r.counter == c.counter
    ensures r.store.Keys == c.store.Keys - {id}
    ensures forall k :: k in r.store ==> r.store[k] == c.store[k]
  {
    c.(store := c.store - {id})
  }

  lemma DeleteIdempotent(c: Catalog, id: int)
    ensures Deleted(Deleted(c, id), id) == Deleted(c, id)
    ensures Lookup(Deleted(c, id).store, id) == Err(NotFoundError)
  {
  }

  /** Two Saves in a row hand out increasing ids, and the second keeps the first record. */
  lemma SaveTwice(c: Catalog, f: FileRef, g: FileRef)
    ensures var (c1, r1) := Saved(c, f);
            var (c2, r2) := Saved(c1, g);
            r1.id < r2.id && r2.id == r1.id + 1 && c2.store[r1.id] == r1 && c2.store[r2.id] == r2
  {
  }

  /** When every stored id lies below the counter, Save keeps that so and overwrites nothing. */
  lemma SaveKeepsIdsIssued(c: Catalog, f: FileRef)
    requires IdsIssued(c)
    ensures var (c', r) := Saved(c, f);
            IdsIssued(c') && r.id !in c.store && c'.store == c.store[r.id := r]
  {
  }

  /**
   * The catalog as `NewDB` builds it: the records read back from the snapshot and a
   * counter that starts again at zero. The first Save after a restart therefore
   * replaces a loaded record with id 0 instead of adding a record.
   */
  lemma RestartOverwritesRecord(loaded: map<int, FileRef>, f: FileRef)
    requires 0 in loaded
    ensures var (c, r) := Saved(Catalog(loaded, 0), f);
            r.id == 0 && c.store.Keys == loaded.Keys && c.store[0] == f.(id := 0)
            && |c.store| == |loaded|
  {
  }

  /** With the counter above every stored id, as `DB.Resume` leaves it, Save adds a record and loses none. */
  lemma ResumedSaveAdds(c: Catalog, f: FileRef)
    requires forall id :: id in c.store ==> id < c.counter
    ensures var (c', r) := Saved(c, f);
            r.id !in c.store && c'.store == c.store[r.id := r] && |c'.store| == |c.store| + 1
            && forall id :: id in c'.store ==> id < c'.counter
  {
  }

  /** A non-empty set of ids has a member to pick. */
  lemma HasMember(ids: set<int>)
    requires ids != {}
    ensures exists id :: id in ids
  {
    if forall id :: id !in ids {
      assert false;
    }
  }

  /**
   * The counter a restart should resume from: above every loaded id, and the least
   * non-negative value that is.
   */
  method NextFreeId(ids: set<int>) returns (next: int)
    ensures 0 <= next
    ensures forall id :: id in ids ==> id < next
    ensures next == 0 || next - 1 in ids
  {
    next := 0;
    var rest, seen := ids, {};
    while rest != {}
      invariant rest + seen == ids && rest !! seen
      invariant 0 <= next
      invariant forall id :: id in seen ==> id < next
      invariant next == 0 || next - 1 in seen
      decreases |rest|
    {
      HasMember(rest);
      var k :| k in rest;
      if next <= k {
        next := k + 1;
      }
      rest, seen := rest - {k}, seen + {k};
    }
  }

  /** `DB`: the record map and the counter, both updated in place. */
  class DB {
    var store: map<int, FileRef>
    var counter: int

    function Model(): Catalog
      reads this
    {
      Catalog(store, counter)
    }

    /** `NewDB`: the loaded records, with the counter at zero whatever was loaded. */
    constructor (loaded: map<int, FileRef>)
      ensures Model() == Catalog(loaded, 0)
    {
      store := loaded;
      counter := 0;
    }

    /** `NewDB` as intended: the counter resumes above every loaded id. */
    constructor Resume(loaded: map<int, FileRef>)
      ensures store == loaded && 0 <= counter
      ensures forall id :: id in loaded ==> id < counter
      ensures counter == 0 || counter - 1 in loaded
    {
      var next := NextFreeId(loaded.Keys);
      store := loaded;
      counter := next;
    }

    /** `Save`: the record comes back stamped with its id; the error is always nil. */
    method Save(f: FileRef) returns (saved: FileRef, err: Outcome<StoreError>)
      modifies this
      ensures (Model(), saved) == Saved(old(Model()), f)
      ensures err == Pass
    {
      saved := f.(id := counter);
      store := store[saved.id := saved];
      counter := counter + 1;
      err := Pass;
    }

    /** `Get`: the record stored under `id`, or not found. */
    method Get(id: int) returns (r: Result<FileRef, StoreError>)
      ensures r == Lookup(store, id)
    {
      if id in store {
        r := Ok(store[id]);
      } else {
        r := Err(NotFoundError);
      }
    }

    /** `Delete`: always nil, whether or not `id` was present. */
    method Delete(id: int) returns (err: Outcome<StoreError>)
      modifies this
      ensures Model() == Deleted(old(Model()), id)
      ensures err == Pass
    {
      store := store - {id};
      err := Pass;
    }
  }
}
