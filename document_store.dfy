/**
 * One collection of the hosted document database: documents keyed by an
 * id, `addDoc` (the store picks a fresh id), `updateDoc` (merges the
 * given fields into an existing document), `deleteDoc` and `getDocs`.
 *
 * As for the blob store, the calls that fail are fixed in advance by
 * `faults`, and every call attempted is appended to `log`.
 */
module DocumentStore {
  import opened Text
  import opened Wrappers

  type Id = string

  /** A document-store call, as it appears in the log and in the fault set. */
  datatype DocOp =
    | AddDoc            // addDoc(collection, data)
    | UpdateDoc(id: Id) // updateDoc(doc(collection, id), fields)
    | DeleteDoc(id: Id) // deleteDoc(doc(collection, id))
    | ReadAll           // getDocs(collection)

  /** The id `addDoc` gives the n-th document it creates. */
  function AutoId(n: nat): Id {
    Digits(n)
  }

  /** The merge of an `updateDoc` that writes every field: the stored record becomes the written one. */
  function Overwrite<T>(stored: T, written: T): T {
    written
  }

  /** What a generated document id looks like: non-empty, no slash, never the word `unsaved`. */
  predicate IsDocId(id: Id) {
    id != "" && '/' !in id && id != "unsaved"
  }

  lemma AutoIdIsDocId(n: nat)
    ensures IsDocId(AutoId(n))
  {
    assert AutoId(n)[0] != "unsaved"[0];
  }

  /** `snap` holds every document of `docs` exactly once, in some order. */
  ghost predicate IsSnapshotOf<T>(snap: seq<(Id, T)>, docs: map<Id, T>) {
    && (forall i, j :: 0 <= i < j < |snap| ==> snap[i].0 != snap[j].0)
    && (forall i :: 0 <= i < |snap| ==> snap[i].0 in docs && docs[snap[i].0] == snap[i].1)
    && (forall id :: id in docs ==> exists i :: 0 <= i < |snap| && snap[i].0 == id)
  }

  class Collection<T> {
    var docs: map<Id, T>
    /** How many documents `addDoc` has created. */
    var created: nat
    var log: seq<DocOp>
    const faults: set<DocOp>

    /** Ids `addDoc` will hand out are not taken yet. */
    ghost predicate Valid()
      reads this
    {
      forall n: nat :: n >= created ==> AutoId(n) !in docs
    }

    constructor (docs: map<Id, T>, created: nat, faults: set<DocOp>)
      requires forall n: nat :: n >= created ==> AutoId(n) !in docs
      ensures Valid()
      ensures this.docs == docs && this.created == created && this.faults == faults && log == []
    {
      this.docs := docs;
      this.created := created;
      this.faults := faults;
      log := [];
    }

    /** `addDoc`: stores `v` under a fresh id. */
    method Add(v: T) returns (id: Option<Id>)
      requires Valid()
      modifies this`docs, this`created, this`log
      ensures Valid()
      ensures log == old(log) + [AddDoc]
      ensures id.None? <==> AddDoc in faults
      ensures id.None? ==> docs == old(docs) && created == old(created)
      ensures id.Some? ==> && id.value == AutoId(old(created))
                           && id.value !in old(docs)
                           && docs == old(docs)[id.value := v]
                           && created == old(created) + 1
    {
      log := log + [AddDoc];
      if AddDoc in faults {
        return None;
      }
      var newId := AutoId(created);
      docs := docs[newId := v];
      created := created + 1;
      forall n: nat | n >= created
        ensures AutoId(n) !in docs
      {
        if AutoId(n) == newId {
          DigitsInjective(n, created - 1);
        }
      }
      return Some(newId);
    }

    /** `updateDoc`: merges `patch` into the existing document `id`; fails when there is none. */
    method Update<P>(id: Id, patch: P, merge: (T, P) -> T) returns (ok: bool)
      requires Valid()
      modifies this`docs, this`log
      ensures Valid()
      ensures log == old(log) + [UpdateDoc(id)]
      ensures ok == (id in old(docs) && UpdateDoc(id) !in faults)
      ensures docs == if ok then old(docs)[id := merge(old(docs)[id], patch)] else old(docs)
    {
      log := log + [UpdateDoc(id)];
      ok := id in docs && UpdateDoc(id) !in faults;
      if ok {
        docs := docs[id := merge(docs[id], patch)];
      }
    }

    /** `deleteDoc`: removes document `id`; deleting a missing document succeeds. */
    method Delete(id: Id) returns (ok: bool)
      requires Valid()
      modifies this`docs, this`log
      ensures Valid()
      ensures log == old(log) + [DeleteDoc(id)]
      ensures ok == (DeleteDoc(id) !in faults)
      ensures docs == if ok then old(docs) - {id} else old(docs)
    {
      log := log + [DeleteDoc(id)];
      ok := DeleteDoc(id) !in faults;
      if ok {
        docs := docs - {id};
      }
    }

    /** `getDocs`: every document once, in the store's order. */
    method GetAll() returns (snap: Option<seq<(Id, T)>>)
      modifies this`log
      ensures log == old(log) + [ReadAll]
      ensures snap.None? <==> ReadAll in faults
      ensures snap.Some? ==> IsSnapshotOf(snap.value, docs)
    {
      log := log + [ReadAll];
      if ReadAll in faults {
        return None;
      }
      var remaining := docs.Keys;
      var listed: seq<(Id, T)> := [];
      while remaining != {}
        invariant remaining <= docs.Keys
        invariant forall i, j :: 0 <= i < j < |listed| ==> listed[i].0 != listed[j].0
        invariant forall i :: 0 <= i < |listed| ==> listed[i].0 in docs && docs[listed[i].0] == listed[i].1
        invariant forall i :: 0 <= i < |listed| ==> listed[i].0 !in remaining
        invariant forall id :: id in docs && id !in remaining ==> exists i :: 0 <= i < |listed| && listed[i].0 == id
        decreases remaining
      {
        var id :| id in remaining;
        ghost var before := listed;
        listed := listed + [(id, docs[id])];
        remaining := remaining - {id};
        forall x | x in docs && x !in remaining
          ensures exists i :: 0 <= i < |listed| && listed[i].0 == x
        {
          if x == id {
            assert listed[|listed| - 1].0 == x;
          } else {
            var i :| 0 <= i < |before| && before[i].0 == x;
            assert listed[i].0 == x;
          }
        }
      }
      return Some(listed);
    }
  }
}
