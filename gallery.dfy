/**
 * The dashboard's gallery manager for the "About" section: uploading an
 * image (blob first, then a record pointing at it), deleting one (blob
 * first, then the record), and choosing which image is the profile photo
 * by rewriting the records' `isProfile` flags.
 *
 * The invariant the manager looks after is that at most one record is
 * flagged strictly `true`.
 */
module ProfileGallery {
  import opened Text
  import opened Wrappers
  import opened ObjectStorage
  import opened DocumentStore

  /**
   * The stored `isProfile` field. Only the boolean `true` counts as a
   * profile flag; any other stored value (a string `"true"`, a number, a
   * missing field) is `Other`, remembering whether JavaScript finds it truthy.
   */
  datatype ProfileFlag = True | False | Other(truthy: bool)

  /** A gallery record: the download URL, the blob's path, the server timestamp and the flag. */
  datatype GalleryImage = GalleryImage(url: string, storagePath: Path, createdAt: int, isProfile: ProfileFlag)

  /** An image chosen by the user: its file name and contents. */
  datatype ImageFile = ImageFile(name: string, bytes: Bytes)

  /** `d.data().isProfile === true`. */
  predicate IsProfile(img: GalleryImage) {
    img.isProfile == True
  }

  /** The ids of the records flagged strictly `true`. */
  function Flagged(docs: map<Id, GalleryImage>): set<Id> {
    set id | id in docs && IsProfile(docs[id])
  }

  predicate AtMostOneProfile(docs: map<Id, GalleryImage>) {
    forall a, b :: a in Flagged(docs) && b in Flagged(docs) ==> a == b
  }

  /** `updateDoc(..., { isProfile: f })` merged into a record. */
  function WithFlag(img: GalleryImage, f: ProfileFlag): GalleryImage {
    img.(isProfile := f)
  }

  /** Everything of a record except its flag. */
  predicate SameImage(a: GalleryImage, b: GalleryImage) {
    a.url == b.url && a.storagePath == b.storagePath && a.createdAt == b.createdAt
  }

  // ---------------------------------------------------------------------
  // choosing the profile photo
  // ---------------------------------------------------------------------

  /**
   * The records after `setAsProfile(target)` when every write goes through
   * in program order: each strictly flagged record is cleared, then the
   * target is flagged.
   */
  function AfterSetProfile(docs: map<Id, GalleryImage>, target: Id): (r: map<Id, GalleryImage>)
    ensures r.Keys == docs.Keys
    ensures target in docs ==> Flagged(r) == {target}
    ensures target !in docs ==> Flagged(r) == {}
    ensures forall id :: id in docs ==> SameImage(r[id], docs[id])
    ensures forall id :: id in docs && r[id] != docs[id] ==> id == target || IsProfile(docs[id])
  {
    map id | id in docs ::
      if id == target then WithFlag(docs[id], True)
      else if IsProfile(docs[id]) then WithFlag(docs[id], False)
      else docs[id]
  }

  /** Choosing the same photo twice is the same as choosing it once. */
  lemma SetProfileIdempotent(docs: map<Id, GalleryImage>, target: Id)
    ensures AfterSetProfile(AfterSetProfile(docs, target), target) == AfterSetProfile(docs, target)
  {
  }

  /** A record written by `setAsProfile`, other than its target: one that was flagged strictly `true`. */
  ghost predicate ClearsOnly(ops: seq<DocOp>, docs: map<Id, GalleryImage>) {
    forall k :: 0 <= k < |ops| ==> ops[k].UpdateDoc? && ops[k].id in docs && IsProfile(docs[ops[k].id])
  }

  /** The records once every strictly flagged record among `ids` has been cleared, except where the write fails. */
  ghost function ClearedAmong(docs: map<Id, GalleryImage>, ids: set<Id>, faults: set<DocOp>): map<Id, GalleryImage> {
    map id | id in docs ::
      if id in ids && IsProfile(docs[id]) && UpdateDoc(id) !in faults then WithFlag(docs[id], False) else docs[id]
  }

  /** One more snapshot entry processed: at most that one record changes. */
  lemma ClearedStep(docs: map<Id, GalleryImage>, ids: set<Id>, faults: set<DocOp>, id: Id)
    requires id in docs && id !in ids
    ensures ClearedAmong(docs, ids, faults)[id] == docs[id]
    ensures ClearedAmong(docs, ids + {id}, faults) ==
      if IsProfile(docs[id]) && UpdateDoc(id) !in faults
      then ClearedAmong(docs, ids, faults)[id := WithFlag(docs[id], False)]
      else ClearedAmong(docs, ids, faults)
  {
  }

  /** A set of ids holding every id of a snapshot, and only stored ones, is exactly the stored ids. */
  lemma ClearsOnlyAppend(ops: seq<DocOp>, more: seq<DocOp>, docs: map<Id, GalleryImage>)
    requires ClearsOnly(ops, docs) && ClearsOnly(more, docs)
    ensures ClearsOnly(ops + more, docs)
  {
    assert forall k :: |ops| <= k < |ops + more| ==> (ops + more)[k] == more[k - |ops|];
  }

  lemma VisitedAll(all: seq<(Id, GalleryImage)>, docs: map<Id, GalleryImage>, visited: set<Id>)
    requires IsSnapshotOf(all, docs) && visited <= docs.Keys
    requires forall k :: 0 <= k < |all| ==> all[k].0 in visited
    ensures visited == docs.Keys
  {
  }

  /** Entry `i` of a snapshot shows its record as stored, and its id does not come again. */
  lemma SnapshotEntry(all: seq<(Id, GalleryImage)>, docs: map<Id, GalleryImage>, i: nat)
    requires IsSnapshotOf(all, docs) && i < |all|
    ensures all[i].0 in docs && docs[all[i].0] == all[i].1
    ensures forall k :: i < k < |all| ==> all[k].0 != all[i].0
  {
  }

  /** What `setAsProfile(target)` leaves behind, in program order, when exactly the writes in `faults` fail. */
  ghost function SetProfileOutcome(docs: map<Id, GalleryImage>, target: Id, faults: set<DocOp>): map<Id, GalleryImage> {
    var cleared := ClearedAmong(docs, docs.Keys, faults);
    if target in docs && UpdateDoc(target) !in faults then cleared[target := WithFlag(docs[target], True)] else cleared
  }

  /** Each record ends as the idealised outcome says, unless the write to it failed, in which case it is untouched. */
  lemma SetProfileOutcomePerRecord(docs: map<Id, GalleryImage>, target: Id, faults: set<DocOp>)
    ensures SetProfileOutcome(docs, target, faults).Keys == docs.Keys
    ensures forall id :: id in docs ==>
      SetProfileOutcome(docs, target, faults)[id] ==
        if UpdateDoc(id) in faults then docs[id] else AfterSetProfile(docs, target)[id]
  {
  }

  /** With no failing write, the outcome is exactly the idealised one. */
  lemma SetProfileOutcomeWithoutFaults(docs: map<Id, GalleryImage>, target: Id, faults: set<DocOp>)
    requires forall id :: UpdateDoc(id) !in faults
    ensures SetProfileOutcome(docs, target, faults) == AfterSetProfile(docs, target)
  {
    SetProfileOutcomePerRecord(docs, target, faults);
  }

  // ---------------------------------------------------------------------
  // uploads
  // ---------------------------------------------------------------------

  const UploadsFolder: Path := "aboutGallery/uploads"

  /** `aboutGallery/uploads/<Date.now()>-<file name>`. */
  function GalleryUploadPath(now: nat, name: string): (p: Path)
    ensures '/' !in name ==> InFolder(p, UploadsFolder)
  {
    var p := UploadsFolder + "/" + (Digits(now) + "-" + name);
    assert '/' !in Digits(now) by {
      forall k | 0 <= k < |Digits(now)| ensures Digits(now)[k] != '/' {
        assert IsDigit(Digits(now)[k]);
      }
    }
    assert '/' !in name ==> InFolder(p, UploadsFolder) by {
      if '/' !in name {
        ChildInFolder(UploadsFolder, Digits(now) + "-" + name);
      }
    }
    p
  }

  /** Uploads made at different times, or of differently named files, never share a blob. */
  lemma GalleryUploadPathInjective(t1: nat, n1: string, t2: nat, n2: string)
    requires GalleryUploadPath(t1, n1) == GalleryUploadPath(t2, n2)
    ensures t1 == t2 && n1 == n2
  {
    var prefix := UploadsFolder + "/";
    var u, v := Digits(t1) + "-" + n1, Digits(t2) + "-" + n2;
    assert u == (prefix + u)[|prefix|..] && v == (prefix + v)[|prefix|..];
    assert u == Digits(t1) + ['-'] + n1 && v == Digits(t2) + ['-'] + n2;
    NoDashInDigits(t1);
    NoDashInDigits(t2);
    CutAtFirst(Digits(t1), '-', n1, Digits(t2), n2);
    DigitsInjective(t1, t2);
  }

  lemma NoDashInDigits(n: nat)
    ensures '-' !in Digits(n)
  {
    forall k | 0 <= k < |Digits(n)| ensures Digits(n)[k] != '-' {
      assert IsDigit(Digits(n)[k]);
    }
  }

  /** Adding an unflagged record leaves the flagged ones as they were. */
  lemma AddUnflaggedKeepsFlags(docs: map<Id, GalleryImage>, id: Id, img: GalleryImage)
    requires id !in docs && !IsProfile(img)
    ensures Flagged(docs[id := img]) == Flagged(docs)
    ensures AtMostOneProfile(docs) ==> AtMostOneProfile(docs[id := img])
  {
  }

  /** Removing a record never adds a flagged one. */
  lemma RemoveKeepsFlags(docs: map<Id, GalleryImage>, id: Id)
    ensures Flagged(docs - {id}) == Flagged(docs) - {id}
    ensures AtMostOneProfile(docs) ==> AtMostOneProfile(docs - {id})
  {
  }

  class GalleryManager {
    const images: Collection<GalleryImage>
    const storage: ObjectStore

    ghost predicate Valid()
      reads this, images
    {
      images.Valid()
    }

    constructor (images: Collection<GalleryImage>, storage: ObjectStore)
      requires images.Valid()
      ensures Valid()
      ensures this.images == images && this.storage == storage
    {
      this.images := images;
      this.storage := storage;
    }

    /**
     * `handleUpload`: nothing without a file; otherwise the blob goes to
     * `GalleryUploadPath(now, name)` and, once its URL is known, one
     * unflagged record pointing at it is added.
     */
    method Upload(file: Option<ImageFile>, now: nat, serverTime: int) returns (added: Option<Id>)
      requires Valid()
      modifies images`docs, images`created, images`log, storage`objects, storage`log
      ensures Valid()
      ensures file.None? ==> added.None? && unchanged(images) && unchanged(storage)
      ensures file.Some? ==>
        var path := GalleryUploadPath(now, file.value.name);
        && storage.objects == (if PutOp(path) in storage.faults then old(storage.objects)
                               else old(storage.objects)[path := file.value.bytes])
        && storage.log == old(storage.log) + (if PutOp(path) in storage.faults then [PutOp(path)]
                                              else [PutOp(path), UrlOp(path)])
        && images.log == old(images.log) + (if PutOp(path) in storage.faults || UrlOp(path) in storage.faults then []
                                            else [AddDoc])
        && (added.Some? <==> PutOp(path) !in storage.faults && UrlOp(path) !in storage.faults && AddDoc !in images.faults)
        && (added.None? ==> images.docs == old(images.docs))
        && (added.Some? ==>
              && added.value !in old(images.docs)
              && images.docs == old(images.docs)[added.value := GalleryImage(UrlOf(path), path, serverTime, False)])
      ensures Flagged(images.docs) == Flagged(old(images.docs))
    {
      if file.None? {
        return None;
      }
      var path := GalleryUploadPath(now, file.value.name);
      var put := storage.Put(path, file.value.bytes);
      if !put {
        return None;
      }
      var url := storage.DownloadUrl(path);
      if url.None? {
        return None;
      }
      var record := GalleryImage(url.value, path, serverTime, False);
      added := images.Add(record);
      if added.Some? {
        AddUnflaggedKeepsFlags(old(images.docs), added.value, record);
      }
    }

    /**
     * `handleDelete`: after confirmation, the blob is deleted first and the
     * record only once that succeeded; a failing blob delete leaves the
     * record in place.
     */
    method Delete(id: Id, storagePath: Path, confirmed: bool) returns (ok: bool)
      requires Valid()
      modifies images`docs, images`log, storage`objects, storage`log
      ensures Valid()
      ensures !confirmed ==> !ok && unchanged(images) && unchanged(storage)
      ensures confirmed ==>
        var blobGone := storagePath in old(storage.objects) && DeleteOp(storagePath) !in storage.faults;
        && storage.log == old(storage.log) + [DeleteOp(storagePath)]
        && storage.objects == (if blobGone then old(storage.objects) - {storagePath} else old(storage.objects))
        && (!blobGone ==> !ok && unchanged(images))
        && (blobGone ==>
              && images.log == old(images.log) + [DeleteDoc(id)]
              && ok == (DeleteDoc(id) !in images.faults)
              && images.docs == (if ok then old(images.docs) - {id} else old(images.docs)))
      ensures Flagged(images.docs) <= Flagged(old(images.docs))
    {
      if !confirmed {
        return false;
      }
      var blobGone := storage.Delete(storagePath);
      if !blobGone {
        return false;
      }
      ok := images.Delete(id);
      RemoveKeepsFlags(old(images.docs), id);
    }

    /**
     * The first step of `setAsProfile`: every record the snapshot `all`
     * shows flagged strictly `true` is cleared, one write each.
     */
    method ClearProfiles(all: seq<(Id, GalleryImage)>) returns (ghost written: seq<DocOp>)
      requires Valid() && IsSnapshotOf(all, images.docs)
      modifies images`docs, images`log
      ensures Valid()
      ensures images.docs == ClearedAmong(old(images.docs), old(images.docs).Keys, images.faults)
      ensures images.log == old(images.log) + written && ClearsOnly(written, old(images.docs))
    {
      ghost var docs0 := images.docs;
      ghost var log0 := images.log;
      ghost var visited: set<Id> := {};
      written := [];
      var i := 0;
      while i < |all|
        invariant 0 <= i <= |all|
        invariant images.Valid()
        invariant visited <= docs0.Keys
        invariant forall k :: 0 <= k < i ==> all[k].0 in visited
        invariant forall k :: i <= k < |all| ==> all[k].0 !in visited
        invariant images.docs == ClearedAmong(docs0, visited, images.faults)
        invariant images.log == log0 + written && ClearsOnly(written, docs0)
      {
        SnapshotEntry(all, docs0, i);
        ghost var op := ClearAmong(all[i].0, all[i].1, docs0, visited);
        ClearsOnlyAppend(written, op, docs0);
        AppendAssoc(log0, written, op);
        written := written + op;
        visited := visited + {all[i].0};
        i := i + 1;
      }
      VisitedAll(all, docs0, visited);
    }

    /** One more record visited by the clearing loop, stated against the records as they were before it. */
    method ClearAmong(id: Id, img: GalleryImage, ghost docs0: map<Id, GalleryImage>, ghost visited: set<Id>)
      returns (ghost op: seq<DocOp>)
      requires Valid()
      requires id in docs0 && docs0[id] == img && id !in visited
      requires images.docs == ClearedAmong(docs0, visited, images.faults)
      modifies images`docs, images`log
      ensures Valid()
      ensures images.docs == ClearedAmong(docs0, visited + {id}, images.faults)
      ensures images.log == old(images.log) + op && ClearsOnly(op, docs0)
    {
      ClearedStep(docs0, visited, images.faults, id);
      op := ClearOne(id, img);
    }

    /** The body of the clearing loop for one snapshot entry: a write only when it shows the flag strictly `true`. */
    method ClearOne(id: Id, img: GalleryImage) returns (ghost op: seq<DocOp>)
      requires Valid()
      requires id in images.docs && images.docs[id] == img
      modifies images`docs, images`log
      ensures Valid()
      ensures images.docs == if IsProfile(img) && UpdateDoc(id) !in images.faults
                             then old(images.docs)[id := WithFlag(img, False)] else old(images.docs)
      ensures op == (if IsProfile(img) then [UpdateDoc(id)] else [])
      ensures images.log == old(images.log) + op
    {
      op := [];
      if img.isProfile == True {
        var _ := images.Update(id, False, WithFlag);
        op := [UpdateDoc(id)];
      }
    }

    /**
     * `setAsProfile(target)` with its writes taken in program order: every
     * record the snapshot shows flagged strictly `true` is cleared, then the
     * target is flagged. A write that fails leaves its record as it was;
     * a failing snapshot stops everything.
     */
    method SetAsProfile(target: Id) returns (done: bool)
      requires Valid()
      modifies images`docs, images`log
      ensures Valid()
      ensures ReadAll in images.faults ==>
        && !done && images.docs == old(images.docs) && images.log == old(images.log) + [ReadAll]
      ensures ReadAll !in images.faults ==>
        && images.docs == SetProfileOutcome(old(images.docs), target, images.faults)
        && done == (target in old(images.docs) && UpdateDoc(target) !in images.faults)
        && |images.log| >= |old(images.log)| + 2
        && images.log[..|old(images.log)| + 1] == old(images.log) + [ReadAll]
        && images.log[|images.log| - 1] == UpdateDoc(target)
        && ClearsOnly(images.log[|old(images.log)| + 1..|images.log| - 1], old(images.docs))
    {
      var snap := images.GetAll();
      if snap.None? {
        return false;
      }
      ghost var written := ClearProfiles(snap.value);
      done := images.Update(target, True, WithFlag);
      assert images.log == old(images.log) + [ReadAll] + written + [UpdateDoc(target)];
      assert images.log[|old(images.log)| + 1..|images.log| - 1] == written;
    }
  }
}
