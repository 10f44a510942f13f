/**
 * The Projects panel's store-facing steps: uploading an image while the
 * modal is open, relocating provisional uploads into the folder of a newly
 * created project, and the save flow that ties normalisation, the document
 * writes and the relocation together.
 */
module ProjectsDashboard {
  import opened Text
  import opened Wrappers
  import opened ObjectStorage
  import opened DocumentStore
  import opened Projects

  // ---------------------------------------------------------------------
  // relocation of provisional uploads
  // ---------------------------------------------------------------------

  /** No call fails except listing and deleting: every download, read and upload goes through. */
  predicate TransfersSucceed(faults: set<Op>) {
    forall op | op in faults :: op.ListOp? || op.DeleteOp?
  }

  /** Some object of `folder` has the download URL `url`. */
  ghost predicate HasSource(objects: map<Path, Bytes>, url: string, folder: Path) {
    exists p :: p in objects && InFolder(p, folder) && UrlOf(p) == url
  }

  /** `newUrl` belongs to an object of `to` holding the bytes of the object of `from` behind `oldUrl`. */
  ghost predicate CopiedInto(newUrl: string, oldUrl: string, to: Path, from: Path,
                             before: map<Path, Bytes>, after: map<Path, Bytes>) {
    exists src, dst ::
      && src in before && InFolder(src, from) && UrlOf(src) == oldUrl
      && dst in after && InFolder(dst, to) && UrlOf(dst) == newUrl && after[dst] == before[src]
  }

  /** The object of `from` behind `oldUrl` is gone, unless deleting it failed. */
  ghost predicate SourceGone(oldUrl: string, from: Path, before: map<Path, Bytes>, after: map<Path, Bytes>, faults: set<Op>) {
    forall src :: src in before && InFolder(src, from) && UrlOf(src) == oldUrl && DeleteOp(src) !in faults ==> src !in after
  }

  /**
   * Objects disappeared only from `from` and were added only in `to`;
   * no object that stayed was overwritten.
   */
  ghost predicate ChangedOnlyIn(before: map<Path, Bytes>, after: map<Path, Bytes>, from: Path, to: Path) {
    && (forall p :: p in before && p !in after ==> InFolder(p, from))
    && (forall p :: p in after && p !in before ==> InFolder(p, to))
    && (forall p :: p in before && p in after ==> after[p] == before[p])
  }

  /**
   * The store changed only by a move from `from` to `to`: the only object
   * that may disappear is the one of `from` behind `oldUrl`, objects are
   * added only in `to`, and none is overwritten.
   */
  ghost predicate OnlyMoves(before: map<Path, Bytes>, after: map<Path, Bytes>, oldUrl: string, from: Path, to: Path) {
    && ChangedOnlyIn(before, after, from, to)
    && (forall p :: p in before && p !in after ==> UrlOf(p) == oldUrl)
  }

  /** Nothing was removed or overwritten, and every object added lies in `folder`. */
  ghost predicate GrowsOnlyIn(before: map<Path, Bytes>, after: map<Path, Bytes>, folder: Path) {
    && (forall p :: p in before ==> p in after && after[p] == before[p])
    && (forall p :: p in after && p !in before ==> InFolder(p, folder))
  }

  /** No object lies in both folders. */
  ghost predicate Disjoint(from: Path, to: Path) {
    forall p :: InFolder(p, from) ==> !InFolder(p, to)
  }

  lemma ProjectFoldersDisjoint(id: Id, slot: Slot)
    requires IsDocId(id)
    ensures Disjoint(UnsavedFolder(slot), ProjectFolder(id, slot))
  {
    forall p | InFolder(p, UnsavedFolder(slot))
      ensures !InFolder(p, ProjectFolder(id, slot))
    {
      PermanentAndProvisionalDisjoint(p, id, slot, slot);
    }
  }

  /** Leaving everything outside `to` untouched is a special case of a move. */
  lemma GrowthIsOnlyMoves(before: map<Path, Bytes>, after: map<Path, Bytes>, oldUrl: string, from: Path, to: Path)
    requires GrowsOnlyIn(before, after, to)
    ensures OnlyMoves(before, after, oldUrl, from, to)
  {
  }

  /** Two rounds of changes confined to `from` and `to` are one, when the folders are disjoint. */
  lemma ChangedOnlyInTrans(a: map<Path, Bytes>, b: map<Path, Bytes>, c: map<Path, Bytes>, from: Path, to: Path)
    requires Disjoint(from, to)
    requires ChangedOnlyIn(a, b, from, to) && ChangedOnlyIn(b, c, from, to)
    ensures ChangedOnlyIn(a, c, from, to)
  {
    forall p | p in a && p in c
      ensures c[p] == a[p]
    {
      assert p in b;
    }
  }

  /**
   * The body of the search loop for one listed `item`: when its download
   * URL is `oldUrl`, copy it under a fresh name into `to`, delete it
   * (ignoring a failed delete) and give the copy's URL. Any failed step
   * before the delete gives `None`, the error the loop skips.
   */
  method TryMove(store: ObjectStore, item: Path, oldUrl: string, from: Path, to: Path)
    returns (newUrl: Option<string>)
    requires store.Valid()
    requires Disjoint(from, to) && InFolder(item, from)
    modifies store`objects, store`log, store`minted
    ensures store.Valid()
    ensures newUrl.None? ==> GrowsOnlyIn(old(store.objects), store.objects, to)
    ensures newUrl.Some? ==>
      && newUrl.value != oldUrl
      && CopiedInto(newUrl.value, oldUrl, to, from, old(store.objects), store.objects)
      && OnlyMoves(old(store.objects), store.objects, oldUrl, from, to)
      && SourceGone(oldUrl, from, old(store.objects), store.objects, store.faults)
    ensures TransfersSucceed(store.faults) && item in old(store.objects) && UrlOf(item) == oldUrl ==> newUrl.Some?
  {
    var url := store.DownloadUrl(item);
    if url.None? || url.value != oldUrl {
      return None;
    }
    var bytes := store.Read(item);
    if bytes.None? {
      return None;
    }
    ghost var m := store.minted;
    var name := store.NewName();
    var dst := to + "/" + name;
    ChildInFolder(to, name);
    ChildEndsInName(to, name);
    assert dst !in old(store.objects);
    PutMintedKeepsFresh(old(store.objects), store.minted, to, m, bytes.value);
    var ok := store.Put(dst, bytes.value);
    if !ok {
      return None;
    }
    var dstUrl := store.DownloadUrl(dst);
    if dstUrl.None? {
      return None;
    }
    assert dst != item;
    var _ := store.Delete(item);
    MoveStep(old(store.objects), store.objects, item, dst, bytes.value, oldUrl, from, to, store.faults);
    return Some(dstUrl.value);
  }

  /** Copying `item` of `from` to a new `dst` in `to` and deleting `item` is a move of `item`'s URL. */
  lemma MoveStep(before: map<Path, Bytes>, after: map<Path, Bytes>, item: Path, dst: Path, bytes: Bytes,
                 oldUrl: string, from: Path, to: Path, faults: set<Op>)
    requires Disjoint(from, to)
    requires item in before && InFolder(item, from) && UrlOf(item) == oldUrl && before[item] == bytes
    requires dst !in before && InFolder(dst, to)
    requires after == if DeleteOp(item) in faults then before[dst := bytes] else before[dst := bytes] - {item}
    ensures UrlOf(dst) != oldUrl
    ensures CopiedInto(UrlOf(dst), oldUrl, to, from, before, after)
    ensures OnlyMoves(before, after, oldUrl, from, to)
    ensures SourceGone(oldUrl, from, before, after, faults)
  {
    assert dst != item;
    if UrlOf(dst) == oldUrl {
      UrlOfInjective(dst, item);
    }
    assert after[dst] == before[item];
    MoveRemovesOnlyItem(before, after, item, dst, bytes, oldUrl, from, to, faults);
  }

  lemma MoveRemovesOnlyItem(before: map<Path, Bytes>, after: map<Path, Bytes>, item: Path, dst: Path, bytes: Bytes,
                            oldUrl: string, from: Path, to: Path, faults: set<Op>)
    requires item in before && InFolder(item, from) && UrlOf(item) == oldUrl
    requires dst !in before && InFolder(dst, to)
    requires after == if DeleteOp(item) in faults then before[dst := bytes] else before[dst := bytes] - {item}
    ensures OnlyMoves(before, after, oldUrl, from, to)
    ensures SourceGone(oldUrl, from, before, after, faults)
  {
    forall src | src in before && InFolder(src, from) && UrlOf(src) == oldUrl
      ensures src == item
    {
      UrlOfInjective(src, item);
    }
    assert forall p :: p in after ==> p == dst || p in before;
    assert forall p :: p in before && p in after ==> p != dst;
  }

  /**
   * `moveSingleUnsavedUrl`, moving from the provisional folder `from` into
   * the project's folder `to`: lists `from`, tries each item in listing
   * order and stops at the first move that goes through, even when the
   * old object could not be deleted. Errors on single items are skipped;
   * without a match `oldUrl` comes back unchanged. `None` is the error a
   * failed listing throws.
   */
  method MoveSingleUnsavedUrl(store: ObjectStore, oldUrl: string, from: Path, to: Path)
    returns (newUrl: Option<string>)
    requires store.Valid()
    requires Disjoint(from, to)
    modifies store`objects, store`log, store`minted
    ensures store.Valid()
    ensures newUrl.None? <==> ListOp(from) in store.faults
    ensures newUrl.None? ==> store.objects == old(store.objects) && store.log == old(store.log) + [ListOp(from)]
    ensures newUrl.Some? && newUrl.value != oldUrl ==>
      && CopiedInto(newUrl.value, oldUrl, to, from, old(store.objects), store.objects)
      && SourceGone(oldUrl, from, old(store.objects), store.objects, store.faults)
    ensures OnlyMoves(old(store.objects), store.objects, oldUrl, from, to)
    ensures TransfersSucceed(store.faults) && newUrl.Some? && HasSource(old(store.objects), oldUrl, from) ==>
      newUrl.value != oldUrl
  {
    var listed := store.List(from);
    if listed.None? {
      return None;
    }
    var items := listed.value;
    var i := 0;
    while i < |items|
      invariant 0 <= i <= |items|
      invariant store.Valid()
      invariant GrowsOnlyIn(old(store.objects), store.objects, to)
      invariant TransfersSucceed(store.faults) ==> forall j :: 0 <= j < i ==> UrlOf(items[j]) != oldUrl
    {
      var item := items[i];
      assert item in items;
      ghost var before := store.objects;
      var moved := TryMove(store, item, oldUrl, from, to);
      if moved.Some? {
        MoveAfterGrowth(old(store.objects), before, store.objects, moved.value, oldUrl, from, to, store.faults);
        return moved;
      }
      i := i + 1;
    }
    GrowthIsOnlyMoves(old(store.objects), store.objects, oldUrl, from, to);
    NoSourceLeft(items, old(store.objects), from, oldUrl, TransfersSucceed(store.faults));
    return Some(oldUrl);
  }

  /** A move that follows failed attempts, which only added objects in `to`, is a move from the start. */
  lemma MoveAfterGrowth(start: map<Path, Bytes>, before: map<Path, Bytes>, after: map<Path, Bytes>,
                        newUrl: string, oldUrl: string, from: Path, to: Path, faults: set<Op>)
    requires Disjoint(from, to)
    requires GrowsOnlyIn(start, before, to)
    requires CopiedInto(newUrl, oldUrl, to, from, before, after)
    requires OnlyMoves(before, after, oldUrl, from, to)
    requires SourceGone(oldUrl, from, before, after, faults)
    ensures CopiedInto(newUrl, oldUrl, to, from, start, after)
    ensures OnlyMoves(start, after, oldUrl, from, to)
    ensures SourceGone(oldUrl, from, start, after, faults)
  {
    var src, dst :| && src in before && InFolder(src, from) && UrlOf(src) == oldUrl
                    && dst in after && InFolder(dst, to) && UrlOf(dst) == newUrl && after[dst] == before[src];
    assert src in start;
  }

  /** A listing none of whose items has the URL `url` leaves no source for it in the folder. */
  lemma NoSourceLeft(items: seq<Path>, objects: map<Path, Bytes>, folder: Path, url: string, ok: bool)
    requires IsListing(items, objects, folder)
    requires ok ==> forall j :: 0 <= j < |items| ==> UrlOf(items[j]) != url
    ensures ok ==> !HasSource(objects, url, folder)
  {
  }

  /**
   * A URL relocation keeps the URL, or replaces a marked URL by that of an
   * object of `to` holding the bytes of the object of `from` the URL
   * pointed at in `start`, and that object is gone unless its delete failed.
   */
  ghost predicate RelocatedUrl(now: string, was: string, from: Path, to: Path,
                               start: map<Path, Bytes>, objects: map<Path, Bytes>, faults: set<Op>) {
    now == was ||
    (IsMarked(was) && CopiedInto(now, was, to, from, start, objects) && SourceGone(was, from, start, objects, faults))
  }

  /** The folders one relocation pass moves between: main image and gallery, each from and to. */
  datatype Folders = Folders(mainFrom: Path, mainTo: Path, galleryFrom: Path, galleryTo: Path)

  /** The folders for project `id`: from `projects/unsaved/<slot>` into `projects/<id>/<slot>`. */
  function ProjectFolders(id: Id): Folders {
    Folders(UnsavedFolder(Main), ProjectFolder(id, Main), UnsavedFolder(Gallery), ProjectFolder(id, Gallery))
  }

  /** No move of the pass can delete what an earlier move placed or what a later move looks for. */
  ghost predicate Separated(fs: Folders) {
    && Disjoint(fs.mainFrom, fs.mainTo)
    && Disjoint(fs.galleryFrom, fs.galleryTo)
    && Disjoint(fs.galleryFrom, fs.mainTo)
    && Disjoint(fs.mainFrom, fs.galleryTo)
    && Disjoint(fs.mainFrom, fs.galleryFrom)
    && Disjoint(fs.galleryFrom, fs.mainFrom)
  }

  lemma ProjectFoldersSeparated(id: Id)
    requires IsDocId(id)
    ensures Separated(ProjectFolders(id))
  {
    ProjectFoldersDisjoint(id, Main);
    ProjectFoldersDisjoint(id, Gallery);
    forall p | InFolder(p, UnsavedFolder(Gallery))
      ensures !InFolder(p, ProjectFolder(id, Main)) && !InFolder(p, UnsavedFolder(Main))
    {
      PermanentAndProvisionalDisjoint(p, id, Main, Gallery);
      ProvisionalFoldersDisjoint(p);
    }
    forall p | InFolder(p, UnsavedFolder(Main))
      ensures !InFolder(p, ProjectFolder(id, Gallery)) && !InFolder(p, UnsavedFolder(Gallery))
    {
      PermanentAndProvisionalDisjoint(p, id, Gallery, Main);
      ProvisionalFoldersDisjoint(p);
    }
  }

  /**
   * `updated` is `f` with only its main image and gallery entries
   * relocated, from `start` into `fs.mainTo` and `fs.galleryTo`, gallery
   * positions kept.
   */
  ghost predicate IsRelocationOf(updated: ProjectFields, f: ProjectFields, fs: Folders,
                                 start: map<Path, Bytes>, objects: map<Path, Bytes>, faults: set<Op>) {
    && updated == f.(imageUrl := updated.imageUrl, gallery := updated.gallery)
    && RelocatedUrl(updated.imageUrl, f.imageUrl, fs.mainFrom, fs.mainTo, start, objects, faults)
    && |updated.gallery| == |f.gallery|
    && (forall k :: 0 <= k < |f.gallery| ==>
          RelocatedUrl(updated.gallery[k], f.gallery[k], fs.galleryFrom, fs.galleryTo, start, objects, faults))
  }

  /**
   * A save whose last update fails after the files were moved leaves the
   * record with the provisional URL: no object is behind it any more,
   * while the copy sits under a URL no record holds.
   */
  lemma FailedSaveLeavesDangling(moved: ProjectFields, f: ProjectFields, fs: Folders,
                                 start: map<Path, Bytes>, objects: map<Path, Bytes>, faults: set<Op>)
    requires IsRelocationOf(moved, f, fs, start, objects, faults)
    requires moved.imageUrl != f.imageUrl
    requires forall p :: DeleteOp(p) !in faults
    ensures !HasSource(objects, f.imageUrl, fs.mainFrom)
    ensures HasSource(objects, moved.imageUrl, fs.mainTo)
  {
    var src, dst :| && src in start && InFolder(src, fs.mainFrom) && UrlOf(src) == f.imageUrl
                    && dst in objects && InFolder(dst, fs.mainTo) && UrlOf(dst) == moved.imageUrl
                    && objects[dst] == start[src];
    assert src !in objects;
    forall p | p in objects && InFolder(p, fs.mainFrom)
      ensures UrlOf(p) != f.imageUrl
    {
      if UrlOf(p) == UrlOf(src) {
        UrlOfInjective(p, src);
      }
    }
  }

  /** Later changes confined to `cFrom` and `cTo` keep a relocation, when they cannot touch its copy or bring back its source. */
  lemma RelocationSurvives(now: string, was: string, from: Path, to: Path, start: map<Path, Bytes>,
                           before: map<Path, Bytes>, after: map<Path, Bytes>, faults: set<Op>, cFrom: Path, cTo: Path)
    requires Disjoint(cFrom, to) && Disjoint(from, cTo)
    requires RelocatedUrl(now, was, from, to, start, before, faults)
    requires ChangedOnlyIn(before, after, cFrom, cTo)
    ensures RelocatedUrl(now, was, from, to, start, after, faults)
  {
    if now != was {
      var src, dst :| && src in start && InFolder(src, from) && UrlOf(src) == was
                      && dst in before && InFolder(dst, to) && UrlOf(dst) == now && before[dst] == start[src];
      assert dst in after;
    }
  }

  /** A relocation from a state after changes elsewhere is a relocation from the state before them. */
  lemma RelocationFromEarlier(now: string, was: string, from: Path, to: Path, start: map<Path, Bytes>,
                              mid: map<Path, Bytes>, after: map<Path, Bytes>, faults: set<Op>, cFrom: Path, cTo: Path)
    requires Disjoint(cFrom, from) && Disjoint(from, cTo)
    requires ChangedOnlyIn(start, mid, cFrom, cTo)
    requires RelocatedUrl(now, was, from, to, mid, after, faults)
    ensures RelocatedUrl(now, was, from, to, start, after, faults)
  {
    if now != was {
      var src, dst :| && src in mid && InFolder(src, from) && UrlOf(src) == was
                      && dst in after && InFolder(dst, to) && UrlOf(dst) == now && after[dst] == mid[src];
      assert src in start;
    }
  }

  /**
   * The gallery loop of `moveUnsavedFilesForProject`: each marked entry,
   * in order, is moved from `from` into `to` and replaced by the URL that
   * comes back; positions are kept. A failed listing stops the loop.
   * Since a listing fails on every attempt or on none, that happens at the
   * first marked entry, before anything is moved.
   */
  method RelocateGallery(store: ObjectStore, gallery: seq<string>, from: Path, to: Path) returns (updated: seq<string>)
    requires store.Valid()
    requires Disjoint(from, to)
    modifies store`objects, store`log, store`minted
    ensures store.Valid()
    ensures |updated| == |gallery|
    ensures forall k :: 0 <= k < |gallery| ==>
      RelocatedUrl(updated[k], gallery[k], from, to, old(store.objects), store.objects, store.faults)
    ensures ChangedOnlyIn(old(store.objects), store.objects, from, to)
    ensures (forall k :: 0 <= k < |gallery| ==> !IsMarked(gallery[k])) ==>
      store.objects == old(store.objects) && store.log == old(store.log) && store.minted == old(store.minted)
    ensures ListOp(from) in store.faults ==> updated == gallery
    ensures TransfersSucceed(store.faults) && ListOp(from) !in store.faults ==>
      forall k :: 0 <= k < |gallery| && IsMarked(gallery[k]) && gallery[k] !in gallery[..k]
                  && HasSource(old(store.objects), gallery[k], from) ==>
        updated[k] != gallery[k]
  {
    updated := gallery;
    var i := 0;
    while i < |gallery|
      invariant 0 <= i <= |gallery| && |updated| == |gallery|
      invariant store.Valid()
      invariant forall k :: i <= k < |gallery| ==> updated[k] == gallery[k]
      invariant forall k :: 0 <= k < i ==>
        RelocatedUrl(updated[k], gallery[k], from, to, old(store.objects), store.objects, store.faults)
      invariant ChangedOnlyIn(old(store.objects), store.objects, from, to)
      invariant ListOp(from) in store.faults ==> updated == gallery
      invariant (forall k :: 0 <= k < i ==> !IsMarked(gallery[k])) ==>
        store.objects == old(store.objects) && store.log == old(store.log) && store.minted == old(store.minted)
      invariant forall p :: p in old(store.objects) && InFolder(p, from) && UrlOf(p) !in gallery[..i] ==> p in store.objects
      invariant TransfersSucceed(store.faults) && ListOp(from) !in store.faults ==>
        forall k :: 0 <= k < i && IsMarked(gallery[k]) && gallery[k] !in gallery[..k]
                    && HasSource(old(store.objects), gallery[k], from) ==>
          updated[k] != gallery[k]
    {
      var url := gallery[i];
      if IsMarked(url) {
        ghost var before := store.objects;
        var moved := MoveSingleUnsavedUrl(store, url, from, to);
        if moved.None? {
          return;
        }
        GalleryStep(old(store.objects), before, store.objects, gallery, updated, i, moved.value, from, to, store.faults,
                    TransfersSucceed(store.faults) && ListOp(from) !in store.faults);
        updated := updated[i := moved.value];
      } else {
        GallerySkip(old(store.objects), store.objects, gallery, updated, i, from, to, store.faults,
                    TransfersSucceed(store.faults) && ListOp(from) !in store.faults);
      }
      i := i + 1;
    }
  }

  /** The invariants of the gallery loop carry over a move of entry `i`. */
  lemma GalleryStep(start: map<Path, Bytes>, before: map<Path, Bytes>, after: map<Path, Bytes>,
                    gallery: seq<string>, updated: seq<string>, i: nat, newUrl: string, from: Path, to: Path,
                    faults: set<Op>, progress: bool)
    requires Disjoint(from, to) && i < |gallery| && |updated| == |gallery| && IsMarked(gallery[i])
    requires forall k :: 0 <= k < i ==> RelocatedUrl(updated[k], gallery[k], from, to, start, before, faults)
    requires ChangedOnlyIn(start, before, from, to)
    requires forall p :: p in start && InFolder(p, from) && UrlOf(p) !in gallery[..i] ==> p in before
    requires OnlyMoves(before, after, gallery[i], from, to)
    requires newUrl != gallery[i] ==>
      CopiedInto(newUrl, gallery[i], to, from, before, after) && SourceGone(gallery[i], from, before, after, faults)
    requires progress && HasSource(before, gallery[i], from) ==> newUrl != gallery[i]
    requires progress ==>
      forall k :: 0 <= k < i && IsMarked(gallery[k]) && gallery[k] !in gallery[..k] && HasSource(start, gallery[k], from) ==>
        updated[k] != gallery[k]
    ensures var u := updated[i := newUrl];
      && (forall k :: 0 <= k < i + 1 ==> RelocatedUrl(u[k], gallery[k], from, to, start, after, faults))
      && ChangedOnlyIn(start, after, from, to)
      && (forall p :: p in start && InFolder(p, from) && UrlOf(p) !in gallery[..i + 1] ==> p in after)
      && (progress ==>
            forall k :: 0 <= k < i + 1 && IsMarked(gallery[k]) && gallery[k] !in gallery[..k] && HasSource(start, gallery[k], from) ==>
              u[k] != gallery[k])
  {
    EarlierEntriesSurvive(updated, gallery, i, from, to, start, before, after, faults);
    GallerySourceStep(start, before, after, gallery, i, gallery[i], newUrl, from, to, faults);
    ChangedOnlyInTrans(start, before, after, from, to);
  }

  /** The invariants of the gallery loop carry over an entry that is not marked, which the pass skips. */
  lemma GallerySkip(start: map<Path, Bytes>, objects: map<Path, Bytes>, gallery: seq<string>, updated: seq<string>,
                    i: nat, from: Path, to: Path, faults: set<Op>, progress: bool)
    requires i < |gallery| && |updated| == |gallery| && !IsMarked(gallery[i]) && updated[i] == gallery[i]
    requires forall k :: 0 <= k < i ==> RelocatedUrl(updated[k], gallery[k], from, to, start, objects, faults)
    requires forall p :: p in start && InFolder(p, from) && UrlOf(p) !in gallery[..i] ==> p in objects
    requires progress ==>
      forall k :: 0 <= k < i && IsMarked(gallery[k]) && gallery[k] !in gallery[..k] && HasSource(start, gallery[k], from) ==>
        updated[k] != gallery[k]
    ensures forall k :: 0 <= k < i + 1 ==> RelocatedUrl(updated[k], gallery[k], from, to, start, objects, faults)
    ensures forall p :: p in start && InFolder(p, from) && UrlOf(p) !in gallery[..i + 1] ==> p in objects
    ensures progress ==>
      forall k :: 0 <= k < i + 1 && IsMarked(gallery[k]) && gallery[k] !in gallery[..k] && HasSource(start, gallery[k], from) ==>
        updated[k] != gallery[k]
  {
    assert gallery[..i + 1] == gallery[..i] + [gallery[i]];
  }

  /** A move within the pass keeps the relocations of the entries before it. */
  lemma EarlierEntriesSurvive(updated: seq<string>, gallery: seq<string>, n: nat, from: Path, to: Path,
                              start: map<Path, Bytes>, before: map<Path, Bytes>, after: map<Path, Bytes>, faults: set<Op>)
    requires Disjoint(from, to) && n <= |updated| && n <= |gallery|
    requires forall k :: 0 <= k < n ==> RelocatedUrl(updated[k], gallery[k], from, to, start, before, faults)
    requires ChangedOnlyIn(before, after, from, to)
    ensures forall k :: 0 <= k < n ==> RelocatedUrl(updated[k], gallery[k], from, to, start, after, faults)
  {
    forall k | 0 <= k < n
      ensures RelocatedUrl(updated[k], gallery[k], from, to, start, after, faults)
    {
      RelocationSurvives(updated[k], gallery[k], from, to, start, before, after, faults, from, to);
    }
  }

  /** One gallery move: the sources of later entries survive, and the moved entry is relocated from the start. */
  lemma GallerySourceStep(start: map<Path, Bytes>, before: map<Path, Bytes>, after: map<Path, Bytes>,
                          gallery: seq<string>, i: nat, url: string, newUrl: string, from: Path, to: Path, faults: set<Op>)
    requires Disjoint(from, to)
    requires i < |gallery| && url == gallery[i] && IsMarked(url)
    requires ChangedOnlyIn(start, before, from, to)
    requires forall p :: p in start && InFolder(p, from) && UrlOf(p) !in gallery[..i] ==> p in before
    requires OnlyMoves(before, after, url, from, to)
    requires newUrl != url ==> CopiedInto(newUrl, url, to, from, before, after) && SourceGone(url, from, before, after, faults)
    ensures forall p :: p in start && InFolder(p, from) && UrlOf(p) !in gallery[..i + 1] ==> p in after
    ensures RelocatedUrl(newUrl, url, from, to, start, after, faults)
    ensures gallery[i] !in gallery[..i] && HasSource(start, gallery[i], from) ==> HasSource(before, url, from)
  {
    assert gallery[..i + 1] == gallery[..i] + [gallery[i]];
    if newUrl != url {
      var src, dst :| && src in before && InFolder(src, from) && UrlOf(src) == url
                      && dst in after && InFolder(dst, to) && UrlOf(dst) == newUrl && after[dst] == before[src];
      assert src in start;
    }
  }

  /** Objects disappeared only from the provisional folders and were added only in the project's folders. */
  ghost predicate ChangedOnlyInFolders(before: map<Path, Bytes>, after: map<Path, Bytes>, fs: Folders) {
    && (forall p :: p in before && p !in after ==> InFolder(p, fs.mainFrom) || InFolder(p, fs.galleryFrom))
    && (forall p :: p in after && p !in before ==> InFolder(p, fs.mainTo) || InFolder(p, fs.galleryTo))
    && (forall p :: p in before && p in after ==> after[p] == before[p])
  }

  /**
   * What a whole relocation pass promises about `moved`: a relocation of
   * `f`; nothing changes when no URL is marked; a failed main listing keeps
   * the record and a failed gallery listing keeps the gallery; and, when
   * transfers succeed, every marked main image and first gallery occurrence
   * whose source exists gets a new URL.
   */
  ghost predicate RelocatesProvisional(moved: ProjectFields, f: ProjectFields, fs: Folders,
                                       start: map<Path, Bytes>, objects: map<Path, Bytes>, faults: set<Op>) {
    && IsRelocationOf(moved, f, fs, start, objects, faults)
    && ((!IsMarked(f.imageUrl) && forall k :: 0 <= k < |f.gallery| ==> !IsMarked(f.gallery[k])) ==> objects == start)
    && (IsMarked(f.imageUrl) && ListOp(fs.mainFrom) in faults ==> moved == f)
    && (ListOp(fs.galleryFrom) in faults ==> moved.gallery == f.gallery)
    && (TransfersSucceed(faults) && IsMarked(f.imageUrl) && ListOp(fs.mainFrom) !in faults
        && HasSource(start, f.imageUrl, fs.mainFrom) ==>
          moved.imageUrl != f.imageUrl)
    && (TransfersSucceed(faults) && ListOp(fs.galleryFrom) !in faults
        && (IsMarked(f.imageUrl) ==> ListOp(fs.mainFrom) !in faults) ==>
          forall k :: 0 <= k < |f.gallery| && IsMarked(f.gallery[k]) && f.gallery[k] !in f.gallery[..k]
                      && HasSource(start, f.gallery[k], fs.galleryFrom) ==>
            moved.gallery[k] != f.gallery[k])
  }

  /**
   * The main-image pass followed by the gallery pass is one relocation of
   * the whole record, and together they touch only the four folders.
   */
  lemma PassesCompose(image: string, gallery: seq<string>, f: ProjectFields, fs: Folders, start: map<Path, Bytes>,
                      mid: map<Path, Bytes>, after: map<Path, Bytes>, faults: set<Op>)
    requires Separated(fs)
    requires ChangedOnlyIn(start, mid, fs.mainFrom, fs.mainTo)
    requires RelocatedUrl(image, f.imageUrl, fs.mainFrom, fs.mainTo, start, mid, faults)
    requires ChangedOnlyIn(mid, after, fs.galleryFrom, fs.galleryTo)
    requires |gallery| == |f.gallery|
    requires forall k :: 0 <= k < |f.gallery| ==>
      RelocatedUrl(gallery[k], f.gallery[k], fs.galleryFrom, fs.galleryTo, mid, after, faults)
    ensures IsRelocationOf(f.(imageUrl := image, gallery := gallery), f, fs, start, after, faults)
    ensures ChangedOnlyInFolders(start, after, fs)
  {
    RelocationSurvives(image, f.imageUrl, fs.mainFrom, fs.mainTo, start, mid, after, faults, fs.galleryFrom, fs.galleryTo);
    forall k | 0 <= k < |f.gallery|
      ensures RelocatedUrl(gallery[k], f.gallery[k], fs.galleryFrom, fs.galleryTo, start, after, faults)
    {
      RelocationFromEarlier(gallery[k], f.gallery[k], fs.galleryFrom, fs.galleryTo, start, mid, after,
                            faults, fs.mainFrom, fs.mainTo);
    }
  }

  /**
   * `moveUnsavedFilesForProject`: relocates the marked main image, then
   * each marked gallery entry in order, into the folders `fs` (for a new
   * project `id`, `ProjectFolders(id)`). A failed listing ends the whole
   * pass and the record is returned as far as it got.
   */
  method RelocateUnsaved(store: ObjectStore, f: ProjectFields, fs: Folders) returns (updated: ProjectFields)
    requires store.Valid()
    requires Separated(fs)
    modifies store`objects, store`log, store`minted
    ensures store.Valid()
    ensures RelocatesProvisional(updated, f, fs, old(store.objects), store.objects, store.faults)
    ensures ChangedOnlyInFolders(old(store.objects), store.objects, fs)
    ensures (!IsMarked(f.imageUrl) && forall k :: 0 <= k < |f.gallery| ==> !IsMarked(f.gallery[k])) ==>
      store.log == old(store.log) && store.minted == old(store.minted)
  {
    updated := f;
    if IsMarked(f.imageUrl) {
      var moved := MoveSingleUnsavedUrl(store, f.imageUrl, fs.mainFrom, fs.mainTo);
      if moved.None? {
        return;
      }
      updated := updated.(imageUrl := moved.value);
    }
    ghost var mid := store.objects;
    assert ChangedOnlyIn(old(store.objects), mid, fs.mainFrom, fs.mainTo);
    assert RelocatedUrl(updated.imageUrl, f.imageUrl, fs.mainFrom, fs.mainTo, old(store.objects), mid, store.faults);
    assert forall p :: p in old(store.objects) && InFolder(p, fs.galleryFrom) ==> p in mid;
    var gallery := RelocateGallery(store, f.gallery, fs.galleryFrom, fs.galleryTo);
    PassesCompose(updated.imageUrl, gallery, f, fs, old(store.objects), mid, store.objects, store.faults);
    updated := updated.(gallery := gallery);
  }

  // ---------------------------------------------------------------------
  // the panel
  // ---------------------------------------------------------------------

  /** The merge `updateDoc` performs with `{...fields, updatedAt: serverTimestamp()}`. */
  function Stamped(p: Project, fields: ProjectFields, now: int): (r: Project)
    ensures r.fields == fields && r.createdAt == p.createdAt && r.updatedAt == Some(now)
  {
    Project(fields, p.createdAt, Some(now))
  }

  /**
   * `uploadFileWithProgress`: stores `bytes` under a fresh name in the
   * folder the path rule picks, and returns its download URL.
   */
  method UploadImage(store: ObjectStore, projectId: Option<Id>, slot: Slot, bytes: Bytes)
    returns (url: Option<string>)
    requires store.Valid()
    modifies store`objects, store`log, store`minted
    ensures store.Valid()
    ensures var path := UploadPath(projectId, slot, Digits(old(store.minted)));
      && path !in old(store.objects)
      && store.minted == old(store.minted) + 1
      && store.objects == (if PutOp(path) in store.faults then old(store.objects) else old(store.objects)[path := bytes])
      && store.log == old(store.log) + [PutOp(path)] + (if PutOp(path) in store.faults then [] else [UrlOp(path)])
      && url == (if PutOp(path) in store.faults || UrlOp(path) in store.faults then None else Some(UrlOf(path)))
  {
    ghost var m := store.minted;
    var name := store.NewName();
    var path := UploadPath(projectId, slot, name);
    var folder := ProjectFolder(if HasId(projectId) then projectId.value else "unsaved", slot);
    ChildEndsInName(folder, name);
    PutMintedKeepsFresh(old(store.objects), store.minted, folder, m, bytes);
    var ok := store.Put(path, bytes);
    if !ok {
      return None;
    }
    url := store.DownloadUrl(path);
  }

  class ProjectsPanel {
    var form: ProjectForm
    /** The id of the project being edited; `None` while a new project is being entered. */
    var editId: Option<Id>
    var showModal: bool
    const projects: Collection<Project>
    const storage: ObjectStore

    ghost predicate Valid()
      reads this, projects, storage
    {
      projects.Valid() && storage.Valid()
    }

    constructor (projects: Collection<Project>, storage: ObjectStore)
      requires projects.Valid() && storage.Valid()
      ensures Valid()
      ensures this.projects == projects && this.storage == storage
      ensures form == EmptyForm && editId == None && !showModal
    {
      this.projects := projects;
      this.storage := storage;
      form := EmptyForm;
      editId := None;
      showModal := false;
    }

    /** The "Add Project" button: a fresh form for a new project. */
    method OpenNew()
      modifies this`form, this`editId, this`showModal
      ensures form == EmptyForm && editId == None && showModal
    {
      editId := None;
      form := EmptyForm;
      showModal := true;
    }

    /** The "Cancel" button: closes the modal and forgets the edited id, keeping the form's text. */
    method Cancel()
      modifies this`editId, this`showModal
      ensures editId == None && !showModal
    {
      showModal := false;
      editId := None;
    }

    /** `handleEdit`: loads a stored project into the form for editing. */
    method Edit(id: Id, project: Project)
      modifies this`form, this`editId, this`showModal
      ensures form == EditForm(project.fields) && editId == Some(id) && showModal
      ensures WellFormed(project.fields) ==> Normalise(form) == project.fields
    {
      editId := Some(id);
      showModal := true;
      form := EditForm(project.fields);
      EditThenSave(project.fields);
    }

    method ChangeItem(field: ListField, index: nat, value: string)
      requires index < |ListOf(form, field)|
      modifies this`form
      ensures form == ArrayChange(old(form), field, index, value)
    {
      form := ArrayChange(form, field, index, value);
    }

    method AddItem(field: ListField)
      modifies this`form
      ensures form == AddArrayItem(old(form), field)
    {
      form := AddArrayItem(form, field);
    }

    method RemoveItem(field: ListField, index: nat)
      modifies this`form
      ensures form == RemoveArrayItem(old(form), field, index)
    {
      form := RemoveArrayItem(form, field, index);
    }

    /** `handleFileSelect`: uploads the chosen file and puts its URL into gallery row `index`. */
    method SelectGalleryFile(index: nat, file: Option<Bytes>)
      requires index < |form.gallery|
      requires Valid()
      modifies this`form, storage`objects, storage`log, storage`minted
      ensures Valid()
      ensures file.None? ==> form == old(form) && unchanged(storage)
      ensures file.Some? ==>
        var path := UploadPath(editId, Gallery, Digits(old(storage.minted)));
        && storage.objects == (if PutOp(path) in storage.faults then old(storage.objects) else old(storage.objects)[path := file.value])
        && form == (if PutOp(path) in storage.faults || UrlOp(path) in storage.faults then old(form)
                    else old(form).(gallery := old(form).gallery[index := UrlOf(path)]))
    {
      if file.None? {
        return;
      }
      var url := UploadImage(storage, editId, Gallery, file.value);
      if url.Some? {
        form := form.(gallery := form.gallery[index := url.value]);
      }
    }

    /** `handleMainImageFileSelect`: uploads the chosen file and makes its URL the main image. */
    method SelectMainFile(file: Option<Bytes>)
      requires Valid()
      modifies this`form, storage`objects, storage`log, storage`minted
      ensures Valid()
      ensures file.None? ==> form == old(form) && unchanged(storage)
      ensures file.Some? ==>
        var path := UploadPath(editId, Main, Digits(old(storage.minted)));
        && storage.objects == (if PutOp(path) in storage.faults then old(storage.objects) else old(storage.objects)[path := file.value])
        && form == (if PutOp(path) in storage.faults || UrlOp(path) in storage.faults then old(form)
                    else old(form).(imageUrl := UrlOf(path)))
    {
      if file.None? {
        return;
      }
      var url := UploadImage(storage, editId, Main, file.value);
      if url.Some? {
        form := form.(imageUrl := url.value);
      }
    }

    /** `handleDelete`: deletes a project once the user confirms. */
    method DeleteProject(id: Id, confirmed: bool) returns (ok: bool)
      requires Valid()
      modifies projects`docs, projects`log
      ensures Valid()
      ensures !confirmed ==> !ok && unchanged(projects)
      ensures confirmed ==>
        && projects.log == old(projects.log) + [DeleteDoc(id)]
        && ok == (DeleteDoc(id) !in projects.faults)
        && projects.docs == (if ok then old(projects.docs) - {id} else old(projects.docs))
    {
      if !confirmed {
        return false;
      }
      ok := projects.Delete(id);
    }

    /** The edit branch of `handleSaveProject`: one update of project `id` with `fields`. */
    method SaveEdited(id: Id, fields: ProjectFields, now: int) returns (saved: bool)
      requires Valid()
      modifies projects`docs, projects`log
      ensures Valid()
      ensures projects.log == old(projects.log) + [UpdateDoc(id)]
      ensures saved == (id in old(projects.docs) && UpdateDoc(id) !in projects.faults)
      ensures projects.docs == if saved then old(projects.docs)[id := Stamped(old(projects.docs)[id], fields, now)]
                               else old(projects.docs)
    {
      saved := projects.Update(id, fields, (p: Project, f: ProjectFields) => Stamped(p, f, now));
    }

    /**
     * The new-project branch of `handleSaveProject`: add the document, relocate
     * its provisional uploads into its own folders, then update the same
     * document with the relocated fields.
     */
    method SaveNew(fields: ProjectFields, addedAt: int, updatedAt: int) returns (saved: bool)
      requires Valid()
      modifies projects`docs, projects`created, projects`log
      modifies storage`objects, storage`log, storage`minted
      ensures Valid()
      ensures var id := AutoId(old(projects.created));
        && (AddDoc in projects.faults ==>
              && !saved && unchanged(storage)
              && projects.docs == old(projects.docs) && projects.log == old(projects.log) + [AddDoc])
        && (AddDoc !in projects.faults ==>
              && id !in old(projects.docs) && id in projects.docs
              && projects.log == old(projects.log) + [AddDoc, UpdateDoc(id)]
              && projects.docs == old(projects.docs)[id := projects.docs[id]]
              && projects.docs[id].createdAt == Some(addedAt)
              && saved == (UpdateDoc(id) !in projects.faults)
              && (!saved ==> projects.docs[id] == Project(fields, Some(addedAt), None))
              && (saved ==> projects.docs[id].updatedAt == Some(updatedAt))
              && ChangedOnlyInFolders(old(storage.objects), storage.objects, ProjectFolders(id))
              && (exists moved :: RelocatesProvisional(moved, fields, ProjectFolders(id),
                                                       old(storage.objects), storage.objects, storage.faults)
                                  && (saved ==> projects.docs[id].fields == moved)))
    {
      var added := projects.Add(Project(fields, Some(addedAt), None));
      if added.None? {
        return false;
      }
      var id := added.value;
      AutoIdIsDocId(old(projects.created));
      ProjectFoldersSeparated(id);
      var moved := RelocateUnsaved(storage, fields, ProjectFolders(id));
      ghost var objects := storage.objects;
      assert RelocatesProvisional(moved, fields, ProjectFolders(id), old(storage.objects), objects, storage.faults);
      saved := projects.Update(id, moved, (p: Project, f: ProjectFields) => Stamped(p, f, updatedAt));
      assert storage.objects == objects;
    }

    /**
     * `handleSaveProject`. A form without a name or description is refused
     * untouched. An edited project gets one update with the normalised
     * fields; a new one goes through `SaveNew` with them. Only a save that
     * went through closes the modal and resets the form.
     */
    method Save(addedAt: int, updatedAt: int) returns (saved: bool)
      requires Valid()
      modifies this`form, this`editId, this`showModal
      modifies projects`docs, projects`created, projects`log
      modifies storage`objects, storage`log, storage`minted
      ensures Valid()
      ensures !CanSave(old(form)) ==>
        && !saved && unchanged(this) && unchanged(projects) && unchanged(storage)
      ensures CanSave(old(form)) && HasId(old(editId)) ==>
        var id := old(editId).value;
        && projects.log == old(projects.log) + [UpdateDoc(id)]
        && unchanged(storage)
        && saved == (id in old(projects.docs) && UpdateDoc(id) !in projects.faults)
        && projects.docs == (if saved then old(projects.docs)[id := Stamped(old(projects.docs)[id], Normalise(old(form)), updatedAt)]
                             else old(projects.docs))
      ensures CanSave(old(form)) && !HasId(old(editId)) ==>
        var id := AutoId(old(projects.created));
        && (AddDoc in projects.faults ==>
              && !saved && unchanged(storage)
              && projects.docs == old(projects.docs) && projects.log == old(projects.log) + [AddDoc])
        && (AddDoc !in projects.faults ==>
              && id !in old(projects.docs) && id in projects.docs
              && projects.log == old(projects.log) + [AddDoc, UpdateDoc(id)]
              && projects.docs == old(projects.docs)[id := projects.docs[id]]
              && projects.docs[id].createdAt == Some(addedAt)
              && saved == (UpdateDoc(id) !in projects.faults)
              && (!saved ==> projects.docs[id] == Project(Normalise(old(form)), Some(addedAt), None))
              && (saved ==> projects.docs[id].updatedAt == Some(updatedAt))
              && ChangedOnlyInFolders(old(storage.objects), storage.objects, ProjectFolders(id))
              && (exists moved :: RelocatesProvisional(moved, Normalise(old(form)), ProjectFolders(id),
                                                       old(storage.objects), storage.objects, storage.faults)
                                  && (saved ==> projects.docs[id].fields == moved)))
      ensures saved ==> form == EmptyForm && editId == None && !showModal
      ensures !saved ==> form == old(form) && editId == old(editId) && showModal == old(showModal)
    {
      if !CanSave(form) {
        return false;
      }
      var formatted := Normalise(form);
      if HasId(editId) {
        saved := SaveEdited(editId.value, formatted, updatedAt);
      } else {
        saved := SaveNew(formatted, addedAt, updatedAt);
      }
      if saved {
        showModal := false;
        editId := None;
        form := EmptyForm;
      }
    }
  }
}
