/**
 * The public "About" section's profile photo: every snapshot of the
 * gallery collection picks the first record flagged strictly `true` and
 * shows its URL; a snapshot without one keeps whatever was shown before.
 *
 * The collection this section listens to is whatever snapshot it is given:
 * the reader names its collection `gallery` while the manager writes
 * `aboutGallery`, so the two are connected below only for snapshots of the
 * same records.
 */
module About {
  import opened Wrappers
  import opened DocumentStore
  import opened ProfileGallery

  /** Position of the first record flagged strictly `true`: `all.find(img => img.isProfile === true)`. */
  function ActiveProfile(all: seq<(Id, GalleryImage)>): (r: Option<nat>)
    ensures r.Some? ==> r.value < |all| && IsProfile(all[r.value].1)
    ensures r.Some? ==> forall k :: 0 <= k < r.value ==> !IsProfile(all[k].1)
    ensures r.None? <==> forall k :: 0 <= k < |all| ==> !IsProfile(all[k].1)
  {
    if |all| == 0 then None
    else if IsProfile(all[0].1) then Some(0)
    else match ActiveProfile(all[1..]) {
      case None => None
      case Some(i) => Some(i + 1)
    }
  }

  /** The profile photo URL before any snapshot arrived: `useState(null)`. */
  const InitialProfile: Option<string> := None

  /** The shown profile after one more snapshot. */
  function NextProfile(shown: Option<string>, all: seq<(Id, GalleryImage)>): (r: Option<string>)
    ensures (exists k :: 0 <= k < |all| && IsProfile(all[k].1)) ==>
      exists k :: && 0 <= k < |all| && IsProfile(all[k].1) && r == Some(all[k].1.url)
                  && forall j :: 0 <= j < k ==> !IsProfile(all[j].1)
    ensures (forall k :: 0 <= k < |all| ==> !IsProfile(all[k].1)) ==> r == shown
  {
    match ActiveProfile(all) {
      case None => shown
      case Some(i) => Some(all[i].1.url)
    }
  }

  /** The empty frame with a user icon is shown exactly while the URL is missing or empty (falsy). */
  predicate ShowsPlaceholder(shown: Option<string>) {
    shown.None? || shown.value == ""
  }

  /**
   * After a snapshot the placeholder shows exactly when no record is flagged and it
   * showed before, or the first flagged record's URL is empty.
   */
  lemma PlaceholderAfterSnapshot(shown: Option<string>, all: seq<(Id, GalleryImage)>)
    ensures ShowsPlaceholder(NextProfile(shown, all)) <==>
      || (ActiveProfile(all).None? && ShowsPlaceholder(shown))
      || (ActiveProfile(all).Some? && all[ActiveProfile(all).value].1.url == "")
  {
  }

  /** Before the first snapshot the placeholder is shown. */
  lemma PlaceholderAtStart()
    ensures ShowsPlaceholder(InitialProfile)
  {
  }

  /** A record whose flag is truthy but not the boolean `true` is never chosen. */
  lemma LooseFlagNeverChosen(all: seq<(Id, GalleryImage)>, k: nat)
    requires k < |all| && all[k].1.isProfile.Other?
    ensures ActiveProfile(all) != Some(k)
  {
  }

  /**
   * Once the manager chose `target` and every write went through, any
   * snapshot of the collection shows the target's URL, whatever was shown before.
   */
  lemma ShowsChosenProfile(docs: map<Id, GalleryImage>, target: Id, all: seq<(Id, GalleryImage)>, shown: Option<string>)
    requires target in docs
    requires IsSnapshotOf(all, AfterSetProfile(docs, target))
    ensures NextProfile(shown, all) == Some(docs[target].url)
  {
    var after := AfterSetProfile(docs, target);
    var i :| 0 <= i < |all| && all[i].0 == target;
    assert IsProfile(all[i].1);
    var j := ActiveProfile(all).value;
    assert all[j].0 in Flagged(after);
  }

  /** Once no record is flagged, the shown photo no longer changes. */
  lemma NoFlagKeepsProfile(docs: map<Id, GalleryImage>, all: seq<(Id, GalleryImage)>, shown: Option<string>)
    requires Flagged(docs) == {}
    requires IsSnapshotOf(all, docs)
    ensures NextProfile(shown, all) == shown
  {
    forall k | 0 <= k < |all| ensures !IsProfile(all[k].1) {
      assert all[k].0 !in Flagged(docs);
    }
  }
}
