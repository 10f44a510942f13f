/**
 * The project form of the dashboard's Projects panel and the pure rules
 * around it: the form's list helpers, normalisation on save, the inverse
 * used when a stored project is loaded for editing, the storage path
 * naming rule and the "unsaved upload" marker.
 */
module Projects {
  import opened Text
  import opened Wrappers
  import opened ObjectStorage
  import DocumentStore

  /** Which image of a project an upload is for (the `type` option of the upload helper). */
  datatype Slot = Main | Gallery

  function SlotName(slot: Slot): string {
    match slot
    case Main => "main"
    case Gallery => "gallery"
  }

  /** The modal's form state (`formData`): technologies are still one comma-separated string. */
  datatype ProjectForm = ProjectForm(
    name: string,
    description: string,
    date: string,
    technologies: string,
    liveUrl: string,
    githubUrl: string,
    imageUrl: string,
    role: string,
    duration: string,
    tools: string,
    results: string,
    gallery: seq<string>,
    stages: seq<string>)

  /** The project fields written to the document store (`formatted`). */
  datatype ProjectFields = ProjectFields(
    name: string,
    description: string,
    date: string,
    technologies: seq<string>,
    liveUrl: string,
    githubUrl: string,
    imageUrl: string,
    role: string,
    duration: string,
    tools: string,
    results: string,
    gallery: seq<string>,
    stages: seq<string>)

  /** A stored project document: its fields and the server timestamps written with them. */
  datatype Project = Project(fields: ProjectFields, createdAt: Option<int>, updatedAt: Option<int>)

  /** The form `resetForm` installs: every text empty, one empty gallery and stage row. */
  const EmptyForm: ProjectForm :=
    ProjectForm("", "", "", "", "", "", "", "", "", "", "", [""], [""])

  // ---------------------------------------------------------------------
  // the form's list helpers
  // ---------------------------------------------------------------------

  /** The two list-valued fields of the form. */
  datatype ListField = GalleryList | StagesList

  function ListOf(form: ProjectForm, field: ListField): seq<string> {
    match field
    case GalleryList => form.gallery
    case StagesList => form.stages
  }

  function WithList(form: ProjectForm, field: ListField, xs: seq<string>): (r: ProjectForm)
    ensures ListOf(r, field) == xs
    ensures field == GalleryList ==> r == form.(gallery := xs)
    ensures field == StagesList ==> r == form.(stages := xs)
  {
    match field
    case GalleryList => form.(gallery := xs)
    case StagesList => form.(stages := xs)
  }

  /** `handleArrayChange`: entry `index` of the list becomes `value`. */
  function ArrayChange(form: ProjectForm, field: ListField, index: nat, value: string): (r: ProjectForm)
    requires index < |ListOf(form, field)|
    ensures |ListOf(r, field)| == |ListOf(form, field)|
    ensures ListOf(r, field)[index] == value
    ensures forall j :: 0 <= j < |ListOf(form, field)| && j != index ==> ListOf(r, field)[j] == ListOf(form, field)[j]
    ensures WithList(r, field, ListOf(form, field)) == form
  {
    WithList(form, field, ListOf(form, field)[index := value])
  }

  /** `addArrayItem`: one empty entry appended. */
  function AddArrayItem(form: ProjectForm, field: ListField): (r: ProjectForm)
    ensures ListOf(r, field) == ListOf(form, field) + [""]
    ensures WithList(r, field, ListOf(form, field)) == form
  {
    WithList(form, field, ListOf(form, field) + [""])
  }

  /** `removeArrayItem`: `splice(index, 1)`, which leaves the list alone when `index` is past its end. */
  function RemoveArrayItem(form: ProjectForm, field: ListField, index: nat): (r: ProjectForm)
    ensures var xs := ListOf(form, field);
      && (index < |xs| ==> |ListOf(r, field)| == |xs| - 1)
      && (index >= |xs| ==> ListOf(r, field) == xs)
      && (forall j :: 0 <= j < index && j < |xs| ==> ListOf(r, field)[j] == xs[j])
      && (forall j :: index <= j < |xs| - 1 ==> ListOf(r, field)[j] == xs[j + 1])
    ensures WithList(r, field, ListOf(form, field)) == form
  {
    var xs := ListOf(form, field);
    if index < |xs| then WithList(form, field, xs[..index] + xs[index + 1..]) else form
  }

  /** Removing the entry just added gives the form back. */
  lemma RemoveUndoesAdd(form: ProjectForm, field: ListField)
    ensures RemoveArrayItem(AddArrayItem(form, field), field, |ListOf(form, field)|) == form
  {
    var xs := ListOf(form, field);
    assert (xs + [""])[..|xs|] + (xs + [""])[|xs| + 1..] == xs;
  }

  /** Writing back the old value of an entry gives the form back. */
  lemma ChangeBack(form: ProjectForm, field: ListField, index: nat, value: string)
    requires index < |ListOf(form, field)|
    ensures ArrayChange(ArrayChange(form, field, index, value), field, index, ListOf(form, field)[index]) == form
  {
    var xs := ListOf(form, field);
    assert xs[index := value][index := xs[index]] == xs;
  }

  // ---------------------------------------------------------------------
  // normalisation on save and its inverse on edit
  // ---------------------------------------------------------------------

  /** `handleSaveProject` refuses a name or description that is empty after trimming. */
  predicate CanSave(form: ProjectForm) {
    !IsBlank(form.name) && !IsBlank(form.description)
  }

  /** The check is `name.trim()` and `description.trim()` both being non-empty. */
  lemma CanSaveIffTrimmed(form: ProjectForm)
    ensures CanSave(form) <==> Trim(form.name) != "" && Trim(form.description) != ""
  {
    BlankIsTrimmedAway(form.name);
    BlankIsTrimmedAway(form.description);
  }

  /** A technology as stored: non-empty, trimmed, and without a comma. */
  predicate IsTechnology(t: string) {
    t != "" && IsTrimmed(t) && ',' !in t
  }

  function NonEmpty(t: string): bool { t != "" }

  /** `input.split(",").map((t) => t.trim()).filter(Boolean)`. */
  function TechnologyList(input: string): (r: seq<string>)
    ensures forall k :: 0 <= k < |r| ==> IsTechnology(r[k])
  {
    var pieces := Split(input, ',');
    var trimmed := TrimEach(pieces);
    assert forall k :: 0 <= k < |trimmed| ==> ',' !in trimmed[k] by {
      SplitPiecesFree(input, ',');
      forall k | 0 <= k < |trimmed| ensures ',' !in trimmed[k] {
        TrimWithout(pieces[k], ',');
      }
    }
    var r := Filter(trimmed, NonEmpty);
    assert forall k :: 0 <= k < |r| ==> r[k] in trimmed;
    r
  }

  /** A comma splits the technology list in two: pieces keep their order and are judged one by one. */
  lemma TechnologyListAround(a: string, b: string)
    ensures TechnologyList(a + "," + b) == TechnologyList(a) + TechnologyList(b)
  {
    assert a + "," + b == a + [','] + b;
    SplitAround(a, b, ',');
    var pa, pb := Split(a, ','), Split(b, ',');
    TrimEachAppend(pa, pb);
    FilterAppend(TrimEach(pa), TrimEach(pb), NonEmpty);
  }

  /** Without a comma, the technology list is the trimmed input, or nothing when that is empty. */
  lemma TechnologyListOfOne(t: string)
    requires ',' !in t
    ensures TechnologyList(t) == if Trim(t) == "" then [] else [Trim(t)]
  {
    SplitWithout(t, ',');
    assert TrimEach([t]) == [Trim(t)];
  }

  /** `list.filter((g) => g.trim() !== "")`: the entries that are not blank. */
  function DropBlank(xs: seq<string>): (r: seq<string>)
    ensures |r| <= |xs|
    ensures forall k :: 0 <= k < |r| ==> r[k] in xs && !IsBlank(r[k])
  {
    Filter(xs, NotBlank)
  }

  function NotBlank(x: string): bool { !IsBlank(x) }

  /**
   * The three equations that pin `DropBlank` down: it distributes over
   * concatenation (order kept, each entry judged alone), it keeps a
   * single entry exactly when that entry is not blank, and the kept
   * entry is the original, untrimmed one.
   */
  lemma {:induction false} DropBlankCharacterised(a: seq<string>, b: seq<string>, x: string)
    ensures DropBlank(a + b) == DropBlank(a) + DropBlank(b)
    ensures DropBlank([x]) == if IsBlank(x) then [] else [x]
  {
    FilterAppend(a, b, NotBlank);
  }

  /** What `handleSaveProject` writes: the form with its lists normalised, texts otherwise as typed. */
  function Normalise(form: ProjectForm): (f: ProjectFields)
    ensures WellFormed(f)
    ensures f.name == form.name && f.description == form.description && f.imageUrl == form.imageUrl
    ensures f.technologies == TechnologyList(form.technologies)
    ensures f.gallery == DropBlank(form.gallery) && f.stages == DropBlank(form.stages)
    ensures && f.date == form.date && f.liveUrl == form.liveUrl && f.githubUrl == form.githubUrl
            && f.role == form.role && f.duration == form.duration && f.tools == form.tools
            && f.results == form.results
  {
    ProjectFields(
      form.name, form.description, form.date, TechnologyList(form.technologies),
      form.liveUrl, form.githubUrl, form.imageUrl, form.role, form.duration,
      form.tools, form.results, DropBlank(form.gallery), DropBlank(form.stages))
  }

  /** Fields as `Normalise` produces them. */
  predicate WellFormed(f: ProjectFields) {
    && (forall k :: 0 <= k < |f.technologies| ==> IsTechnology(f.technologies[k]))
    && (forall k :: 0 <= k < |f.gallery| ==> !IsBlank(f.gallery[k]))
    && (forall k :: 0 <= k < |f.stages| ==> !IsBlank(f.stages[k]))
  }

  /** `handleEdit`: a stored project loaded back into the form. */
  function EditForm(f: ProjectFields): (form: ProjectForm)
    ensures |form.gallery| >= 1 && |form.stages| >= 1
  {
    ProjectForm(
      f.name, f.description, f.date, Join(f.technologies, ", "),
      f.liveUrl, f.githubUrl, f.imageUrl, f.role, f.duration, f.tools, f.results,
      if |f.gallery| > 0 then f.gallery else [""],
      if |f.stages| > 0 then f.stages else [""])
  }

  /** The pieces `split(",")` cuts a `", "`-joined list into: every entry after the first keeps the blank. */
  function CommaPieces(xs: seq<string>): seq<string>
    requires |xs| >= 1
  {
    [xs[0]] + PrefixEach(xs[1..], " ")
  }

  lemma SplitCommaJoined(xs: seq<string>)
    requires |xs| >= 1
    requires forall k :: 0 <= k < |xs| ==> ',' !in xs[k]
    ensures Split(Join(xs, ", "), ',') == CommaPieces(xs)
  {
    var pieces := CommaPieces(xs);
    JoinCommaSpace(xs);
    assert forall k :: 0 <= k < |pieces| ==> ',' !in pieces[k];
    SplitJoin(pieces, ',');
  }

  lemma TrimCommaPieces(xs: seq<string>)
    requires |xs| >= 1
    requires forall k :: 0 <= k < |xs| ==> IsTechnology(xs[k])
    ensures TrimEach(CommaPieces(xs)) == xs
  {
    var pieces := CommaPieces(xs);
    forall k | 0 <= k < |pieces|
      ensures Trim(pieces[k]) == xs[k]
    {
      if k == 0 {
        assert pieces[k] == xs[0];
        TrimOfTrimmed(xs[0]);
      } else {
        assert pieces[k] == " " + xs[1..][k - 1];
        assert xs[1..][k - 1] == xs[k];
        TrimAfterBlank(xs[k]);
      }
    }
  }

  /** Joining technologies with ", " on edit and normalising on save gives the same list back. */
  lemma {:induction false} TechnologiesRoundTrip(xs: seq<string>)
    requires forall k :: 0 <= k < |xs| ==> IsTechnology(xs[k])
    ensures TechnologyList(Join(xs, ", ")) == xs
  {
    if |xs| == 0 {
      assert TrimEach([""]) == [""];
    } else {
      SplitCommaJoined(xs);
      TrimCommaPieces(xs);
      FilterKeepsAll(xs, NonEmpty);
    }
  }

  /** A blank-free list is its own `DropBlank`. */
  lemma DropBlankOfClean(xs: seq<string>)
    requires forall k :: 0 <= k < |xs| ==> !IsBlank(xs[k])
    ensures DropBlank(xs) == xs
  {
    FilterKeepsAll(xs, NotBlank);
  }

  /** Opening a stored project for editing and saving it unchanged writes the same fields. */
  lemma EditThenSave(f: ProjectFields)
    ensures WellFormed(f) ==> Normalise(EditForm(f)) == f
  {
    if WellFormed(f) {
      TechnologiesRoundTrip(f.technologies);
      DropBlankOfClean(f.gallery);
      DropBlankOfClean(f.stages);
      assert DropBlank([""]) == [];
    }
  }

  /** Saving, re-opening and saving again changes nothing: normalisation is stable. */
  lemma SaveIsStable(form: ProjectForm)
    ensures Normalise(EditForm(Normalise(form))) == Normalise(form)
  {
    EditThenSave(Normalise(form));
  }

  // ---------------------------------------------------------------------
  // storage paths and the unsaved marker
  // ---------------------------------------------------------------------

  /** A project id in the JavaScript sense of truthy: present and non-empty. */
  predicate HasId(projectId: Option<string>) {
    projectId.Some? && projectId.value != ""
  }

  /** `projects/<owner>/<slot>`, where `owner` is a project id or the word `unsaved`. */
  function ProjectFolder(owner: string, slot: Slot): string {
    "projects/" + (owner + "/" + SlotName(slot))
  }

  function UnsavedFolder(slot: Slot): string {
    ProjectFolder("unsaved", slot)
  }

  /** The upload helper's path rule: under the project when there is an id, else under `unsaved`. */
  function UploadPath(projectId: Option<string>, slot: Slot, name: string): (path: string)
    ensures HasId(projectId) ==> path == ProjectFolder(projectId.value, slot) + "/" + name
    ensures !HasId(projectId) ==> path == UnsavedFolder(slot) + "/" + name
  {
    var owner := if HasId(projectId) then projectId.value else "unsaved";
    ProjectFolder(owner, slot) + "/" + name
  }

  /** Two project folders are the same only for the same owner and slot. */
  lemma ProjectFolderInjective(a: string, s1: Slot, b: string, s2: Slot)
    requires '/' !in a && '/' !in b
    requires ProjectFolder(a, s1) == ProjectFolder(b, s2)
    ensures a == b && s1 == s2
  {
    var prefix := "projects/";
    var u, v := a + "/" + SlotName(s1), b + "/" + SlotName(s2);
    assert u == (prefix + u)[|prefix|..];
    assert u == a + ['/'] + SlotName(s1) && v == b + ['/'] + SlotName(s2);
    CutAtFirst(a, '/', SlotName(s1), b, SlotName(s2));
  }

  /** Uploads of an existing project never land in the provisional folders. */
  lemma PermanentIsNotProvisional(id: string, s1: Slot, s2: Slot)
    requires id != "unsaved" && '/' !in id
    ensures ProjectFolder(id, s1) != UnsavedFolder(s2)
  {
    if ProjectFolder(id, s1) == UnsavedFolder(s2) {
      ProjectFolderInjective(id, s1, "unsaved", s2);
    }
  }

  /** An object cannot lie both in a project's own folder and in a provisional folder. */
  lemma PermanentAndProvisionalDisjoint(p: Path, id: string, s1: Slot, s2: Slot)
    requires id != "unsaved" && '/' !in id
    ensures !(InFolder(p, ProjectFolder(id, s1)) && InFolder(p, UnsavedFolder(s2)))
  {
    if InFolder(p, ProjectFolder(id, s1)) && InFolder(p, UnsavedFolder(s2)) {
      FolderUnique(p, ProjectFolder(id, s1), UnsavedFolder(s2));
      PermanentIsNotProvisional(id, s1, s2);
    }
  }

  /** The two provisional folders are different folders. */
  lemma ProvisionalFoldersDisjoint(p: Path)
    ensures !(InFolder(p, UnsavedFolder(Main)) && InFolder(p, UnsavedFolder(Gallery)))
  {
    if InFolder(p, UnsavedFolder(Main)) && InFolder(p, UnsavedFolder(Gallery)) {
      FolderUnique(p, UnsavedFolder(Main), UnsavedFolder(Gallery));
      ProjectFolderInjective("unsaved", Main, "unsaved", Gallery);
    }
  }

  /** The text the relocation looks for in a URL. */
  const UnsavedMarker: string := "/projects/unsaved/"

  /** The test as written: `url && typeof url === "string" && url.includes("/projects/unsaved/")`. */
  predicate IsMarkedAsWritten(url: string) {
    url != "" && Contains(url, UnsavedMarker)
  }

  /**
   * A download URL carries its object's path percent-encoded, slashes as `%2F`.
   * The test as written therefore holds for no download URL of the bucket.
   */
  lemma MarkerMissesEveryUpload(path: Path)
    ensures !IsMarkedAsWritten(UrlOf(path))
  {
    var e := EncodePath(path);
    assert '/' !in UrlQuery;
    assert '/' !in Bucket;
    assert '/' !in e + UrlQuery;
    assert UrlOf(path) == BucketBase(Bucket) + (e + UrlQuery);
    MarkerMissesAnyBucket(Bucket, e + UrlQuery);
  }

  /**
   * Whatever the bucket is called, the marker is not in a download URL: the slashes
   * of the URL are those of the host, of `/v0/b/` and of `/o/`, and no two of them
   * frame `unsaved` after a `projects`.
   */
  lemma MarkerMissesAnyBucket(bucket: string, rest: string)
    requires '/' !in bucket && '/' !in rest
    ensures !Contains(BucketBase(bucket) + rest, UnsavedMarker)
  {
    var prefix := UrlHost + UrlApi;
    var url := BucketBase(bucket) + rest;
    var l := |prefix|;
    var m := l + |bucket|;
    assert url == prefix + bucket + "/o/" + rest;
    assert 'u' !in UrlHost && 'u' !in UrlApi;
    assert prefix[l - 2] == 'b';
    MarkerLetters();
    forall i | 0 <= i <= |url| - |UnsavedMarker|
      ensures !OccursAt(url, UnsavedMarker, i)
    {
      var window := url[i..i + |UnsavedMarker|];
      if i + 10 < l {
        assert window[10] == prefix[i + 10] != 'u';
      } else if i + 10 == l {
        assert window[8] == prefix[l - 2] != 's';
      } else if i + 9 < m {
        assert window[9] == bucket[i + 9 - l] != '/';
      } else if i + 9 == m {
        assert window[10] == url[m + 1] == 'o';
      } else if i + 9 == m + 1 {
        assert window[9] == url[m + 1] == 'o';
      } else {
        assert window[17] == rest[i + 17 - m - 3] != '/';
      }
    }
  }

  lemma MarkerLetters()
    ensures |UnsavedMarker| == 18
    ensures UnsavedMarker[8] == 's' && UnsavedMarker[9] == '/' && UnsavedMarker[10] == 'u' && UnsavedMarker[17] == '/'
  {
  }

  /** Where provisional uploads live: the path of every one starts with this. */
  const UnsavedPrefix: string := "projects/unsaved/"

  predicate IsProvisional(path: Path) {
    |UnsavedPrefix| < |path| && path[..|UnsavedPrefix|] == UnsavedPrefix
  }

  /** The test the relocation needs: the URL points at an object under `projects/unsaved/`. */
  predicate IsMarked(url: string) {
    var path := PathOfUrl(url);
    path.Some? && IsProvisional(path.value)
  }

  /** A download URL is marked exactly when its object is a provisional upload. */
  lemma MarkedIffProvisional(path: Path)
    ensures IsMarked(UrlOf(path)) <==> IsProvisional(path)
  {
  }

  /** The download URL of an upload made before the project had an id is marked. */
  lemma ProvisionalUploadIsMarked(slot: Slot, name: string)
    requires name != ""
    ensures IsMarked(UrlOf(UploadPath(None, slot, name)))
  {
    var path := UploadPath(None, slot, name);
    assert path == UnsavedPrefix + (SlotName(slot) + "/" + name);
  }

  /** The download URL of an upload into a project with a generated id is not marked. */
  lemma PermanentUploadNotMarked(id: string, slot: Slot, name: string)
    requires DocumentStore.IsDocId(id)
    ensures !IsMarked(UrlOf(UploadPath(Some(id), slot, name)))
  {
    var path := UploadPath(Some(id), slot, name);
    assert path == "projects/" + id + "/" + (SlotName(slot) + "/" + name);
    if |id| >= 8 {
      assert path[16] == id[7] != '/';
    } else if |id| == 7 {
      var k :| 0 <= k < 7 && id[k] != "unsaved"[k];
      assert path[9 + k] == id[k] != UnsavedPrefix[9 + k];
    } else {
      assert path[9 + |id|] == '/' != UnsavedPrefix[9 + |id|];
    }
  }
}
