# Portfolio dashboard: a Dafny model

This project models the content-management core of a personal portfolio site:

- a React front end whose records live in a Firestore-style document database;
- the images those records point to, which live in a Firebase-style object store.

It covers six screens:

- **Projects dashboard** (`src/dashboard/Projects.jsx`). This edits project records. A form holds a project's text fields, technologies as comma-separated text, and lists of gallery URLs and stage descriptions. Saving normalises the form:
  - technologies are split at commas and trimmed;
  - blank gallery and stage rows are dropped.

  Images are uploaded under `projects/<id>/<slot>/<uuid>`. A project that has no id yet uploads under `projects/unsaved/<slot>/<uuid>`. When a new project is saved, every URL that points into the `unsaved` folders is moved into the project's own folders:
  1. list the folder;
  2. find the item with the same download URL;
  3. read it, write it under a fresh name in the project's folder, and delete the original;
  4. record the new URL.

  The source decides which URLs point into the `unsaved` folders by looking for the text `/projects/unsaved/` in them. A download URL percent-encodes the object's path, so that text never occurs (see "## Findings"). The model keeps that test as written and moves the URLs that the corrected test picks: those whose decoded path lies under `projects/unsaved/`. Each move copies the bytes and deletes the original, and the contracts say so.
- **Gallery manager** (`src/dashboard/Gallery.jsx`). This uploads images for the "About" section (blob first, then record) and deletes them (blob first, then record). "Set as profile" clears every record flagged strictly `true`, then flags the chosen one.
- **About section** (`src/portfolio/About.jsx`). On each snapshot of the gallery records it shows the URL of the first record flagged strictly `true`. A snapshot without such a record keeps what was shown before.
- **Awards dashboard** (`src/dashboard/Awards.jsx`) and **social-media dashboard** (`src/dashboard/SocialMedia.jsx`). These are form-backed editors of one collection each: an unmodified save check, update-or-add, delete after confirmation, and an icon table. The social-media panel stores the platform name lower-cased.
- **Public awards section** (`src/portfolio/Awards.jsx`):
  - badge counters driven by the sizes of the `projects` and `awards` collections;
  - a years-of-experience badge computed from the `year` fields parsed with `parseInt`;
  - an owner card with initials and a colour derived from the owner's name;
  - an icon for each award.

## How the model is built

Firestore and Storage are modelled as two classes:

- `DocumentStore.Collection<T>`: a map from ids to records, plus an id counter.
- `ObjectStorage.ObjectStore`: a map from paths to bytes, plus a uuid counter.

Each store has a fixed set of failing operations (`faults`) and a `log` of every attempted call. Every operation either goes through or fails according to that set, so a contract can speak about each error path of the source on which the same call fails every time. A call that fails once and goes through when tried again is not modelled (see "## Left out").

The order of a listing or a snapshot is not fixed: a caller learns only that it enumerates the folder or the collection exactly once.

Each React component with state becomes a class whose fields are that state: the form, the edited id, and whether the modal or form is shown. Each handler becomes a method whose `ensures` give the new state of the component and the stores. The pure transformations the handlers apply are functions with lemmas:

- editing the form's lists;
- normalising a form and loading a project back into the form;
- the path rule;
- the profile-flag rewrite;
- parsing years;
- initials and colour.

The files:

| file | module | models |
|---|---|---|
| `wrappers.dfy` | `Wrappers` | `Option` |
| `text.dfy` | `Text` | the JavaScript string operations the core relies on: `trim`, `split`, `join`, `toLowerCase`, `toUpperCase`, and number-to-text |
| `object_store.dfy` | `ObjectStorage` | the object store: list, download URL, read (`fetch`), put, delete, uuid |
| `document_store.dfy` | `DocumentStore` | a document collection: `addDoc`, `updateDoc` with a merge, `deleteDoc`, `getDocs` |
| `projects.dfy` | `Projects` | the project form, its normalisation and the upload-path rule |
| `projects_panel.dfy` | `ProjectsDashboard` | moving provisional uploads, and the projects panel |
| `gallery.dfy` | `ProfileGallery` | the gallery manager |
| `about.dfy` | `About` | the profile photo shown by the About section |
| `awards_admin.dfy` | `AwardsAdmin` | the awards panel |
| `social_media.dfy` | `SocialMedia` | the social-media panel |
| `portfolio_awards.dfy` | `PortfolioAwards` | badges, experience, the owner card and award icons on the public page |

## Model

| member | source | states |
|---|---|---|
| Text.TrimStart | src/portfolio/Awards.jsx:82 | The result is a suffix of the input. Everything dropped in front is white space, and the result does not start with white space. |
| Text.Trim | src/dashboard/Projects.jsx:290 | The result is the input with white space removed from both ends: it sits in the input with only white space before and after it, and neither of its ends is white space. It is empty exactly when the input is all white space. |
| Text.TrimWithout | src/dashboard/Projects.jsx:301 | Trimming never introduces a character the text did not have, so trimmed pieces stay free of the separator. |
| Text.BlankIsTrimmedAway | src/dashboard/Projects.jsx:303-304 | `IsBlank(s)` holds exactly when `s.trim() === ""`. |
| Text.TrimIdempotent | src/dashboard/Projects.jsx:301 | Trimming twice gives the same text as trimming once. |
| Text.Split | src/dashboard/Projects.jsx:299-300 | `split` yields at least one piece. |
| Text.SplitPiecesFree | src/dashboard/Projects.jsx:299-300 | No piece of a split contains the separator. |
| Text.SplitWithout | src/dashboard/Projects.jsx:299-300 | Text without the separator splits into itself alone. |
| Text.SplitCons | src/dashboard/Projects.jsx:299-300 | A separator-free head followed by the separator splits into that head, then the pieces of the rest. |
| Text.SplitAround | src/dashboard/Projects.jsx:299-300 | Splitting at one separator and splitting the two sides gives the same pieces. |
| Text.JoinSplit | src/dashboard/Projects.jsx:299-300 | Joining the pieces of a split with the separator gives back the text. |
| Text.SplitJoin | src/dashboard/Projects.jsx:348-349 | Splitting a join of separator-free pieces gives back the pieces. |
| Text.Filter | src/dashboard/Projects.jsx:302-304 | `filter` keeps only elements of the input that satisfy the predicate, and never lengthens the input. |
| Text.FilterAppend | src/dashboard/Projects.jsx:302-304 | Filtering distributes over concatenation. |
| Text.ToLower | src/dashboard/SocialMedia.jsx:84 | `toLowerCase` keeps the length. Every upper-case letter is shifted to lower case and nothing else changes. |
| Text.ToLowerIdempotent | src/dashboard/SocialMedia.jsx:161 | Lower-casing twice equals lower-casing once. |
| Text.ToUpper | src/portfolio/Awards.jsx:154 | `toUpperCase` keeps the length. Every lower-case letter is shifted to upper case and nothing else changes. |
| Text.Digits | src/dashboard/Awards.jsx:44 | A number's decimal text is non-empty, all digits, and denotes the number. |
| Text.DigitsInjective | src/dashboard/Gallery.jsx:42 | Different numbers have different decimal texts. |
| Text.CutAtFirst | src/dashboard/Gallery.jsx:42 | Two texts that each put one separator after a separator-free head are equal only if their heads and tails are equal. |
| ObjectStorage.UrlOf | src/dashboard/Projects.jsx:167 | A download URL is the bucket's base, the object's path percent-encoded (every `/` becomes `%2F`), then the `alt=media` query. Reading the path back out of it gives the object's path, and no `/` follows the base. |
| ObjectStorage.EncodePath | src/dashboard/Projects.jsx:167 | The encoded path has no `/`. |
| ObjectStorage.DecodeEncode | src/dashboard/Projects.jsx:167 | Decoding an encoded path gives the path back. |
| ObjectStorage.UrlOfInjective | src/dashboard/Projects.jsx:231 | Two objects have the same download URL only if they are the same object, so matching URLs identifies the item. |
| ObjectStorage.FolderUnique | src/dashboard/Projects.jsx:131-133 | An object lies directly in at most one folder. |
| ObjectStorage.ChildInFolder | src/dashboard/Projects.jsx:133 | `folder/name`, for a name without `/`, lies directly in that folder. |
| ObjectStorage.ObjectStore.List | src/dashboard/Projects.jsx:225-226 | `listAll` fails only when its operation is faulted. Otherwise it lists each object of the folder exactly once. |
| ObjectStorage.ObjectStore.DownloadUrl | src/dashboard/Projects.jsx:230 | `getDownloadURL` yields the URL of an existing object unless the operation is faulted. |
| ObjectStorage.ObjectStore.Read | src/dashboard/Projects.jsx:233-234 | `fetch(url).blob()` yields the object's bytes when the object exists and the download is not faulted. Otherwise the read fails, and an error response is taken as that failure. |
| ObjectStorage.ObjectStore.Put | src/dashboard/Projects.jsx:240 | An upload stores the bytes under the path unless faulted, and nothing else changes. |
| ObjectStorage.ObjectStore.Delete | src/dashboard/Projects.jsx:244 | `deleteObject` removes an existing object unless faulted, and nothing else changes. |
| ObjectStorage.ObjectStore.NewName | src/dashboard/Projects.jsx:132 | `uuidv4()` gives a non-empty name without `/` that is the last segment of no stored object. The store stays valid: no stored object ends in a name still to be handed out. |
| ObjectStorage.LastSegmentUnique | src/dashboard/Projects.jsx:238 | The last segment of `folder/name` is `name` and nothing else. |
| ObjectStorage.ChildEndsInName | src/dashboard/Projects.jsx:238 | The path `folder/name` ends in the segment `name`. |
| ObjectStorage.PutMintedKeepsFresh | src/dashboard/Projects.jsx:238-240 | Storing an object under a name already handed out keeps every later name fresh. |
| DocumentStore.AutoIdIsDocId | src/dashboard/Projects.jsx:316 | Every id `addDoc` generates is a valid document id. |
| DocumentStore.Collection.Add | src/dashboard/Projects.jsx:316-319 | `addDoc` fails only when faulted. Otherwise it stores the record under a fresh id and leaves the other records alone. |
| DocumentStore.Collection.Update | src/dashboard/Projects.jsx:310-313 | `updateDoc` merges the patch into an existing record unless faulted. A missing record makes it fail. |
| DocumentStore.Collection.Delete | src/dashboard/Projects.jsx:95 | `deleteDoc` removes the record unless faulted. |
| DocumentStore.Collection.GetAll | src/dashboard/Gallery.jsx:91 | `getDocs` fails only when faulted. Otherwise it enumerates every record exactly once. |
| Projects.WithList | src/dashboard/Projects.jsx:111 | Replacing a list field makes that field the given list and changes nothing else. |
| Projects.ArrayChange | src/dashboard/Projects.jsx:108-112 | Only entry `index` of the list changes, and it becomes `value`. The length and the rest of the form are kept. |
| Projects.AddArrayItem | src/dashboard/Projects.jsx:114-115 | The list gains one empty row at the end, and the rest of the form is kept. |
| Projects.RemoveArrayItem | src/dashboard/Projects.jsx:117-121 | `splice(idx, 1)` removes entry `idx` and keeps the order of the rest. An index past the end changes nothing. |
| Projects.RemoveUndoesAdd | src/dashboard/Projects.jsx:114-121 | Removing the row just added restores the form. |
| Projects.ChangeBack | src/dashboard/Projects.jsx:108-112 | Writing the old value back restores the form. |
| Projects.TechnologyList | src/dashboard/Projects.jsx:299-302 | Every technology kept is trimmed and non-empty. |
| Projects.TechnologyListAround | src/dashboard/Projects.jsx:299-302 | The technologies of `a,b` are those of `a` followed by those of `b`. |
| Projects.TechnologyListOfOne | src/dashboard/Projects.jsx:299-302 | Text without a comma gives its trimmed self, or nothing when it is blank. |
| Projects.DropBlank | src/dashboard/Projects.jsx:303-304 | The gallery and stage filters keep only non-blank rows of the input. |
| Projects.DropBlankCharacterised | src/dashboard/Projects.jsx:303-304 | The filter distributes over concatenation, and keeps a single row exactly when that row is not blank. |
| Projects.Normalise | src/dashboard/Projects.jsx:297-305 | The technologies are `TechnologyList` of the typed text, the gallery and the stages are `DropBlank` of the typed rows, and every other field is kept as typed. The result is well formed: technologies trimmed and non-empty, rows non-blank. |
| Projects.CanSaveIffTrimmed | src/dashboard/Projects.jsx:290 | A form can be saved exactly when its name and its description are both non-empty after trimming. |
| Projects.EditForm | src/dashboard/Projects.jsx:343-360 | Loading a project always gives the form at least one gallery row and one stage row. |
| Projects.TechnologiesRoundTrip | src/dashboard/Projects.jsx:299-302 | Joining trimmed, comma-free technologies with `", "` and parsing them again gives them back. |
| Projects.SplitCommaJoined | src/dashboard/Projects.jsx:348-349 | Splitting a `", "` join at commas gives the parts, each after the first with a leading space. |
| Projects.TrimCommaPieces | src/dashboard/Projects.jsx:301 | Trimming those pieces gives back the technologies. |
| Projects.DropBlankOfClean | src/dashboard/Projects.jsx:303-304 | Rows with no blank entry pass the filter unchanged. |
| Projects.EditThenSave | src/dashboard/Projects.jsx:297-305 | Loading a well-formed project into the form and saving it without edits writes back the same fields. |
| Projects.SaveIsStable | src/dashboard/Projects.jsx:297-305 | Saving, editing and saving again without changes writes the same fields. |
| Projects.UploadPath | src/dashboard/Projects.jsx:131-133 | A truthy project id uploads under `projects/<id>/<slot>/`. Otherwise the upload goes under `projects/unsaved/<slot>/`. |
| Projects.ProjectFolderInjective | src/dashboard/Projects.jsx:131 | Different projects or slots get different folders. |
| Projects.PermanentIsNotProvisional | src/dashboard/Projects.jsx:131 | A project's folder is never a provisional folder. |
| Projects.PermanentAndProvisionalDisjoint | src/dashboard/Projects.jsx:131 | No object lies in both a project's folder and a provisional folder. |
| Projects.ProvisionalFoldersDisjoint | src/dashboard/Projects.jsx:131 | The provisional main and gallery folders share no object. |
| Projects.MarkerMissesEveryUpload | src/dashboard/Projects.jsx:266-274 | As written, the test `url.includes("/projects/unsaved/")` holds for no download URL of the bucket, because the encoded path has no `/`. |
| Projects.MarkerMissesAnyBucket | src/dashboard/Projects.jsx:266-274 | The same holds whatever the bucket is called, as long as its name has no `/`: the slashes of a download URL are those of the host, of `/v0/b/` and of `/o/`, and no two of them frame `projects` and `unsaved`. |
| Projects.MarkedIffProvisional | src/dashboard/Projects.jsx:266-274 | Corrected test: a download URL is marked exactly when its object lies under `projects/unsaved/`. |
| Projects.ProvisionalUploadIsMarked | src/dashboard/Projects.jsx:131-133 | An upload made before the project has an id has a marked URL, so saving finds it. |
| Projects.PermanentUploadNotMarked | src/dashboard/Projects.jsx:131-133 | An upload into a project with a generated id does not have a marked URL. |
| ProjectsDashboard.ProjectFoldersDisjoint | src/dashboard/Projects.jsx:223 | A provisional folder and a valid project's folder hold no object in common. |
| ProjectsDashboard.GrowthIsOnlyMoves | src/dashboard/Projects.jsx:251-254 | A failed attempt that only wrote into the target folder still counts as a move. |
| ProjectsDashboard.TryMove | src/dashboard/Projects.jsx:229-254 | Handles one listed item. If the item's URL matches, its bytes are copied under a fresh name into the target folder, nothing stored is overwritten, and the source is deleted unless that delete fails. The copy's URL is returned. A failing step before the delete returns nothing and at worst leaves a stray copy in the target. With every transfer succeeding, a matching existing item is always moved. The store stays valid. |
| ProjectsDashboard.MoveStep | src/dashboard/Projects.jsx:238-247 | Writing an item's bytes to a new path in the target and deleting the item gives a URL different from the old one, for an object holding the same bytes; the store changes only by that move, and the source is gone unless its delete failed. |
| ProjectsDashboard.MoveRemovesOnlyItem | src/dashboard/Projects.jsx:244-247 | Such a move removes at most the item behind the old URL, and removes it whenever its delete goes through. |
| ProjectsDashboard.ChangedOnlyInTrans | src/dashboard/Projects.jsx:271-279 | Two rounds of changes confined to the same two disjoint folders are one such round. |
| ProjectsDashboard.MoveSingleUnsavedUrl | src/dashboard/Projects.jsx:221-258 | Fails exactly when the listing fails. Otherwise it returns either the old URL or the URL of an object in the project folder holding the source's bytes, whose source is gone unless its delete failed. The store changes only by that move and nothing is overwritten. With every transfer succeeding, an existing source is always moved. |
| ProjectsDashboard.MoveAfterGrowth | src/dashboard/Projects.jsx:228-254 | A move that follows failed attempts, which only added objects to the target, is still a move of the source from the store as it was before the search. |
| ProjectsDashboard.NoSourceLeft | src/dashboard/Projects.jsx:256-257 | When no listed item matches the URL, no object of the folder has that URL. |
| ProjectsDashboard.ProjectFoldersSeparated | src/dashboard/Projects.jsx:223 | A valid id's two project folders and the two provisional folders are pairwise disjoint. |
| ProjectsDashboard.RelocationSurvives | src/dashboard/Projects.jsx:266-279 | A relocated URL stays relocated while later moves change the store elsewhere: its copy is neither removed nor overwritten, and its source does not come back. |
| ProjectsDashboard.RelocationFromEarlier | src/dashboard/Projects.jsx:266-279 | A gallery URL relocated after the main image was moved is also relocated with respect to the store before the whole pass. |
| ProjectsDashboard.FailedSaveLeavesDangling | src/dashboard/Projects.jsx:318-335 | When the update after a move fails, the record keeps the provisional main-image URL, and with no failed delete no object is behind that URL any more, while the copy lies in the project folder under a URL no record holds. |
| ProjectsDashboard.EarlierEntriesSurvive | src/dashboard/Projects.jsx:271-279 | Moving one gallery entry keeps the relocations of the entries before it. |
| ProjectsDashboard.RelocateGallery | src/dashboard/Projects.jsx:271-279 | The gallery keeps its length. Each entry is kept, or was marked and now points to a copy in the project folder of the bytes its source held at the start, with the source gone unless its delete failed. Objects are removed only from the provisional folder, added only in the project folder, and never overwritten. A gallery without marked URLs touches nothing. A failed listing keeps every URL. With transfers succeeding, the first occurrence of each marked URL whose source exists is moved. |
| ProjectsDashboard.GallerySourceStep | src/dashboard/Projects.jsx:272-277 | Moving entry `i` keeps the sources of the later, different marked URLs, and relocates entry `i` with respect to the store at the start of the loop. |
| ProjectsDashboard.GalleryStep | src/dashboard/Projects.jsx:271-279 | Every invariant of the gallery loop carries over the move of one entry. |
| ProjectsDashboard.RelocateUnsaved | src/dashboard/Projects.jsx:261-287 | Every URL is kept or relocated into the project's folder, holding the bytes its source had before the pass, with that source gone unless its delete failed. Objects are removed only from the provisional folders, added only in the project's folders, and never overwritten. Nothing changes when no URL is marked. A failed main listing keeps everything. A failed gallery listing keeps the gallery. With transfers succeeding, every marked main image and first gallery occurrence whose source exists is moved. |
| ProjectsDashboard.Stamped | src/dashboard/Projects.jsx:310-313 | The update replaces the fields, sets `updatedAt` and keeps `createdAt`. |
| ProjectsDashboard.UploadImage | src/dashboard/Projects.jsx:124-182 | Stores the file at the path the id picks, under a fresh name that no stored object had, unless the upload fails. Returns that object's URL unless the upload or `getDownloadURL` fails. The store stays valid. |
| ProjectsDashboard.ProjectsPanel.constructor | src/dashboard/Projects.jsx:49-63 | The panel starts with an empty form (one empty gallery row, one empty stage row), no edited id and the modal closed. |
| ProjectsDashboard.ProjectsPanel.OpenNew | src/dashboard/Projects.jsx:399-404 | "Add Project" clears the edited id, resets the form and opens the modal. |
| ProjectsDashboard.ProjectsPanel.Cancel | src/dashboard/Projects.jsx:703-706 | "Cancel" closes the modal and clears the edited id, keeping the form. |
| ProjectsDashboard.ProjectsPanel.Edit | src/dashboard/Projects.jsx:343-363 | The form shows the project, its id becomes the edited id, and the modal opens. Saving unchanged writes the same fields. |
| ProjectsDashboard.ProjectsPanel.ChangeItem | src/dashboard/Projects.jsx:108-112 | The form becomes `ArrayChange` of the old form. |
| ProjectsDashboard.ProjectsPanel.AddItem | src/dashboard/Projects.jsx:114-115 | The form becomes `AddArrayItem` of the old form. |
| ProjectsDashboard.ProjectsPanel.RemoveItem | src/dashboard/Projects.jsx:117-121 | The form becomes `RemoveArrayItem` of the old form. |
| ProjectsDashboard.ProjectsPanel.SelectGalleryFile | src/dashboard/Projects.jsx:185-201 | With no file, nothing changes. Otherwise the file is stored at the path the edited id picks. Only when the upload and the URL lookup succeed does gallery row `index` become that URL. |
| ProjectsDashboard.ProjectsPanel.SelectMainFile | src/dashboard/Projects.jsx:204-218 | The same as above, for the main image. |
| ProjectsDashboard.ProjectsPanel.DeleteProject | src/dashboard/Projects.jsx:92-101 | Without confirmation nothing happens. Otherwise one `deleteDoc` removes the project unless it fails. |
| ProjectsDashboard.ProjectsPanel.SaveEdited | src/dashboard/Projects.jsx:308-313 | One update, which succeeds exactly when the project exists and the write is not faulted. It replaces the fields and stamps `updatedAt`. |
| ProjectsDashboard.ProjectsPanel.SaveNew | src/dashboard/Projects.jsx:314-328 | If `addDoc` fails, nothing is stored. Otherwise the record is added under a fresh id with `createdAt` from the first server timestamp, and its provisional files are moved into the new id's folders. The relocation keeps bytes and deletes sources unless a delete fails. It overwrites nothing and touches nothing outside those folders. Nothing changes when no URL is marked. A failed main listing keeps the fields, and a failed gallery listing keeps the gallery. With transfers succeeding, every marked main image and first gallery occurrence whose source exists gets a new URL. All of this holds whether or not the last update goes through. If it goes through, the record holds the relocated fields with `updatedAt` from the second server timestamp. If it fails, the record keeps the fields as first added. |
| ProjectsDashboard.ProjectsPanel.Save | src/dashboard/Projects.jsx:289-341 | A form with a blank name or description is refused and nothing changes. Otherwise the normalised fields are saved as an edit, stamped with `updatedAt`. A new project is saved as in `SaveNew`, including the complete relocation of its provisional files, and that also holds when the last update fails. Only a save that went through closes the modal, clears the id and resets the form. |
| ProfileGallery.AfterSetProfile | src/dashboard/Gallery.jsx:88-101 | After choosing a stored target, exactly the target is flagged; choosing a missing id leaves none flagged. Records keep their images, and only the target and the previously flagged records change. |
| ProfileGallery.SetProfileIdempotent | src/dashboard/Gallery.jsx:88-101 | Choosing the same photo twice equals choosing it once. |
| ProfileGallery.SetProfileOutcomePerRecord | src/dashboard/Gallery.jsx:92-101 | With failing writes, each record is untouched when its write fails, and otherwise ends as in the fault-free outcome. |
| ProfileGallery.SetProfileOutcomeWithoutFaults | src/dashboard/Gallery.jsx:92-101 | With no failing write, the outcome is exactly `AfterSetProfile`. |
| ProfileGallery.ClearedStep | src/dashboard/Gallery.jsx:92-96 | Processing one more snapshot entry changes at most that record. |
| ProfileGallery.VisitedAll | src/dashboard/Gallery.jsx:92 | Once every snapshot entry has been visited, every stored record has been. |
| ProfileGallery.SnapshotEntry | src/dashboard/Gallery.jsx:92-93 | A snapshot entry shows its record as stored, and its id does not occur again. |
| ProfileGallery.GalleryUploadPath | src/dashboard/Gallery.jsx:42 | A file name without `/` is stored directly in `aboutGallery/uploads`. |
| ProfileGallery.GalleryUploadPathInjective | src/dashboard/Gallery.jsx:42 | Two uploads share a blob only if they have the same timestamp and file name. |
| ProfileGallery.NoDashInDigits | src/dashboard/Gallery.jsx:42 | A timestamp's text has no `-`, so the path's first `-` ends the timestamp. |
| ProfileGallery.AddUnflaggedKeepsFlags | src/dashboard/Gallery.jsx:61-66 | Adding a record with `isProfile: false` changes no flag, and keeps "at most one profile". |
| ProfileGallery.RemoveKeepsFlags | src/dashboard/Gallery.jsx:81 | Deleting a record never flags another one, and keeps "at most one profile". |
| ProfileGallery.GalleryManager.constructor | src/dashboard/Gallery.jsx:24-35 | The manager is bound to its collection and its storage. |
| ProfileGallery.GalleryManager.Upload | src/dashboard/Gallery.jsx:38-72 | With no file, nothing changes. Otherwise the bytes go to `aboutGallery/uploads/<now>-<name>`. Only after the upload and the URL lookup succeed is one record added with that URL, that path, the server time and `isProfile` false. Flags are unchanged. The logs show the upload, then the URL lookup only after a successful upload, and `addDoc` only after both succeed. |
| ProfileGallery.GalleryManager.Delete | src/dashboard/Gallery.jsx:75-85 | Without confirmation nothing happens. Otherwise the blob is deleted first, and only if that succeeds is the record deleted. No flag is ever added. |
| ProfileGallery.GalleryManager.ClearProfiles | src/dashboard/Gallery.jsx:92-96 | Every record flagged strictly `true` is cleared unless its write fails, other records are untouched, and only such records are written. |
| ProfileGallery.GalleryManager.ClearOne | src/dashboard/Gallery.jsx:93-95 | One snapshot entry: a strictly flagged record is cleared unless its write fails, and any other record is untouched. |
| ProfileGallery.GalleryManager.SetAsProfile | src/dashboard/Gallery.jsx:88-107 | If `getDocs` fails, nothing changes. Otherwise the records end as `SetProfileOutcome`, and the log holds the read, the clears of flagged records, then the update of the target. The call succeeds exactly when the target exists and its write goes through. |
| About.ActiveProfile | src/portfolio/About.jsx:15-16 | `find` returns the first record flagged strictly `true`, and nothing exactly when none is. |
| About.NextProfile | src/portfolio/About.jsx:14-18 | A snapshot with a strictly flagged record shows the URL of the first such record. Otherwise it keeps what was shown. |
| About.PlaceholderAtStart | src/portfolio/About.jsx:10 | Before any snapshot, the placeholder frame is shown. |
| About.PlaceholderAfterSnapshot | src/portfolio/About.jsx:14-60 | After a snapshot the placeholder frame shows exactly when no record is flagged and it showed before, or when the first flagged record's URL is empty. |
| About.LooseFlagNeverChosen | src/portfolio/About.jsx:16 | A truthy flag that is not the boolean `true` is never chosen. |
| About.ShowsChosenProfile | src/portfolio/About.jsx:14-18 | After the manager sets a profile with every write going through, the section shows that photo. |
| About.NoFlagKeepsProfile | src/portfolio/About.jsx:17 | When no record is flagged, the shown photo does not change. |
| AwardsAdmin.AwardIcon | src/dashboard/Awards.jsx:160 | A key in the table shows its icon. Any other key shows the trophy. |
| AwardsAdmin.AwardIconsDistinct | src/dashboard/Awards.jsx:26-33 | Different keys of the table show different icons. |
| AwardsAdmin.DefaultForm | src/dashboard/Awards.jsx:40-45 | A new award's form has empty title and description, the trophy key, and the current year written in decimal. |
| AwardsAdmin.DefaultFormNeedsInput | src/dashboard/Awards.jsx:82 | A fresh form cannot be saved. |
| AwardsAdmin.IconPlaysNoPart | src/dashboard/Awards.jsx:82 | The save check ignores the icon. |
| AwardsAdmin.BlankTextAccepted | src/dashboard/Awards.jsx:82 | Text made only of spaces passes the save check. |
| AwardsAdmin.AwardsPanel.constructor | src/dashboard/Awards.jsx:36-45 | The panel starts with the default form, nothing edited and the form hidden. |
| AwardsAdmin.AwardsPanel.OpenForm | src/dashboard/Awards.jsx:57-77 | Opens the form with an award's four fields and its id, or with the defaults and no id. |
| AwardsAdmin.AwardsPanel.Close | src/dashboard/Awards.jsx:249 | "Cancel" hides the form and keeps its contents and the edited award. |
| AwardsAdmin.AwardsPanel.Save | src/dashboard/Awards.jsx:79-122 | A form missing a title, description or year is refused untouched. Otherwise there is one update of the edited award, or one add, with exactly the form's fields. Only a write that went through resets and closes the form. |
| AwardsAdmin.AwardsPanel.Delete | src/dashboard/Awards.jsx:124-136 | Without confirmation nothing happens. Otherwise one `deleteDoc`. |
| SocialMedia.LinkIcon | src/dashboard/SocialMedia.jsx:161 | The lower-cased name's icon when it is in the table. The globe otherwise. |
| SocialMedia.DisplayNameOptional | src/dashboard/SocialMedia.jsx:76 | The save check ignores the display name, which may be left empty. |
| SocialMedia.BlankTextAccepted | src/dashboard/SocialMedia.jsx:76 | Text made only of spaces passes the save check. |
| SocialMedia.Stored | src/dashboard/SocialMedia.jsx:83-93 | The stored name is `ToLower` of the form's name, so it has no upper-case letter and the same length. The other fields are as typed, and a savable form stays savable. |
| SocialMedia.StoredIsStable | src/dashboard/SocialMedia.jsx:83-93 | Saving a stored link again writes the same record. |
| SocialMedia.StoredKeepsIcon | src/dashboard/SocialMedia.jsx:84 | A stored link shows the icon its form would have shown. |
| SocialMedia.SocialMediaPanel.constructor | src/dashboard/SocialMedia.jsx:39-46 | The panel starts with empty fields, nothing edited and the form hidden. |
| SocialMedia.SocialMediaPanel.OpenForm | src/dashboard/SocialMedia.jsx:58-71 | Opens the form with a link's fields and its id, or with empty fields and no id. |
| SocialMedia.SocialMediaPanel.Close | src/dashboard/SocialMedia.jsx:211 | "Cancel" hides the form and keeps its contents and the edited link. |
| SocialMedia.SocialMediaPanel.Save | src/dashboard/SocialMedia.jsx:73-102 | A form without a name or a URL is refused untouched. Otherwise `Stored(form)` is written as an update or an add. Only a write that went through empties and closes the form. |
| SocialMedia.SocialMediaPanel.Delete | src/dashboard/SocialMedia.jsx:104-112 | Without confirmation nothing happens. Otherwise one `deleteDoc`. |
| PortfolioAwards.SetBadge | src/portfolio/Awards.jsx:62-76 | The badge with that title gets the value. Every other badge, and every id and title, is kept. |
| PortfolioAwards.SetBadgeTwice | src/portfolio/Awards.jsx:62-76 | A later snapshot's value replaces an earlier one. |
| PortfolioAwards.SetBadgesCommute | src/portfolio/Awards.jsx:62-104 | Listeners for different badges may fire in either order. |
| PortfolioAwards.InitialTitlesDistinct | src/portfolio/Awards.jsx:12-17 | The four initial badges have distinct titles, so each listener changes exactly one badge. |
| PortfolioAwards.CountValue | src/portfolio/Awards.jsx:65 | The badge text is the collection size in decimal followed by `+`. |
| PortfolioAwards.OnProjects | src/portfolio/Awards.jsx:62-68 | The projects listener sets `Projects Completed` to the number of projects followed by `+`, and keeps every other badge. |
| PortfolioAwards.OnAwards | src/portfolio/Awards.jsx:70-76 | The awards listener sets `Awards Won` to the number of awards followed by `+`, and keeps every other badge. |
| PortfolioAwards.WithSatisfaction | src/portfolio/Awards.jsx:99-104 | `Customer Satisfaction` becomes `100%`, and every other badge is kept. |
| PortfolioAwards.LatestCountWins | src/portfolio/Awards.jsx:62-76 | Only the latest snapshot's count is shown. |
| PortfolioAwards.CountListenersCommute | src/portfolio/Awards.jsx:62-76 | The projects and awards listeners may fire in either order. |
| PortfolioAwards.LeadingDigits | src/portfolio/Awards.jsx:82 | The longest all-digit prefix of the text. |
| PortfolioAwards.ParseLeadingInt | src/portfolio/Awards.jsx:82 | `parseInt` gives a number only for text that has a digit. |
| PortfolioAwards.ParseWritten | src/portfolio/Awards.jsx:82 | White space, an optional `+` or `-`, digits (leading zeros allowed) and anything not starting with a digit parse to the digits' decimal value, negated after `-`. |
| PortfolioAwards.TrimStartSkipsSpace | src/portfolio/Awards.jsx:82 | `parseInt` skips exactly the leading white space. |
| PortfolioAwards.ParseSigned | src/portfolio/Awards.jsx:82 | After the white space, there is a number exactly when a digit comes first, or right after one sign. Its value is the decimal value of the maximal run of digits starting at index 0, or at index 1 only after a sign, negated after `-`, so its sign follows the written one. |
| PortfolioAwards.SignedRunUnique | src/portfolio/Awards.jsx:82 | A text has at most one such signed run, so the value `ParseSigned` promises is determined by the text. |
| PortfolioAwards.ParseSignedOf | src/portfolio/Awards.jsx:82 | A `-` in front of an unsigned number negates it, and a `+` or no sign keeps it. |
| PortfolioAwards.ParseUnsigned | src/portfolio/Awards.jsx:82 | There is a value exactly when the text starts with a digit. It is the decimal value of the maximal run of leading digits, so never negative. |
| PortfolioAwards.ParseUnsignedOf | src/portfolio/Awards.jsx:82 | Digits followed by anything that does not start with a digit parse to the digits' value. |
| PortfolioAwards.ParseDigits | src/portfolio/Awards.jsx:82 | `parseInt` of a number's text followed by a non-digit gives that number. |
| PortfolioAwards.LeadingDigitsOf | src/portfolio/Awards.jsx:82 | Parsing stops at the first non-digit. |
| PortfolioAwards.ParseNeedsDigit | src/portfolio/Awards.jsx:82-83 | Text without any digit is `NaN`, and is filtered out. |
| PortfolioAwards.Present | src/portfolio/Awards.jsx:83 | The filter keeps no more entries than it is given. |
| PortfolioAwards.ParseAll | src/portfolio/Awards.jsx:81-82 | One `parseInt` result per record, in order. |
| PortfolioAwards.PresentExactly | src/portfolio/Awards.jsx:83 | The kept values are exactly the values of the present entries. The result is empty exactly when no entry is present. |
| PortfolioAwards.ParsedYears | src/portfolio/Awards.jsx:81-83 | The parsed years are at most as many as the records. |
| PortfolioAwards.ParsedYearsExactly | src/portfolio/Awards.jsx:81-83 | A value is a parsed year exactly when some record's `year` parses to it. The list is empty exactly when none parses. |
| PortfolioAwards.MinOf | src/portfolio/Awards.jsx:86 | `Math.min` is an element that is no larger than any element. |
| PortfolioAwards.MaxOf | src/portfolio/Awards.jsx:87 | `Math.max` is an element that is no smaller than any element. |
| PortfolioAwards.ExperienceYears | src/portfolio/Awards.jsx:85-89 | The experience is at least 1. It covers every year up to now and every span from the first year, and it equals one of the two spans. |
| PortfolioAwards.OnExperience | src/portfolio/Awards.jsx:78-97 | A snapshot with no parseable year leaves the badges unchanged. Otherwise the experience badge shows `ExperienceYears` of the parsed years followed by `+`, and every other badge is kept. |
| PortfolioAwards.ExperienceCoversEveryYear | src/portfolio/Awards.jsx:85-95 | With a parseable year, the experience badge shows exactly `ExperienceYears` of the parsed years, and that count covers every year from each parsed year to now. |
| PortfolioAwards.OnExperienceTouchesOnlyYears | src/portfolio/Awards.jsx:91-95 | The experience listener changes no other badge. |
| PortfolioAwards.OrDefault | src/portfolio/Awards.jsx:148 | `value \|\| fallback`: a missing or empty value falls back. |
| PortfolioAwards.FirstChars | src/portfolio/Awards.jsx:150-153 | Character `k` of the result is the first character of the `k`-th non-empty part. |
| PortfolioAwards.Initials | src/portfolio/Awards.jsx:150-154 | Initial `k` is the upper-cased first character of the `k`-th non-empty word, and there is one per non-empty word. |
| PortfolioAwards.CodeSum | src/portfolio/Awards.jsx:164 | The sum of the character codes is at least each code in the text. |
| PortfolioAwards.CodeSumAppend | src/portfolio/Awards.jsx:164 | The sum over two texts joined is the sum of their sums, so adding from the left as `reduce` does gives the same total. |
| PortfolioAwards.ColourIndex | src/portfolio/Awards.jsx:163-165 | The colour slot is a valid index, congruent to the code sum modulo four. |
| PortfolioAwards.OwnerFrom | src/portfolio/Awards.jsx:147-172 | The card takes the document's name and description, each falling back to the default when missing or empty. Its initials are those of that name, and its colour is the slot the name's code sum picks. |
| PortfolioAwards.NextOwner | src/portfolio/Awards.jsx:119-174 | Signing out restores the default card. A missing owner document leaves the card as it was. An owner document gives the card built from it. |
| PortfolioAwards.DefaultInitials | src/portfolio/Awards.jsx:18-23 | The default card's initials agree with those computed from its name. |
| PortfolioAwards.SplitDefaultName | src/portfolio/Awards.jsx:19 | The default name has the two words `John` and `Doe`. |
| PortfolioAwards.DefaultNameCodeSum | src/portfolio/Awards.jsx:164 | The code sum of `John Doe` is 711. |
| PortfolioAwards.DefaultNameColour | src/portfolio/Awards.jsx:163-165 | The name `John Doe` picks colour slot 3. |
| PortfolioAwards.DefaultFirstChars | src/portfolio/Awards.jsx:150-153 | The words of `John Doe` start with `J` and `D`. |
| PortfolioAwards.UpperInitials | src/portfolio/Awards.jsx:154 | Upper-casing `JD` keeps it, so the fallback name's initials equal the signed-out card's. |
| PortfolioAwards.NamelessOwnerColour | src/portfolio/Awards.jsx:148-172 | An owner document without a name or description shows the default name and description, but a different colour from the signed-out card (slot 3, not slot 0). |
| PortfolioAwards.ShownAwardIconAsWritten | src/portfolio/Awards.jsx:226-229 | The stored key is shown exactly when it is non-empty and the library exports a name equal to it. Otherwise `FaAward` is shown. |
| PortfolioAwards.StoredKeysAlwaysFallBack | src/portfolio/Awards.jsx:226-229 | Every key the dashboard offers falls back to `FaAward` on the public page. |
| PortfolioAwards.ShownAwardIcon | src/dashboard/Awards.jsx:26-33 | Corrected lookup: a key of the dashboard's table shows that table's icon. Any other value is treated as written. |
| PortfolioAwards.PagesAgreeOnIcons | src/dashboard/Awards.jsx:160 | With the corrected lookup, the public page and the dashboard show the same icon for every stored key. |

## Left out

- Upload progress is not modelled: the progress percentages, the uploading flags, the `setTimeout` that hides the main-image progress, and the `saving` and `moving` flags.
- Toasts, `alert` and `console` output are left out.
- `window.confirm` becomes a boolean parameter.
- Time, ids and the server are inputs:
  - `Date.now()`, `serverTimestamp()` and `new Date().getFullYear()` are parameters;
  - `uuidv4()` is a counter in the object store that is written out in decimal. `ObjectStore.Valid` says that no stored object ends in a name the counter has still to hand out, so every name handed out is fresh;
  - `addDoc`'s generated ids come from a counter in the same way.
- The real-time listeners (`onSnapshot`) are not modelled as subscriptions:
  - their callbacks are functions from one snapshot to the next displayed state (`About.NextProfile`, `PortfolioAwards.OnProjects`, `OnAwards`, `OnExperience`, `NextOwner`);
  - the ordering clauses (`orderBy`) only fix the display order, which the model leaves open.
- Download URLs are the base, the encoded path and `?alt=media`. The access token that follows (`&token=…`) is left out: an object keeps its token, so comparing URLs is unaffected.
- `ObjectStorage.EncodePath` escapes `/`, `%`, `?` and `#` only. The other characters `encodeURIComponent` escapes (spaces, non-ASCII text) are kept as they are; the model's relocated names are all digits.
- The bucket's name in `Bucket` is a placeholder; the real one comes from the site's configuration, which is not part of this model. `Projects.MarkerMissesAnyBucket` holds for every bucket name without a `/`.
- `CodeSum` adds Unicode scalar values, while `charCodeAt(0)` in JavaScript gives UTF-16 code units: `split("")` cuts a character outside the Basic Multilingual Plane into its two surrogate halves and the source adds both, so a name such as `😀` sums to 0xD83D + 0xDE00 and falls in colour slot 1 in the browser, while the model adds 0x1F600 and picks slot 0. `FirstChars` likewise takes a whole character where `n[0]` takes only the first code unit.
- `ProfileGallery.GalleryManager.SetAsProfile`: the source's `forEach(async ...)` starts the clearing writes without awaiting them. They can finish after the target is flagged, and with a failing write the target may be cleared again. The model performs the writes in program order, so its contract describes the outcome in that order only.
- Two administrators editing at once are not modelled.
- Two new projects saved at once both look in the shared `projects/unsaved/` folders. Either may take the other's file; the model saves one project at a time.
- `ObjectStorage.ObjectStore.Read`: `fetch` rejects only on a network error. A 403, 404 or 5xx response resolves, and `src/dashboard/Projects.jsx:233-234` never checks `res.ok`, so the source would upload the error body as the moved image and then delete the original. The model takes such a response as a failed read, which ends that move before anything is written. The same-bytes promise of `CopiedInto` rests on this.
- `ProjectsDashboard.RelocateGallery`: failures are fixed per operation, so the listing of the provisional gallery folder fails on every attempt or on none. The source lists that folder again for each marked entry, and a listing that throws only at a later entry ends the loop through the outer `catch`: the earlier entries are moved and the later ones keep their provisional URLs. That partly relocated gallery is not modelled.
- `ProjectsDashboard.RelocateUnsaved`: for the same reason, a gallery listing that fails after the main image or earlier gallery entries were moved is not modelled. Its contract states the outcome for listings that always fail or always go through.
- `ProjectsDashboard.RelocateGallery`: a gallery that lists the same provisional URL twice has its second copy left unmoved, because the file is already gone. Completeness is therefore stated for first occurrences only.
- `ProjectsDashboard.RelocateUnsaved` works on values. In the source, `{ ...formatted }` is a shallow copy, so moving gallery URLs also rewrites the `formatted.gallery` array. Nothing reads that array afterwards, so the aliasing is not modelled.
- The `typeof ... === "string"` checks and `Array.isArray` are not modelled: every field in the model has the type the form gives it.
- The `|| ""` defaults of `handleEdit` are not modelled either: a stored project always has every field. Likewise, a technologies field stored as text rather than as an array is not modelled.
- `Text.ToLower` and `Text.ToUpper` map ASCII letters only. JavaScript's full Unicode case mapping is not modelled.
- `PortfolioAwards.ParseLeadingInt` leaves out parts of `parseInt`:
  - hexadecimal `0x` prefixes;
  - the conversion of a non-string `year` to text;
  - the loss of precision for numbers beyond 2^53.

  A `year` is modelled as its text.
- `PortfolioAwards.NextOwner` reduces the login listener to two kinds of event, signing out and an owner-document snapshot:
  - Firebase Authentication is not modelled;
  - neither are the three candidate owner documents and the `found` flag.
- The `catch` of `saveAward` names the toast id `loading`, which is declared inside the `try` block, so the error path itself throws a `ReferenceError`. The model keeps only its effect on the panel: the form stays open and unchanged.
- Which collection the About section reads is a parameter. The section reads `gallery` while the gallery manager writes `aboutGallery`. `About.ShowsChosenProfile` connects the two only for a snapshot of the records the manager wrote.
- `About.NextProfile` treats a stored `url` as text. A truthy `url` that is not text is not modelled.
- The icon tables are finite maps, so inherited object keys such as `constructor` are not lookups in the model.
- `Projects.EditForm` keeps the fields as stored. A stored record with fields missing, or with `null` lists, is outside the model.

## Findings

| source | as written | input that shows it | evidently intended | confidence | as-written member | corrected member |
|---|---|---|---|---|---|---|
| src/portfolio/Awards.jsx:226-229 with src/dashboard/Awards.jsx:26-33 and 238 | The public page looks up the stored icon key directly among the icon library's exports. Those names all start with `Fa`, while the dashboard stores the lower-case keys of its own table. | An award saved with icon `trophy` (or any other key the dashboard offers) shows `FaAward` on the public page, not the trophy. | Show the icon the administrator chose, as the dashboard does: look the key up in the dashboard's table first. | high; not executed | PortfolioAwards.StoredKeysAlwaysFallBack | PortfolioAwards.PagesAgreeOnIcons |
| src/dashboard/Projects.jsx:266 and 274, with 167 | The relocation looks for the text `/projects/unsaved/` in the download URL. `getDownloadURL` returns the object's path percent-encoded, with every `/` written as `%2F`, so the text never occurs and provisional uploads are never moved. | A new project whose main image was uploaded before saving, to `projects/unsaved/main/<uuid>`: its URL contains `projects%2Funsaved%2Fmain`, the test fails, and the image stays in the `unsaved` folder. | Move every URL whose object lies under `projects/unsaved/`: decode the path from the URL (as `ref(storage, url).fullPath` does) before testing it. | high; not executed | Projects.MarkerMissesEveryUpload | Projects.MarkedIffProvisional |
