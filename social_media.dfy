/**
 * The dashboard's social-media panel: a form with a platform name, a
 * display name and a URL, saved as one record of the `socialMedia`
 * collection with the platform name lower-cased, deletion after
 * confirmation, and the icon shown for each link.
 */
module SocialMedia {
  import opened Text
  import opened Wrappers
  import opened DocumentStore

  /** A link as stored, and as held by the form. */
  datatype Link = Link(name: string, displayName: string, url: string)

  const EmptyLink: Link := Link("", "", "")

  /** The platform keys with an icon of their own. */
  const PlatformIcons: map<string, string> := map[
    "facebook" := "FaFacebookF",
    "twitter" := "FaTwitter",
    "instagram" := "FaInstagram",
    "linkedin" := "FaLinkedinIn",
    "github" := "FaGithub",
    "youtube" := "FaYoutube",
    "website" := "FaGlobe"
  ]

  const FallbackIcon: string := "FaGlobe"

  /** `iconMap[link.name.toLowerCase()] || <FaGlobe />`. */
  function LinkIcon(name: string): (r: string)
    ensures r in PlatformIcons.Values
    ensures ToLower(name) in PlatformIcons ==> r == PlatformIcons[ToLower(name)]
    ensures ToLower(name) !in PlatformIcons ==> r == FallbackIcon
  {
    assert PlatformIcons["website"] == FallbackIcon;
    var key := ToLower(name);
    if key in PlatformIcons then PlatformIcons[key] else FallbackIcon
  }

  /** `!name || !url` refuses the save; nothing is trimmed and the display name is optional. */
  predicate CanSave(form: Link) {
    form.name != "" && form.url != ""
  }

  /** The display name plays no part in the check: it may be left empty. */
  lemma DisplayNameOptional(form: Link, displayName: string)
    ensures CanSave(form.(displayName := displayName)) == CanSave(form)
    ensures CanSave(Link(form.name, "", form.url)) == CanSave(form)
  {
  }

  /** Text made of spaces only is accepted: the check does not trim. */
  lemma BlankTextAccepted(s: string, displayName: string)
    requires s != "" && AllSpace(s)
    ensures CanSave(Link(s, displayName, s))
    ensures IsBlank(s)
  {
  }

  /** The record `handleSave` writes: the platform name lower-cased, the rest as typed. */
  function Stored(form: Link): (r: Link)
    ensures r.name == ToLower(form.name)
    ensures HasNoUpper(r.name) && |r.name| == |form.name|
    ensures r.displayName == form.displayName && r.url == form.url
    ensures CanSave(form) ==> CanSave(r)
  {
    Link(ToLower(form.name), form.displayName, form.url)
  }

  /** Saving a stored link again, unchanged, writes the very same record. */
  lemma StoredIsStable(form: Link)
    ensures Stored(Stored(form)) == Stored(form)
  {
    ToLowerIdempotent(form.name);
  }

  /** A stored link shows the icon its form would have shown: the lookup lower-cases again. */
  lemma StoredKeepsIcon(form: Link)
    ensures LinkIcon(Stored(form).name) == LinkIcon(form.name)
  {
    ToLowerIdempotent(form.name);
  }

  class SocialMediaPanel {
    var form: Link
    /** The id of the link being edited; `None` while a new one is being entered. */
    var editing: Option<Id>
    var showForm: bool
    const links: Collection<Link>

    ghost predicate Valid()
      reads this, links
    {
      links.Valid()
    }

    constructor (links: Collection<Link>)
      requires links.Valid()
      ensures Valid()
      ensures this.links == links
      ensures form == EmptyLink && editing == None && !showForm
    {
      this.links := links;
      form := EmptyLink;
      editing := None;
      showForm := false;
    }

    /** `handleOpenForm(link)`: the link's fields for editing, or empty fields for a new one. */
    method OpenForm(link: Option<(Id, Link)>)
      modifies this`form, this`editing, this`showForm
      ensures showForm
      ensures link.Some? ==> editing == Some(link.value.0) && form == link.value.1
      ensures link.None? ==> editing == None && form == EmptyLink
    {
      if link.Some? {
        editing := Some(link.value.0);
        form := link.value.1;
      } else {
        editing := None;
        form := EmptyLink;
      }
      showForm := true;
    }

    /** The "Cancel" button: hides the form, keeping its contents and the edited id. */
    method Close()
      modifies this`showForm
      ensures !showForm
    {
      showForm := false;
    }

    /**
     * `handleSave`: a form without a platform name or URL is refused
     * untouched; otherwise one write of `Stored(form)` (an update of the
     * edited link, or a new record), and only a write that went through
     * closes the form and empties it.
     */
    method Save() returns (saved: bool)
      requires Valid()
      modifies this`form, this`editing, this`showForm
      modifies links`docs, links`created, links`log
      ensures Valid()
      ensures !CanSave(old(form)) ==> !saved && unchanged(this) && unchanged(links)
      ensures CanSave(old(form)) && old(editing).Some? ==>
        var id := old(editing).value;
        && links.log == old(links.log) + [UpdateDoc(id)]
        && saved == (id in old(links.docs) && UpdateDoc(id) !in links.faults)
        && links.docs == (if saved then old(links.docs)[id := Stored(old(form))] else old(links.docs))
      ensures CanSave(old(form)) && old(editing).None? ==>
        var id := AutoId(old(links.created));
        && links.log == old(links.log) + [AddDoc]
        && saved == (AddDoc !in links.faults)
        && (saved ==> id !in old(links.docs) && links.docs == old(links.docs)[id := Stored(old(form))])
        && (!saved ==> links.docs == old(links.docs))
      ensures saved ==> form == EmptyLink && editing == None && !showForm
      ensures !saved ==> form == old(form) && editing == old(editing) && showForm == old(showForm)
    {
      if !CanSave(form) {
        return false;
      }
      var record := Stored(form);
      if editing.Some? {
        saved := links.Update(editing.value, record, Overwrite);
      } else {
        var added := links.Add(record);
        saved := added.Some?;
      }
      if saved {
        showForm := false;
        editing := None;
        form := EmptyLink;
      }
    }

    /** `handleDelete(id)`: nothing unless confirmed, then one delete. */
    method Delete(id: Id, confirmed: bool) returns (ok: bool)
      requires Valid()
      modifies links`docs, links`log
      ensures Valid()
      ensures !confirmed ==> !ok && unchanged(links)
      ensures confirmed ==>
        && links.log == old(links.log) + [DeleteDoc(id)]
        && ok == (DeleteDoc(id) !in links.faults)
        && links.docs == (if ok then old(links.docs) - {id} else old(links.docs))
    {
      if !confirmed {
        return false;
      }
      ok := links.Delete(id);
    }
  }
}
