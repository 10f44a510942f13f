/**
 * The dashboard's awards panel: a form with a title, a description, an
 * icon key and a year, saved as one record of the `awards` collection
 * (an update of the award being edited, or a new record), deletion after
 * confirmation, and the icon shown for each award.
 */
module AwardsAdmin {
  import opened Text
  import opened Wrappers
  import opened DocumentStore

  /** An award as stored, and as held by the form: exactly these four fields, all text. */
  datatype Award = Award(title: string, description: string, icon: string, year: string)

  /** The icon keys the form offers, and the icon each one shows. */
  const AwardIcons: map<string, string> := map[
    "trophy" := "FaTrophy",
    "medal" := "FaMedal",
    "award" := "FaAward",
    "star" := "FaStar",
    "crown" := "FaCrown",
    "ribbon" := "FaRibbon"
  ]

  const FallbackIcon: string := "FaTrophy"

  /** `awardIcons[award.icon] || <FaTrophy />`. */
  function AwardIcon(icon: string): (r: string)
    ensures r in AwardIcons.Values
    ensures icon in AwardIcons ==> r == AwardIcons[icon]
    ensures icon !in AwardIcons ==> r == FallbackIcon
  {
    assert AwardIcons["trophy"] == FallbackIcon;
    if icon in AwardIcons then AwardIcons[icon] else FallbackIcon
  }

  /** Different keys show different icons: the table is one-to-one. */
  lemma AwardIconsDistinct(a: string, b: string)
    requires a in AwardIcons && b in AwardIcons && a != b
    ensures AwardIcon(a) != AwardIcon(b)
  {
  }

  /** The form for a new award: empty text, the trophy icon and the current year. */
  function DefaultForm(currentYear: nat): (f: Award)
    ensures f.title == "" && f.description == ""
    ensures f.icon in AwardIcons && AwardIcon(f.icon) == FallbackIcon
    ensures f.year != "" && AllDigits(f.year) && DecimalValue(f.year) == currentYear
  {
    Award("", "", "trophy", Digits(currentYear))
  }

  /** `!title || !description || !year` refuses the save; nothing is trimmed. */
  predicate CanSave(form: Award) {
    form.title != "" && form.description != "" && form.year != ""
  }

  /** A fresh form cannot be saved until a title and a description are typed in. */
  lemma DefaultFormNeedsInput(currentYear: nat)
    ensures !CanSave(DefaultForm(currentYear))
  {
  }

  /** The icon plays no part in the check. */
  lemma IconPlaysNoPart(form: Award, icon: string)
    ensures CanSave(form.(icon := icon)) == CanSave(form)
  {
  }

  /** Text made of spaces only is accepted: the check does not trim. */
  lemma BlankTextAccepted(s: string)
    requires s != "" && AllSpace(s)
    ensures CanSave(Award(s, s, "", s))
    ensures IsBlank(s)
  {
  }

  class AwardsPanel {
    var form: Award
    /** The id of the award being edited; `None` while a new one is being entered. */
    var editing: Option<Id>
    var showForm: bool
    const awards: Collection<Award>

    ghost predicate Valid()
      reads this, awards
    {
      awards.Valid()
    }

    constructor (awards: Collection<Award>, currentYear: nat)
      requires awards.Valid()
      ensures Valid()
      ensures this.awards == awards
      ensures form == DefaultForm(currentYear) && editing == None && !showForm
    {
      this.awards := awards;
      form := DefaultForm(currentYear);
      editing := None;
      showForm := false;
    }

    /** `openForm(award)`: the award's four fields for editing, or the defaults for a new one. */
    method OpenForm(award: Option<(Id, Award)>, currentYear: nat)
      modifies this`form, this`editing, this`showForm
      ensures showForm
      ensures award.Some? ==> editing == Some(award.value.0) && form == award.value.1
      ensures award.None? ==> editing == None && form == DefaultForm(currentYear)
    {
      if award.Some? {
        editing := Some(award.value.0);
        form := award.value.1;
      } else {
        editing := None;
        form := DefaultForm(currentYear);
      }
      showForm := true;
    }

    /** The "Cancel" button: hides the form, keeping its contents and the edited id. */
    method Close()
      modifies this`showForm
      ensures !showForm
    {
      showForm := false;
    }

    /**
     * `saveAward`: a form missing a title, a description or a year is
     * refused untouched; otherwise one write of exactly the form's four
     * fields (an update of the edited award, or a new record), and only a
     * write that went through closes and resets the form.
     */
    method Save(currentYear: nat) returns (saved: bool)
      requires Valid()
      modifies this`form, this`editing, this`showForm
      modifies awards`docs, awards`created, awards`log
      ensures Valid()
      ensures !CanSave(old(form)) ==> !saved && unchanged(this) && unchanged(awards)
      ensures CanSave(old(form)) && old(editing).Some? ==>
        var id := old(editing).value;
        && awards.log == old(awards.log) + [UpdateDoc(id)]
        && saved == (id in old(awards.docs) && UpdateDoc(id) !in awards.faults)
        && awards.docs == (if saved then old(awards.docs)[id := old(form)] else old(awards.docs))
      ensures CanSave(old(form)) && old(editing).None? ==>
        var id := AutoId(old(awards.created));
        && awards.log == old(awards.log) + [AddDoc]
        && saved == (AddDoc !in awards.faults)
        && (saved ==> id !in old(awards.docs) && awards.docs == old(awards.docs)[id := old(form)])
        && (!saved ==> awards.docs == old(awards.docs))
      ensures saved ==> form == DefaultForm(currentYear) && editing == None && !showForm
      ensures !saved ==> form == old(form) && editing == old(editing) && showForm == old(showForm)
    {
      if !CanSave(form) {
        return false;
      }
      if editing.Some? {
        saved := awards.Update(editing.value, form, Overwrite);
      } else {
        var added := awards.Add(form);
        saved := added.Some?;
      }
      if saved {
        showForm := false;
        editing := None;
        form := DefaultForm(currentYear);
      }
    }

    /** `deleteAward(id)`: nothing unless confirmed, then one delete. */
    method Delete(id: Id, confirmed: bool) returns (ok: bool)
      requires Valid()
      modifies awards`docs, awards`log
      ensures Valid()
      ensures !confirmed ==> !ok && unchanged(awards)
      ensures confirmed ==>
        && awards.log == old(awards.log) + [DeleteDoc(id)]
        && ok == (DeleteDoc(id) !in awards.faults)
        && awards.docs == (if ok then old(awards.docs) - {id} else old(awards.docs))
    {
      if !confirmed {
        return false;
      }
      ok := awards.Delete(id);
    }
  }
}
