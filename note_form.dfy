/** The note editor (frontend/src/components/NoteForm.tsx): a draft the
    user edits, a title error, and the two ways out, save and delete. The
    component's state hooks are the fields of `NoteForm`; its handlers are
    methods; calling the `onSave`/`onDelete` callbacks is what `Submit` and
    `Delete` return. */
module Form {
  import opened Wrappers
  import opened JsString
  import opened Types
  import NotesGrid

  const TitleRequired := "Title is required."

  /** The palette, in display order. */
  const ColorOptions: seq<string> :=
    ["#ffffff", "#f5f5f5", "#d4e9f8ff", "#cff3f8ff", "#d9f3dbff", "#faefd2ff", "#fddce7ff"]

  /** The draft of a new note: empty title, empty description, white. */
  const EmptyDraft := Note(None, "", Some(""), Some(DefaultColor), None, None)

  /** The draft the form holds after it has been given `note`: the note
      itself with a missing description read as "" and a missing colour as
      white, or the empty draft when there is no note. */
  function SyncedDraft(note: Option<Note>): (d: Note)
    ensures d.description.Some? && d.bgColor.Some?
    ensures note.None? ==> d == Note(None, "", Some(""), Some(DefaultColor), None, None)
  {
    match note
    case None => EmptyDraft
    case Some(n) =>
      Note(n.id, n.name, Some(n.description.GetOr("")), Some(n.bgColor.GetOr(DefaultColor)),
           n.createdAt, n.updatedAt)
  }

  /** Syncing keeps what identifies the note and what the user typed, and
      fills in only what was missing. */
  lemma SyncedDraftKeepsNote(n: Note)
    ensures var d := SyncedDraft(Some(n));
      && d.id == n.id && d.name == n.name && d.createdAt == n.createdAt && d.updatedAt == n.updatedAt
      && (n.description.Some? ==> d.description == n.description)
      && (n.bgColor.Some? ==> d.bgColor == n.bgColor)
      && (n.description.None? ==> d.description == Some(""))
      && (n.bgColor.None? ==> d.bgColor == Some(DefaultColor))
  {
  }

  /** Giving the form its own draft back changes nothing. */
  lemma SyncedDraftIdempotent(note: Option<Note>)
    ensures SyncedDraft(Some(SyncedDraft(note))) == SyncedDraft(note)
  {
  }

  /** What `handleSubmit` passes to `onSave`: the draft with its title
      trimmed, or nothing when the title is blank. */
  function FinalDraft(d: Note): (r: Option<Note>)
    ensures r.Some? <==> !AllWhiteSpace(d.name)
    ensures r.Some? ==> r.value == d.(name := Trim(d.name))
    ensures r.Some? ==> Trim(r.value.name) == r.value.name && r.value.name != ""
  {
    TrimEmptyIffBlank(d.name);
    TrimIdempotent(d.name);
    var trimmed := Trim(d.name);
    if trimmed == "" then None else Some(d.(name := trimmed))
  }

  /** The palette colours are pairwise distinct. */
  lemma PaletteDistinct()
    ensures forall i, j :: 0 <= i < j < |ColorOptions| ==> ColorOptions[i] != ColorOptions[j]
  {
    assert ColorOptions[0][1] == 'f' && ColorOptions[1][1] == 'f';
    assert ColorOptions[0][2] != ColorOptions[1][2];
    assert ColorOptions[2][1] == 'd' && ColorOptions[3][1] == 'c' && ColorOptions[4][1] == 'd';
    assert ColorOptions[5][1] == 'f' && ColorOptions[6][1] == 'f';
    assert ColorOptions[2][2] != ColorOptions[4][2];
    assert ColorOptions[5][2] != ColorOptions[6][2];
  }

  /** The pill of palette entry `j` carries the `active` class: the draft's
      colour is that entry's colour. */
  predicate PillActive(d: Note, j: int)
    requires 0 <= j < |ColorOptions|
  {
    d.bgColor == Some(ColorOptions[j])
  }

  /** After the user picks pill `i`, that pill and no other is shown
      active. */
  lemma SelectedPillAlone(d: Note, i: int)
    requires 0 <= i < |ColorOptions|
    ensures forall j :: 0 <= j < |ColorOptions| ==>
              (PillActive(d.(bgColor := Some(ColorOptions[i])), j) <==> j == i)
  {
    PaletteDistinct();
  }

  /** The palette's eight-digit colours get the default card shadow. */
  lemma EightDigitPaletteShadows()
    ensures forall i :: 2 <= i < |ColorOptions| ==>
              NotesGrid.ComputeShadow(Some(ColorOptions[i])) == NotesGrid.DefaultShadow
  {
    forall i | 2 <= i < |ColorOptions|
      ensures NotesGrid.ComputeShadow(Some(ColorOptions[i])) == NotesGrid.DefaultShadow
    {
      assert |ColorOptions[i]| == 9;
      NotesGrid.ShadowDefault(Some(ColorOptions[i]));
    }
  }

  /** The palette's two six-digit colours are bright and get the dark card
      shadow: together with the lemma above, no palette colour gets the
      light shadow. */
  lemma PlainPaletteShadows()
    ensures NotesGrid.ComputeShadow(Some(ColorOptions[0])) == NotesGrid.DarkShadow
    ensures NotesGrid.ComputeShadow(Some(ColorOptions[1])) == NotesGrid.DarkShadow
  {
    assert ColorOptions[0] == "#ffffff" && ColorOptions[1] == "#f5f5f5";
    NotesGrid.ShadowOfBlackAndWhite();
    LightGrayShadow();
  }

  lemma LightGrayShadow()
    ensures NotesGrid.ComputeShadow(Some("#f5f5f5")) == NotesGrid.DarkShadow
  {
    NotesGrid.ShadowOfHashColor("#f5f5f5");
    assert "#f5f5f5"[1..] == "f5f5f5";
    NotesGrid.ShadowOfSixHexDigits("f5f5f5");
  }

  class NoteForm {
    /** The `note` prop: the note being edited, or `None` to create one. */
    var note: Option<Note>
    var draft: Note
    var titleError: Option<string>

    /** The only title error the form ever shows is "Title is required.",
        and the draft always has a description and a colour. */
    predicate Valid()
      reads this
    {
      && (titleError == None || titleError == Some(TitleRequired))
      && draft.description.Some? && draft.bgColor.Some?
    }

    /** Mounting with a note: the initial state, then the sync effect. */
    constructor (note: Option<Note>)
      ensures this.note == note && draft == SyncedDraft(note) && titleError == None
      ensures Valid()
    {
      this.note := note;
      draft := SyncedDraft(note);
      titleError := None;
    }

    /** `isEditMode`: the note prop has a truthy id. */
    predicate IsEditMode()
      reads this
    {
      note.Some? && TruthyId(note.value.id)
    }

    /** The sync effect, run when the `note` prop changes. */
    method ReceiveNote(n: Option<Note>)
      modifies this
      ensures note == n && draft == SyncedDraft(n) && titleError == None
      ensures Valid()
    {
      note := n;
      draft := SyncedDraft(n);
      titleError := None;
    }

    /** `handleTitleChange`: the title is replaced and a shown error is
        cleared. */
    method TitleChange(value: string)
      modifies this
      ensures note == old(note) && draft == old(draft).(name := value)
      ensures titleError == (if Truthy(old(titleError)) then None else old(titleError))
      ensures old(Valid()) ==> Valid() && titleError == None
    {
      draft := draft.(name := value);
      if Truthy(titleError) {
        titleError := None;
      }
    }

    /** `handleDescriptionChange`. */
    method DescriptionChange(value: string)
      modifies this
      ensures note == old(note) && titleError == old(titleError)
      ensures draft == old(draft).(description := Some(value))
      ensures old(Valid()) ==> Valid()
    {
      draft := draft.(description := Some(value));
    }

    /** `handleColorSelect`. */
    method ColorSelect(value: string)
      modifies this
      ensures note == old(note) && titleError == old(titleError)
      ensures draft == old(draft).(bgColor := Some(value))
      ensures old(Valid()) ==> Valid()
    {
      draft := draft.(bgColor := Some(value));
    }

    /** `handleSubmit`: with a blank title the error is shown and nothing is
        saved; otherwise the draft with its title trimmed goes to `onSave`
        and the state is left as it was. */
    method Submit() returns (saved: Option<Note>)
      modifies this
      ensures saved == FinalDraft(old(draft))
      ensures note == old(note) && draft == old(draft)
      ensures titleError == (if saved.None? then Some(TitleRequired) else old(titleError))
      ensures old(Valid()) ==> Valid()
    {
      saved := FinalDraft(draft);
      if saved.None? {
        titleError := Some(TitleRequired);
      }
    }

    /** `handleDelete`: the note goes to `onDelete` only in edit mode and
        only when the user confirms. */
    method Delete(confirmed: bool) returns (deleted: Option<Note>)
      ensures deleted.Some? <==> IsEditMode() && confirmed
      ensures deleted.Some? ==> deleted == note
    {
      if !IsEditMode() {
        return None;
      }
      if confirmed {
        deleted := note;
      } else {
        deleted := None;
      }
    }
  }
}
