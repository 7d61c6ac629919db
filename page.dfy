/** The notes page (frontend/src/app/page.tsx): the list of notes and the
    status the page shows, and the handlers that change them. Each
    asynchronous handler is one step here: the server's answer is a
    parameter, what the handler sends is its result, and the state after
    the step is what the page holds once the request has settled. */
module NotesPage {
  import opened Wrappers
  import opened JsString
  import opened Types
  import opened Reconcile
  import Form

  datatype ToastKind = Success | Failure

  /** The fixed texts the page shows in its error banner and its toasts. */
  datatype Notice = LoadFailed | SaveFailed | DeleteFailed | NoteCreated | NoteUpdated | NoteDeleted

  /** The text of each notice, as the page writes it. */
  function Text(n: Notice): string {
    match n
    case LoadFailed => "Failed to load notes"
    case SaveFailed => "Failed to save note"
    case DeleteFailed => "Failed to delete note"
    case NoteCreated => "Note created"
    case NoteUpdated => "Note updated"
    case NoteDeleted => "Note deleted"
  }

  datatype Toast = Toast(kind: ToastKind, message: Notice)

  /** How a request ended: with the value the server sent back, or failed
      (the fetch rejected, or the status was not 2xx and `handleResponse`
      threw). */
  datatype Reply<T> = Ok(value: T) | Failed

  /** The request `handleSaveNote` sends: `PUT /notes/:id` or `POST /notes`. */
  datatype SaveRequest = UpdateRequest(id: int, payload: Note) | CreateRequest(payload: Note)

  /** The body `handleSaveNote` sends: the draft with its title trimmed and
      a missing description or colour filled in. */
  function Payload(draft: Note): (p: Note)
    ensures p.name == Trim(draft.name) && Trim(p.name) == p.name
    ensures p.description.Some? && p.bgColor.Some?
  {
    TrimIdempotent(draft.name);
    Note(draft.id, Trim(draft.name), Some(draft.description.GetOr("")),
         Some(draft.bgColor.GetOr(DefaultColor)), draft.createdAt, draft.updatedAt)
  }

  /** The payload keeps the draft's id and dates, and a description or
      colour the draft has; it defaults them to "" and white only when they
      are missing. */
  lemma PayloadKeepsDraft(draft: Note)
    ensures var p := Payload(draft);
      && p.id == draft.id && p.createdAt == draft.createdAt && p.updatedAt == draft.updatedAt
      && p.description == (if draft.description.Some? then draft.description else Some(""))
      && p.bgColor == (if draft.bgColor.Some? then draft.bgColor else Some(DefaultColor))
  {
  }

  /** A draft that came out of the form's submit is sent exactly as the
      form produced it: its title is already trimmed and it already has a
      description and a colour. */
  lemma PayloadOfSubmittedDraft(d: Note)
    requires d.description.Some? && d.bgColor.Some? && Form.FinalDraft(d).Some?
    ensures Payload(Form.FinalDraft(d).value) == Form.FinalDraft(d).value
  {
  }

  /** An update for a draft with a truthy id, a create otherwise; both
      carry the payload. */
  function SaveRequestFor(draft: Note): (r: SaveRequest)
    ensures r.UpdateRequest? <==> TruthyId(draft.id)
    ensures r.UpdateRequest? ==> Some(r.id) == draft.id
    ensures r.payload == Payload(draft)
  {
    if TruthyId(draft.id) then UpdateRequest(draft.id.value, Payload(draft))
    else CreateRequest(Payload(draft))
  }

  /** The form's draft for a note is saved as an update exactly when the
      form is in edit mode for it. */
  lemma UpdateIffEditMode(note: Option<Note>)
    ensures SaveRequestFor(Form.SyncedDraft(note)).UpdateRequest? <==> (note.Some? && TruthyId(note.value.id))
  {
  }

  /** The placeholder of a note the delete event carries: only its id is
      set (`{ id: note.id }`); `applyChange` reads nothing else of it. */
  function IdOnly(id: int): (n: Note)
    ensures n.id == Some(id)
  {
    Note(Some(id), "", None, None, None, None)
  }

  /** Whether a selected or viewed note is `note` (`x?.id === note.id`). */
  predicate SameId(x: Option<Note>, note: Note) {
    x.Some? && x.value.id == note.id
  }

  /** The list stays newest first and free of repeated ids under every
      event. */
  lemma ApplyChangeKeepsValid(parse: DateParser, notes: seq<Note>, change: ChangeEvent)
    requires SortedByLatest(parse, notes) && DistinctIds(notes)
    ensures var r := ApplyChange(parse, notes, change); SortedByLatest(parse, r) && DistinctIds(r)
  {
    ApplyChangeKeepsSorted(parse, notes, change);
    ApplyChangeKeepsDistinctIds(parse, notes, change);
  }

  /** What the page holds between two handlers: its state hooks. */
  datatype PageState = PageState(
    notes: seq<Note>, loading: bool, saving: bool, errorMessage: Option<Notice>,
    selectedNote: Option<Note>, viewNote: Option<Note>, toast: Option<Toast>, formResetKey: int)

  /** The state before the first load: no notes, loading, nothing selected. */
  const Initial := PageState([], true, false, None, None, None, None, 0)

  /** The list is newest first and holds every id at most once. */
  predicate ListValid(parse: DateParser, s: PageState) {
    SortedByLatest(parse, s.notes) && DistinctIds(s.notes)
  }

  /** The initial load settling: the fetched notes sorted newest first, or
      the load error in the banner and a toast. Loading ends either way and
      nothing else changes. */
  function AfterLoad(parse: DateParser, s: PageState, fetched: Reply<seq<Note>>): (r: PageState)
    ensures !r.loading && r.saving == s.saving && r.formResetKey == s.formResetKey
    ensures r.selectedNote == s.selectedNote && r.viewNote == s.viewNote
    ensures fetched.Ok? ==> && IsStableSortOf(parse, r.notes, fetched.value)
                            && r.errorMessage == s.errorMessage && r.toast == s.toast
    ensures fetched.Failed? ==> && r.notes == s.notes && r.errorMessage == Some(LoadFailed)
                                && r.toast == Some(Toast(Failure, LoadFailed))
  {
    match fetched
    case Ok(data) => s.(notes := SortByLatest(parse, data), loading := false)
    case Failed =>
      s.(loading := false, errorMessage := Some(LoadFailed), toast := Some(Toast(Failure, LoadFailed)))
  }

  /** A load of notes with distinct ids leaves the list valid, and a failed
      load keeps a valid list valid. */
  lemma AfterLoadValid(parse: DateParser, s: PageState, fetched: Reply<seq<Note>>)
    requires fetched.Ok? ==> DistinctIds(fetched.value)
    requires fetched.Failed? ==> ListValid(parse, s)
    ensures ListValid(parse, AfterLoad(parse, s, fetched))
  {
    if fetched.Ok? {
      SortKeepsDistinctIds(parse, fetched.value);
    }
  }

  /** `onmessage`: an event that parsed is applied to the list; one whose
      data did not parse (`None`) is dropped. Only the list changes. */
  function AfterChange(parse: DateParser, s: PageState, change: Option<ChangeEvent>): (r: PageState)
    ensures r.(notes := s.notes) == s
    ensures change.None? ==> r == s
    ensures change.Some? ==> r.notes == ApplyChange(parse, s.notes, change.value)
  {
    if change.Some? then s.(notes := ApplyChange(parse, s.notes, change.value)) else s
  }

  /** The list stays newest first and free of repeated ids under every
      event the page receives. */
  lemma AfterChangeKeepsValid(parse: DateParser, s: PageState, change: Option<ChangeEvent>)
    requires ListValid(parse, s)
    ensures ListValid(parse, AfterChange(parse, s, change))
  {
    if change.Some? {
      ApplyChangeKeepsValid(parse, s.notes, change.value);
    }
  }

  /** The event `handleSaveNote` merges for the note the server answered
      with: `updated` after a PUT, `created` after a POST. */
  function SaveEvent(request: SaveRequest, saved: Note, now: int): (e: ChangeEvent)
    ensures e.note == saved && e.timestamp == now
    ensures e.kind == Updated <==> request.UpdateRequest?
    ensures e.kind != Deleted
  {
    ChangeEvent(if request.UpdateRequest? then Updated else Created, saved, now)
  }

  /** The state once `handleSaveNote` has settled. When the server answered
      with a note, it is merged into the list, the form is closed and
      remounted, and a success toast is shown; when the request failed, the
      save error is shown and the list and the form are left alone. Saving is
      over either way; the load flag and the detail view are not touched. */
  function AfterSave(parse: DateParser, s: PageState, request: SaveRequest, reply: Reply<Note>, now: int): (r: PageState)
    ensures !r.saving && r.loading == s.loading && r.viewNote == s.viewNote
    ensures reply.Ok? ==>
      && r.notes == ApplyChange(parse, s.notes, SaveEvent(request, reply.value, now))
      && r.selectedNote == None && r.formResetKey == s.formResetKey + 1
      && r.errorMessage == None
      && r.toast == Some(Toast(Success, if request.UpdateRequest? then NoteUpdated else NoteCreated))
    ensures reply.Failed? ==>
      && r.notes == s.notes && r.selectedNote == s.selectedNote && r.formResetKey == s.formResetKey
      && r.errorMessage == Some(SaveFailed) && r.toast == Some(Toast(Failure, SaveFailed))
  {
    match reply
    case Ok(saved) =>
      PageState(ApplyChange(parse, s.notes, SaveEvent(request, saved, now)), s.loading, false, None,
                None, s.viewNote, Some(Toast(Success, if request.UpdateRequest? then NoteUpdated else NoteCreated)),
                s.formResetKey + 1)
    case Failed =>
      s.(saving := false, errorMessage := Some(SaveFailed), toast := Some(Toast(Failure, SaveFailed)))
  }

  /** Saving keeps the list valid. */
  lemma AfterSaveKeepsValid(parse: DateParser, s: PageState, request: SaveRequest, reply: Reply<Note>, now: int)
    requires ListValid(parse, s)
    ensures ListValid(parse, AfterSave(parse, s, request, reply, now))
  {
    if reply.Ok? {
      ApplyChangeKeepsValid(parse, s.notes, SaveEvent(request, reply.value, now));
    }
  }

  /** After a successful update, and after a successful create of a note
      whose id the list did not hold yet, the list holds the note exactly as
      the server returned it. */
  lemma SavedNoteIsListed(parse: DateParser, s: PageState, request: SaveRequest, saved: Note, now: int)
    requires saved.id.Some?
    requires request.CreateRequest? ==> !HasId(s.notes, saved.id.value)
    ensures saved in AfterSave(parse, s, request, Ok(saved), now).notes
  {
    var r := AfterSave(parse, s, request, Ok(saved), now).notes;
    if request.UpdateRequest? {
      ApplyUpdated(parse, s.notes, saved, now);
    } else {
      ApplyCreated(parse, s.notes, saved, now);
    }
    assert saved in multiset(r);
  }

  /** The id `handleDeleteNote` sends `DELETE /notes/:id` for: only a note
      with a truthy id, and only when the user confirms. */
  function DeleteRequestFor(note: Note, confirmed: bool): (r: Option<int>)
    ensures r.Some? <==> TruthyId(note.id) && confirmed
    ensures r.Some? ==> note.id == r
  {
    if TruthyId(note.id) && confirmed then note.id else None
  }

  /** The state once `handleDeleteNote` has settled. Without a request
      nothing changes. On success every entry with the id leaves the list
      and the form and the detail view let go of the note if they showed it;
      on failure the delete error is shown. Saving is over either way. */
  function AfterDelete(parse: DateParser, s: PageState, note: Note, request: Option<int>, reply: Reply<()>, now: int): (r: PageState)
    requires request.Some? ==> note.id == request
    ensures r.loading == s.loading && r.formResetKey == s.formResetKey
    ensures request.None? ==> r == s
    ensures request.Some? ==> !r.saving
    ensures request.Some? && reply.Ok? ==>
      && r.notes == WithoutId(s.notes, request.value)
      && r.selectedNote == (if SameId(s.selectedNote, note) then None else s.selectedNote)
      && r.viewNote == (if SameId(s.viewNote, note) then None else s.viewNote)
      && r.errorMessage == None && r.toast == Some(Toast(Success, NoteDeleted))
    ensures request.Some? && reply.Failed? ==>
      && r.notes == s.notes && r.selectedNote == s.selectedNote && r.viewNote == s.viewNote
      && r.errorMessage == Some(DeleteFailed) && r.toast == Some(Toast(Failure, DeleteFailed))
  {
    match request
    case None => s
    case Some(id) =>
      match reply
      case Ok(_) =>
        var notes := ApplyChange(parse, s.notes, ChangeEvent(Deleted, IdOnly(id), now));
        PageState(notes, s.loading, false, None,
                  if SameId(s.selectedNote, note) then None else s.selectedNote,
                  if SameId(s.viewNote, note) then None else s.viewNote,
                  Some(Toast(Success, NoteDeleted)), s.formResetKey)
      case Failed =>
        s.(saving := false, errorMessage := Some(DeleteFailed), toast := Some(Toast(Failure, DeleteFailed)))
  }

  /** Deleting keeps the list valid, and after a successful delete no entry
      carries the id. */
  lemma AfterDeleteKeepsValid(parse: DateParser, s: PageState, note: Note, request: Option<int>, reply: Reply<()>, now: int)
    requires request.Some? ==> note.id == request
    requires ListValid(parse, s)
    ensures var r := AfterDelete(parse, s, note, request, reply, now);
      && ListValid(parse, r)
      && (request.Some? && reply.Ok? ==> !HasId(r.notes, request.value))
  {
    if request.Some? && reply.Ok? {
      ApplyChangeKeepsValid(parse, s.notes, ChangeEvent(Deleted, IdOnly(request.value), now));
    }
  }

  /** The page component. Its state hooks are the fields; each handler is a
      method whose new state is the matching step function of the old one. */
  class Page {
    /** `new Date(ds).getTime()`, as given by the environment. */
    const parse: DateParser
    var notes: seq<Note>
    var loading: bool
    var saving: bool
    var errorMessage: Option<Notice>
    var selectedNote: Option<Note>
    var viewNote: Option<Note>
    var toast: Option<Toast>
    var formResetKey: int

    /** The fields as one value. */
    function State(): PageState
      reads this
    {
      PageState(notes, loading, saving, errorMessage, selectedNote, viewNote, toast, formResetKey)
    }

    predicate Valid()
      reads this
    {
      ListValid(parse, State())
    }

    /** Mounting: the initial state. */
    constructor (parse: DateParser)
      ensures this.parse == parse && State() == Initial
      ensures Valid()
    {
      this.parse := parse;
      notes, loading, saving, errorMessage := [], true, false, None;
      selectedNote, viewNote, toast, formResetKey := None, None, None, 0;
    }

    /** Every state hook set at once to the fields of `s`. */
    method SetState(s: PageState)
      modifies this
      ensures State() == s
    {
      notes, loading, saving, errorMessage := s.notes, s.loading, s.saving, s.errorMessage;
      selectedNote, viewNote, toast, formResetKey := s.selectedNote, s.viewNote, s.toast, s.formResetKey;
    }

    /** The initial load. */
    method LoadFinished(fetched: Reply<seq<Note>>)
      modifies this
      ensures State() == AfterLoad(parse, old(State()), fetched)
      ensures fetched.Ok? && DistinctIds(fetched.value) ==> Valid()
      ensures fetched.Failed? && old(Valid()) ==> Valid()
    {
      if (fetched.Ok? && DistinctIds(fetched.value)) || (fetched.Failed? && Valid()) {
        AfterLoadValid(parse, State(), fetched);
      }
      SetState(AfterLoad(parse, State(), fetched));
    }

    /** `onmessage`. */
    method ReceiveChange(change: Option<ChangeEvent>)
      modifies this
      ensures State() == AfterChange(parse, old(State()), change)
      ensures old(Valid()) ==> Valid()
    {
      if Valid() {
        AfterChangeKeepsValid(parse, State(), change);
      }
      SetState(AfterChange(parse, State(), change));
    }

    /** `handleSaveNote(draft)`: sends the request for the draft, then
        settles with the server's `reply`. `now` is `Date.now()`. */
    method SaveNote(draft: Note, reply: Reply<Note>, now: int) returns (request: SaveRequest)
      modifies this
      ensures request == SaveRequestFor(draft)
      ensures State() == AfterSave(parse, old(State()), request, reply, now)
      ensures old(Valid()) ==> Valid()
    {
      request := SaveRequestFor(draft);
      if Valid() {
        AfterSaveKeepsValid(parse, State(), request, reply, now);
      }
      SetState(AfterSave(parse, State(), request, reply, now));
    }

    /** `handleDeleteNote(note)`: asks for confirmation, sends the request
        when there is one, then settles with the server's `reply`. */
    method DeleteNote(note: Note, confirmed: bool, reply: Reply<()>, now: int) returns (request: Option<int>)
      modifies this
      ensures request == DeleteRequestFor(note, confirmed)
      ensures State() == AfterDelete(parse, old(State()), note, request, reply, now)
      ensures old(Valid()) ==> Valid()
    {
      request := DeleteRequestFor(note, confirmed);
      if Valid() {
        AfterDeleteKeepsValid(parse, State(), note, request, reply, now);
      }
      SetState(AfterDelete(parse, State(), note, request, reply, now));
    }

    /** The timer `showToast` starts: when it fires the toast is hidden,
        whichever toast is showing by then. */
    method ToastTimerFired()
      modifies this`toast
      ensures toast == None
    {
      toast := None;
    }
  }
}
