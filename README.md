# notex in Dafny

A model of the notes application notex: an Express API over a PostgreSQL
`notes` table that tells every open server-sent-events stream about each
change, and a Next.js page that loads the notes, merges change events into
its newest-first list, and edits notes in a form.

The model has these modules, one per concern of the program:

- `Wrappers` (`wrappers.dfy`): the optional value used for `undefined`/`null`.
- `JsString` (`js_string.dfy`): ECMAScript `String.prototype.trim` over the
  exact WhiteSpace and LineTerminator set of ECMA-262, and string truthiness.
- `Types` (`types.dfy`): the client's `Note` record.
- `Reconcile` (`reconcile.dfy`): `getSortTimestamp`,
  `sortNotesByLatestUpdated` (a stable newest-first insertion sort) and
  `applyChange`, as functions with lemmas: permutation, order, stability,
  uniqueness of the stable sort, the effect of each event kind, idempotence
  of `created` and `updated`, and preservation of distinct ids and order.
- `NotesPage` (`page.dfy`): the page component as a class whose fields are
  its state hooks. Each handler (initial load, `onmessage`,
  `handleSaveNote`, `handleDeleteNote`, the toast timer) is a method whose
  new state is a step function of the old one. The step functions carry
  the handler's promises, and lemmas show that the list stays newest first
  with distinct ids.
- `NotesGrid` (`notes_grid.dfy`): `computeShadow` with `parseInt(…, 16)`,
  `stripHtml` with the regular expression `/<[^>]+>/g`, and
  `shouldShowReadMore`.
- `Form` (`note_form.dfy`): the note editor as a class over `note`,
  `draft` and `titleError`, with the palette and its shadows.
- `Routes` (`routes.dfy`): the POST, PUT and DELETE rules. Each is a
  function of the request and an abstract store (a map from id to row and
  the next id of the `SERIAL` sequence). It returns the response, the new
  store and the broadcast event.
- `Sse` (`sse.dfy`): the `sseClients` registry as a class over a set of
  subscriber objects, each an append-only log of what was written to it,
  with subscribe, close, the keep-alive tick and the broadcast loop. It also
  has the frame format with its parser.
- `Server` (`server.dfy`): the process as a class holding the store and
  the registry. Each route method applies its rule and broadcasts the
  rule's event.

Two behaviours of the code are worth stating on their own:

- A PUT trims a given name and does not check it, so a blank name is
  stored as "" (`Routes.PutMayStoreBlankName`).
- The server sends named `noteChange` events, which an `onmessage` handler
  does not receive, and deleted events carry the id as a string, which the
  client's `!==` never matches against a numeric id. The two sides are
  therefore modelled separately, with their own id types.

## Model

| member | source | states |
|---|---|---|
| JsString.TrimEmptyIffBlank | frontend/src/components/NoteForm.tsx:100-104 | `trim` yields "" exactly when every character is ECMAScript white space |
| JsString.TrimIdempotent | frontend/src/app/page.tsx:173 | trimming an already trimmed title changes nothing |
| JsString.TrimIsSlice | frontend/src/components/NotesGrid.tsx:48 | `trim` returns the contiguous slice of its input after the leading white space |
| JsString.TrimCutsOnlyWhiteSpace | frontend/src/components/NotesGrid.tsx:48 | everything `trim` drops from either end is white space |
| JsString.TrimHasNoMargins | frontend/src/components/NotesGrid.tsx:48 | the result of `trim` neither starts nor ends with white space |
| Reconcile.TimestampChoice | frontend/src/app/page.tsx:27-32 | `updated_at` decides when truthy, even when it does not parse (then 0); otherwise `created_at`; 0 when neither is truthy |
| Reconcile.SortByLatest | frontend/src/app/page.tsx:34-38 | the result is a permutation of the input, newest first, and stable for equal timestamps |
| Reconcile.StableSortIsUnique | frontend/src/app/page.tsx:34-38 | a list is a stable newest-first sort of `s` exactly when it equals the sort of `s` |
| Reconcile.SortOfSorted | frontend/src/app/page.tsx:34-38 | a list already newest first is returned unchanged |
| Reconcile.SortIdempotent | frontend/src/app/page.tsx:34-38 | sorting twice is sorting once |
| Reconcile.SortKeepsDistinctIds | frontend/src/app/page.tsx:34-38 | sorting a list with distinct ids keeps them distinct |
| Reconcile.FindIndex | frontend/src/app/page.tsx:133 | `findIndex`: -1 exactly when no entry has the id, otherwise the first index holding it |
| Reconcile.WithoutId | frontend/src/app/page.tsx:142 | `filter`: the survivors are exactly the entries without the id, none has it, and an absent id changes nothing |
| Reconcile.WithoutIdCounts | frontend/src/app/page.tsx:142 | `filter` keeps each entry without the id as many times as it occurs and drops every entry with it |
| Reconcile.WithoutIdKeepsOrder | frontend/src/app/page.tsx:142 | the survivors keep their relative order |
| Reconcile.ApplyChange | frontend/src/app/page.tsx:122-151 | created and updated results are newest first; the result is at most one longer and holds only old entries and the event's note |
| Reconcile.ApplyCreated | frontend/src/app/page.tsx:125-148 | `created` with a present id gives the re-sorted current list; with a new id it gives the stable sort of `current + [note]`, one longer |
| Reconcile.ApplyCreatedIdempotent | frontend/src/app/page.tsx:125-148 | applying a `created` event twice equals applying it once |
| Reconcile.EchoedCreateIsNoOp | frontend/src/app/page.tsx:125-148 | the echo of a creation already in a newest-first list leaves it exactly as it was |
| Reconcile.ApplyUpdated | frontend/src/app/page.tsx:131-148 | `updated` with a present id replaces the first entry with that id and keeps the length, then sorts; with an absent id it appends, then sorts |
| Reconcile.UpdateOfListed | frontend/src/app/page.tsx:131-148 | an `updated` event whose note is already an entry of a sorted list with distinct ids leaves the list unchanged |
| Reconcile.ApplyUpdatedIdempotent | frontend/src/app/page.tsx:131-148 | on a list with distinct ids, applying an `updated` event twice equals applying it once |
| Reconcile.ApplyDeleted | frontend/src/app/page.tsx:140-143 | `deleted` removes every entry with the id, keeps every other entry as often as it occurs and in its order, and does not sort |
| Reconcile.ApplyWithoutId | frontend/src/app/page.tsx:122-151 | an event without an id gives the sorted current list for created/updated and the current list for deleted |
| Reconcile.ApplyChangeKeepsDistinctIds | frontend/src/app/page.tsx:122-151 | distinct ids in, distinct ids out, for every event kind |
| Reconcile.ApplyChangeKeepsSorted | frontend/src/app/page.tsx:122-151 | a newest-first list stays newest first under every event kind |
| Reconcile.ApplyAllKeepsSorted | frontend/src/app/page.tsx:97-108 | any series of events keeps a newest-first list newest first |
| Reconcile.ApplyAllKeepsDistinctIds | frontend/src/app/page.tsx:97-108 | any series of events keeps the ids distinct |
| NotesPage.Payload | frontend/src/app/page.tsx:171-178 | the payload's name is the trimmed draft title (and is trimmed); description and colour are always present |
| NotesPage.PayloadKeepsDraft | frontend/src/app/page.tsx:171-178 | id and both dates come from the draft; a missing description becomes "" and a missing colour `#ffffff`; present ones are kept |
| NotesPage.PayloadOfSubmittedDraft | frontend/src/app/page.tsx:171-178 | a draft as the form submits it is sent unchanged |
| NotesPage.SaveRequestFor | frontend/src/app/page.tsx:170-199 | PUT to the draft's id exactly when the id is truthy, POST otherwise, both with the payload |
| NotesPage.UpdateIffEditMode | frontend/src/app/page.tsx:170-180 | the form's draft for a note is saved by PUT exactly when that note has a truthy id |
| NotesPage.IdOnly | frontend/src/app/page.tsx:238 | the placeholder note of a delete event carries exactly the deleted id |
| NotesPage.ApplyChangeKeepsValid | frontend/src/app/page.tsx:122-151 | every event keeps the page's list newest first with distinct ids |
| NotesPage.AfterLoad | frontend/src/app/page.tsx:53-75 | loading ends; on success the list is the stable newest-first sort of the fetched notes; on failure the list stays and the load error is shown in the banner and a toast |
| NotesPage.AfterLoadValid | frontend/src/app/page.tsx:53-75 | loading notes with distinct ids gives a valid list; a failed load keeps a valid one |
| NotesPage.AfterChange | frontend/src/app/page.tsx:97-108 | an event that parsed is applied to the list and nothing else changes; one that did not parse is dropped |
| NotesPage.AfterChangeKeepsValid | frontend/src/app/page.tsx:97-108 | receiving an event keeps the list valid |
| NotesPage.SaveEvent | frontend/src/app/page.tsx:185-207 | the merged event is `updated` exactly after a PUT, carries the server's note and `Date.now()` |
| NotesPage.AfterSave | frontend/src/app/page.tsx:165-222 | on success the server's note is merged, the form closes and remounts and the success toast names the kind; on failure only the save error is shown; saving ends either way |
| NotesPage.AfterSaveKeepsValid | frontend/src/app/page.tsx:165-222 | saving keeps the list valid |
| NotesPage.SavedNoteIsListed | frontend/src/app/page.tsx:180-214 | after a successful update, or a create of an id not yet listed, the list holds the server's note |
| NotesPage.DeleteRequestFor | frontend/src/app/page.tsx:225-232 | a DELETE is sent exactly for a truthy id that the user confirms, and for that id |
| NotesPage.AfterDelete | frontend/src/app/page.tsx:225-253 | without a request nothing changes; on success the id leaves the list and the form and the detail view drop the note if they showed it; on failure the delete error is shown |
| NotesPage.AfterDeleteKeepsValid | frontend/src/app/page.tsx:225-253 | deleting keeps the list valid, and after a successful delete no entry has the id |
| NotesPage.Page.constructor | frontend/src/app/page.tsx:43-50 | the page starts with no notes, loading, nothing selected, no toast, reset key 0 |
| NotesPage.Page.LoadFinished | frontend/src/app/page.tsx:53-75 | the new state is the load step of the old one; the list is valid after a load of distinct ids, and a failed load keeps it valid |
| NotesPage.Page.ReceiveChange | frontend/src/app/page.tsx:97-108 | the new state is the change step of the old one, and validity is kept |
| NotesPage.Page.SaveNote | frontend/src/app/page.tsx:165-222 | it sends the request for the draft; the new state is the save step of the old one, and validity is kept |
| NotesPage.Page.DeleteNote | frontend/src/app/page.tsx:225-253 | it sends the request for the note; the new state is the delete step of the old one, and validity is kept |
| NotesPage.Page.ToastTimerFired | frontend/src/app/page.tsx:154-157 | the timer hides the toast |
| NotesGrid.ParseTwoHexDigits | frontend/src/components/NotesGrid.tsx:21-23 | `parseInt` of two hex digits is their value, between 0 and 255 |
| NotesGrid.ShadowDefault | frontend/src/components/NotesGrid.tsx:15-19 | an absent or empty colour, or one whose remainder after one `#` is not six characters, gets the default shadow |
| NotesGrid.ShadowOfHashColor | frontend/src/components/NotesGrid.tsx:18 | exactly one leading `#` is stripped, also from the colour `#` alone |
| NotesGrid.ShadowOfSixHexDigits | frontend/src/components/NotesGrid.tsx:21-31 | for six hex digits the channels lie in 0..255, and the shadow is light exactly when `299r + 587g + 114b < 140000` |
| NotesGrid.ShadowOfBlackAndWhite | frontend/src/components/NotesGrid.tsx:15-32 | `#000000` gets the light shadow and `#ffffff` the dark one |
| NotesGrid.TagLength | frontend/src/components/NotesGrid.tsx:48 | a tag is `<`, at least one character other than `>`, then the first `>`, and a tag at the start is always found |
| NotesGrid.RemoveTags | frontend/src/components/NotesGrid.tsx:48 | removing tags never lengthens the text and adds no character |
| NotesGrid.RemoveTagsIsTagFree | frontend/src/components/NotesGrid.tsx:48 | after the replacement no tag is left |
| NotesGrid.RemoveTagsOfTagFree | frontend/src/components/NotesGrid.tsx:48 | text without tags is left as it is |
| NotesGrid.RemoveTagsIdempotent | frontend/src/components/NotesGrid.tsx:48 | removing tags twice is removing them once |
| NotesGrid.RemoveTagsWithoutAngle | frontend/src/components/NotesGrid.tsx:48 | text without `<` is left as it is |
| NotesGrid.StripHtmlShortens | frontend/src/components/NotesGrid.tsx:46-49 | the result is never longer than the input; an input without `<` is only trimmed |
| NotesGrid.StripHtmlIsPlain | frontend/src/components/NotesGrid.tsx:46-49 | the result has no tag and no white space at either end |
| NotesGrid.ReadMoreThresholdHolds | frontend/src/components/NotesGrid.tsx:51-54 | "read more" never shows for a description of at most 160 characters, and for one without markup shows exactly when its trimmed form is longer than 160 |
| Form.SyncedDraft | frontend/src/components/NoteForm.tsx:50-66 | the synced draft always has a description and a colour; without a note it is the empty draft: no id, an empty title, an empty description, white, and no dates |
| Form.SyncedDraftKeepsNote | frontend/src/components/NoteForm.tsx:50-59 | syncing copies id, name and dates, keeps a present description and colour, and defaults missing ones to "" and `#ffffff` |
| Form.SyncedDraftIdempotent | frontend/src/components/NoteForm.tsx:50-66 | syncing the form's own draft back changes nothing |
| Form.FinalDraft | frontend/src/components/NoteForm.tsx:99-111 | nothing is saved exactly when the title is blank; otherwise the draft with only its name trimmed is saved |
| Form.PaletteDistinct | frontend/src/components/NoteForm.tsx:20-30 | the palette colours are pairwise distinct |
| Form.SelectedPillAlone | frontend/src/components/NoteForm.tsx:161-170 | after a pill is picked, exactly that pill carries the `active` class |
| Form.EightDigitPaletteShadows | frontend/src/components/NoteForm.tsx:23-27 | every eight-digit palette colour gets the default shadow |
| Form.PlainPaletteShadows | frontend/src/components/NoteForm.tsx:21-22 | white and light gray get the dark shadow |
| Form.LightGrayShadow | frontend/src/components/NoteForm.tsx:22 | `#f5f5f5` is bright and gets the dark shadow |
| Form.NoteForm.constructor | frontend/src/components/NoteForm.tsx:39-68 | mounting with a note leaves the synced draft and no title error |
| Form.NoteForm.ReceiveNote | frontend/src/components/NoteForm.tsx:50-68 | a new note prop replaces the draft by its sync and clears the title error |
| Form.NoteForm.TitleChange | frontend/src/components/NoteForm.tsx:83-88 | only the title changes, and a shown error is cleared |
| Form.NoteForm.DescriptionChange | frontend/src/components/NoteForm.tsx:91-93 | only the description changes |
| Form.NoteForm.ColorSelect | frontend/src/components/NoteForm.tsx:95-97 | only the colour changes |
| Form.NoteForm.Submit | frontend/src/components/NoteForm.tsx:99-112 | it hands on the final draft; a blank title sets "Title is required." and nothing else changes |
| Form.NoteForm.Delete | frontend/src/components/NoteForm.tsx:114-119 | the note is handed on exactly in edit mode with the user's confirmation |
| Routes.ParseRowId | backend/routes.js:130-136 | an id that the cast accepts lies in the 32-bit range assumed for the id column |
| Routes.Decimal | frontend/src/lib/api.ts:34-35 | the decimal form of an id is non-empty digits that spell the id |
| Routes.ParseRowIdOfDecimal | frontend/src/lib/api.ts:34-35 | the id the browser puts in the path is read back by the server as the same id |
| Routes.OrDefault | backend/routes.js:95 | the falsy-default of the insert keeps a non-empty string and replaces anything falsy by the default |
| Routes.HandlePost | backend/routes.js:82-114 | 400 exactly for a missing or blank name, 500 for a failing query with the driver message, and neither changes the store or broadcasts; otherwise the trimmed, defaulted row under the next id is stored, broadcast as `created` and returned with 201 |
| Routes.PostInsertsFreshRow | backend/routes.js:91-98 | a create keeps the table valid, uses an id not yet present, keeps every earlier row, and stores a trimmed non-empty name |
| Routes.Coalesce | backend/routes.js:126-128 | a given string replaces the column; `null` and a missing member keep it |
| Routes.Merge | backend/routes.js:123-137 | the update keeps id and `created_at`, sets `updated_at` to the database clock, trims a given name and keeps every field the body leaves out |
| Routes.HandlePut | backend/routes.js:118-158 | 500 for a `null` name, an id the cast refuses or a failing query; 404 for an absent id; neither changes the store or broadcasts; otherwise only that row is merged, broadcast as `updated` and returned with 200 |
| Routes.PutKeepsOtherRows | backend/routes.js:123-142 | an update keeps the table valid, the set of ids and the sequence, and every other row |
| Routes.PutWithoutFieldsOnlyTouches | backend/routes.js:123-138 | an update with no fields only moves `updated_at` |
| Routes.PutMayStoreBlankName | backend/routes.js:133 | an update with a blank name succeeds and stores "" |
| Routes.HandleDelete | backend/routes.js:161-187 | 500 for an id the cast refuses or a failing query, 404 for an absent id, neither changing the store or broadcasting; otherwise the row is removed, `deleted` is broadcast with the raw parameter string and 200 is answered |
| Routes.DeleteRemovesOnlyItsRow | backend/routes.js:165-172 | a delete keeps the table valid, removes exactly the named row, and never hands an id back to the sequence |
| Routes.BroadcastIffSuccess | backend/routes.js:98-181 | each route broadcasts exactly when it succeeds, and broadcasts the kind of change it made |
| Sse.FrameData | backend/routes.js:12 | a frame is the prefix, the JSON and the blank line |
| Sse.FrameRoundTrip | backend/routes.js:12 | reading a frame gives back exactly the JSON, and only that frame reads as that JSON |
| Sse.CommentsAreNotFrames | backend/routes.js:29-36 | the connected and keep-alive comments are not change frames |
| Sse.Subscriber.Write | backend/routes.js:14 | a write appends its chunk to the response |
| Sse.Registry.constructor | backend/routes.js:9 | the registry starts empty |
| Sse.Registry.Subscribe | backend/routes.js:28-37 | the connected comment is the new response's first write, the response joins the set, its keep-alive starts |
| Sse.Registry.Tick | backend/routes.js:35-37 | the keep-alive comment is appended to that response |
| Sse.Registry.Close | backend/routes.js:40-43 | the keep-alive stops and the response leaves the set; an absent one removes nothing |
| Sse.Registry.BroadcastNoteChange | backend/routes.js:11-16 | the frame of the serialised event is appended exactly once to every registered response; the set and the keep-alives do not change |
| Server.Service.constructor | backend/routes.js:9 | the process starts with an empty table and no client |
| Server.Service.Post | backend/routes.js:82-114 | the store becomes what the POST rule gives, and its event reaches every registered client once |
| Server.Service.Put | backend/routes.js:118-158 | the store becomes what the PUT rule gives, and its event reaches every registered client once |
| Server.Service.Delete | backend/routes.js:161-187 | the store becomes what the DELETE rule gives, and its event reaches every registered client once |

## Left out

- The GET routes (all notes, one note) and the SQL ordering of GET /notes: they change nothing.
- Date parsing (`new Date(s).getTime()`) is the parameter `parse` of the page and of the reconciliation functions. `toLocaleString` is not modelled.
- `JSON.stringify` of a change event is the parameter `stringify` of the registry. `JSON.parse` in `onmessage` is reduced to "parsed to an event or not" (`Option<ChangeEvent>`).
- The database is an abstract map with a counter for the next id. The table's schema is not part of the repository: that the id is a `SERIAL` column and that it is a 32-bit `integer` (the range `Routes.ParseRowId` accepts) are assumptions of the model. `NOW()` and `Date.now()` are parameters. Query failures are reduced to `DbHealth`, and pg's conversion of `undefined` to `null` is folded into `Coalesce`.
- Routes.ParseRowId: PostgreSQL 16's extra integer forms (underscores, `0x`/`0o`/`0b` prefixes) are not accepted by the model.
- Request bodies whose fields are JSON values other than strings and `null` (numbers, objects) are not modelled. On a POST a truthy non-string name makes `name.trim()` throw outside the `try`.
- Timers: the 25-second keep-alive interval is the explicit `Sse.Registry.Tick`, and the 2.5-second toast timer is `NotesPage.Page.ToastTimerFired`. When the timers fire is not modelled.
- Event-loop interleaving of requests, write failures and backpressure on `res.write`, and response headers are not modelled.
- React rendering, Quill, `EventSource` connection handling, `window.confirm` (a boolean input), the `cancelled` flag of the load effect, console logging and the buttons disabled while saving.
- NotesPage.Page.SaveNote and NotesPage.Page.DeleteNote model each handler as one step from before the request to after it settles. The intermediate `saving = true` while the request is pending is not a separate state.
- The handlers `handleNewNote`, `handleCancelForm`, `handleEditFromGrid` and the view handlers only set `selectedNote` or `viewNote`. They are not modelled.
- An end-to-end composition of a server broadcast with the client's `applyChange`, because of the named-event and string-id mismatches described above.
- String lengths are counted in code points, not UTF-16 code units. The two differ only outside the Basic Multilingual Plane, which matters for the 160-character "read more" threshold.
- `parseInt`'s prefix parsing of partly non-hex channels is modelled (`NotesGrid.ParseIntHex`), but the named lemmas about shadows assume six hex digits.
