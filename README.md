# Note cache and title editing of a small note-taking client

A model of the two stateful components of a note-taking web client whose
notes live in a remote `note` table (`id`, `title`, `content`):

- **App** (`src/App.tsx`) keeps the cached list of notes, the id of the
  selected note (`number | null`) and a preview flag. Its handlers update the
  cache first (retitle, rewrite the selected note's content, delete) and
  then send the write to the backend; a failed delete triggers a refetch.
  The editor pane shows the selected note's content, or `""`.
- **NoteList** (`src/NoteList.tsx`) renders one row per note, highlights the
  selected one, and keeps a small title-editing state: the pen button seeds
  an edit buffer and puts one note in edit mode, typing changes the buffer,
  and Enter hands the new title up and leaves edit mode. The trash button
  asks for confirmation before requesting a delete.

Files:

- `notes.dfy` (module `Notes`): the `Note` record, nullable ids, JavaScript
  truthiness of an id, the backend's order (ids strictly descending) and
  subsequences.
- `note_cache.dfy` (module `NoteCache`): the list transforms App applies
  (`map` for title and content, `filter` for delete, `find` for the editor)
  as functions, with lemmas about how they interact.
- `app.dfy` (module `App`): class `NoteApp` with fields `notes`,
  `currentNoteId` and `previewMode`; each handler is a method whose remote
  answers are parameters and whose result is the list of requests it sends.
- `note_list.dfy` (module `NoteList`): the editing state as a step function
  over events, a run over event sequences, class `TitleEditor` holding
  `editingTitle` and `selectEditTitleNoteId`, row rendering and clicks.

The id `0` is falsy in JavaScript. The content handler (`src/App.tsx:48`)
and the Enter handler (`src/NoteList.tsx:43`) therefore treat a note with
id `0` as "nothing selected" or "nothing being edited". The editor lookup
(`src/App.tsx:134`) and the row highlighting compare with `===` and do
treat `0` as an id. The model keeps both behaviours; `ZeroSelectionDropsEdits`
and `ZeroIdNeverCommits` state the consequences.

Failed title and content updates are only logged, never reverted
(`src/App.tsx:62`, `src/App.tsx:79-81`); only a failed delete refetches
(`src/App.tsx:96-100`).

The realtime channel listens to UPDATE events only (`src/App.tsx:18`). The
insert sent by `handleNewNote` (`src/App.tsx:37-45`) therefore does not
refresh the list by itself: a new note appears only after some later UPDATE
notification, a failed delete, or a reload. `NewNote` models this as written:
it sends the insert and changes no local state.

## Model

| member | source | states |
|---|---|---|
| `Notes.SubsequenceKeepsDescending` | src/App.tsx:28-35 | dropping notes from a list in the backend's order (ids strictly descending) keeps that order |
| `NoteCache.WithTitle` | src/App.tsx:67-71 | length and order kept; every note with the id gets the new title and keeps its id and content; every other note is unchanged |
| `NoteCache.WithContent` | src/App.tsx:51-55 | length and order kept; every note with the id gets the new content and keeps id and title; every other note is unchanged |
| `NoteCache.ContentChanged` | src/App.tsx:47-55 | a falsy selection (`null` or `0`) leaves the list unchanged; otherwise ids, order and all titles are kept, the selected note gets the content and no other note changes |
| `NoteCache.Without` | src/App.tsx:91 | a note is in the result exactly when it was in the list and has another id; the result is a subsequence (relative order kept) and only the notes with that id are dropped |
| `NoteCache.Find` | src/App.tsx:134 | no result exactly when no note has the id; otherwise the result is the first note of the list with that id |
| `NoteCache.EditorContent` | src/App.tsx:133-135 | `""` when nothing is selected or no note has the selected id; otherwise the content of the first note with the selected id |
| `NoteCache.EditorShowsShared` | src/App.tsx:134 | when every note carrying the selected id has the same content and one exists, the editor shows that content |
| `NoteCache.FindDistinct` | src/App.tsx:134 | with distinct ids, the lookup returns exactly the note carrying the id |
| `NoteCache.EditorShowsSelected` | src/App.tsx:133-135 | with distinct ids, the editor shows the selected note's content |
| `NoteCache.WithTitleKeepsOrder` | src/App.tsx:67-71 | a title change keeps every id, so the list stays in the backend's order |
| `NoteCache.WithTitleLastWins` | src/App.tsx:65-71 | two title changes of the same note: the second one wins |
| `NoteCache.FindAfterWithTitle` | src/App.tsx:67-71 | looking a note up after retitling it gives the old note with the new title, and nothing when it was absent |
| `NoteCache.WithTitleKeepsEditor` | src/App.tsx:67-71 | a title change never alters what the editor shows |
| `NoteCache.ContentChangedKeepsOrder` | src/App.tsx:51-55 | a content change keeps the list in the backend's order |
| `NoteCache.EditorShowsTyped` | src/App.tsx:47-55 | with a truthy selection present in the list, after an edit the editor shows exactly the typed text |
| `NoteCache.ZeroSelectionDropsEdits` | src/App.tsx:48 | with note `0` selected, an edit leaves the list unchanged and the editor keeps showing note 0's old content |
| `NoteCache.WithoutKeepsOrder` | src/App.tsx:91 | a delete keeps the list in the backend's order |
| `NoteCache.WithoutEmptiesEditor` | src/App.tsx:84-91 | after deleting the selected id the editor shows `""` |
| `NoteCache.WithoutKeepsOthers` | src/App.tsx:91 | deleting one id leaves the lookup of every other id unchanged |
| `App.NewNote` | src/App.tsx:37-45 | sends one insert of a new note titled `新規ノート` ("new note") with empty content and changes no local state |
| `App.NoteApp.constructor` | src/App.tsx:8-10 | initial state: no notes, no selection, preview off |
| `App.NoteApp.FetchNotes` | src/App.tsx:28-35 | a successful fetch replaces the whole list with the rows, a failed one leaves it; selection and preview unchanged; the list stays in the backend's order |
| `App.NoteApp.ContentChange` | src/App.tsx:47-63 | the list becomes `ContentChanged` of the old list; an update of the selected id is sent exactly when the selection is truthy; selection and preview unchanged |
| `App.NoteApp.ChangeTitle` | src/App.tsx:65-82 | the list becomes `WithTitle` of the old list and the title update is sent, whatever the backend answers; selection and preview unchanged |
| `App.NoteApp.DeleteNote` | src/App.tsx:84-101 | the selection is cleared exactly when it was the deleted id; on success the list is `Without` the id; on failure a fetch follows and its rows replace the list (or the filtered list stays if it fails too) |
| `App.NoteApp.Select` | src/App.tsx:117 | selecting a row sets the selection to its id and changes nothing else |
| `App.NoteApp.TogglePreview` | src/App.tsx:127 | flips the preview flag and changes nothing else |
| `App.NoteApp.Editor` | src/App.tsx:133-135 | the editor text is `""` without a selection or when the selected id is in no note; in a valid cache (ids distinct and descending) it is the selected note's content |
| `App.EditThenDelete` | src/App.tsx:47-101 | select any note and type: the editor then shows the typed text, or for id `0` the note's old content; delete it: the selection is cleared, the editor shows `""` and no note with that id remains |
| `NoteList.Step` | src/NoteList.tsx:39-59 | pen enters edit mode for that note and seeds the buffer with its title; typing changes only the buffer; a title change is emitted exactly on Enter with a truthy editing id, with that id and the buffer, and edit mode is left; any other key changes nothing |
| `NoteList.Run` | src/NoteList.tsx:36-59 | a sequence of events emits at most one title change per event |
| `NoteList.TypingEmitsNothing` | src/NoteList.tsx:36-47 | any amount of typing emits no title change, keeps the note in edit mode, and leaves the last text typed in the buffer |
| `NoteList.PenTypeEnter` | src/NoteList.tsx:36-59 | pen, typing, Enter on a note with a non-zero id emits exactly one title change, for that note, with the last text typed (or its old title), and leaves edit mode |
| `NoteList.ZeroIdNeverCommits` | src/NoteList.tsx:43 | on note `0` the same sequence emits nothing and the row stays in edit mode |
| `NoteList.EmittedIdsWereEdited` | src/NoteList.tsx:42-58 | every emitted title change is for a note whose pen was clicked, or that was in edit mode at the start |
| `NoteList.Render` | src/NoteList.tsx:27-51 | one row per note in list order, keyed by its id; a row is highlighted exactly when its id is the selected id; it shows the input holding the buffer exactly when its id is the editing id, and its title otherwise |
| `NoteList.AtMostOneInput` | src/NoteList.tsx:27-51 | with distinct ids, at most one row shows the title input and at most one row is highlighted |
| `NoteList.Click` | src/NoteList.tsx:27-75 | a click on the row body selects that note; the pen starts editing it; the trash button requests deleting that note's id exactly when the confirmation answers yes; none of the buttons or the input also selects |
| `NoteList.TitleEditor.constructor` | src/NoteList.tsx:21-24 | empty buffer, no note in edit mode |
| `NoteList.TitleEditor.ClickPen` | src/NoteList.tsx:55-59 | buffer seeded with the note's title, that note in edit mode |
| `NoteList.TitleEditor.Type` | src/NoteList.tsx:39 | only the buffer changes |
| `NoteList.TitleEditor.PressKey` | src/NoteList.tsx:42-47 | a title change (editing id, buffer) is returned exactly on Enter with a truthy editing id, which then leaves edit mode; the buffer is kept |

## Left out

- Supabase I/O: every query, insert, update and delete is replaced by its answer, passed in as a parameter (`Outcome`, `Fetched`), and by the `Request` the handler returns. The client setup is not part of this model.
- The realtime subscription on mount and its removal on unmount (`src/App.tsx:12-26`): channel I/O. Each UPDATE notification is a call of `FetchNotes`; inserts and deletes by other clients trigger none.
- The backend's ordering (`order("id", descending)`) and primary-key ids are taken as a precondition on fetched rows (`WellOrdered`); server-assigned ids of new notes are not modelled, since a new row reaches the list only through a fetch.
- Concurrency: handlers are modelled as running one after another. Interleaved in-flight requests, where the last answer wins, are not modelled.
- Failed writes are only logged (`console.error`); logging is not modelled, so the `response` parameters of `ContentChange`, `ChangeTitle` and `NewNote` have no effect on state.
- `window.confirm` is the `confirmed` argument of `Click`.
- `src/NoteEditor.tsx` (the textarea and the markdown preview) is presentation and not part of this model; the text it receives is `EditorContent`.
- The `Note` type's own file is not part of this model; its shape is taken from its use.
- App.NoteApp.ContentChange: may be called in preview mode; the source cannot, because the textarea is not rendered then (`src/NoteEditor.tsx:15-24`); the model does not forbid it.
- NoteList.TitleEditor.Type: may be called when no row shows the input (the source's input exists only while the editing id is in the list); the model does not forbid it.
- NoteList.TitleEditor.PressKey: same as `Type`: may be called when no row shows the input.
- JSX layout, CSS classes and icons.
