/** The App component: the cached note list, the selected note and the
    preview flag, and the handlers that update them. Each remote call is
    replaced by its outcome, passed in; each handler returns the requests it
    sends, in order. */
module App {
  import opened Notes
  import opened NoteCache

  /** The title every newly created note starts with ("new note"). */
  const NewNoteTitle: string := "新規ノート"

  /** The requests the component sends to the `note` table. */
  datatype Request =
    | SelectAll                                   // select("*").order("id", descending)
    | Insert(title: string, content: string)
    | UpdateTitle(id: int, title: string)         // update({ title }).eq("id", id)
    | UpdateContent(id: int, content: string)     // update({ content }).eq("id", id)
    | Delete(id: int)                             // delete().eq("id", id)

  /** What the backend answered to a write. */
  datatype Outcome = Ok | Failed

  /** What the backend answered to `SelectAll`. */
  datatype Fetched = Rows(rows: seq<Note>) | FetchFailed

  /** The rows a successful fetch may carry: the table's primary key makes
      ids unique and the query orders them descending. */
  ghost predicate WellOrdered(f: Fetched)
  {
    f.Rows? ==> Descending(f.rows)
  }

  /** `handleNewNote`: sends the insert and leaves the local state alone;
      the new row reaches the list only through a later fetch. A failed
      insert is only logged. */
  method NewNote(response: Outcome) returns (sent: Request)
    ensures sent == Insert(NewNoteTitle, "")
  {
    sent := Insert(NewNoteTitle, "");
  }

  class NoteApp {
    var notes: seq<Note>
    var currentNoteId: Option<int>
    var previewMode: bool

    /** The cache stays in the backend's order. */
    ghost predicate Valid()
      reads this
    {
      Descending(notes)
    }

    /** The first render: no notes, nothing selected, editing mode. */
    constructor ()
      ensures Valid()
      ensures notes == [] && currentNoteId == None && !previewMode
    {
      notes := [];
      currentNoteId := None;
      previewMode := false;
    }

    /** `fetchNotes`: a successful fetch replaces the whole list; a failed
        one is logged and leaves it. Runs on mount and on every UPDATE
        notification. */
    method FetchNotes(response: Fetched) returns (sent: Request)
      requires Valid() && WellOrdered(response)
      modifies this
      ensures Valid()
      ensures sent == SelectAll
      ensures notes == (if response.Rows? then response.rows else old(notes))
      ensures currentNoteId == old(currentNoteId) && previewMode == old(previewMode)
    {
      sent := SelectAll;
      if response.Rows? {
        notes := response.rows;
      }
    }

    /** `handleContentChange`: with a falsy selection (`null` or `0`)
        nothing happens and nothing is sent; otherwise the selected note's
        content is replaced locally, then the update is sent. A failed
        update is only logged. */
    method ContentChange(content: string, response: Outcome) returns (sent: seq<Request>)
      requires Valid()
      modifies this
      ensures Valid()
      ensures notes == ContentChanged(old(notes), currentNoteId, content)
      ensures sent == if Truthy(currentNoteId) then [UpdateContent(currentNoteId.value, content)] else []
      ensures currentNoteId == old(currentNoteId) && previewMode == old(previewMode)
    {
      ContentChangedKeepsOrder(notes, currentNoteId, content);
      if !Truthy(currentNoteId) {
        return [];
      }
      notes := ContentChanged(notes, currentNoteId, content);
      sent := [UpdateContent(currentNoteId.value, content)];
    }

    /** `handleChangeTitle`: retitles the note locally, then sends the
        update. A failed update is only logged. */
    method ChangeTitle(noteId: int, title: string, response: Outcome) returns (sent: Request)
      requires Valid()
      modifies this
      ensures Valid()
      ensures notes == WithTitle(old(notes), noteId, title)
      ensures sent == UpdateTitle(noteId, title)
      ensures currentNoteId == old(currentNoteId) && previewMode == old(previewMode)
    {
      WithTitleKeepsOrder(notes, noteId, title);
      notes := WithTitle(notes, noteId, title);
      sent := UpdateTitle(noteId, title);
    }

    /** `handleDeleteNote`: clears the selection when it is the deleted id,
        removes the note locally, then sends the delete. When the delete
        fails, the list is fetched again (`refetch` is that fetch's answer). */
    method DeleteNote(noteId: int, response: Outcome, refetch: Fetched) returns (sent: seq<Request>)
      requires Valid() && WellOrdered(refetch)
      modifies this
      ensures Valid()
      ensures currentNoteId == (if old(currentNoteId) == Some(noteId) then None else old(currentNoteId))
      ensures response == Ok ==> notes == Without(old(notes), noteId) && sent == [Delete(noteId)]
      ensures response == Failed ==>
                sent == [Delete(noteId), SelectAll] &&
                notes == (if refetch.Rows? then refetch.rows else Without(old(notes), noteId))
      ensures previewMode == old(previewMode)
    {
      if currentNoteId == Some(noteId) {
        currentNoteId := None;
      }
      WithoutKeepsOrder(notes, noteId);
      notes := Without(notes, noteId);
      sent := [Delete(noteId)];
      if response == Failed {
        var again := FetchNotes(refetch);
        sent := sent + [again];
      }
    }

    /** A click on a row of the list selects that note. */
    method Select(note: Note)
      modifies this
      ensures currentNoteId == Some(note.id)
      ensures notes == old(notes) && previewMode == old(previewMode)
    {
      currentNoteId := Some(note.id);
    }

    /** The Preview/Edit button flips the preview flag and nothing else. */
    method TogglePreview()
      modifies this
      ensures previewMode == !old(previewMode)
      ensures notes == old(notes) && currentNoteId == old(currentNoteId)
    {
      previewMode := !previewMode;
    }

    /** The text handed to the editor pane. */
    function Editor(): (text: string)
      reads this
      ensures !currentNoteId.Some? ==> text == ""
      ensures currentNoteId.Some? && (forall i :: 0 <= i < |notes| ==> notes[i].id != currentNoteId.value) ==> text == ""
      ensures text != "" ==> exists i :: 0 <= i < |notes| && Some(notes[i].id) == currentNoteId && notes[i].content == text
      ensures Valid() ==> forall i :: 0 <= i < |notes| && currentNoteId == Some(notes[i].id) ==> text == notes[i].content
    {
      EditorContent(notes, currentNoteId)
    }
  }

  /** A client of the component: select a note and type into the editor,
      which then shows (`shown`) the typed text, or for the falsy id `0` the
      note's old content; delete the note and the selection is gone, the
      editor is empty and no note with that id remains. */
  method EditThenDelete(app: NoteApp, i: int, typed: string) returns (shown: string)
    requires app.Valid() && 0 <= i < |app.notes|
    modifies app
    ensures shown == if old(app.notes[i].id) != 0 then typed else old(app.notes[i].content)
    ensures app.Valid() && app.currentNoteId == None && app.Editor() == ""
    ensures forall n :: n in app.notes ==> n.id != old(app.notes[i].id)
  {
    var note := app.notes[i];
    app.Select(note);
    DescendingIsDistinct(app.notes);
    var sent := app.ContentChange(typed, Ok);
    if note.id != 0 {
      assert sent == [UpdateContent(note.id, typed)];
      EditorShowsTyped(old(app.notes), Some(note.id), typed);
    } else {
      assert sent == [];
      ZeroSelectionDropsEdits(old(app.notes), i, typed);
    }
    shown := app.Editor();
    sent := app.DeleteNote(note.id, Ok, FetchFailed);
  }
}
