/** The NoteList component: one row per note, the title-editing state
    (`editingTitle`, `selectEditTitleNoteId`) and what each click and key
    press in a row does. */
module NoteList {
  import opened Notes

  /** The component's own state: the edit buffer and the note being
      retitled, if any. */
  datatype EditState = EditState(buffer: string, editingId: Option<int>)

  /** The state on first render. */
  const Initial: EditState := EditState("", None)

  /** The events the title-editing state reacts to. */
  datatype Event =
    | PenClick(note: Note)      // the pen button of a row
    | Typed(text: string)       // the title input's new value
    | KeyDown(key: string)      // a key pressed in the title input

  /** `handleChangeTitle(id, title)`, as passed up to the App component. */
  datatype TitleChange = TitleChange(id: int, title: string)

  datatype StepResult = StepResult(next: EditState, emitted: Option<TitleChange>)

  /** One event. Pen seeds the buffer and enters edit mode for that note;
      typing only changes the buffer; Enter with a truthy editing id emits
      the change and leaves edit mode (the buffer is kept); every other key,
      and Enter while the editing id is `0`, changes nothing. */
  function Step(s: EditState, e: Event): (r: StepResult)
    ensures r.emitted.Some? <==> e == KeyDown("Enter") && Truthy(s.editingId)
    ensures r.emitted.Some? ==>
              r.emitted.value == TitleChange(s.editingId.value, s.buffer) &&
              r.next == s.(editingId := None)
    ensures e.PenClick? ==> r.next == EditState(e.note.title, Some(e.note.id))
    ensures e.Typed? ==> r.next == s.(buffer := e.text)
    ensures e.KeyDown? && r.emitted.None? ==> r.next == s
  {
    match e
    case PenClick(note) => StepResult(EditState(note.title, Some(note.id)), None)
    case Typed(text) => StepResult(s.(buffer := text), None)
    case KeyDown(key) =>
      if key == "Enter" && Truthy(s.editingId) then
        StepResult(s.(editingId := None), Some(TitleChange(s.editingId.value, s.buffer)))
      else
        StepResult(s, None)
  }

  datatype RunResult = RunResult(last: EditState, emitted: seq<TitleChange>)

  /** A sequence of events, with every title change emitted along the way. */
  function Run(s: EditState, events: seq<Event>): (r: RunResult)
    ensures |r.emitted| <= |events|
    decreases events
  {
    if events == [] then RunResult(s, [])
    else
      var step := Step(s, events[0]);
      var rest := Run(step.next, events[1..]);
      RunResult(rest.last, (if step.emitted.Some? then [step.emitted.value] else []) + rest.emitted)
  }

  /** Running two sequences of events one after the other. */
  lemma {:induction false} RunAppend(s: EditState, a: seq<Event>, b: seq<Event>)
    ensures Run(s, a + b).last == Run(Run(s, a).last, b).last
    ensures Run(s, a + b).emitted == Run(s, a).emitted + Run(Run(s, a).last, b).emitted
    decreases a
  {
    if a != [] {
      assert (a + b)[0] == a[0] && (a + b)[1..] == a[1..] + b;
      RunAppend(Step(s, a[0]).next, a[1..], b);
    } else {
      assert a + b == b;
    }
  }

  ghost predicate AllTyping(events: seq<Event>)
  {
    forall i :: 0 <= i < |events| ==> events[i].Typed?
  }

  /** The buffer after some typing: the last text typed, if any. */
  function LastTyped(buffer: string, events: seq<Event>): string
    requires AllTyping(events)
  {
    if events == [] then buffer else events[|events| - 1].text
  }

  /** Typing changes only the buffer and never emits a title change. */
  lemma {:induction false} TypingEmitsNothing(s: EditState, events: seq<Event>)
    requires AllTyping(events)
    ensures Run(s, events).emitted == []
    ensures Run(s, events).last == EditState(LastTyped(s.buffer, events), s.editingId)
    decreases events
  {
    if events != [] {
      TypingEmitsNothing(Step(s, events[0]).next, events[1..]);
      if |events| > 1 {
        assert events[1..][|events[1..]| - 1] == events[|events| - 1];
      }
    }
  }

  /** Pen, any amount of typing, then Enter: exactly one title change, for
      the note whose pen was clicked, carrying what the buffer holds, and
      edit mode is left. */
  lemma PenTypeEnter(s: EditState, note: Note, typing: seq<Event>)
    requires AllTyping(typing)
    requires note.id != 0
    ensures Run(s, [PenClick(note)] + typing + [KeyDown("Enter")]) ==
            RunResult(EditState(LastTyped(note.title, typing), None),
                      [TitleChange(note.id, LastTyped(note.title, typing))])
  {
    var seeded := EditState(note.title, Some(note.id));
    RunAppend(s, [PenClick(note)], typing);
    RunAppend(s, [PenClick(note)] + typing, [KeyDown("Enter")]);
    TypingEmitsNothing(seeded, typing);
    assert Run(s, [PenClick(note)]) == RunResult(seeded, []);
  }

  /** The id `0` quirk: after a pen click on note 0, Enter emits nothing
      and the row stays in edit mode. */
  lemma ZeroIdNeverCommits(s: EditState, note: Note, typing: seq<Event>)
    requires AllTyping(typing)
    requires note.id == 0
    ensures Run(s, [PenClick(note)] + typing + [KeyDown("Enter")]) ==
            RunResult(EditState(LastTyped(note.title, typing), Some(0)), [])
  {
    var seeded := EditState(note.title, Some(note.id));
    RunAppend(s, [PenClick(note)], typing);
    RunAppend(s, [PenClick(note)] + typing, [KeyDown("Enter")]);
    TypingEmitsNothing(seeded, typing);
    assert Run(s, [PenClick(note)]) == RunResult(seeded, []);
  }

  /** Every title change a run emits is for a note whose pen was clicked
      during that run, or for the note being edited when it started. */
  lemma {:induction false} EmittedIdsWereEdited(s: EditState, events: seq<Event>)
    ensures forall c :: c in Run(s, events).emitted ==>
              Some(c.id) == s.editingId || exists i :: 0 <= i < |events| && events[i].PenClick? && events[i].note.id == c.id
    decreases events
  {
    if events != [] {
      var step := Step(s, events[0]);
      EmittedIdsWereEdited(step.next, events[1..]);
      forall c | c in Run(s, events).emitted
        ensures Some(c.id) == s.editingId || exists i :: 0 <= i < |events| && events[i].PenClick? && events[i].note.id == c.id
      {
        var rest := Run(step.next, events[1..]);
        if c in rest.emitted {
          if Some(c.id) == step.next.editingId {
            if events[0].PenClick? {
              assert events[0].PenClick? && events[0].note.id == c.id;
            }
          } else {
            var i :| 0 <= i < |events[1..]| && events[1..][i].PenClick? && events[1..][i].note.id == c.id;
            assert events[i + 1] == events[1..][i];
          }
        }
      }
    }
  }

  // ----- Rendering -----

  /** What a row shows where the title goes. */
  datatype Cell = TitleInput(value: string) | TitleText(text: string)

  /** One `<li>`: its key, whether it is highlighted, and its title cell. */
  datatype Row = Row(key: int, highlighted: bool, cell: Cell)

  /** `notes.map(...)`: one row per note, in order. A row is highlighted
      exactly when its id is the selected one, and shows the input (holding
      the buffer) exactly when its id is the one being edited. */
  function Render(notes: seq<Note>, selectNoteId: Option<int>, s: EditState): (rows: seq<Row>)
    ensures |rows| == |notes|
    ensures forall i :: 0 <= i < |notes| ==> rows[i].key == notes[i].id
    ensures forall i :: 0 <= i < |notes| ==> (rows[i].highlighted <==> selectNoteId == Some(notes[i].id))
    ensures forall i :: 0 <= i < |notes| ==> (rows[i].cell.TitleInput? <==> s.editingId == Some(notes[i].id))
    ensures forall i :: 0 <= i < |notes| && rows[i].cell.TitleInput? ==> rows[i].cell.value == s.buffer
    ensures forall i :: 0 <= i < |notes| && rows[i].cell.TitleText? ==> rows[i].cell.text == notes[i].title
  {
    if notes == [] then []
    else
      var note := notes[0];
      var cell := if s.editingId == Some(note.id) then TitleInput(s.buffer) else TitleText(note.title);
      [Row(note.id, selectNoteId == Some(note.id), cell)] + Render(notes[1..], selectNoteId, s)
  }

  /** With distinct ids, at most one row shows the title input and at most
      one row is highlighted. */
  lemma AtMostOneInput(notes: seq<Note>, selectNoteId: Option<int>, s: EditState)
    requires DistinctIds(notes)
    ensures forall i, j ::
              (0 <= i < |notes| && 0 <= j < |notes| &&
               Render(notes, selectNoteId, s)[i].cell.TitleInput? &&
               Render(notes, selectNoteId, s)[j].cell.TitleInput?) ==> i == j
    ensures forall i, j ::
              (0 <= i < |notes| && 0 <= j < |notes| &&
               Render(notes, selectNoteId, s)[i].highlighted &&
               Render(notes, selectNoteId, s)[j].highlighted) ==> i == j
  {
  }

  // ----- Clicks -----

  /** Where in a row a click lands. */
  datatype Target = RowArea | PenButton | TrashButton | TitleInputBox

  /** What a click asks for. */
  datatype Effect = Selects(note: Note) | EditsTitle(note: Note) | Deletes(id: int) | NoEffect

  /** A click on a row: the row body selects the note; the pen starts
      editing it; the trash button asks for confirmation and requests the
      delete of that note's id only when the answer is yes. The buttons and
      the input stop the click there, so none of them also selects. */
  function Click(note: Note, target: Target, confirmed: bool): (e: Effect)
    ensures e.Selects? <==> target == RowArea
    ensures e.EditsTitle? <==> target == PenButton
    ensures e.Deletes? <==> target == TrashButton && confirmed
    ensures e.Selects? || e.EditsTitle? ==> e.note == note
    ensures e.Deletes? ==> e.id == note.id
  {
    match target
    case RowArea => Selects(note)
    case PenButton => EditsTitle(note)
    case TrashButton => if confirmed then Deletes(note.id) else NoEffect
    case TitleInputBox => NoEffect
  }

  /** The component's editing state, updated in place by its handlers. */
  class TitleEditor {
    var editingTitle: string
    var selectEditTitleNoteId: Option<int>

    function State(): EditState
      reads this
    {
      EditState(editingTitle, selectEditTitleNoteId)
    }

    constructor ()
      ensures State() == Initial
    {
      editingTitle := "";
      selectEditTitleNoteId := None;
    }

    /** The pen button: seed the buffer with the title, edit this note. */
    method ClickPen(note: Note)
      modifies this
      ensures editingTitle == note.title && selectEditTitleNoteId == Some(note.id)
      ensures State() == Step(old(State()), PenClick(note)).next
    {
      editingTitle := note.title;
      selectEditTitleNoteId := Some(note.id);
    }

    /** The input's change handler: only the buffer changes. */
    method Type(text: string)
      modifies this
      ensures editingTitle == text && selectEditTitleNoteId == old(selectEditTitleNoteId)
      ensures State() == Step(old(State()), Typed(text)).next
    {
      editingTitle := text;
    }

    /** The input's key handler. */
    method PressKey(key: string) returns (change: Option<TitleChange>)
      modifies this
      ensures change.Some? <==> key == "Enter" && Truthy(old(selectEditTitleNoteId))
      ensures change.Some? ==> change.value == TitleChange(old(selectEditTitleNoteId).value, old(editingTitle))
      ensures editingTitle == old(editingTitle)
      ensures selectEditTitleNoteId == if change.Some? then None else old(selectEditTitleNoteId)
      ensures StepResult(State(), change) == Step(old(State()), KeyDown(key))
    {
      if key == "Enter" && Truthy(selectEditTitleNoteId) {
        change := Some(TitleChange(selectEditTitleNoteId.value, editingTitle));
        selectEditTitleNoteId := None;
      } else {
        change := None;
      }
    }
  }
}
