/** The list transforms the App component applies to its cached notes before
    each remote call: retitling (`map`), rewriting the selected note's content
    (`map`), deleting (`filter`) and the editor's lookup (`find`). */
module NoteCache {
  import opened Notes

  /** `notes.map(note => note.id === noteId ? { ...note, title } : note)`:
      every note with id `id` gets the new title; everything else stays. */
  function WithTitle(notes: seq<Note>, id: int, title: string): (r: seq<Note>)
    ensures |r| == |notes|
    ensures forall i :: 0 <= i < |notes| && notes[i].id == id ==> r[i] == notes[i].(title := title)
    ensures forall i :: 0 <= i < |notes| && notes[i].id != id ==> r[i] == notes[i]
  {
    if notes == [] then []
    else
      var head := if notes[0].id == id then notes[0].(title := title) else notes[0];
      [head] + WithTitle(notes[1..], id, title)
  }

  /** `notes.map(note => note.id === id ? { ...note, content } : note)`. */
  function WithContent(notes: seq<Note>, id: int, content: string): (r: seq<Note>)
    ensures |r| == |notes|
    ensures forall i :: 0 <= i < |notes| && notes[i].id == id ==> r[i] == notes[i].(content := content)
    ensures forall i :: 0 <= i < |notes| && notes[i].id != id ==> r[i] == notes[i]
  {
    if notes == [] then []
    else
      var head := if notes[0].id == id then notes[0].(content := content) else notes[0];
      [head] + WithContent(notes[1..], id, content)
  }

  /** The local effect of an edit in the editor pane: nothing when the
      selection is falsy (`null` or `0`), else the selected note's content
      is replaced. */
  function ContentChanged(notes: seq<Note>, selected: Option<int>, content: string): (r: seq<Note>)
    ensures !Truthy(selected) ==> r == notes
    ensures |r| == |notes| && Ids(r) == Ids(notes)
    ensures forall i :: 0 <= i < |notes| ==> r[i].title == notes[i].title
    ensures forall i :: 0 <= i < |notes| && Truthy(selected) && notes[i].id == selected.value ==>
              r[i].content == content
    ensures forall i :: 0 <= i < |notes| && selected != Some(notes[i].id) ==> r[i] == notes[i]
  {
    if !Truthy(selected) then notes
    else
      var r := WithContent(notes, selected.value, content);
      assert Ids(r) == Ids(notes);
      r
  }

  /** `notes.filter(note => note.id !== id)`. */
  function Without(notes: seq<Note>, id: int): (r: seq<Note>)
    ensures forall n :: n in r <==> n in notes && n.id != id
    ensures IsSubsequence(r, notes)
    ensures |r| == |notes| - Occurrences(notes, id)
  {
    if notes == [] then []
    else if notes[0].id == id then Without(notes[1..], id)
    else
      var rest := Without(notes[1..], id);
      assert ([notes[0]] + rest)[1..] == rest;
      [notes[0]] + rest
  }

  /** `notes.find(note => note.id === id)`: the first note with that id. */
  function Find(notes: seq<Note>, id: int): (r: Option<Note>)
    ensures r.None? <==> forall i :: 0 <= i < |notes| ==> notes[i].id != id
    ensures r.Some? ==> r.value in notes && r.value.id == id
    ensures forall i :: 0 <= i < |notes| && notes[i].id == id && (forall j :: 0 <= j < i ==> notes[j].id != id) ==>
              r == Some(notes[i])
  {
    if notes == [] then None
    else if notes[0].id == id then Some(notes[0])
    else
      var r := Find(notes[1..], id);
      assert forall i :: 0 < i < |notes| && notes[i].id == id && (forall j :: 0 <= j < i ==> notes[j].id != id) ==>
               r == Some(notes[i]) by {
        forall i | 0 < i < |notes| && notes[i].id == id && (forall j :: 0 <= j < i ==> notes[j].id != id)
          ensures r == Some(notes[i])
        {
          assert notes[1..][i - 1] == notes[i];
          forall j | 0 <= j < i - 1 ensures notes[1..][j].id != id {
            assert notes[1..][j] == notes[j + 1];
          }
        }
      }
      r
  }

  /** `notes.find(note => note.id === selected)?.content || ""`: the text the
      editor pane shows. A `null` selection matches no note; a content of
      `""` falls back to `""`, which is the same string. */
  function EditorContent(notes: seq<Note>, selected: Option<int>): (text: string)
    ensures selected.None? ==> text == ""
    ensures selected.Some? && (forall i :: 0 <= i < |notes| ==> notes[i].id != selected.value) ==> text == ""
    ensures text != "" ==> exists i :: 0 <= i < |notes| && Some(notes[i].id) == selected && notes[i].content == text
    ensures forall i ::
              (0 <= i < |notes| && Some(notes[i].id) == selected &&
               (forall j :: 0 <= j < i ==> notes[j].id != notes[i].id)) ==> text == notes[i].content
  {
    match selected
    case None => ""
    case Some(id) =>
      match Find(notes, id)
      case None => ""
      case Some(n) => n.content
  }

  // ----- Find in a list whose ids are distinct -----

  /** With distinct ids, `find` returns exactly the note carrying the id. */
  lemma {:induction false} FindDistinct(notes: seq<Note>, i: int)
    requires DistinctIds(notes)
    requires 0 <= i < |notes|
    ensures Find(notes, notes[i].id) == Some(notes[i])
  {
    if i > 0 {
      assert notes[0].id != notes[i].id;
      var tail := notes[1..];
      assert DistinctIds(tail) by {
        forall a, b | 0 <= a < |tail| && 0 <= b < |tail| && tail[a].id == tail[b].id ensures a == b {
          assert notes[a + 1].id == notes[b + 1].id;
        }
      }
      FindDistinct(tail, i - 1);
    }
  }

  /** The editor shows the content of the selected note, whichever it is. */
  lemma EditorShowsSelected(notes: seq<Note>, i: int)
    requires DistinctIds(notes)
    requires 0 <= i < |notes|
    ensures EditorContent(notes, Some(notes[i].id)) == notes[i].content
  {
    FindDistinct(notes, i);
  }

  // ----- Title changes -----

  /** A title change keeps every id, so it keeps the backend's order. */
  lemma WithTitleKeepsOrder(notes: seq<Note>, id: int, title: string)
    requires Descending(notes)
    ensures Ids(WithTitle(notes, id, title)) == Ids(notes)
    ensures Descending(WithTitle(notes, id, title))
  {
    var r := WithTitle(notes, id, title);
    assert forall i :: 0 <= i < |r| ==> r[i].id == notes[i].id;
  }

  /** Two title changes of the same note: the last one wins. */
  lemma WithTitleLastWins(notes: seq<Note>, id: int, t1: string, t2: string)
    ensures WithTitle(WithTitle(notes, id, t1), id, t2) == WithTitle(notes, id, t2)
  {
    var a, b := WithTitle(WithTitle(notes, id, t1), id, t2), WithTitle(notes, id, t2);
    assert forall i :: 0 <= i < |a| ==> a[i] == b[i];
  }

  /** After a title change, looking the note up gives the same note with
      the new title. */
  lemma {:induction false} FindAfterWithTitle(notes: seq<Note>, id: int, title: string)
    ensures Find(WithTitle(notes, id, title), id) ==
            match Find(notes, id)
            case None => None
            case Some(n) => Some(n.(title := title))
  {
    if notes != [] && notes[0].id != id {
      FindAfterWithTitle(notes[1..], id, title);
      assert WithTitle(notes, id, title)[1..] == WithTitle(notes[1..], id, title);
    }
  }

  /** A title change never alters what the editor shows. */
  lemma {:induction false} WithTitleKeepsEditor(notes: seq<Note>, id: int, title: string, selected: Option<int>)
    ensures EditorContent(WithTitle(notes, id, title), selected) == EditorContent(notes, selected)
  {
    if selected.Some? {
      FindKeepsContent(notes, id, title, selected.value);
    }
  }

  lemma {:induction false} FindKeepsContent(notes: seq<Note>, id: int, title: string, key: int)
    ensures Find(WithTitle(notes, id, title), key).None? == Find(notes, key).None?
    ensures Find(notes, key).Some? ==>
              Find(WithTitle(notes, id, title), key).value.content == Find(notes, key).value.content
  {
    if notes != [] && notes[0].id != key {
      FindKeepsContent(notes[1..], id, title, key);
      assert WithTitle(notes, id, title)[1..] == WithTitle(notes[1..], id, title);
    }
  }

  // ----- Content changes -----

  /** A content change keeps every id, so it keeps the backend's order. */
  lemma ContentChangedKeepsOrder(notes: seq<Note>, selected: Option<int>, content: string)
    requires Descending(notes)
    ensures Descending(ContentChanged(notes, selected, content))
  {
    var r := ContentChanged(notes, selected, content);
    forall i, j | 0 <= i < j < |r| ensures r[i].id > r[j].id {
      assert r[i].id == Ids(r)[i] == Ids(notes)[i];
      assert r[j].id == Ids(r)[j] == Ids(notes)[j];
    }
  }

  /** With a truthy selection that is in the list, the editor shows exactly
      what was typed. */
  lemma EditorShowsTyped(notes: seq<Note>, selected: Option<int>, content: string)
    requires Truthy(selected)
    requires exists i :: 0 <= i < |notes| && notes[i].id == selected.value
    ensures EditorContent(ContentChanged(notes, selected, content), selected) == content
  {
    var v := selected.value;
    var r := ContentChanged(notes, selected, content);
    var i :| 0 <= i < |notes| && notes[i].id == v;
    forall k | 0 <= k < |r| && r[k].id == v ensures r[k].content == content {
      assert Ids(r)[k] == Ids(notes)[k];
    }
    assert r[i].id == v by { assert Ids(r)[i] == Ids(notes)[i]; }
    EditorShowsShared(r, v, content, i);
  }

  /** When every note carrying the id has the same content, the editor shows
      that content, whichever of them `find` returns. */
  lemma EditorShowsShared(notes: seq<Note>, id: int, content: string, i: int)
    requires 0 <= i < |notes| && notes[i].id == id
    requires forall k :: 0 <= k < |notes| && notes[k].id == id ==> notes[k].content == content
    ensures EditorContent(notes, Some(id)) == content
  {
    var found := Find(notes, id);
    assert found.Some?;
    var k :| 0 <= k < |notes| && notes[k] == found.value;
  }

  /** The id `0` quirk: the editor looks note 0 up with `===` and shows its
      content, but the edit handler treats `0` as no selection, so typing
      anything else leaves the displayed text as it was. */
  lemma ZeroSelectionDropsEdits(notes: seq<Note>, i: int, content: string)
    requires DistinctIds(notes)
    requires 0 <= i < |notes| && notes[i].id == 0
    ensures ContentChanged(notes, Some(0), content) == notes
    ensures EditorContent(ContentChanged(notes, Some(0), content), Some(0)) == notes[i].content
  {
    EditorShowsSelected(notes, i);
  }

  // ----- Deletes -----

  /** Deleting from a list in the backend's order keeps it in that order. */
  lemma WithoutKeepsOrder(notes: seq<Note>, id: int)
    requires Descending(notes)
    ensures Descending(Without(notes, id))
  {
    SubsequenceKeepsDescending(Without(notes, id), notes);
  }

  /** Deleting the selected note empties the editor. */
  lemma WithoutEmptiesEditor(notes: seq<Note>, id: int)
    ensures EditorContent(Without(notes, id), Some(id)) == ""
  {
    var r := Without(notes, id);
    forall i | 0 <= i < |r| ensures r[i].id != id {
      assert r[i] in r;
    }
  }

  /** Deleting one note leaves the lookup of every other id as it was. */
  lemma {:induction false} WithoutKeepsOthers(notes: seq<Note>, id: int, key: int)
    requires key != id
    ensures Find(Without(notes, id), key) == Find(notes, key)
  {
    if notes != [] {
      WithoutKeepsOthers(notes[1..], id, key);
      if notes[0].id != id {
        assert Without(notes, id)[1..] == Without(notes[1..], id);
      }
    }
  }
}
