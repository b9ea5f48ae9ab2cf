/**
 * The older mock layer: the signal-backed `NotesService` of
 * src/app/notes.service.ts, whose note at position i has id i + 1, and the
 * `NotesComponent` of src/app/notes/notes.component.ts, which edits a copy
 * of a note and saves it by adding (id 0) or updating (any other id). An
 * update stores the edited object itself, so later edits reach the store.
 */
module LegacyNotes {
  import opened Wrappers

  /** A note of the mock layer: a numeric id, a title and a content. */
  datatype LegacyNote = LegacyNote(id: int, title: string, content: string)

  /** `notes.map(note => note.id === updated.id ? updated : note)`. */
  function ReplaceById(s: seq<LegacyNote>, updated: LegacyNote): (r: seq<LegacyNote>)
    ensures |r| == |s|
    ensures forall i :: 0 <= i < |s| ==> r[i] == if s[i].id == updated.id then updated else s[i]
  {
    if s == [] then [] else [if s[0].id == updated.id then updated else s[0]] + ReplaceById(s[1..], updated)
  }

  /** The position invariant: the note at position i has id i + 1. */
  predicate IdsArePositions(s: seq<LegacyNote>) {
    forall i :: 0 <= i < |s| ==> s[i].id == i + 1
  }

  /**
   * Under the position invariant an update touches exactly the note at
   * position `id - 1` when that position exists, and nothing otherwise; the
   * invariant survives either way.
   */
  lemma UpdateHitsOnePosition(s: seq<LegacyNote>, updated: LegacyNote)
    requires IdsArePositions(s)
    ensures 1 <= updated.id <= |s| ==> ReplaceById(s, updated) == s[updated.id - 1 := updated]
    ensures !(1 <= updated.id <= |s|) ==> ReplaceById(s, updated) == s
    ensures IdsArePositions(ReplaceById(s, updated))
  {
    var r := ReplaceById(s, updated);
    if 1 <= updated.id <= |s| {
      assert forall i :: 0 <= i < |s| ==> r[i] == s[updated.id - 1 := updated][i];
    } else {
      assert forall i :: 0 <= i < |s| ==> r[i] == s[i];
    }
  }

  class NotesService {
    /** The value of `notesSignal`. */
    var notes: seq<LegacyNote>

    ghost predicate Valid()
      reads this
    {
      IdsArePositions(notes)
    }

    /** The signal starts with the single sample note, id 1. */
    constructor ()
      ensures Valid()
      ensures notes == [LegacyNote(1, "Sample Note", "This is a sample notes.")]
    {
      notes := [LegacyNote(1, "Sample Note", "This is a sample notes.")];
    }

    /** `addNote`: one note appended with id = previous length + 1; earlier notes unchanged. */
    method AddNote(title: string, content: string)
      requires Valid()
      modifies this
      ensures Valid()
      ensures notes == old(notes) + [LegacyNote(|old(notes)| + 1, title, content)]
    {
      var newNote := LegacyNote(|notes| + 1, title, content);
      notes := notes + [newNote];
    }

    /** `updateNote`: every note with the updated note's id is replaced; the length stays. */
    method UpdateNote(updatedNote: LegacyNote)
      requires Valid()
      modifies this
      ensures Valid()
      ensures notes == ReplaceById(old(notes), updatedNote)
    {
      UpdateHitsOnePosition(notes, updatedNote);
      notes := ReplaceById(notes, updatedNote);
    }
  }

  class NotesComponent {
    /**
     * The note in the editor. `selectNote` and `createNewNote` put a fresh
     * object here, but after an update-save `updateNote` stores this very
     * object in the list, so until the next selection the editor's inputs
     * write through to the stored note.
     */
    var selectedNote: Option<LegacyNote>
    /** The selected note is the object the store holds at position id - 1. */
    var linked: bool
    const service: NotesService

    /** The store keeps its invariant, and a linked selection is the stored note. */
    ghost predicate Valid()
      reads this, service
    {
      && service.Valid()
      && (linked ==>
            && selectedNote.Some?
            && 1 <= selectedNote.value.id <= |service.notes|
            && service.notes[selectedNote.value.id - 1] == selectedNote.value)
    }

    constructor (service: NotesService)
      requires service.Valid()
      ensures this.service == service && selectedNote == None && !linked
      ensures Valid()
    {
      this.service := service;
      selectedNote := None;
      linked := false;
    }

    /** `selectNote`: the editor holds a copy, a new object; the store is not touched. */
    method SelectNote(note: LegacyNote)
      requires Valid()
      modifies this
      ensures Valid()
      ensures selectedNote == Some(note) && !linked
    {
      selectedNote := Some(note);
      linked := false;
    }

    /** `createNewNote`: the editor holds a new object with id 0 and empty fields. */
    method CreateNewNote()
      requires Valid()
      modifies this
      ensures Valid()
      ensures selectedNote == Some(LegacyNote(0, "", "")) && !linked
    {
      selectedNote := Some(LegacyNote(0, "", ""));
      linked := false;
    }

    /**
     * The editor's inputs are bound to the selected note's title and
     * content. While the selection is a copy the store is untouched; once
     * it is the stored object, the stored note changes with it.
     */
    method EditSelected(title: string, content: string)
      requires Valid() && selectedNote.Some?
      modifies this, service
      ensures Valid()
      ensures linked == old(linked)
      ensures selectedNote == Some(old(selectedNote).value.(title := title, content := content))
      ensures !linked ==> service.notes == old(service.notes)
      ensures linked ==>
        service.notes == old(service.notes)[old(selectedNote).value.id - 1 := selectedNote.value]
    {
      var edited := selectedNote.value.(title := title, content := content);
      if linked {
        service.notes := service.notes[edited.id - 1 := edited];
      }
      selectedNote := Some(edited);
    }

    /**
     * `saveNote`: nothing without a selection; id 0 adds a note built from
     * the copy's title and content, any other id updates by id, and when a
     * note with that id exists the store now holds the selected object
     * itself. The selection is kept, id 0 included.
     */
    method SaveNote()
      requires Valid()
      modifies this, service
      ensures Valid()
      ensures selectedNote == old(selectedNote)
      ensures linked <==>
        selectedNote.Some? && selectedNote.value.id != 0 && 1 <= selectedNote.value.id <= |old(service.notes)|
      ensures selectedNote.None? ==> service.notes == old(service.notes)
      ensures selectedNote.Some? && selectedNote.value.id == 0 ==>
        service.notes == old(service.notes)
          + [LegacyNote(|old(service.notes)| + 1, selectedNote.value.title, selectedNote.value.content)]
      ensures selectedNote.Some? && selectedNote.value.id != 0 ==>
        service.notes == ReplaceById(old(service.notes), selectedNote.value)
    {
      if selectedNote.Some? {
        if selectedNote.value.id == 0 {
          service.AddNote(selectedNote.value.title, selectedNote.value.content);
          linked := false;
        } else {
          UpdateHitsOnePosition(service.notes, selectedNote.value);
          linked := 1 <= selectedNote.value.id <= |service.notes|;
          service.UpdateNote(selectedNote.value);
        }
      } else {
        linked := false;
      }
    }
  }

  /** A new note saved twice is added twice: the editor keeps id 0 after saving. */
  method SaveNewNoteTwice(view: NotesComponent)
    requires view.Valid()
    modifies view, view.service
    ensures view.Valid()
    ensures |view.service.notes| == |old(view.service.notes)| + 2
    ensures view.selectedNote == Some(LegacyNote(0, "", ""))
  {
    view.CreateNewNote();
    view.SaveNote();
    view.SaveNote();
  }

  /**
   * Selecting a stored note, saving it and then editing it without saving
   * again still changes the store: the edit reaches the stored note through
   * the selection saved before.
   */
  method EditAfterSave(view: NotesComponent, i: nat, title: string, content: string)
    requires view.Valid() && i < |view.service.notes|
    modifies view, view.service
    ensures view.Valid()
    ensures view.service.notes == old(view.service.notes)[i := LegacyNote(i + 1, title, content)]
  {
    view.SelectNote(view.service.notes[i]);
    view.SaveNote();
    UpdateHitsOnePosition(old(view.service.notes), old(view.service.notes)[i]);
    view.EditSelected(title, content);
  }
}
