/**
 * The client note cache of src/app/services/notes.service.ts: `notes` is the
 * current value of the `notesSubject` BehaviorSubject. Each HTTP request is
 * given as its completed outcome; a success runs the `tap` that rewrites the
 * cache, a failure is rethrown to the caller and leaves the cache alone.
 */
module NotesCache {
  import opened Wrappers
  import opened ClientNotes

  class NotesService {
    /** The value `notesSubject` currently holds. */
    var notes: seq<Note>

    /** `new BehaviorSubject<Note[]>([])`. */
    constructor ()
      ensures notes == []
    {
      notes := [];
    }

    /** `clearNotes`: the cache becomes the empty list. */
    method ClearNotes()
      modifies this
      ensures notes == []
    {
      notes := [];
    }

    /** The `logout$` subscription: every logout emission clears the cache. */
    method OnLogout()
      modifies this
      ensures notes == []
    {
      ClearNotes();
    }

    /** `getNotes`: a success replaces the cache with exactly the server's list. */
    method GetNotes(response: Http<seq<Note>>) returns (r: Http<seq<Note>>)
      modifies this
      ensures r == response
      ensures response.Success? ==> notes == response.value
      ensures response.Failure? ==> notes == old(notes)
    {
      if response.Success? {
        notes := response.value;
      }
      r := response;
    }

    /**
     * `loadNotes`: the cache is emptied before the request is issued, so a
     * failed load leaves it empty; a success sets it to the server's list.
     */
    method LoadNotes(response: Http<seq<Note>>)
      modifies this
      ensures response.Success? ==> notes == response.value
      ensures response.Failure? ==> notes == []
    {
      ClearNotes();
      if response.Success? {
        notes := response.value;
      }
    }

    /** `createNote`: a success appends the server's note after all prior entries. */
    method CreateNote(response: Http<Note>) returns (r: Http<Note>)
      modifies this
      ensures r == response
      ensures response.Success? ==> notes == old(notes) + [response.value]
      ensures response.Failure? ==> notes == old(notes)
    {
      if response.Success? {
        notes := notes + [response.value];
      }
      r := response;
    }

    /**
     * `updateNote(id, …)`: a success replaces every entry whose `_id` is `id`
     * with the server's note and keeps every other entry in place.
     */
    method UpdateNote(id: string, response: Http<Note>) returns (r: Http<Note>)
      modifies this
      ensures r == response
      ensures |notes| == |old(notes)|
      ensures response.Success? ==> notes == ReplaceById(old(notes), Some(id), response.value)
      ensures response.Failure? ==> notes == old(notes)
    {
      if response.Success? {
        notes := ReplaceById(notes, Some(id), response.value);
      }
      r := response;
    }

    /** `deleteNote`: passes the outcome on and never touches the cache. */
    method DeleteNote(id: string, response: Http<()>) returns (r: Http<()>)
      ensures r == response
    {
      r := response;
    }

    /** `generateTitle`: passes the server's title on and never touches the cache. */
    method GenerateTitle(content: string, response: Http<string>) returns (r: Http<string>)
      ensures r == response
    {
      r := response;
    }
  }
}
