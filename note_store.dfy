/**
 * The REST handlers of backend/server.js over an in-memory user and note
 * store. Every note route first passes `authenticateToken`; a note is reached
 * only through its id AND its owner, so another user's note answers exactly
 * like a missing one. Document ids are drawn from counters, `Date.now()` is
 * the `now` parameter, bcrypt's hash is the `hashed` parameter and its
 * comparison the `compare` parameter, and the AI completion is an oracle value.
 */
module NoteStore {
  import opened Wrappers
  import opened Summary
  import opened AuthGate

  /** A registered user: the store's id and the bcrypt hash of the password. */
  datatype User = User(id: nat, passwordHash: string)

  /** A note document as the Note schema stores it. */
  datatype StoredNote = StoredNote(
    id: nat, title: string, content: string, userId: nat, createdAt: int, updatedAt: int)

  /** An HTTP answer: a success status with its body, or an error status with its message. */
  datatype Reply<T> = Ok(status: nat, value: T) | Error(status: nat, message: string)

  /** The answer `authenticateToken` sends when it does not admit the request. */
  function Refusal<T>(g: Gate): Reply<T>
    requires g.Deny?
  {
    Error(g.status, g.message)
  }

  /** The filter `{ _id: id, userId: caller }` matches a document. */
  predicate Owns(notes: map<nat, StoredNote>, id: nat, caller: nat) {
    id in notes && notes[id].userId == caller
  }

  /** Every document is stored under its own id. */
  ghost predicate KeysMatch(notes: map<nat, StoredNote>) {
    forall id :: id in notes ==> notes[id].id == id
  }

  /** `a` may precede `b` under `.sort({ updatedAt: -1, createdAt: -1 })`. */
  predicate NewerOrSame(a: StoredNote, b: StoredNote) {
    a.updatedAt > b.updatedAt || (a.updatedAt == b.updatedAt && a.createdAt >= b.createdAt)
  }

  /** Ordered by `updatedAt` descending, ties by `createdAt` descending. */
  predicate NewestFirst(s: seq<StoredNote>) {
    forall i, j :: 0 <= i < j < |s| ==> NewerOrSame(s[i], s[j])
  }

  /** No two entries share an id. */
  predicate DistinctIds(s: seq<StoredNote>) {
    forall i, j :: 0 <= i < j < |s| ==> s[i].id != s[j].id
  }

  /** Where `x` goes in a newest-first list: before the first entry it is not older than. */
  function InsertPos(x: StoredNote, s: seq<StoredNote>): (p: nat)
    ensures p <= |s|
    ensures forall i :: 0 <= i < p ==> !NewerOrSame(x, s[i])
    ensures p < |s| ==> NewerOrSame(x, s[p])
  {
    if s == [] then 0 else if NewerOrSame(x, s[0]) then 0 else 1 + InsertPos(x, s[1..])
  }

  /** `x` placed into a list at its newest-first position. */
  function Insert(x: StoredNote, s: seq<StoredNote>): (r: seq<StoredNote>)
    ensures |r| == |s| + 1
  {
    var p := InsertPos(x, s);
    s[..p] + [x] + s[p..]
  }

  /** The entry at each index of `Insert(x, s)`. */
  lemma InsertAt(x: StoredNote, s: seq<StoredNote>, i: nat)
    requires i <= |s|
    ensures var p := InsertPos(x, s);
      Insert(x, s)[i] == if i < p then s[i] else if i == p then x else s[i - 1]
  {
  }

  /** Inserting keeps a newest-first list newest-first. */
  lemma InsertSorted(x: StoredNote, s: seq<StoredNote>)
    requires NewestFirst(s)
    ensures NewestFirst(Insert(x, s))
  {
    var p, r := InsertPos(x, s), Insert(x, s);
    forall i, j | 0 <= i < j < |r| ensures NewerOrSame(r[i], r[j]) {
      InsertAt(x, s, i);
      InsertAt(x, s, j);
      if j == p {
        assert !NewerOrSame(x, s[i]);
      } else if i == p {
        assert NewerOrSame(x, s[p]);
        assert p == j - 1 || NewerOrSame(s[p], s[j - 1]);
      }
    }
  }

  /** Inserting adds `x` and nothing else, and loses nothing. */
  lemma InsertMembers(x: StoredNote, s: seq<StoredNote>)
    ensures x in Insert(x, s)
    ensures forall y :: y in Insert(x, s) <==> y == x || y in s
  {
    var p, r := InsertPos(x, s), Insert(x, s);
    assert r == s[..p] + [x] + s[p..];
    assert s == s[..p] + s[p..];
  }

  /** Inserting an entry with a new id keeps the ids distinct. */
  lemma InsertDistinct(x: StoredNote, s: seq<StoredNote>)
    requires DistinctIds(s)
    requires forall i :: 0 <= i < |s| ==> s[i].id != x.id
    ensures DistinctIds(Insert(x, s))
  {
    var p, r := InsertPos(x, s), Insert(x, s);
    forall i, j | 0 <= i < j < |r| ensures r[i].id != r[j].id {
      InsertAt(x, s, i);
      InsertAt(x, s, j);
    }
  }

  /** `Note.find({ userId: caller }).sort(...)` over the documents with id below `k`. */
  function OwnedBelow(notes: map<nat, StoredNote>, caller: nat, k: nat): (r: seq<StoredNote>)
    ensures |r| <= k
  {
    if k == 0 then []
    else
      var rest := OwnedBelow(notes, caller, k - 1);
      if Owns(notes, k - 1, caller) then Insert(notes[k - 1], rest) else rest
  }

  /** Every entry of the listing is a stored note of the caller, taken as stored. */
  lemma {:induction false} OwnedBelowSound(notes: map<nat, StoredNote>, caller: nat, k: nat)
    requires KeysMatch(notes)
    ensures var r := OwnedBelow(notes, caller, k);
      forall y :: y in r ==> y.id < k && Owns(notes, y.id, caller) && notes[y.id] == y
  {
    if k > 0 {
      OwnedBelowSound(notes, caller, k - 1);
      if Owns(notes, k - 1, caller) {
        InsertMembers(notes[k - 1], OwnedBelow(notes, caller, k - 1));
      }
    }
  }

  /** Every stored note of the caller below `k` is listed. */
  lemma {:induction false} OwnedBelowComplete(notes: map<nat, StoredNote>, caller: nat, k: nat)
    ensures forall id :: 0 <= id < k && Owns(notes, id, caller) ==> notes[id] in OwnedBelow(notes, caller, k)
  {
    if k > 0 {
      OwnedBelowComplete(notes, caller, k - 1);
      if Owns(notes, k - 1, caller) {
        InsertMembers(notes[k - 1], OwnedBelow(notes, caller, k - 1));
      }
    }
  }

  /** The listing is newest first and lists no id twice. */
  lemma {:induction false} OwnedBelowOrdered(notes: map<nat, StoredNote>, caller: nat, k: nat)
    requires KeysMatch(notes)
    ensures NewestFirst(OwnedBelow(notes, caller, k)) && DistinctIds(OwnedBelow(notes, caller, k))
  {
    if k > 0 {
      var rest := OwnedBelow(notes, caller, k - 1);
      OwnedBelowOrdered(notes, caller, k - 1);
      if Owns(notes, k - 1, caller) {
        OwnedBelowSound(notes, caller, k - 1);
        assert forall i :: 0 <= i < |rest| ==> rest[i] in rest;
        InsertSorted(notes[k - 1], rest);
        InsertDistinct(notes[k - 1], rest);
      }
    }
  }

  /** The in-memory database: the User and Note collections and the id counters. */
  class Server {
    var users: map<string, User>
    var notes: map<nat, StoredNote>
    var nextUserId: nat
    var nextNoteId: nat

    /**
     * Ids handed out so far lie below the counters, documents sit under their
     * own ids, and no two usernames share a user id, so filtering notes by
     * owner separates users.
     */
    ghost predicate Valid()
      reads this
    {
      && KeysMatch(notes)
      && (forall id :: id in notes ==> id < nextNoteId)
      && (forall name :: name in users ==> users[name].id < nextUserId)
      && (forall a, b :: a in users && b in users && a != b ==> users[a].id != users[b].id)
    }

    constructor ()
      ensures Valid()
      ensures users == map[] && notes == map[]
    {
      users, notes := map[], map[];
      nextUserId, nextNoteId := 0, 0;
    }

    /**
     * POST /register: both fields are required (400 before the store is
     * touched); a taken username is a 400 that leaves the first record as it
     * was; otherwise the user is stored with the hash.
     */
    method Register(username: string, password: string, hashed: string) returns (r: Reply<string>)
      requires Valid()
      modifies this
      ensures Valid()
      ensures notes == old(notes) && nextNoteId == old(nextNoteId)
      ensures username == "" || password == "" ==>
        r == Error(400, "Username and password are required") && users == old(users)
      ensures username != "" && password != "" && username in old(users) ==>
        r == Error(400, "Username already exists") && users == old(users)
      ensures username != "" && password != "" && username !in old(users) ==>
        && r == Ok(201, "User registered successfully")
        && users == old(users)[username := User(old(nextUserId), hashed)]
    {
      if username == "" || password == "" {
        return Error(400, "Username and password are required");
      }
      if username in users {
        return Error(400, "Username already exists");
      }
      users := users[username := User(nextUserId, hashed)];
      nextUserId := nextUserId + 1;
      r := Ok(201, "User registered successfully");
    }

    /**
     * POST /login: both fields are required (400); an unknown user and a
     * wrong password give the same 401; success issues a token whose
     * subject is the user's id.
     */
    function Login(username: string, password: string, compare: (string, string) -> bool): (r: Reply<nat>)
      reads this
      ensures r.Ok? <==>
        username != "" && password != "" && username in users && compare(password, users[username].passwordHash)
      ensures r.Ok? ==> r.status == 200 && r.value == users[username].id
      ensures (username == "" || password == "") ==> r == Error(400, "Username and password are required")
      ensures username != "" && password != "" && r.Error? ==> r == Error(401, "Invalid credentials")
    {
      if username == "" || password == "" then Error(400, "Username and password are required")
      else if username in users && compare(password, users[username].passwordHash) then
        Ok(200, users[username].id)
      else Error(401, "Invalid credentials")
    }

    /** GET /verify-token: a 200 carrying the caller's id exactly when the gate admits. */
    function VerifyToken(header: Option<string>, verify: string -> Verification): (r: Reply<nat>)
      ensures r.Ok? <==> Authenticate(header, verify).Admit?
      ensures r.Ok? ==> r == Ok(200, Authenticate(header, verify).userId)
      ensures r.Error? ==> r == Refusal(Authenticate(header, verify))
    {
      var gate := Authenticate(header, verify);
      if gate.Deny? then Refusal(gate) else Ok(200, gate.userId)
    }

    /** GET /notes: exactly the caller's notes, each once, newest first. */
    function GetNotes(header: Option<string>, verify: string -> Verification): (r: Reply<seq<StoredNote>>)
      reads this
      requires Valid()
      ensures r.Ok? <==> Authenticate(header, verify).Admit?
      ensures r.Error? ==> r == Refusal(Authenticate(header, verify))
      ensures r.Ok? ==>
        var caller := Authenticate(header, verify).userId;
        && r.status == 200 && NewestFirst(r.value) && DistinctIds(r.value)
        && (forall i :: 0 <= i < |r.value| ==> Owns(notes, r.value[i].id, caller) && notes[r.value[i].id] == r.value[i])
        && (forall id :: Owns(notes, id, caller) ==> notes[id] in r.value)
    {
      var gate := Authenticate(header, verify);
      if gate.Deny? then Refusal(gate)
      else
        OwnedBelowSound(notes, gate.userId, nextNoteId);
        OwnedBelowComplete(notes, gate.userId, nextNoteId);
        OwnedBelowOrdered(notes, gate.userId, nextNoteId);
        var listed := OwnedBelow(notes, gate.userId, nextNoteId);
        assert forall i :: 0 <= i < |listed| ==> listed[i] in listed;
        Ok(200, listed)
    }

    /**
     * POST /notes: the title is always generated from the content (a supplied
     * title is ignored) and both timestamps are `now`; the schema's required
     * title and content make an empty one a 500 that stores nothing.
     */
    method PostNote(header: Option<string>, verify: string -> Verification, title: string, content: string,
                    completion: Option<string>, now: int) returns (r: Reply<StoredNote>)
      requires Valid()
      modifies this
      ensures Valid()
      ensures users == old(users)
      ensures Authenticate(header, verify).Deny? ==>
        r == Refusal(Authenticate(header, verify)) && notes == old(notes)
      ensures Authenticate(header, verify).Admit? && (content == "" || AISummary(content, completion) == "") ==>
        r == Error(500, "Error saving note") && notes == old(notes)
      ensures Authenticate(header, verify).Admit? && content != "" && AISummary(content, completion) != "" ==>
        && r == Ok(201, StoredNote(old(nextNoteId), AISummary(content, completion), content,
                                   Authenticate(header, verify).userId, now, now))
        && r.value.id !in old(notes)
        && notes == old(notes)[r.value.id := r.value]
    {
      var gate := Authenticate(header, verify);
      if gate.Deny? {
        return Refusal(gate);
      }
      var generatedTitle := AISummary(content, completion);
      if generatedTitle == "" || content == "" {
        return Error(500, "Error saving note");
      }
      var note := StoredNote(nextNoteId, generatedTitle, content, gate.userId, now, now);
      notes := notes[note.id := note];
      nextNoteId := nextNoteId + 1;
      r := Ok(201, note);
    }

    /**
     * PUT /notes/:id: only a note with this id AND the caller as owner is
     * touched: its title and content are replaced and `updatedAt` becomes
     * `now`; id, owner and `createdAt` stay. Otherwise 404 and no change.
     */
    method PutNote(header: Option<string>, verify: string -> Verification, id: nat, title: string,
                   content: string, now: int) returns (r: Reply<StoredNote>)
      requires Valid()
      modifies this
      ensures Valid()
      ensures users == old(users) && nextNoteId == old(nextNoteId)
      ensures Authenticate(header, verify).Deny? ==>
        r == Refusal(Authenticate(header, verify)) && notes == old(notes)
      ensures Authenticate(header, verify).Admit? && !Owns(old(notes), id, Authenticate(header, verify).userId) ==>
        r == Error(404, "Note not found or unauthorized") && notes == old(notes)
      ensures Authenticate(header, verify).Admit? && Owns(old(notes), id, Authenticate(header, verify).userId) ==>
        && r == Ok(200, old(notes)[id].(title := title, content := content, updatedAt := now))
        && r.value.id == id && r.value.createdAt == old(notes)[id].createdAt
        && notes == old(notes)[id := r.value]
    {
      var gate := Authenticate(header, verify);
      if gate.Deny? {
        return Refusal(gate);
      }
      if !Owns(notes, id, gate.userId) {
        return Error(404, "Note not found or unauthorized");
      }
      var updated := notes[id].(title := title, content := content, updatedAt := now);
      notes := notes[id := updated];
      r := Ok(200, updated);
    }

    /**
     * DELETE /notes/:id: removes exactly the note with this id owned by the
     * caller; a missing note and another user's note are both a 404 with no change.
     */
    method DeleteNote(header: Option<string>, verify: string -> Verification, id: nat) returns (r: Reply<string>)
      requires Valid()
      modifies this
      ensures Valid()
      ensures users == old(users) && nextNoteId == old(nextNoteId)
      ensures Authenticate(header, verify).Deny? ==>
        r == Refusal(Authenticate(header, verify)) && notes == old(notes)
      ensures Authenticate(header, verify).Admit? && !Owns(old(notes), id, Authenticate(header, verify).userId) ==>
        r == Error(404, "Note not found or unauthorized") && notes == old(notes)
      ensures Authenticate(header, verify).Admit? && Owns(old(notes), id, Authenticate(header, verify).userId) ==>
        r == Ok(200, "Note deleted successfully") && notes == old(notes) - {id}
    {
      var gate := Authenticate(header, verify);
      if gate.Deny? {
        return Refusal(gate);
      }
      if !Owns(notes, id, gate.userId) {
        return Error(404, "Note not found or unauthorized");
      }
      notes := notes - {id};
      r := Ok(200, "Note deleted successfully");
    }

    /** POST /notes/generate-title: the generated title, with the store untouched. */
    function GenerateTitle(header: Option<string>, verify: string -> Verification, content: string,
                           completion: Option<string>): (r: Reply<string>)
      ensures r.Ok? <==> Authenticate(header, verify).Admit?
      ensures r.Ok? ==> r == Ok(200, AISummary(content, completion))
      ensures r.Error? ==> r == Refusal(Authenticate(header, verify))
    {
      var gate := Authenticate(header, verify);
      if gate.Deny? then Refusal(gate) else Ok(200, AISummary(content, completion))
    }
  }

  /**
   * Registering and then logging in with the same password succeeds and
   * issues a token for the new user's id, given the hash/compare oracle
   * accepts the password against its own hash.
   */
  method RegisterThenLogin(server: Server, username: string, password: string, hashed: string,
                           compare: (string, string) -> bool) returns (r: Reply<nat>)
    requires server.Valid()
    requires username != "" && password != "" && username !in server.users
    requires compare(password, hashed)
    modifies server
    ensures server.Valid()
    ensures r == Ok(200, old(server.nextUserId))
  {
    var registered := server.Register(username, password, hashed);
    r := server.Login(username, password, compare);
  }
}
