# Note-taking app: session and note lifecycle in Dafny

This project models the core rules of a small note-taking application. The
application has an Express/Mongoose REST backend and an Angular client. The
model covers:

- **Title generation** on the server. `generateBasicSummary` cuts at a sentence
  or word boundary within 100 characters. `generateAISummary` trims the AI
  completion, or falls back to the first 100 characters plus `"..."`.
- **The `authenticateToken` middleware.** The bearer token is the second
  space-separated field of the `Authorization` header. Verification ends in a
  401, a 403, or admitting the request as the token's subject.
- **The REST handlers** over an in-memory user and note store (`Server`):
  register, login, verify-token, list, create, update, delete, generate-title.
  Notes are reached only through their id and their owner, so another user's
  note answers exactly like a missing one.
- **The client note cache** (`NotesCache.NotesService`): the BehaviorSubject
  list that requests replace, append to or map over, and that logout clears.
- **The notes page** (`NotesView.NotesComponent`): its own list, the save flow,
  the optimistic delete with roll-back, the stable sort by recency, and
  `formatDate`.
- **The older mock layer**: a signal-backed list whose ids are positions + 1,
  its editor component, and a two-state `AuthService` mirrored in localStorage.

External collaborators are parameters. The clock is `now` (milliseconds).
`jwt.verify` is a function `string -> Verification`. bcrypt's hash is the
`hashed` argument and its comparison a function `(string, string) -> bool`.
The OpenAI completion is an `Option<string>` (`None` when the call fails).
`confirm()` is a boolean, and `toLocaleDateString` is a function `int -> string`.
Each HTTP request of the client is its completed outcome (`Http.Success` or
`Http.Failure`), applied in order.

Files: `wrappers.dfy` (Option), `js_text.dfy` (the JavaScript string built-ins
used), `summary.dfy`, `auth_gate.dfy`, `note_store.dfy` (backend),
`client_notes.dfy` (client note type and list operations), `notes_cache.dfy`,
`notes_view.dfy`, `legacy_notes.dfy`, `mock_auth.dfy`.

In these places the model follows the code, which may surprise a reader:

- POST /notes ignores a supplied title and always uses the generated one.
- The Note schema marks `title` and `content` as required. So creating a note
  with empty content, or with an AI completion that trims to nothing, is a
  500 "Error saving note" with nothing stored. It is not a dedicated
  invalid-input answer.
- PUT /notes/:id sets `updatedAt` to `now`. Nothing guarantees that this is
  later than the previous value.
- A failed `loadNotes` leaves the client cache empty, because the cache is
  cleared before the request is issued.

## Model

| member | source | states |
|---|---|---|
| JsText.Substring | backend/server.js:65 | `substring` with JavaScript's clamping and swapping: the slice when bounds are in range, the slice between them when they come in reverse order, a prefix when the start is 0 or below, "" when the end is negative |
| JsText.LastIndexOf | backend/server.js:66-67 | `lastIndexOf`: -1 or an index holding the character, with no later occurrence |
| JsText.IndexOf | backend/server.js:108 | `indexOf`: -1 or an index holding the character, with no earlier occurrence |
| JsText.TrimStart | backend/server.js:48 | drops exactly the leading JavaScript white space: a suffix of the input whose first character is not white space |
| JsText.TrimEnd | backend/server.js:48 | drops exactly the trailing JavaScript white space: a prefix of the input whose last character is not white space |
| JsText.Trim | backend/server.js:48 | `trim` leaves no white space at either end |
| JsText.TrimSlice | backend/server.js:48 | what `trim` keeps is a contiguous slice of the input, and every character dropped before or after it is white space |
| JsText.TrimIdempotent | backend/server.js:48 | trimming twice equals trimming once |
| JsText.Split | backend/server.js:108 | `split(" ")` gives at least one field and no field contains the separator |
| JsText.SplitJoin | backend/server.js:108 | joining the fields of `split` with the separator gives the header back |
| JsText.SplitSingle | backend/server.js:108 | `split` gives a single field exactly when the separator does not occur |
| Summary.BasicSummary | backend/server.js:57-74 | `generateBasicSummary`: "" for empty content, content unchanged up to 100 characters, never longer than 102 (at most 99 characters before "...") |
| Summary.BasicSummaryAtSentence | backend/server.js:64-71 | when the last '.' within 100 characters lies past index 50, the result is the prefix through that period: ends in '.', length 52..100, no period after it within the budget |
| Summary.BasicSummaryAtWord | backend/server.js:64-73 | otherwise the result is the prefix up to the last space within 100 characters plus "...", and exactly "..." when there is no space |
| Summary.AISummary | backend/server.js:22-23 | `generateAISummary` gives "" for empty content, whatever the AI would do |
| Summary.AIFallbackShape | backend/server.js:51-55 | a failed AI call gives the first min(length, 100) characters followed by "...", even for short content |
| AuthGate.TokenOf | backend/server.js:107-108 | the extracted token never contains a space |
| AuthGate.Authenticate | backend/server.js:106-125 | no token is 401 "No token provided"; admitted exactly when a token verifies, as its subject; a 403 exactly when verification fails for a reason other than expiry; only 401 or 403 otherwise |
| AuthGate.NoTokenIgnoresVerifier | backend/server.js:110-114 | without a token the decision is the same for every verifier: 401 comes before verification |
| AuthGate.BearerRoundTrip | backend/server.js:107-108 | the header "Bearer " + t yields exactly t for every space-free t |
| AuthGate.TokenPresentIffSpace | backend/server.js:107-108 | a present header yields a token exactly when it contains a space |
| NoteStore.InsertPos | backend/server.js:183 | the insertion point follows every entry strictly newer than the note and precedes one it is not older than |
| NoteStore.Insert | backend/server.js:183 | inserting adds one entry |
| NoteStore.InsertAt | backend/server.js:183 | the insertion is the list split at the insertion point with the note in between |
| NoteStore.InsertSorted | backend/server.js:183 | inserting keeps a list ordered by `updatedAt` then `createdAt` descending |
| NoteStore.InsertMembers | backend/server.js:183 | inserting adds the note and loses nothing |
| NoteStore.InsertDistinct | backend/server.js:183 | inserting a note with a new id keeps ids distinct |
| NoteStore.OwnedBelow | backend/server.js:182-184 | the caller's listing over ids below k has at most k entries |
| NoteStore.OwnedBelowSound | backend/server.js:182 | every listed note belongs to the caller and is the stored document |
| NoteStore.OwnedBelowComplete | backend/server.js:182 | every stored note of the caller is listed |
| NoteStore.OwnedBelowOrdered | backend/server.js:183 | the listing is newest first and lists no id twice |
| NoteStore.Server.constructor | backend/server.js:76-94 | the store starts with no users and no notes; its invariant, which includes that no two usernames share a user id, holds |
| NoteStore.Server.Register | backend/server.js:128-147 | missing username or password is 400 before any store access; a taken username is 400 and the first record is unchanged; otherwise 201 with the user stored under the hash |
| NoteStore.Server.Login | backend/server.js:158-177 | missing field is 400; success exactly when the user exists and the password matches, with a token for the user's id; an unknown user and a wrong password give the identical 401 "Invalid credentials" |
| NoteStore.Server.VerifyToken | backend/server.js:148-156 | 200 with the caller's id exactly when the middleware admits, its 401/403 otherwise |
| NoteStore.Server.GetNotes | backend/server.js:179-192 | after authentication, exactly the caller's notes, each once, ordered by `updatedAt` then `createdAt` descending |
| NoteStore.Server.PostNote | backend/server.js:194-217 | the title is always `generateAISummary(content)` and a supplied title is ignored; both timestamps are `now`; the new id was free; empty content or title is a 500 with nothing stored; refused requests change nothing |
| NoteStore.Server.PutNote | backend/server.js:220-251 | only a note matching id and owner is updated: title and content replaced, `updatedAt` = now, id, owner and `createdAt` kept; otherwise 404 with the store unchanged |
| NoteStore.Server.DeleteNote | backend/server.js:252-277 | removes exactly the note matching id and owner; a missing note and another user's note are both 404 with the store unchanged |
| NoteStore.Server.GenerateTitle | backend/server.js:278-287 | after authentication, 200 with `generateAISummary(content)`, store untouched |
| NoteStore.RegisterThenLogin | backend/server.js:128-177 | registering then logging in with the same password issues a token for the new user's id |
| ClientNotes.ReplaceById | src/app/services/notes.service.ts:113-115 | `map` replacing by `_id`: same length, matching entries become the new note, all others unchanged |
| ClientNotes.ReplaceAbsent | src/app/services/notes.service.ts:113-115 | replacing an id nobody has leaves the list unchanged |
| ClientNotes.ReplaceIdempotent | src/app/components/notes/notes.component.ts:172-174 | replacing twice with the same note equals replacing once |
| ClientNotes.RemoveById | src/app/components/notes/notes.component.ts:231 | `filter` by `_id`: exactly the entries with another id remain |
| ClientNotes.RemoveConcat | src/app/components/notes/notes.component.ts:231 | the filter of a concatenation is the concatenation of the filters, so order and repetitions are kept |
| ClientNotes.RemoveSingle | src/app/components/notes/notes.component.ts:231 | a single entry survives exactly when its `_id` differs |
| ClientNotes.RemoveAbsent | src/app/components/notes/notes.component.ts:231 | removing an id nobody has leaves the list unchanged |
| ClientNotes.RemoveAfterOverwrite | src/app/components/notes/notes.component.ts:220-231 | marking an entry as deleting before the filter does not change what the filter leaves |
| ClientNotes.FindIndex | src/app/components/notes/notes.component.ts:220 | `findIndex`: the first index with the id, or -1 when none has it |
| ClientNotes.Place | src/app/components/notes/notes.component.ts:154-159 | placing a note adds exactly that note to the multiset |
| ClientNotes.PlaceSorted | src/app/components/notes/notes.component.ts:154-159 | placing keeps non-increasing recency |
| ClientNotes.PlaceWithKey | src/app/components/notes/notes.component.ts:154-159 | a placed note goes in front of the entries of equal recency |
| ClientNotes.SortByRecency | src/app/components/notes/notes.component.ts:153-160 | the sort is a permutation, ordered by `updatedAt || createdAt` non-increasingly |
| ClientNotes.SortStable | src/app/components/notes/notes.component.ts:153-160 | entries of equal recency keep their relative order (stable sort) |
| ClientNotes.TrackById | src/app/components/notes/notes.component.ts:290-292 | the key is "" exactly when the note has no (truthy) `_id`, otherwise the `_id` |
| NotesCache.NotesService.constructor | src/app/services/notes.service.ts:13 | the cache starts empty |
| NotesCache.NotesService.ClearNotes | src/app/services/notes.service.ts:32-34 | the cache becomes empty |
| NotesCache.NotesService.OnLogout | src/app/services/notes.service.ts:21-23 | each logout emission empties the cache |
| NotesCache.NotesService.GetNotes | src/app/services/notes.service.ts:72-86 | success replaces the cache with exactly the server's list; failure is passed on and leaves the cache |
| NotesCache.NotesService.LoadNotes | src/app/services/notes.service.ts:54-70 | the cache ends as the server's list on success and empty on failure |
| NotesCache.NotesService.CreateNote | src/app/services/notes.service.ts:88-103 | success appends the server's note after all prior entries; failure leaves the cache |
| NotesCache.NotesService.UpdateNote | src/app/services/notes.service.ts:105-123 | success replaces every entry with that `_id` by the server's note; the length never changes; failure leaves the cache |
| NotesCache.NotesService.DeleteNote | src/app/services/notes.service.ts:36-52 | passes the outcome on; has no right to modify the cache |
| NotesCache.NotesService.GenerateTitle | src/app/services/notes.service.ts:125-136 | passes the title on; has no right to modify the cache |
| NotesView.DivDiv | src/app/components/notes/notes.component.ts:259-262 | the chained `Math.floor` divisions equal one floor division by the product |
| NotesView.DescribeThresholds | src/app/components/notes/notes.component.ts:253-275 | each branch of `formatDate` holds exactly on its age range: under a minute, minutes, hours, days up to seven, the date from eight days on; the count is the age in the largest non-zero unit |
| NotesView.NatToString | src/app/components/notes/notes.component.ts:267-271 | a count is printed as decimal digits without a leading zero |
| NotesView.NatToStringRoundTrip | src/app/components/notes/notes.component.ts:267-271 | reading the printed count back gives the count |
| NotesView.FormatDate | src/app/components/notes/notes.component.ts:253-275 | "" without a date, "Just now" under a minute, "1 minute/hour/day ago" with no plural s, the locale date from eight days on |
| NotesView.FormatMinutes | src/app/components/notes/notes.component.ts:270-271 | ages of 2 to 59 minutes read "<n> minutes ago" with the plural s |
| NotesView.FormatHours | src/app/components/notes/notes.component.ts:268-269 | ages of 2 to 23 hours read "<n> hours ago" with the plural s |
| NotesView.FormatDays | src/app/components/notes/notes.component.ts:264-267 | ages of 2 to 7 days read "<n> days ago" with the plural s |
| NotesView.NotesComponent.constructor | src/app/components/notes/notes.component.ts:136-139 | empty list, modal hidden, not loading, blank editor |
| NotesView.NotesComponent.SortedNotes | src/app/components/notes/notes.component.ts:153-160 | a permutation of `notes` in non-increasing recency with equal-recency order kept, `notes` untouched |
| NotesView.NotesComponent.LoadNotes | src/app/components/notes/notes.component.ts:189-202 | page and service take the server's list on success, keep theirs on failure; loading ends either way |
| NotesView.NotesComponent.OpenNewNoteModal | src/app/components/notes/notes.component.ts:204-207 | blank editor shown |
| NotesView.NotesComponent.EditNote | src/app/components/notes/notes.component.ts:209-212 | editor holds a copy of the note, shown |
| NotesView.NotesComponent.CloseModal | src/app/components/notes/notes.component.ts:248-251 | modal hidden and editor reset to empty title and content |
| NotesView.NotesComponent.SaveNote | src/app/components/notes/notes.component.ts:161-187 | empty content does nothing; success replaces by the saved `_id` (existing note) or appends (new note), in page and service, then closes and resets the editor; failure changes nothing |
| NotesView.NotesComponent.GenerateTitle | src/app/components/notes/notes.component.ts:300-314 | with content, a success sets the editor's title to the server's; otherwise nothing changes |
| NotesView.NotesComponent.MarkDeleting | src/app/components/notes/notes.component.ts:218-225 | only the entry at the found index changes, to the note marked deleting |
| NotesView.NotesComponent.SettleDelete | src/app/components/notes/notes.component.ts:228-244 | success removes every entry with the `_id`; failure writes the note back, not deleting, at the found index |
| NotesView.NotesComponent.DeleteNote | src/app/components/notes/notes.component.ts:213-246 | no `_id` or declined confirmation changes nothing; success removes every entry with that `_id`; failure keeps the length, never drops the entry, and restores an unmarked entry exactly |
| LegacyNotes.ReplaceById | src/app/notes.service.ts:25-29 | `map` replacing by id: same length, only matching entries replaced |
| LegacyNotes.UpdateHitsOnePosition | src/app/notes.service.ts:8-29 | under id = position + 1 an update replaces exactly the note at position id - 1, leaves the list unchanged for an unknown id, and keeps the invariant |
| LegacyNotes.NotesService.constructor | src/app/notes.service.ts:8-10 | the list starts as the single sample note with id 1, satisfying the invariant |
| LegacyNotes.NotesService.AddNote | src/app/notes.service.ts:16-23 | appends one note with id = previous length + 1, earlier notes unchanged, invariant kept |
| LegacyNotes.NotesService.UpdateNote | src/app/notes.service.ts:25-29 | replaces by id, invariant kept |
| LegacyNotes.NotesComponent.constructor | src/app/notes/notes.component.ts:82 | nothing selected, so nothing is linked to the store |
| LegacyNotes.NotesComponent.SelectNote | src/app/notes/notes.component.ts:93-95 | the editor holds a new copy, not linked to the store, and the store is untouched |
| LegacyNotes.NotesComponent.CreateNewNote | src/app/notes/notes.component.ts:97-103 | the editor holds a new, unlinked note with id 0 and empty title and content |
| LegacyNotes.NotesComponent.EditSelected | src/app/notes/notes.component.ts:57-62 | the editor's inputs change the selected note's title and content; the store is untouched while the selection is a copy, and its note at position id - 1 changes with it once the selection is the stored object |
| LegacyNotes.NotesComponent.SaveNote | src/app/notes/notes.component.ts:105-113 | nothing without a selection; id 0 adds a note with the copy's fields; any other id updates by id, and when that id is stored the store now holds the selected object itself; the selection is kept |
| LegacyNotes.EditAfterSave | src/app/notes/notes.component.ts:57-62 | select a stored note, save it, then edit it without saving: the edit still reaches that stored note |
| LegacyNotes.SaveNewNoteTwice | src/app/notes/notes.component.ts:97-113 | a new note saved twice adds two notes, as the editor keeps id 0 |
| MockAuth.AuthService.constructor | src/app/auth.service.ts:8-12 | the initial state is authenticated exactly when the stored value is "true" |
| MockAuth.AuthService.IsAuthenticated | src/app/auth.service.ts:14-16 | the getter reports exactly whether the stored value is "true", while the flag agrees with storage |
| MockAuth.AuthService.CheckAuthStatus | src/app/auth.service.ts:34-37 | authenticated exactly when the stored value is "true"; storage untouched |
| MockAuth.AuthService.Login | src/app/auth.service.ts:18-26 | true exactly for admin/admin, which sets the flag and stores "true"; a failure changes neither |
| MockAuth.AuthService.Logout | src/app/auth.service.ts:28-31 | flag cleared and the stored key removed |
| MockAuth.LogoutTwice | src/app/auth.service.ts:28-31 | logout is idempotent |
| MockAuth.LogoutThenReload | src/app/auth.service.ts:28-37 | after logout, a fresh `checkAuthStatus` finds the user signed out |

## Left out

- Express routing, CORS, dotenv, the Mongo connection and `app.listen`: plumbing with no rules of its own.
- bcrypt, JWT signing and verification, and the OpenAI call are foreign libraries. They are oracle parameters. An issued token is represented by its subject id. The hard-coded signing secret and the one-hour expiry live inside `jwt` and are not modelled.
- Mongoose internals: document ids are counters. A malformed `:id` (a cast error, answered 500) is not modelled. The `pre("save")` hook is not relied on. `findOneAndUpdate` runs no validators, so PUT accepts empty content. PUT bodies are taken as given strings; undefined fields are not modelled.
- NoteStore.Server.Register: the generic 400 "Error registering user" for store failures other than a duplicate key is not modelled.
- NoteStore.Server.Login: the 400 "Error logging in" for store exceptions is not modelled.
- NoteStore.Server.GetNotes: the 500 "Error fetching notes" for store failures is not modelled. The order of notes with equal `updatedAt` and `createdAt` is left open, as the database leaves it.
- Strings are sequences of characters. JavaScript's UTF-16 code units, and so surrogate pairs cut at index 100, are not modelled.
- RxJS: subscriptions, timing, unsubscription in `ngOnDestroy`, and interleaving of in-flight requests. Each request completes before the next operation.
- DOM and templates: `showNotification`, `adjustTextareaHeight`, markdown rendering, and disabled buttons. The mock editor's two-way binding is modelled as `EditSelected`.
- `confirm()`, `Date` parsing and `toLocaleDateString` are parameters. Times are integer milliseconds; an unparsable date (NaN) is not modelled.
- NotesView.NotesComponent.EditNote: `currentNote` keeps only `_id`, title and content, the fields the save flow reads. The other fields copied by `{ ...note }` are only sent to the server, which ignores them.
- The Note model's `summary`, `isAISummary` and `isSummarizing` fields: no logic reads them.
- The HTTP interceptor, route guard, navbar, app configuration and routes: wiring around the modelled services. The newer `AuthService` behind `logout$` is not part of this model; its emissions are `OnLogout` calls.
- The mock component's `logout()` and the router navigation in the mock `logout`: a plain delegation and navigation.
