/**
 * The client's view of a note (src/app/models/note.model.ts) and the list
 * operations the Angular code applies to its caches: `map` replacing by id,
 * `filter` removing by id, `findIndex` by id, and the stable sort by recency.
 */
module ClientNotes {
  import opened Wrappers

  /**
   * A note as the client holds it. `id` is `_id` (absent before the server
   * assigns one); `updatedAt` may be missing, `createdAt` is in milliseconds;
   * `isDeleting` is the client-only flag (absent reads as false).
   */
  datatype Note = Note(
    id: Option<string>, title: string, content: string, userId: string,
    createdAt: int, updatedAt: Option<int>, isDeleting: bool)

  /** The editor's `currentNote`: the fields the save flow reads. */
  datatype Draft = Draft(id: Option<string>, title: string, content: string)

  /** `{ title: "", content: "" }`. */
  const BlankDraft := Draft(None, "", "")

  /** A completed HTTP request: the server's body, or the error status it failed with. */
  datatype Http<T> = Success(value: T) | Failure(status: nat)

  /** JavaScript truthiness of an optional `_id`: present and not empty. */
  predicate Truthy(id: Option<string>) {
    id.Some? && id.value != ""
  }

  /** `list.map(n => n._id === id ? x : n)`. */
  function ReplaceById(s: seq<Note>, id: Option<string>, x: Note): (r: seq<Note>)
    ensures |r| == |s|
    ensures forall i :: 0 <= i < |s| ==> r[i] == if s[i].id == id then x else s[i]
  {
    if s == [] then [] else [if s[0].id == id then x else s[0]] + ReplaceById(s[1..], id, x)
  }

  /** Replacing by an id nobody has changes nothing. */
  lemma ReplaceAbsent(s: seq<Note>, id: Option<string>, x: Note)
    requires forall i :: 0 <= i < |s| ==> s[i].id != id
    ensures ReplaceById(s, id, x) == s
  {
  }

  /** Replacing twice by the same id with the same note is replacing once. */
  lemma ReplaceIdempotent(s: seq<Note>, id: Option<string>, x: Note)
    requires x.id == id
    ensures ReplaceById(ReplaceById(s, id, x), id, x) == ReplaceById(s, id, x)
  {
  }

  /** `list.filter(n => n._id !== id)`: order kept, every entry with `id` gone, every other one kept. */
  function RemoveById(s: seq<Note>, id: Option<string>): (r: seq<Note>)
    ensures |r| <= |s|
    ensures forall n :: n in r <==> n in s && n.id != id
  {
    if s == [] then []
    else if s[0].id == id then RemoveById(s[1..], id)
    else [s[0]] + RemoveById(s[1..], id)
  }

  /**
   * The filter works entry by entry and keeps order and repetitions: the
   * filter of a concatenation is the concatenation of the filters.
   */
  lemma {:induction false} RemoveConcat(a: seq<Note>, b: seq<Note>, id: Option<string>)
    ensures RemoveById(a + b, id) == RemoveById(a, id) + RemoveById(b, id)
  {
    if a == [] {
      assert a + b == b;
    } else {
      var rest := RemoveById(a[1..] + b, id);
      assert (a + b)[1..] == a[1..] + b;
      assert (a + b)[0] == a[0];
      RemoveConcat(a[1..], b, id);
      assert rest == RemoveById(a[1..], id) + RemoveById(b, id);
    }
  }

  /** A single entry survives the filter exactly when its id differs. */
  lemma RemoveSingle(n: Note, id: Option<string>)
    ensures RemoveById([n], id) == if n.id == id then [] else [n]
  {
    assert [n][1..] == [];
  }

  /** Removing an id nobody has changes nothing. */
  lemma {:induction false} RemoveAbsent(s: seq<Note>, id: Option<string>)
    requires forall i :: 0 <= i < |s| ==> s[i].id != id
    ensures RemoveById(s, id) == s
  {
    if s != [] {
      RemoveAbsent(s[1..], id);
    }
  }

  /**
   * Overwriting an entry that has `id` with another entry that has `id` does
   * not change what removing `id` leaves: marking a note before removing it
   * is invisible in the result.
   */
  lemma {:induction false} RemoveAfterOverwrite(s: seq<Note>, i: nat, y: Note, id: Option<string>)
    requires i < |s| && s[i].id == id && y.id == id
    ensures RemoveById(s[i := y], id) == RemoveById(s, id)
  {
    if i > 0 {
      RemoveAfterOverwrite(s[1..], i - 1, y, id);
      assert s[i := y][1..] == s[1..][i - 1 := y];
    } else {
      assert s[i := y][1..] == s[1..];
    }
  }

  /** `list.findIndex(n => n._id === id)`: the first index with `id`, or -1. */
  function FindIndex(s: seq<Note>, id: Option<string>): (r: int)
    ensures -1 <= r < |s|
    ensures r >= 0 ==> s[r].id == id
    ensures forall j :: 0 <= j < |s| && (r < 0 || j < r) ==> s[j].id != id
  {
    if s == [] then -1
    else if s[0].id == id then 0
    else var k := FindIndex(s[1..], id); if k < 0 then -1 else k + 1
  }

  /** `updatedAt || createdAt` in milliseconds. */
  function RecencyKey(n: Note): int {
    n.updatedAt.GetOr(n.createdAt)
  }

  /** Non-increasing recency: the comparator `key(b) - key(a)` is respected. */
  predicate RecentFirst(s: seq<Note>) {
    forall i, j :: 0 <= i < j < |s| ==> RecencyKey(s[i]) >= RecencyKey(s[j])
  }

  /** The entries of `s` whose recency is `k`, in their order in `s`. */
  function WithKey(s: seq<Note>, k: int): seq<Note> {
    if s == [] then []
    else (if RecencyKey(s[0]) == k then [s[0]] else []) + WithKey(s[1..], k)
  }

  /** `x` placed before the first entry that is not more recent than it. */
  function Place(x: Note, s: seq<Note>): (r: seq<Note>)
    ensures multiset(r) == multiset(s) + multiset{x}
  {
    if s == [] then [x]
    else if RecencyKey(s[0]) <= RecencyKey(x) then [x] + s
    else
      assert s == [s[0]] + s[1..];
      [s[0]] + Place(x, s[1..])
  }

  /** Placing keeps a most-recent-first list most-recent-first. */
  lemma {:induction false} PlaceSorted(x: Note, s: seq<Note>)
    requires RecentFirst(s)
    ensures RecentFirst(Place(x, s))
  {
    if s != [] && RecencyKey(s[0]) > RecencyKey(x) {
      var rest := Place(x, s[1..]);
      PlaceSorted(x, s[1..]);
      forall j | 0 <= j < |rest| ensures RecencyKey(s[0]) >= RecencyKey(rest[j]) {
        assert rest[j] in multiset(rest);
        if rest[j] != x {
          assert rest[j] in multiset(s[1..]);
        }
      }
      assert Place(x, s) == [s[0]] + rest;
    }
  }

  /** Placing `x` puts it in front of the entries that share its recency. */
  lemma {:induction false} PlaceWithKey(x: Note, s: seq<Note>, k: int)
    ensures WithKey(Place(x, s), k) == (if RecencyKey(x) == k then [x] else []) + WithKey(s, k)
  {
    var mine: seq<Note> := if RecencyKey(x) == k then [x] else [];
    if s == [] {
      assert WithKey([x], k) == mine + WithKey([x][1..], k);
    } else if RecencyKey(s[0]) <= RecencyKey(x) {
      var r := [x] + s;
      assert r[0] == x && r[1..] == s;
      assert WithKey(r, k) == mine + WithKey(s, k);
    } else {
      var rest := Place(x, s[1..]);
      var r := [s[0]] + rest;
      var first: seq<Note> := if RecencyKey(s[0]) == k then [s[0]] else [];
      PlaceWithKey(x, s[1..], k);
      assert r[0] == s[0] && r[1..] == rest;
      assert WithKey(r, k) == first + (mine + WithKey(s[1..], k));
      assert WithKey(s, k) == first + WithKey(s[1..], k);
      if RecencyKey(x) == k {
        assert first == [];
      } else {
        assert mine == [];
      }
    }
  }

  /** `[...notes].sort((a, b) => key(b) - key(a))` as a stable insertion sort. */
  function SortByRecency(s: seq<Note>): (r: seq<Note>)
    ensures multiset(r) == multiset(s)
    ensures RecentFirst(r)
  {
    if s == [] then []
    else
      var rest := SortByRecency(s[1..]);
      assert s == [s[0]] + s[1..];
      PlaceSorted(s[0], rest);
      Place(s[0], rest)
  }

  /** The sort is stable: entries of equal recency keep their relative order. */
  lemma {:induction false} SortStable(s: seq<Note>, k: int)
    ensures WithKey(SortByRecency(s), k) == WithKey(s, k)
  {
    if s != [] {
      SortStable(s[1..], k);
      PlaceWithKey(s[0], SortByRecency(s[1..]), k);
    }
  }

  /** `trackById`: `note._id || ''`. */
  function TrackById(n: Note): (key: string)
    ensures key == "" <==> !Truthy(n.id)
    ensures Truthy(n.id) ==> key == n.id.value
  {
    n.id.GetOr("")
  }
}
