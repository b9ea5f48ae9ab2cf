/**
 * The notes page of src/app/components/notes/notes.component.ts: its own
 * `notes` array, the editor state (`currentNote`, `showModal`), the save and
 * the optimistic delete flows, the recency-sorted view, and `formatDate`.
 * `confirm()` is the `confirmed` parameter, each request is its completed
 * outcome, the current time is `now` and `toLocaleDateString` is `locale`.
 */
module NotesView {
  import opened Wrappers
  import opened ClientNotes
  import NotesCache

  const MsPerMinute: nat := 60 * 1000
  const MsPerHour: nat := 60 * MsPerMinute
  const MsPerDay: nat := 24 * MsPerHour

  /** The units `formatDate` counts in. */
  datatype TimeUnit = Minute | Hour | Day

  /** What `formatDate` says about a timestamp. */
  datatype Age = NoDate | JustNow | Ago(count: nat, unit: TimeUnit) | OnDate(ms: int)

  /**
   * The branch `formatDate` takes: floors of the difference in seconds,
   * minutes, hours and days, then the largest non-zero unit up to seven days.
   */
  function Describe(date: Option<int>, now: int): Age {
    match date
    case None => NoDate
    case Some(d) =>
      var seconds := (now - d) / 1000;
      var minutes := seconds / 60;
      var hours := minutes / 60;
      var days := hours / 24;
      if days > 7 then OnDate(d)
      else if days > 0 then Ago(days, Day)
      else if hours > 0 then Ago(hours, Hour)
      else if minutes > 0 then Ago(minutes, Minute)
      else JustNow
  }

  /** Division by `b*q + r` with `0 <= r < b` has quotient `q`. */
  lemma DivUnique(a: int, b: int, q: int, r: int)
    requires b > 0 && a == b * q + r && 0 <= r < b
    ensures a / b == q
  {
    var q', r' := a / b, a % b;
    assert b * q' + r' == b * q + r;
    assert b * (q' - q) == r - r';
    MulAwayFromZero(b, q' - q);
  }

  /** A non-zero multiple of a positive number is at least that number in size. */
  lemma MulAwayFromZero(b: int, x: int)
    requires b > 0
    ensures x >= 1 ==> b * x >= b
    ensures x <= -1 ==> b * x <= -b
  {
  }

  /** Multiplying by a non-negative factor keeps `<=`. */
  lemma MulMono(b: int, x: int, y: int)
    requires b >= 0 && x <= y
    ensures b * x <= b * y
  {
  }

  /** Flooring twice is flooring by the product (positive divisors). */
  lemma DivDiv(a: int, b: int, c: int)
    requires b > 0 && c > 0
    ensures a / b / c == a / (b * c)
  {
    var q1, r1 := a / b, a % b;
    var q2, r2 := q1 / c, q1 % c;
    assert a == b * q1 + r1;
    assert q1 == c * q2 + r2;
    calc {
      b * q1;
      b * (c * q2 + r2);
      b * (c * q2) + b * r2;
      (b * c) * q2 + b * r2;
    }
    MulMono(b, r2, c - 1);
    assert b * (c - 1) == b * c - b;
    DivUnique(a, b * c, q2, b * r2 + r1);
  }

  /**
   * `formatDate`'s branches as plain thresholds on the age `now - d`:
   * "Just now" under a minute, then whole minutes, hours, and days up to
   * seven, and the calendar date from eight days on.
   */
  lemma DescribeThresholds(d: int, now: int)
    ensures var a, diff := Describe(Some(d), now), now - d;
      && (a == JustNow <==> diff < MsPerMinute)
      && (a.Ago? && a.unit == Minute <==> MsPerMinute <= diff < MsPerHour)
      && (a.Ago? && a.unit == Hour <==> MsPerHour <= diff < MsPerDay)
      && (a.Ago? && a.unit == Day <==> MsPerDay <= diff < 8 * MsPerDay)
      && (a.OnDate? <==> 8 * MsPerDay <= diff)
      && (a.Ago? && a.unit == Minute ==> a.count == diff / MsPerMinute)
      && (a.Ago? && a.unit == Hour ==> a.count == diff / MsPerHour)
      && (a.Ago? && a.unit == Day ==> a.count == diff / MsPerDay && a.count <= 7)
  {
    var diff := now - d;
    DivDiv(diff, 1000, 60);
    DivDiv(diff, MsPerMinute, 60);
    DivDiv(diff, MsPerHour, 24);
    assert diff / 1000 / 60 == diff / MsPerMinute;
    assert diff / 1000 / 60 / 60 == diff / MsPerHour;
    assert diff / 1000 / 60 / 60 / 24 == diff / MsPerDay;
  }

  /** The decimal digit for `d`. */
  function DigitChar(d: nat): char
    requires d < 10
  {
    "0123456789"[d]
  }

  /** The value of a decimal digit. */
  function DigitValue(c: char): nat {
    if '0' <= c <= '9' then (c as int - '0' as int) as nat else 0
  }

  /** How a number appears in a template literal: its decimal digits, no leading zero. */
  function NatToString(n: nat): (r: string)
    ensures |r| >= 1
    ensures forall i :: 0 <= i < |r| ==> '0' <= r[i] <= '9'
    ensures r[0] == '0' ==> n == 0
  {
    if n < 10 then [DigitChar(n)] else NatToString(n / 10) + [DigitChar(n % 10)]
  }

  /** Reading decimal digits back as a number. */
  function ParseDecimal(s: string): nat {
    if s == [] then 0 else ParseDecimal(s[..|s| - 1]) * 10 + DigitValue(s[|s| - 1])
  }

  /** Printing a count and reading it back gives the count. */
  lemma {:induction false} NatToStringRoundTrip(n: nat)
    ensures ParseDecimal(NatToString(n)) == n
  {
    var r := NatToString(n);
    if n < 10 {
      assert r[..|r| - 1] == [];
    } else {
      NatToStringRoundTrip(n / 10);
      assert r[..|r| - 1] == NatToString(n / 10);
    }
  }

  function UnitName(u: TimeUnit): string {
    match u
    case Minute => "minute"
    case Hour => "hour"
    case Day => "day"
  }

  /** The text `formatDate` returns for each branch; "s" is added only to counts above 1. */
  function Render(a: Age, locale: int -> string): string {
    match a
    case NoDate => ""
    case JustNow => "Just now"
    case Ago(n, u) => NatToString(n) + " " + UnitName(u) + (if n > 1 then "s" else "") + " ago"
    case OnDate(ms) => locale(ms)
  }

  /**
   * `formatDate(date)` at time `now`: "" without a date, "Just now" under a
   * minute, and a count that carries the plural "s" only when it exceeds 1.
   */
  function FormatDate(date: Option<int>, now: int, locale: int -> string): (r: string)
    ensures date.None? ==> r == ""
    ensures date.Some? && now - date.value < MsPerMinute ==> r == "Just now"
    ensures date.Some? && MsPerMinute <= now - date.value < 2 * MsPerMinute ==> r == "1 minute ago"
    ensures date.Some? && MsPerHour <= now - date.value < 2 * MsPerHour ==> r == "1 hour ago"
    ensures date.Some? && MsPerDay <= now - date.value < 2 * MsPerDay ==> r == "1 day ago"
    ensures date.Some? && 8 * MsPerDay <= now - date.value ==> r == locale(date.value)
  {
    match date
    case None => Render(NoDate, locale)
    case Some(d) =>
      DescribeThresholds(d, now);
      Render(Describe(date, now), locale)
  }

  /** Every count between 2 and 59 minutes is spelled with "minutes". */
  lemma FormatMinutes(d: int, now: int, locale: int -> string)
    requires 2 * MsPerMinute <= now - d < MsPerHour
    ensures var n := (now - d) / MsPerMinute;
      2 <= n <= 59 && FormatDate(Some(d), now, locale) == NatToString(n) + " minutes ago"
  {
    DescribeThresholds(d, now);
    DivUnique(now - d, MsPerMinute, (now - d) / MsPerMinute, (now - d) % MsPerMinute);
  }

  /** Every count between 2 and 23 hours is spelled with "hours". */
  lemma FormatHours(d: int, now: int, locale: int -> string)
    requires 2 * MsPerHour <= now - d < MsPerDay
    ensures var n := (now - d) / MsPerHour;
      2 <= n <= 23 && FormatDate(Some(d), now, locale) == NatToString(n) + " hours ago"
  {
    DescribeThresholds(d, now);
    DivUnique(now - d, MsPerHour, (now - d) / MsPerHour, (now - d) % MsPerHour);
  }

  /** Every count between 2 and 7 days is spelled with "days". */
  lemma FormatDays(d: int, now: int, locale: int -> string)
    requires 2 * MsPerDay <= now - d < 8 * MsPerDay
    ensures var n := (now - d) / MsPerDay;
      2 <= n <= 7 && FormatDate(Some(d), now, locale) == NatToString(n) + " days ago"
  {
    DescribeThresholds(d, now);
    DivUnique(now - d, MsPerDay, (now - d) / MsPerDay, (now - d) % MsPerDay);
  }

  /** The notes page component: its list, its editor and its loading flag. */
  class NotesComponent {
    var notes: seq<Note>
    var showModal: bool
    var isLoading: bool
    var currentNote: Draft
    /** The component's own `NotesService` (it is listed in `providers`). */
    const service: NotesCache.NotesService

    constructor (service: NotesCache.NotesService)
      ensures this.service == service
      ensures notes == [] && !showModal && !isLoading && currentNote == BlankDraft
    {
      this.service := service;
      notes, showModal, isLoading, currentNote := [], false, false, BlankDraft;
    }

    /** `sortedNotes`: a copy of `notes` in non-increasing recency; `notes` itself is not touched. */
    function SortedNotes(): (r: seq<Note>)
      reads this
      ensures multiset(r) == multiset(notes)
      ensures RecentFirst(r)
      ensures forall k :: WithKey(r, k) == WithKey(notes, k)
    {
      forall k ensures WithKey(SortByRecency(notes), k) == WithKey(notes, k) {
        SortStable(notes, k);
      }
      SortByRecency(notes)
    }

    /** `loadNotes`: the page and the service both take the server's list on success. */
    method LoadNotes(response: Http<seq<Note>>)
      modifies this, service
      ensures !isLoading
      ensures showModal == old(showModal) && currentNote == old(currentNote)
      ensures response.Success? ==> notes == response.value && service.notes == response.value
      ensures response.Failure? ==> notes == old(notes) && service.notes == old(service.notes)
    {
      isLoading := true;
      var outcome := service.GetNotes(response);
      if outcome.Success? {
        notes := outcome.value;
      }
      isLoading := false;
    }

    /** `openNewNoteModal`: an empty editor, shown. */
    method OpenNewNoteModal()
      modifies this
      ensures currentNote == BlankDraft && showModal
      ensures notes == old(notes) && isLoading == old(isLoading)
    {
      currentNote := BlankDraft;
      showModal := true;
    }

    /** `editNote`: the editor holds a copy of the note, shown. */
    method EditNote(note: Note)
      modifies this
      ensures currentNote == Draft(note.id, note.title, note.content) && showModal
      ensures notes == old(notes) && isLoading == old(isLoading)
    {
      currentNote := Draft(note.id, note.title, note.content);
      showModal := true;
    }

    /** `closeModal`: the editor is hidden and reset to empty title and content. */
    method CloseModal()
      modifies this
      ensures !showModal && currentNote == BlankDraft
      ensures notes == old(notes) && isLoading == old(isLoading)
    {
      showModal := false;
      currentNote := BlankDraft;
    }

    /**
     * `saveNote`: nothing happens for empty content. A draft with an `_id`
     * is an update whose saved note replaces the entries with the saved
     * note's `_id`; otherwise the saved note is appended. Success closes and
     * resets the editor; failure leaves list, editor and modal as they were.
     */
    method SaveNote(response: Http<Note>)
      modifies this, service
      ensures isLoading == old(isLoading)
      ensures old(currentNote).content == "" ==>
        && notes == old(notes) && service.notes == old(service.notes)
        && currentNote == old(currentNote) && showModal == old(showModal)
      ensures old(currentNote).content != "" && response.Failure? ==>
        && notes == old(notes) && service.notes == old(service.notes)
        && currentNote == old(currentNote) && showModal == old(showModal)
      ensures old(currentNote).content != "" && response.Success? ==>
        && !showModal && currentNote == BlankDraft
        && (Truthy(old(currentNote).id) ==>
              && notes == ReplaceById(old(notes), response.value.id, response.value)
              && service.notes == ReplaceById(old(service.notes), old(currentNote).id, response.value))
        && (!Truthy(old(currentNote).id) ==>
              && notes == old(notes) + [response.value]
              && service.notes == old(service.notes) + [response.value])
    {
      if currentNote.content == "" {
        return;
      }
      var outcome;
      if Truthy(currentNote.id) {
        outcome := service.UpdateNote(currentNote.id.value, response);
      } else {
        outcome := service.CreateNote(response);
      }
      if outcome.Success? {
        var saved := outcome.value;
        if Truthy(currentNote.id) {
          notes := ReplaceById(notes, saved.id, saved);
        } else {
          notes := notes + [saved];
        }
        CloseModal();
      }
    }

    /** `generateTitle`: with content, a success puts the server's title into the editor. */
    method GenerateTitle(response: Http<string>)
      modifies this
      ensures notes == old(notes) && showModal == old(showModal) && isLoading == old(isLoading)
      ensures old(currentNote).content != "" && response.Success? ==>
        currentNote == old(currentNote).(title := response.value)
      ensures old(currentNote).content == "" || response.Failure? ==> currentNote == old(currentNote)
    {
      if currentNote.content == "" {
        return;
      }
      var outcome := service.GenerateTitle(currentNote.content, response);
      if outcome.Success? {
        currentNote := currentNote.(title := outcome.value);
      }
    }

    /**
     * The first half of `deleteNote`, once confirmed: the entry found by
     * `_id` is replaced by the note marked `isDeleting`, nothing else changes.
     */
    method MarkDeleting(note: Note) returns (noteIndex: int)
      modifies this
      ensures noteIndex == FindIndex(old(notes), note.id)
      ensures noteIndex >= 0 ==> notes == old(notes)[noteIndex := note.(isDeleting := true)]
      ensures noteIndex < 0 ==> notes == old(notes)
      ensures currentNote == old(currentNote) && showModal == old(showModal) && isLoading == old(isLoading)
    {
      noteIndex := FindIndex(notes, note.id);
      if noteIndex != -1 {
        notes := notes[noteIndex := note.(isDeleting := true)];
      }
    }

    /**
     * The second half of `deleteNote`: success drops every entry with the
     * note's `_id`; failure writes the note back, not deleting, at the index
     * found before the request.
     */
    method SettleDelete(note: Note, noteIndex: int, response: Http<()>)
      requires -1 <= noteIndex < |notes|
      modifies this
      ensures response.Success? ==> notes == RemoveById(old(notes), note.id)
      ensures response.Failure? && noteIndex >= 0 ==> notes == old(notes)[noteIndex := note.(isDeleting := false)]
      ensures response.Failure? && noteIndex < 0 ==> notes == old(notes)
      ensures currentNote == old(currentNote) && showModal == old(showModal) && isLoading == old(isLoading)
    {
      if response.Success? {
        notes := RemoveById(notes, note.id);
      } else if noteIndex != -1 {
        notes := notes[noteIndex := note.(isDeleting := false)];
      }
    }

    /**
     * `deleteNote`: a note without `_id`, or a declined confirmation, changes
     * nothing. A confirmed delete that succeeds removes every entry with that
     * `_id`; one that fails keeps the length and puts the note back, not
     * deleting, where it was, so an entry that was not marked is restored
     * exactly.
     */
    method DeleteNote(note: Note, confirmed: bool, response: Http<()>)
      modifies this
      ensures currentNote == old(currentNote) && showModal == old(showModal) && isLoading == old(isLoading)
      ensures !Truthy(note.id) || !confirmed ==> notes == old(notes)
      ensures Truthy(note.id) && confirmed && response.Success? ==> notes == RemoveById(old(notes), note.id)
      ensures Truthy(note.id) && confirmed && response.Failure? ==>
        var i := FindIndex(old(notes), note.id);
        && |notes| == |old(notes)|
        && (i >= 0 ==> notes == old(notes)[i := note.(isDeleting := false)])
        && (i < 0 ==> notes == old(notes))
        && (i >= 0 && old(notes)[i] == note && !note.isDeleting ==> notes == old(notes))
    {
      if !Truthy(note.id) || !confirmed {
        return;
      }
      ghost var before := notes;
      var noteIndex := MarkDeleting(note);
      var outcome := service.DeleteNote(note.id.value, response);
      SettleDelete(note, noteIndex, outcome);
      if noteIndex >= 0 && outcome.Success? {
        RemoveAfterOverwrite(before, noteIndex, note.(isDeleting := true), note.id);
      }
    }
  }
}
