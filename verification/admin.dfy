/** The admin page (src/app/admin/page.tsx): searching and selecting
    submitted stories, validating the event form into an insert or update,
    and the rows of the RSVP export. */
module AdminPanel {
  import opened Wrappers
  import opened Strings
  import Seqs
  import TextRepair
  import Csv
  import Numbers

  /** A submitted story, with the fields the search reads. */
  datatype Story = Story(id: string, name: string, title: string, content: string, status: string)

  /** The status selector: "all" or one story status. */
  predicate StatusMatches(s: Story, statusFilter: string) {
    statusFilter == "all" || s.status == statusFilter
  }

  /** `cleanText(x).toLowerCase()` */
  function Folded(x: string): string {
    Lower(TextRepair.CleanText(Some(x)))
  }

  /** The search test for an already folded query. */
  predicate QueryMatches(s: Story, qq: string) {
    qq == "" || Contains(Folded(s.title), qq) || Contains(Folded(s.name), qq) || Contains(Folded(s.content), qq)
  }

  /** `filteredStories`: the status filter, then the search filter. */
  function FilteredStories(stories: seq<Story>, statusFilter: string, q: string): (r: seq<Story>)
    ensures forall i :: 0 <= i < |r| ==> StatusMatches(r[i], statusFilter) && QueryMatches(r[i], Folded(q))
    ensures forall i :: 0 <= i < |stories| ==>
      (stories[i] in r <==> StatusMatches(stories[i], statusFilter) && QueryMatches(stories[i], Folded(q)))
    ensures |r| <= |stories|
  {
    var qq := Folded(q);
    var byStatus := Seqs.Filter(stories, (s: Story) => StatusMatches(s, statusFilter));
    Seqs.Filter(byStatus, (s: Story) => QueryMatches(s, qq))
  }

  /** The filtered list keeps the stories' order. */
  lemma FilteredStoriesOrdered(stories: seq<Story>, statusFilter: string, q: string)
    ensures Seqs.IsSubsequence(FilteredStories(stories, statusFilter, q), stories)
  {
    var qq := Folded(q);
    var byStatus := Seqs.Filter(stories, (s: Story) => StatusMatches(s, statusFilter));
    Seqs.FilterIsSubsequence(stories, (s: Story) => StatusMatches(s, statusFilter));
    Seqs.FilterIsSubsequence(byStatus, (s: Story) => QueryMatches(s, qq));
    SubsequenceTrans(FilteredStories(stories, statusFilter, q), byStatus, stories);
  }

  lemma {:induction false} SubsequenceTrans(a: seq<Story>, b: seq<Story>, c: seq<Story>)
    requires Seqs.IsSubsequence(a, b) && Seqs.IsSubsequence(b, c)
    ensures Seqs.IsSubsequence(a, c)
    decreases |c|
  {
    if a != [] && c != [] {
      if b[0] == c[0] && Seqs.IsSubsequence(b[1..], c[1..]) {
        if a[0] == b[0] && Seqs.IsSubsequence(a[1..], b[1..]) {
          SubsequenceTrans(a[1..], b[1..], c[1..]);
        } else {
          SubsequenceTrans(a, b[1..], c[1..]);
        }
      } else {
        SubsequenceTrans(a, b, c[1..]);
      }
    }
  }

  /** A query that cleans to nothing keeps every story of the chosen status,
      and "all" with such a query keeps the whole list. */
  lemma BlankQueryKeepsStatusMatches(stories: seq<Story>, statusFilter: string, q: string)
    requires TextRepair.CleanText(Some(q)) == ""
    ensures FilteredStories(stories, statusFilter, q)
         == Seqs.Filter(stories, (s: Story) => StatusMatches(s, statusFilter))
    ensures statusFilter == "all" ==> FilteredStories(stories, statusFilter, q) == stories
  {
    assert Folded(q) == "";
    var byStatus := Seqs.Filter(stories, (s: Story) => StatusMatches(s, statusFilter));
    Seqs.FilterAll(byStatus, (s: Story) => QueryMatches(s, ""));
    if statusFilter == "all" {
      Seqs.FilterAll(stories, (s: Story) => StatusMatches(s, statusFilter));
    }
  }

  /** `selectedStory`: the first listed story with the selected id, else
      null; nothing is selected once the story is filtered out. */
  function SelectedStory(filtered: seq<Story>, selectedId: Option<string>): (r: Option<Story>)
    ensures r.Some? ==> r.value in filtered && Some(r.value.id) == selectedId
    ensures (exists i :: 0 <= i < |filtered| && Some(filtered[i].id) == selectedId) <==> r.Some?
    ensures forall k :: FirstSelected(filtered, selectedId, k) ==> r == Some(filtered[k])
    ensures selectedId.None? ==> r.None?
  {
    SelectedIsFirst(filtered, selectedId);
    Seqs.Find(filtered, Selects(selectedId))
  }

  /** `(s) => s.id === selectedId` */
  function Selects(selectedId: Option<string>): Story -> bool {
    (s: Story) => Some(s.id) == selectedId
  }

  /** Story `k` is the first listed story with the selected id. */
  predicate FirstSelected(filtered: seq<Story>, selectedId: Option<string>, k: int) {
    0 <= k < |filtered| && Some(filtered[k].id) == selectedId
    && forall j :: 0 <= j < k ==> Some(filtered[j].id) != selectedId
  }

  lemma SelectedIsFirst(filtered: seq<Story>, selectedId: Option<string>)
    ensures forall k :: FirstSelected(filtered, selectedId, k) ==>
      Seqs.Find(filtered, Selects(selectedId)) == Some(filtered[k])
  {
    forall k | FirstSelected(filtered, selectedId, k)
      ensures Seqs.Find(filtered, Selects(selectedId)) == Some(filtered[k])
    {
      Seqs.FindFirst(filtered, Selects(selectedId), k);
    }
  }

  // ---------------------------------------------------------------------
  // Event form

  /** The event form. `startIso`/`endIso` are what `toIsoFromLocal` made of
      the date inputs: `None` for an empty or unparseable input. */
  datatype EventForm = EventForm(
    id: Option<string>, title: string, description: string, location: string,
    startIso: Option<string>, endIso: Option<string>, status: string)

  datatype EventPayload = EventPayload(
    title: string, description: string, location: Option<string>,
    startsAt: string, endsAt: Option<string>, status: string)

  datatype EventWrite = Update(id: string, payload: EventPayload) | Insert(payload: EventPayload)

  const TitleRequired: string := "Title is required."
  const DescriptionRequired: string := "Description is required."
  const StartRequired: string := "Start date/time is required."

  /** The three checks of `saveEvent`, in order. `!cleanText(x).trim()` is
      the same as the cleaned text being empty, since cleaned text has no
      edge whitespace. */
  function EventError(f: EventForm): (r: Option<string>)
    ensures r.None? <==> TextRepair.Clean(f.title) != "" && TextRepair.Clean(f.description) != "" && f.startIso.Some? && f.startIso.value != ""
    ensures TextRepair.Clean(f.title) == "" ==> r == Some(TitleRequired)
    ensures TextRepair.Clean(f.title) != "" && TextRepair.Clean(f.description) == "" ==> r == Some(DescriptionRequired)
    ensures (TextRepair.Clean(f.title) != "" && TextRepair.Clean(f.description) != ""
             && (f.startIso.None? || f.startIso.value == "")) ==> r == Some(StartRequired)
  {
    if IsBlank(TextRepair.Clean(f.title)) then Some(TitleRequired)
    else if IsBlank(TextRepair.Clean(f.description)) then Some(DescriptionRequired)
    else if f.startIso.None? || f.startIso.value == "" then Some(StartRequired)
    else None
  }

  /** `saveEvent` up to the database call: the checks, then an update when
      the form holds an event id and an insert otherwise, with the text
      fields cleaned and an empty location sent as null. */
  function SaveEvent(f: EventForm): (r: Result<EventWrite, string>)
    ensures r.Err? <==> EventError(f).Some?
    ensures r.Err? ==> r.error == EventError(f).value
    ensures r.Ok? ==> r.value.payload.title != "" && r.value.payload.description != ""
    ensures r.Ok? ==> r.value.payload.title == TextRepair.Clean(f.title) && r.value.payload.description == TextRepair.Clean(f.description)
    ensures r.Ok? ==> (r.value.payload.location.None? <==> TextRepair.Clean(f.location) == "")
    ensures r.Ok? && r.value.payload.location.Some? ==> r.value.payload.location.value == TextRepair.Clean(f.location)
    ensures r.Ok? ==> f.startIso.Some? && r.value.payload.startsAt == f.startIso.value && r.value.payload.startsAt != ""
    ensures r.Ok? ==> r.value.payload.endsAt == f.endIso && r.value.payload.status == f.status
    ensures r.Ok? ==> (r.value.Update? <==> f.id.Some? && f.id.value != "")
    ensures r.Ok? && r.value.Update? ==> Some(r.value.id) == f.id
  {
    match EventError(f)
    case Some(e) => Err(e)
    case None =>
      var payload := EventPayload(TextRepair.Clean(f.title), TextRepair.Clean(f.description), OrNull(TextRepair.Clean(f.location)),
                                  f.startIso.value, f.endIso, f.status);
      if f.id.Some? && f.id.value != "" then Ok(Update(f.id.value, payload)) else Ok(Insert(payload))
  }

  /** Checks are made in order: a blank title is reported whatever the
      description and start hold. */
  lemma TitleCheckedFirst(f: EventForm)
    requires TextRepair.Clean(f.title) == ""
    ensures SaveEvent(f) == Err(TitleRequired)
  {
    assert EventError(f) == Some(TitleRequired);
  }

  // ---------------------------------------------------------------------
  // RSVP export

  /** An RSVP as loaded; `createdAtIso` is the timestamp already converted
      with `toISOString`. */
  datatype Rsvp = Rsvp(createdAtIso: string, name: Option<string>, email: Option<string>,
                       phone: Option<string>, note: Option<string>, count: Option<int>)

  const RsvpHeaders: seq<string> := ["created_at", "name", "email", "phone", "note", "count"]

  /** The record the "Download CSV" button builds for one RSVP: the text
      fields cleaned, and a missing count exported as 1. */
  function RsvpRow(r: Rsvp): (row: Csv.Row)
    ensures Csv.Keys(row) == RsvpHeaders
    ensures forall k :: 0 <= k < |row| ==> row[k].1.Some?
    ensures row[0].1.value == r.createdAtIso
    ensures row[1].1.value == TextRepair.CleanText(r.name)
    ensures row[2].1.value == TextRepair.Clean(r.email.GetOr(""))
    ensures row[3].1.value == TextRepair.Clean(r.phone.GetOr(""))
    ensures row[4].1.value == TextRepair.Clean(r.note.GetOr(""))
    ensures row[5].1.value == Numbers.IntToString(r.count.GetOr(1))
  {
    var name := TextRepair.CleanText(r.name);
    var email := TextRepair.Clean(r.email.GetOr(""));
    var phone := TextRepair.Clean(r.phone.GetOr(""));
    var note := TextRepair.Clean(r.note.GetOr(""));
    var count := Numbers.IntToString(r.count.GetOr(1));
    RowShape(r.createdAtIso, name, email, phone, note, count)
  }

  function RowShape(created: string, name: string, email: string, phone: string, note: string, count: string): (row: Csv.Row)
    ensures Csv.Keys(row) == RsvpHeaders
    ensures forall k :: 0 <= k < |row| ==> row[k].1.Some?
    ensures row[0].1 == Some(created) && row[1].1 == Some(name) && row[2].1 == Some(email)
    ensures row[3].1 == Some(phone) && row[4].1 == Some(note) && row[5].1 == Some(count)
  {
    [("created_at", Some(created)), ("name", Some(name)), ("email", Some(email)),
     ("phone", Some(phone)), ("note", Some(note)), ("count", Some(count))]
  }

  /** An RSVP with no count is exported with count 1. */
  lemma RsvpCountDefault(r: Rsvp)
    requires r.count.None?
    ensures Numbers.ParseInt(RsvpRow(r)[5].1.value) == 1
  {
    Numbers.IntRoundTrip(1);
  }

  /** The export of a non-empty RSVP list reads back as the fixed header
      line and one line of cleaned fields per RSVP. */
  lemma RsvpExportRoundTrip(rsvps: seq<Rsvp>)
    requires rsvps != []
    ensures var rows := Seqs.Map(rsvps, RsvpRow);
      Csv.BuildCsv(rows).Some? && Csv.ParseDoc(Csv.BuildCsv(rows).value) == Some(Csv.Table(rows))
    ensures Csv.Table(Seqs.Map(rsvps, RsvpRow))[0] == RsvpHeaders
  {
    var rows := Seqs.Map(rsvps, RsvpRow);
    assert Csv.Keys(rows[0]) == RsvpHeaders;
    Csv.BuildCsvRoundTrip(rows);
  }
}
