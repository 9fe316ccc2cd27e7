/** The public events page (src/app/events/page.tsx): which events are
    listed as upcoming and in what order, and the RSVP form that becomes an
    insert into the RSVP table. Times are milliseconds since the epoch; the
    page's `Date.now()` is the parameter `now`. */
module Events {
  import opened Wrappers
  import opened Strings
  import Seqs
  import TextRepair

  /** An event row as the page reads it. `start` is `starts_at` parsed by
      `new Date(..).getTime()`: `None` when that is NaN. */
  datatype Event = Event(id: string, title: string, start: Option<int>, status: string)

  /** The grace period: an event stays listed for six hours after it
      starts. */
  const GraceMs: int := 6 * 60 * 60 * 1000

  predicate Published(e: Event) {
    e.status == "published"
  }

  /** The time test: a parseable start at most six hours ago, or a start
      that does not parse. */
  predicate InWindow(e: Event, now: int) {
    e.start.Some? ==> e.start.value >= now - GraceMs
  }

  /** What the page promises to list. */
  predicate Visible(e: Event, now: int) {
    Published(e) && InWindow(e, now)
  }

  predicate Timed(e: Event) {
    e.start.Some?
  }

  function StartKey(e: Event): int {
    if e.start.Some? then e.start.value else 0
  }

  /** `upcoming`: the published events, then those in the time window, then
      sorted soonest first. Events whose start does not parse have no
      defined place under the page's comparator; they are placed after the
      timed ones, in load order. */
  function Upcoming(events: seq<Event>, now: int): (r: seq<Event>)
    ensures forall i :: 0 <= i < |r| ==> Visible(r[i], now)
    ensures multiset(r) == multiset(Seqs.Filter(events, (e: Event) => Visible(e, now)))
    ensures TimedFirst(r)
  {
    var published := Seqs.Filter(events, Published);
    var shown := Seqs.Filter(published, (e: Event) => InWindow(e, now));
    var timed := Seqs.SortBy(Seqs.Filter(shown, Timed), StartKey);
    var untimed := Seqs.Filter(shown, (e: Event) => !Timed(e));
    UpcomingParts(events, now, shown, timed, untimed);
    timed + untimed
  }

  lemma UpcomingParts(events: seq<Event>, now: int, shown: seq<Event>, timed: seq<Event>, untimed: seq<Event>)
    requires shown == Seqs.Filter(Seqs.Filter(events, Published), (e: Event) => InWindow(e, now))
    requires multiset(timed) == multiset(Seqs.Filter(shown, Timed)) && Seqs.SortedBy(timed, StartKey)
    requires untimed == Seqs.Filter(shown, (e: Event) => !Timed(e))
    ensures forall i :: 0 <= i < |timed + untimed| ==> Visible((timed + untimed)[i], now)
    ensures multiset(timed + untimed) == multiset(Seqs.Filter(events, (e: Event) => Visible(e, now)))
    ensures TimedFirst(timed + untimed)
  {
    ShownVisible(events, now, shown);
    Seqs.FilterPartition(shown, Timed, (e: Event) => !Timed(e));
    assert multiset(timed + untimed) == multiset(shown);
    TimedPartVisible(shown, now, Seqs.Filter(shown, Timed), timed);
    UntimedPartVisible(shown, now, untimed);
    var r := timed + untimed;
    forall i | 0 <= i < |r|
      ensures Visible(r[i], now)
    {
      if i < |timed| {
        assert r[i] == timed[i];
      } else {
        assert r[i] == untimed[i - |timed|];
      }
    }
    TimedFirstAppend(timed, untimed);
  }

  /** The two filters keep exactly the visible events. */
  lemma ShownVisible(events: seq<Event>, now: int, shown: seq<Event>)
    requires shown == Seqs.Filter(Seqs.Filter(events, Published), (e: Event) => InWindow(e, now))
    ensures shown == Seqs.Filter(events, (e: Event) => Visible(e, now))
    ensures forall i :: 0 <= i < |shown| ==> Visible(shown[i], now)
  {
    Seqs.FilterThenFilter(events, Published, (e: Event) => InWindow(e, now), (e: Event) => Visible(e, now));
  }

  lemma TimedPartVisible(shown: seq<Event>, now: int, f: seq<Event>, timed: seq<Event>)
    requires forall i :: 0 <= i < |shown| ==> Visible(shown[i], now)
    requires f == Seqs.Filter(shown, Timed)
    requires multiset(timed) == multiset(f)
    ensures forall i :: 0 <= i < |timed| ==> Visible(timed[i], now) && Timed(timed[i])
  {
    var q := (e: Event) => Visible(e, now) && Timed(e);
    Seqs.FilterKeeps(shown, Timed, (e: Event) => Visible(e, now));
    assert forall k :: 0 <= k < |f| ==> q(f[k]);
    Seqs.PermutationKeeps(f, timed, q);
  }

  lemma UntimedPartVisible(shown: seq<Event>, now: int, untimed: seq<Event>)
    requires forall i :: 0 <= i < |shown| ==> Visible(shown[i], now)
    requires untimed == Seqs.Filter(shown, (e: Event) => !Timed(e))
    ensures forall i :: 0 <= i < |untimed| ==> Visible(untimed[i], now) && !Timed(untimed[i])
  {
    forall i | 0 <= i < |untimed|
      ensures Visible(untimed[i], now) && !Timed(untimed[i])
    {
      var k :| 0 <= k < |shown| && shown[k] == untimed[i];
    }
  }

  /** Timed events come first, soonest first; untimed ones follow. */
  predicate TimedFirst(r: seq<Event>) {
    forall i, j :: 0 <= i < j < |r| && Timed(r[j]) ==> Timed(r[i]) && StartKey(r[i]) <= StartKey(r[j])
  }

  lemma TimedFirstAppend(timed: seq<Event>, untimed: seq<Event>)
    requires Seqs.SortedBy(timed, StartKey)
    requires forall i :: 0 <= i < |timed| ==> Timed(timed[i])
    requires forall i :: 0 <= i < |untimed| ==> !Timed(untimed[i])
    ensures TimedFirst(timed + untimed)
  {
    var r := timed + untimed;
    forall i, j | 0 <= i < j < |r| && Timed(r[j])
      ensures Timed(r[i]) && StartKey(r[i]) <= StartKey(r[j])
    {
      if j >= |timed| {
        assert false;
      }
    }
  }

  /** An event is listed exactly when it was loaded and is visible. */
  lemma UpcomingMembers(events: seq<Event>, now: int, e: Event)
    ensures e in Upcoming(events, now) <==> e in events && Visible(e, now)
  {
    var r := Upcoming(events, now);
    var vis := Seqs.Filter(events, (x: Event) => Visible(x, now));
    assert e in r <==> e in multiset(r);
    assert e in vis <==> e in multiset(vis);
  }

  /** Drafts and cancelled events are never listed, and a published event
      that started more than six hours ago is gone. */
  lemma StaleEventHidden(events: seq<Event>, now: int, e: Event)
    requires e.start.Some? && e.start.value < now - GraceMs
    ensures e !in Upcoming(events, now)
  {
    UpcomingMembers(events, now, e);
  }

  // ---------------------------------------------------------------------
  // RSVP form

  /** The RSVP form state: the event it is open for, the fields, the count
      input, and the success and error messages. */
  datatype RsvpForm = RsvpForm(
    openId: Option<string>, name: string, email: string, phone: string,
    count: int, note: string, ok: Option<string>, err: Option<string>)

  /** `openRsvp(id)`: opens the form for one event with every field back
      at its initial value. */
  function OpenRsvp(f: RsvpForm, id: string): (g: RsvpForm)
    ensures g.openId == Some(id) && g.ok.None? && g.err.None?
    ensures g.name == "" && g.email == "" && g.phone == "" && g.note == "" && g.count == 1
  {
    RsvpForm(Some(id), "", "", "", 1, "", None, None)
  }

  /** Opening the form forgets everything typed for an earlier event. */
  lemma OpenRsvpForgets(f: RsvpForm, f': RsvpForm, id: string)
    ensures OpenRsvp(f, id) == OpenRsvp(f', id)
    ensures OpenRsvp(f, id).name == "" && OpenRsvp(f, id).count == 1
  {
  }

  /** The inserted RSVP. */
  datatype RsvpPayload = RsvpPayload(
    eventId: string, name: string, email: Option<string>, phone: Option<string>,
    count: int, note: Option<string>)

  const NameRequired: string := "Name is required."

  /** What `submitRsvp` does before the database call: nothing without an
      open event, an error for a blank cleaned name, an insert otherwise. */
  datatype RsvpOutcome = NotOpen | Rejected(message: string) | Insert(payload: RsvpPayload)

  function SubmitRsvp(f: RsvpForm): (r: RsvpOutcome)
    ensures r.NotOpen? <==> f.openId.None? || f.openId.value == ""
    ensures r.Rejected? <==> !r.NotOpen? && TextRepair.Clean(f.name) == ""
    ensures r.Rejected? ==> r.message == NameRequired
    ensures r.Insert? ==> r.payload.count == 1 && r.payload.name != "" && Some(r.payload.eventId) == f.openId
    ensures r.Insert? ==> TextRepair.Normalized(r.payload.name)
    ensures r.Insert? ==> r.payload.name == TextRepair.Clean(f.name)
    ensures r.Insert? ==> (r.payload.email.None? <==> TextRepair.Clean(f.email) == "")
    ensures r.Insert? && r.payload.email.Some? ==> r.payload.email.value == TextRepair.Clean(f.email)
    ensures r.Insert? ==> (r.payload.phone.None? <==> TextRepair.Clean(f.phone) == "")
    ensures r.Insert? && r.payload.phone.Some? ==> r.payload.phone.value == TextRepair.Clean(f.phone)
    ensures r.Insert? ==> (r.payload.note.None? <==> TextRepair.Clean(f.note) == "")
    ensures r.Insert? && r.payload.note.Some? ==> r.payload.note.value == TextRepair.Clean(f.note)
  {
    if f.openId.None? || f.openId.value == "" then NotOpen
    else
      var payload := RsvpPayload(
        f.openId.value,
        TextRepair.Clean(f.name),
        OrNull(TextRepair.Clean(f.email)),
        OrNull(TextRepair.Clean(f.phone)),
        1,
        OrNull(TextRepair.Clean(f.note)));
      if IsBlank(payload.name) then Rejected(NameRequired) else Insert(payload)
  }

  /** Whatever the count input holds, one person is recorded. */
  lemma SubmitIgnoresCount(f: RsvpForm, c: int)
    ensures SubmitRsvp(f.(count := c)) == SubmitRsvp(f)
    ensures SubmitRsvp(f).Insert? ==> SubmitRsvp(f.(count := c)).payload.count == 1
  {
  }

  /** The outcome depends on the form only through the open event and the
      cleaned text fields: two forms whose fields clean alike submit alike. */
  lemma SubmitSeesCleanedFields(f: RsvpForm, g: RsvpForm)
    requires f.openId == g.openId
    requires TextRepair.Clean(f.name) == TextRepair.Clean(g.name)
    requires TextRepair.Clean(f.email) == TextRepair.Clean(g.email)
    requires TextRepair.Clean(f.phone) == TextRepair.Clean(g.phone)
    requires TextRepair.Clean(f.note) == TextRepair.Clean(g.note)
    ensures SubmitRsvp(f) == SubmitRsvp(g)
  {
  }

  /** A form just opened cannot be submitted: its name is empty. */
  lemma FreshFormRejected(f: RsvpForm, id: string)
    requires id != ""
    ensures SubmitRsvp(OpenRsvp(f, id)) == Rejected(NameRequired)
  {
    TextRepair.ApplyRulesEmpty();
  }

  /** Every optional field that is present is non-empty cleaned text. */
  lemma InsertedFieldsClean(f: RsvpForm)
    requires SubmitRsvp(f).Insert?
    ensures var p := SubmitRsvp(f).payload;
      (p.email.Some? ==> p.email.value != "" && TextRepair.Normalized(p.email.value)) &&
      (p.phone.Some? ==> p.phone.value != "" && TextRepair.Normalized(p.phone.value)) &&
      (p.note.Some? ==> p.note.value != "" && TextRepair.Normalized(p.note.value))
  {
  }
}
