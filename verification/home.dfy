/** The home page (src/app/page.tsx): the organisation counts read from the
    stats row, with several possible column names, and the expandable
    history list. */
module Home {
  import opened Wrappers
  import opened Numbers

  /** `asNumber`: null and undefined stay null, a non-finite coercion
      becomes null. The argument is `None` for null/undefined, otherwise
      what `Number(v)` gives. */
  function AsNumber(v: Option<Num>): (r: Option<real>)
    ensures r.Some? <==> v.Some? && v.value.Finite?
    ensures r.Some? ==> r.value == v.value.v
  {
    match v
    case None => None
    case Some(NonFinite) => None
    case Some(Finite(x)) => Some(x)
  }

  /** `asNumber(a) ?? asNumber(b) ?? ...` over the candidate columns. */
  function FirstNumber(candidates: seq<Option<Num>>): (r: Option<real>)
    ensures r.Some? <==> exists i :: 0 <= i < |candidates| && AsNumber(candidates[i]).Some?
    ensures r.Some? ==> exists i :: 0 <= i < |candidates| && AsNumber(candidates[i]) == r &&
                          forall j :: 0 <= j < i ==> AsNumber(candidates[j]).None?
  {
    if candidates == [] then None
    else match AsNumber(candidates[0])
      case Some(x) => Some(x)
      case None =>
        var r := FirstNumber(candidates[1..]);
        assert forall i :: 1 <= i < |candidates| ==> candidates[i] == candidates[1..][i - 1];
        r
  }

  /** The first row of `org_stats`, with the columns the page looks at. */
  datatype StatsRow = StatsRow(
    memberCount: Option<Num>, strength: Option<Num>, currentStrength: Option<Num>,
    volunteerCount: Option<Num>, volunteers: Option<Num>, volunteersCount: Option<Num>)

  const NoStats: StatsRow := StatsRow(None, None, None, None, None, None)

  /** `??` over three columns: the first finite one wins. */
  function FirstOfThree(a: Option<Num>, b: Option<Num>, c: Option<Num>): (r: Option<real>)
    ensures AsNumber(a).Some? ==> r == AsNumber(a)
    ensures AsNumber(a).None? && AsNumber(b).Some? ==> r == AsNumber(b)
    ensures AsNumber(a).None? && AsNumber(b).None? ==> r == AsNumber(c)
  {
    var cs := [a, b, c];
    assert cs[1..] == [b, c] && cs[1..][1..] == [c] && [c][1..] == [];
    assert FirstNumber([c]) == AsNumber(c);
    assert AsNumber(b).None? ==> FirstNumber([b, c]) == AsNumber(c);
    assert AsNumber(a).None? ==> FirstNumber(cs) == FirstNumber([b, c]);
    FirstNumber(cs)
  }

  /** `member_count ?? strength ?? current_strength` */
  function MemberCount(s: StatsRow): (r: Option<real>)
    ensures AsNumber(s.memberCount).Some? ==> r == AsNumber(s.memberCount)
    ensures AsNumber(s.memberCount).None? && AsNumber(s.strength).Some? ==> r == AsNumber(s.strength)
    ensures AsNumber(s.memberCount).None? && AsNumber(s.strength).None? ==> r == AsNumber(s.currentStrength)
  {
    FirstOfThree(s.memberCount, s.strength, s.currentStrength)
  }

  /** `volunteer_count ?? volunteers ?? volunteers_count` */
  function VolunteerCount(s: StatsRow): (r: Option<real>)
    ensures AsNumber(s.volunteerCount).Some? ==> r == AsNumber(s.volunteerCount)
    ensures AsNumber(s.volunteerCount).None? && AsNumber(s.volunteers).Some? ==> r == AsNumber(s.volunteers)
    ensures AsNumber(s.volunteerCount).None? && AsNumber(s.volunteers).None? ==> r == AsNumber(s.volunteersCount)
  {
    FirstOfThree(s.volunteerCount, s.volunteers, s.volunteersCount)
  }

  /** `statsRows?.[0] ?? null`: only the first row is read. */
  function FirstRow(rows: seq<StatsRow>): StatsRow {
    if rows == [] then NoStats else rows[0]
  }

  /** The two counts on the page; `None` renders as a dash. */
  datatype Counts = Counts(members: Option<real>, volunteers: Option<real>)

  /** The stats part of the page's load effect. `rows` is `None` when the
      query failed; `alive` is false once the page has gone away. */
  function LoadStats(prev: Counts, rows: Option<seq<StatsRow>>, alive: bool): (c: Counts)
    ensures rows.None? || !alive ==> c == prev
    ensures rows.Some? && alive && MemberCount(FirstRow(rows.value)).Some? ==> c.members == MemberCount(FirstRow(rows.value))
    ensures rows.Some? && alive && MemberCount(FirstRow(rows.value)).None? ==> c.members == prev.members
    ensures rows.Some? && alive && VolunteerCount(FirstRow(rows.value)).Some? ==> c.volunteers == VolunteerCount(FirstRow(rows.value))
    ensures rows.Some? && alive && VolunteerCount(FirstRow(rows.value)).None? ==> c.volunteers == prev.volunteers
    ensures c.members.None? ==> prev.members.None?
    ensures c.volunteers.None? ==> prev.volunteers.None?
  {
    if rows.None? || !alive then prev
    else
      var mc := MemberCount(FirstRow(rows.value));
      var vc := VolunteerCount(FirstRow(rows.value));
      Counts(if mc.Some? then mc else prev.members, if vc.Some? then vc else prev.volunteers)
  }

  /** A missing stats row leaves both counts as they were. */
  lemma EmptyStatsKeepCounts(prev: Counts, alive: bool)
    ensures LoadStats(prev, Some([]), alive) == prev
  {
  }

  /** A member count present in the first column wins over the others. */
  lemma MemberCountPrefersFirstColumn(prev: Counts, s: StatsRow, rest: seq<StatsRow>, x: real)
    requires s.memberCount == Some(Finite(x))
    ensures LoadStats(prev, Some([s] + rest), true).members == Some(x)
  {
  }

  /** A non-finite first column falls through to the next one. */
  lemma MemberCountFallsThrough(prev: Counts, s: StatsRow, x: real)
    requires s.memberCount == Some(NonFinite) && s.strength == Some(Finite(x))
    ensures LoadStats(prev, Some([s]), true).members == Some(x)
  {
    var cs := [s.memberCount, s.strength, s.currentStrength];
    assert cs[1..] == [s.strength, s.currentStrength];
    assert AsNumber(cs[0]).None?;
    assert FirstNumber(cs[1..]) == Some(x);
    assert MemberCount(s) == Some(x);
  }

  /** What a count tile shows. */
  datatype Display = Dash | Value(n: real)

  function Show(c: Option<real>): (d: Display)
    ensures d.Dash? <==> c.None?
    ensures d.Value? ==> Some(d.n) == c
  {
    if c.None? then Dash else Value(c.value)
  }

  /** The history list: clicking an item closes it when it is the expanded
      one and expands it otherwise. */
  function ToggleExpanded(cur: Option<string>, id: string): (r: Option<string>)
    ensures r == Some(id) <==> cur != Some(id)
    ensures forall other :: other != id ==> r != Some(other)
  {
    if cur == Some(id) then None else Some(id)
  }

  /** Two clicks on the same item give back the state before them when that
      item was expanded or nothing was. */
  lemma ToggleExpandedTwice(cur: Option<string>, id: string)
    requires cur.None? || cur == Some(id)
    ensures ToggleExpanded(ToggleExpanded(cur, id), id) == cur
  {
  }
}
