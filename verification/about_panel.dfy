/** The "about" side panel (src/components/AboutOrgPanel.tsx): the strength
    figures and the first four active leaders. */
module AboutPanel {
  import opened Wrappers
  import Seqs
  import Numbers

  datatype PanelLeader = PanelLeader(id: string, name: string, role: string, photoUrl: Option<string>,
                                     sortOrder: int, isActive: bool)

  function Order(l: PanelLeader): int {
    l.sortOrder
  }

  predicate Active(l: PanelLeader) {
    l.isActive
  }

  /** The active leaders in `sort_order`, stably sorted. */
  function SortedActive(leaders: seq<PanelLeader>): (r: seq<PanelLeader>)
    ensures Seqs.SortedBy(r, Order)
    ensures multiset(r) == multiset(Seqs.Filter(leaders, Active))
  {
    Seqs.SortBy(Seqs.Filter(leaders, Active), Order)
  }

  /** `activeLeaders`: the active ones, sorted, at most four. */
  function ActiveLeaders(leaders: seq<PanelLeader>): (r: seq<PanelLeader>)
    ensures |r| <= 4
    ensures forall i :: 0 <= i < |r| ==> r[i].isActive && r[i] in leaders
    ensures Seqs.SortedBy(r, Order)
    ensures |r| == if |SortedActive(leaders)| < 4 then |SortedActive(leaders)| else 4
    ensures r == SortedActive(leaders)[..|r|]
  {
    var sorted := SortedActive(leaders);
    SortedActiveMembers(leaders);
    Seqs.Take(sorted, 4)
  }

  lemma SortedActiveMembers(leaders: seq<PanelLeader>)
    ensures forall i :: 0 <= i < |SortedActive(leaders)| ==>
      SortedActive(leaders)[i].isActive && SortedActive(leaders)[i] in leaders
  {
    var sorted := SortedActive(leaders);
    var active := Seqs.Filter(leaders, Active);
    forall i | 0 <= i < |sorted|
      ensures sorted[i].isActive && sorted[i] in leaders
    {
      assert sorted[i] in multiset(sorted);
      assert sorted[i] in multiset(active);
      var k :| 0 <= k < |active| && active[k] == sorted[i];
    }
  }

  /** An active leader left out of the panel is there because four leaders
      with no larger `sort_order` were shown instead. */
  lemma OmittedLeaderSortsAfter(leaders: seq<PanelLeader>, l: PanelLeader)
    requires l in leaders && l.isActive
    requires l !in ActiveLeaders(leaders)
    ensures |ActiveLeaders(leaders)| == 4
    ensures forall i :: 0 <= i < 4 ==> ActiveLeaders(leaders)[i].sortOrder <= l.sortOrder
  {
    var sorted := SortedActive(leaders);
    var r := ActiveLeaders(leaders);
    assert l in Seqs.Filter(leaders, Active);
    assert l in multiset(Seqs.Filter(leaders, Active));
    assert l in multiset(sorted);
    var k :| 0 <= k < |sorted| && sorted[k] == l;
    if k < |r| {
      assert false;
    }
  }

  /** The stats row; any column may be missing. */
  datatype PanelStats = PanelStats(members: Option<int>, activeVolunteers: Option<int>,
                                   yearlyCamps: Option<int>, serviceDrives: Option<int>)

  const Loading: string := "..."

  /** A figure as shown: "..." while loading, else the value (0 when
      missing) followed by "+". */
  function FigureText(loading: bool, value: Option<int>): (t: string)
    ensures loading ==> t == Loading
    ensures !loading ==> |t| >= 2 && t[|t| - 1] == '+' && t[..|t| - 1] == Numbers.IntToString(value.GetOr(0))
  {
    if loading then Loading else Numbers.IntToString(value.GetOr(0)) + "+"
  }

  /** The "current strength" figure. */
  function MembersText(loading: bool, stats: Option<PanelStats>): (t: string)
    ensures loading ==> t == Loading
    ensures !loading && stats.None? ==> t == "0+"
    ensures !loading ==> |t| >= 2 && t[|t| - 1] == '+' && t[..|t| - 1] == Numbers.IntToString(Members(stats))
  {
    FigureText(loading, if stats.Some? then stats.value.members else None)
  }

  /** `stats?.members ?? 0` */
  function Members(stats: Option<PanelStats>): int {
    if stats.Some? then stats.value.members.GetOr(0) else 0
  }

  /** The shown strength reads back as the stored member count, or 0 when
      the row or the column is missing. */
  lemma MembersTextReadsBack(stats: Option<PanelStats>)
    ensures var t := MembersText(false, stats);
      Numbers.ParseInt(t[..|t| - 1]) == Members(stats)
  {
    Numbers.IntRoundTrip(Members(stats));
  }

  /** Reading a shown figure back gives the stored value, or 0 when it is
      missing. */
  lemma FigureTextReadsBack(value: Option<int>)
    ensures var t := FigureText(false, value);
      Numbers.ParseInt(t[..|t| - 1]) == value.GetOr(0)
  {
    Numbers.IntRoundTrip(value.GetOr(0));
  }

  /** How many leader cards are drawn: four placeholders while loading. */
  function LeaderCards(loading: bool, leaders: seq<PanelLeader>): (n: nat)
    ensures n <= 4
    ensures loading ==> n == 4
    ensures !loading ==> n == |ActiveLeaders(leaders)|
  {
    if loading then 4 else |ActiveLeaders(leaders)|
  }
}
