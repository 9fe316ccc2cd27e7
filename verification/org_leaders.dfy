/** The admin panel for the organisation's strength and its leaders
    (src/components/admin/OrgLeadersAdmin.tsx): number clamping, ordering,
    the order given to a new leader, and the local list updates that follow
    a successful database call. Database results are inputs: `dbOk` says
    whether the call reported no error. */
module OrgLeaders {
  import opened Wrappers
  import opened Numbers
  import Seqs
  import TextRepair

  datatype Leader = Leader(id: string, name: string, role: string, photoUrl: Option<string>, sortOrder: int)

  /** The fields `saveLeader` writes. */
  datatype LeaderPayload = LeaderPayload(name: string, role: string, sortOrder: int, photoUrl: Option<string>)

  /** The optional initial values `addLeader` accepts. */
  datatype Prefill = Prefill(name: Option<string>, role: Option<string>, photoUrl: Option<string>, sortOrder: Option<int>)

  /** `asInt`: the fallback for a non-finite number, otherwise the floor
      clamped at zero. */
  function AsInt(n: Num, fallback: int): (r: int)
    ensures n.NonFinite? ==> r == fallback
    ensures n.Finite? ==> r >= 0
    ensures n.Finite? && n.v >= 0.0 ==> r as real <= n.v < r as real + 1.0
    ensures n.Finite? && n.v < 1.0 ==> r == 0
    ensures fallback >= 0 ==> r >= 0
  {
    match n
    case NonFinite => fallback
    case Finite(x) => if Floor(x) < 0 then 0 else Floor(x)
  }

  /** The `member_count` `saveOrgStats` sends: never negative, and 0 for a
      non-finite count or one below 1. */
  function MemberCountPayload(memberCount: Num): (r: int)
    ensures r >= 0
    ensures memberCount.NonFinite? ==> r == 0
    ensures memberCount.Finite? && memberCount.v < 1.0 ==> r == 0
    ensures memberCount.Finite? && memberCount.v >= 0.0 ==>
      r as real <= memberCount.v < r as real + 1.0
  {
    AsInt(memberCount, 0)
  }

  function SortKey(l: Leader): int {
    l.sortOrder
  }

  /** `leadersSorted`: a stable sort by `sort_order`. */
  function LeadersSorted(ls: seq<Leader>): (r: seq<Leader>)
    ensures Seqs.SortedBy(r, SortKey)
    ensures multiset(r) == multiset(ls)
  {
    Seqs.SortBy(ls, SortKey)
  }

  /** `Number(l.sort_order) || 1`: zero reads as one. */
  function OrderOrOne(so: int): (r: int)
    ensures r != 0
    ensures so != 0 ==> r == so
  {
    if so == 0 then 1 else so
  }

  /** `nextOrder` in `addLeader` as written: one more than the largest order,
      with zero read as one. */
  function NextOrderAsWritten(ls: seq<Leader>): (r: int)
    ensures ls == [] ==> r == 1
    ensures forall l :: l in ls ==> r > l.sortOrder
    ensures ls != [] ==> exists l :: l in ls && r == OrderOrOne(l.sortOrder) + 1
  {
    var sorted := LeadersSorted(ls);
    if sorted == [] then 1
    else
      var orders := Seqs.Map(sorted, (l: Leader) => OrderOrOne(l.sortOrder));
      var m := Seqs.Max(orders);
      assert forall l :: l in ls ==> l in multiset(sorted);
      assert forall i :: 0 <= i < |sorted| ==> sorted[i] in multiset(ls);
      m + 1
  }

  /** A single leader whose order was typed in as -3 makes the next new
      leader's order -2: a non-positive order is sent on insert. */
  lemma NextOrderAsWrittenCanBeNonPositive()
    ensures NextOrderAsWritten([Leader("a", "", "", None, -3)]) == -2
  {
    var ls := [Leader("a", "", "", None, -3)];
    assert forall l :: l in ls ==> l.sortOrder == -3;
  }

  /** `Math.max(1, x)`, the clamp used for every other order. */
  function AtLeastOne(x: int): (r: int)
    ensures r >= 1 && r >= x
    ensures x >= 1 ==> r == x
    ensures x < 1 ==> r == 1
  {
    if x < 1 then 1 else x
  }

  /** The next order with each existing order clamped to at least one, as
      the save path and the input's minimum of 1 intend: 1 for an empty
      list, otherwise at least 2 and above every existing order. */
  function NextOrder(ls: seq<Leader>): (r: int)
    ensures ls == [] ==> r == 1
    ensures ls != [] ==> r >= 2
    ensures forall l :: l in ls ==> r > l.sortOrder
    ensures ls != [] ==> exists l :: l in ls && r == AtLeastOne(l.sortOrder) + 1
  {
    var sorted := LeadersSorted(ls);
    if sorted == [] then 1
    else
      var orders := Seqs.Map(sorted, (l: Leader) => AtLeastOne(l.sortOrder));
      var m := Seqs.Max(orders);
      assert forall l :: l in ls ==> l in multiset(sorted);
      assert forall i :: 0 <= i < |sorted| ==> sorted[i] in multiset(ls);
      assert orders[0] >= 1;
      m + 1
  }

  /** Where no order is negative the two agree. */
  lemma NextOrderAgrees(ls: seq<Leader>)
    requires forall l :: l in ls ==> l.sortOrder >= 0
    ensures NextOrderAsWritten(ls) == NextOrder(ls)
  {
    var a := NextOrderAsWritten(ls);
    var b := NextOrder(ls);
    if ls != [] {
      var la :| la in ls && a == OrderOrOne(la.sortOrder) + 1;
      var lb :| lb in ls && b == AtLeastOne(lb.sortOrder) + 1;
      assert OrderOrOne(la.sortOrder) == AtLeastOne(la.sortOrder);
      assert OrderOrOne(lb.sortOrder) == AtLeastOne(lb.sortOrder);
    }
  }

  /** The order `addLeader` sends, as written: a prefilled order clamped to
      at least one, otherwise `NextOrderAsWritten`. Without a prefill it is
      above every existing order, and at least one only while no order is
      negative. */
  function InsertSortOrder(prefill: Option<int>, ls: seq<Leader>): (r: int)
    ensures prefill.Some? ==> r >= 1 && r >= prefill.value
    ensures prefill.Some? && prefill.value >= 1 ==> r == prefill.value
    ensures prefill.Some? && prefill.value < 1 ==> r == 1
    ensures prefill.None? ==> r == NextOrderAsWritten(ls)
    ensures prefill.None? ==> forall l :: l in ls ==> r > l.sortOrder
  {
    match prefill
    case Some(x) => AtLeastOne(x)
    case None => NextOrderAsWritten(ls)
  }

  /** Without a prefill, a list whose only order is -3 makes `addLeader`
      send -2. */
  lemma InsertSortOrderCanBeNonPositive()
    ensures InsertSortOrder(None, [Leader("a", "", "", None, -3)]) == -2
  {
    NextOrderAsWrittenCanBeNonPositive();
  }

  /** While no order is negative, the insert order is at least one. */
  lemma InsertSortOrderPositive(prefill: Option<int>, ls: seq<Leader>)
    requires forall l :: l in ls ==> l.sortOrder >= 0
    ensures InsertSortOrder(prefill, ls) >= 1
  {
    if prefill.None? {
      NextOrderAgrees(ls);
    }
  }

  /** The order `addLeader` would send with `nextOrder` built from clamped
      orders: always at least one. */
  function InsertSortOrderCorrected(prefill: Option<int>, ls: seq<Leader>): (r: int)
    ensures r >= 1
    ensures prefill.Some? && prefill.value >= 1 ==> r == prefill.value
    ensures prefill.None? ==> forall l :: l in ls ==> r > l.sortOrder
    ensures (forall l :: l in ls ==> l.sortOrder >= 0) ==> r == InsertSortOrder(prefill, ls)
  {
    match prefill
    case Some(x) => AtLeastOne(x)
    case None =>
      NextOrderAgreesWhenNonNegative(ls);
      NextOrder(ls)
  }

  lemma NextOrderAgreesWhenNonNegative(ls: seq<Leader>)
    ensures (forall l :: l in ls ==> l.sortOrder >= 0) ==> NextOrderAsWritten(ls) == NextOrder(ls)
  {
    if forall l :: l in ls ==> l.sortOrder >= 0 {
      NextOrderAgrees(ls);
    }
  }

  /** The row `addLeader` inserts. */
  function NewLeaderPayload(p: Prefill, ls: seq<Leader>): (r: LeaderPayload)
    ensures r.name == TextRepair.CleanText(Some(p.name.GetOr("")))
    ensures r.role == TextRepair.CleanText(Some(p.role.GetOr("")))
    ensures r.photoUrl == p.photoUrl
    ensures p.sortOrder.Some? ==> r.sortOrder >= 1
    ensures p.sortOrder.Some? ==> r.sortOrder == AtLeastOne(p.sortOrder.value)
    ensures p.sortOrder.Some? && p.sortOrder.value >= 1 ==> r.sortOrder == p.sortOrder.value
    ensures p.sortOrder.Some? && p.sortOrder.value < 1 ==> r.sortOrder == 1
    ensures p.sortOrder.None? ==> r.sortOrder == NextOrderAsWritten(ls)
  {
    LeaderPayload(
      TextRepair.CleanText(Some(p.name.GetOr(""))),
      TextRepair.CleanText(Some(p.role.GetOr(""))),
      InsertSortOrder(p.sortOrder, ls),
      p.photoUrl)
  }

  /** After a successful insert the returned row is appended. */
  function AddLeader(ls: seq<Leader>, inserted: Option<Leader>): (r: seq<Leader>)
    ensures inserted.None? ==> r == ls
    ensures inserted.Some? ==> |r| == |ls| + 1 && r[..|ls|] == ls && r[|ls|] == inserted.value
  {
    match inserted
    case None => ls
    case Some(row) => ls + [row]
  }

  /** The order `saveLeader` sends: `Math.max(1, Math.floor(Number(so) || 1))`. */
  function SaveSortOrder(so: int): (r: int)
    ensures r >= 1
    ensures so >= 1 ==> r == so
    ensures so < 1 ==> r == 1
  {
    AtLeastOne(OrderOrOne(so))
  }

  function SavePayload(row: Leader): (r: LeaderPayload)
    ensures r.name == TextRepair.CleanText(Some(row.name))
    ensures r.role == TextRepair.CleanText(Some(row.role))
    ensures r.sortOrder >= 1
    ensures row.sortOrder >= 1 ==> r.sortOrder == row.sortOrder
    ensures row.sortOrder < 1 ==> r.sortOrder == 1
    ensures r.photoUrl == row.photoUrl
  {
    LeaderPayload(TextRepair.CleanText(Some(row.name)), TextRepair.CleanText(Some(row.role)),
                  SaveSortOrder(row.sortOrder), row.photoUrl)
  }

  /** `{ ...x, ...payload }` */
  function Apply(x: Leader, p: LeaderPayload): Leader {
    Leader(x.id, p.name, p.role, p.photoUrl, p.sortOrder)
  }

  /** The local update after a successful save: every row with the id takes
      the payload, every other row is kept. */
  function ApplyToId(ls: seq<Leader>, id: string, p: LeaderPayload): (r: seq<Leader>)
    ensures |r| == |ls|
    ensures forall i :: 0 <= i < |ls| ==> r[i] == (if ls[i].id == id then Apply(ls[i], p) else ls[i])
  {
    Seqs.Map(ls, (x: Leader) => if x.id == id then Apply(x, p) else x)
  }

  function HasId(id: string): Leader -> bool {
    (l: Leader) => l.id == id
  }

  /** Row `k` is the first row with the id. */
  predicate FirstWithId(ls: seq<Leader>, id: string, k: int) {
    0 <= k < |ls| && ls[k].id == id && forall j :: 0 <= j < k ==> ls[j].id != id
  }

  datatype Saved = Saved(leaders: seq<Leader>, payload: Option<LeaderPayload>)

  /** `saveLeader(id)`: nothing happens for an id not in the list; otherwise
      the payload is built from the first row with that id and, once the
      update succeeds, written over every row with that id. */
  function SaveLeader(ls: seq<Leader>, id: string, dbOk: bool): (r: Saved)
    ensures (forall i :: 0 <= i < |ls| ==> ls[i].id != id) ==> r.leaders == ls && r.payload.None?
    ensures |r.leaders| == |ls|
    ensures forall i :: 0 <= i < |ls| && ls[i].id != id ==> r.leaders[i] == ls[i]
    ensures !dbOk ==> r.leaders == ls
    ensures forall k :: FirstWithId(ls, id, k) ==>
      r.payload == Some(SavePayload(ls[k]))
    ensures r.payload.Some? ==> r.payload.value.sortOrder >= 1
    ensures dbOk && r.payload.Some? ==> forall i :: 0 <= i < |ls| && ls[i].id == id ==>
      r.leaders[i].id == id && r.leaders[i].sortOrder >= 1 && r.leaders[i] == Apply(ls[i], r.payload.value)
  {
    var found := Seqs.Find(ls, HasId(id));
    SavedNothing(ls, id, found);
    SavedFirst(ls, id, dbOk, found);
    SavedLeadersFacts(ls, id, dbOk, found);
    SaveFound(ls, id, dbOk, found)
  }

  /** The save once the row is looked up. */
  function SaveFound(ls: seq<Leader>, id: string, dbOk: bool, found: Option<Leader>): Saved {
    if found.None? then Saved(ls, None)
    else
      var p := SavePayload(found.value);
      Saved(if dbOk then ApplyToId(ls, id, p) else ls, Some(p))
  }

  /** An id no row carries is not found. */
  lemma SavedNothing(ls: seq<Leader>, id: string, found: Option<Leader>)
    requires found == Seqs.Find(ls, HasId(id))
    ensures (forall i :: 0 <= i < |ls| ==> ls[i].id != id) ==> found.None?
  {
  }

  /** `leaders.find((l) => l.id === id)` picks the first row with the id. */
  lemma SavedFirst(ls: seq<Leader>, id: string, dbOk: bool, found: Option<Leader>)
    requires found == Seqs.Find(ls, HasId(id))
    ensures forall k :: FirstWithId(ls, id, k) ==> SaveFound(ls, id, dbOk, found).payload == Some(SavePayload(ls[k]))
  {
    forall k | FirstWithId(ls, id, k)
      ensures SaveFound(ls, id, dbOk, found).payload == Some(SavePayload(ls[k]))
    {
      Seqs.FindFirst(ls, HasId(id), k);
    }
  }

  lemma SavedLeadersFacts(ls: seq<Leader>, id: string, dbOk: bool, found: Option<Leader>)
    ensures var r := SaveFound(ls, id, dbOk, found);
      && |r.leaders| == |ls|
      && (forall i :: 0 <= i < |ls| && ls[i].id != id ==> r.leaders[i] == ls[i])
      && (!dbOk || found.None? ==> r.leaders == ls)
      && (r.payload.Some? ==> r.payload.value.sortOrder >= 1)
      && (dbOk && r.payload.Some? ==> forall i :: 0 <= i < |ls| && ls[i].id == id ==>
           r.leaders[i].id == id && r.leaders[i].sortOrder >= 1 && r.leaders[i] == Apply(ls[i], r.payload.value))
  {
  }

  /** `deleteLeader(id)`: once confirmed and deleted, exactly the rows with
      that id are gone and the rest keep their order. */
  function DeleteLeader(ls: seq<Leader>, id: string, confirmed: bool, dbOk: bool): (r: seq<Leader>)
    ensures !confirmed || !dbOk ==> r == ls
    ensures confirmed && dbOk ==> forall l :: l in r ==> l.id != id
    ensures forall i :: 0 <= i < |ls| && ls[i].id != id ==> ls[i] in r
    ensures forall l :: l in r ==> l in ls
  {
    if !confirmed || !dbOk then ls else Seqs.Filter(ls, (l: Leader) => l.id != id)
  }

  lemma DeleteLeaderKeepsOrder(ls: seq<Leader>, id: string)
    ensures Seqs.IsSubsequence(DeleteLeader(ls, id, true, true), ls)
  {
    Seqs.FilterIsSubsequence(ls, (l: Leader) => l.id != id);
  }

  /** `setLeaderPhoto`: after a successful update only `photo_url` of the
      matching rows changes. */
  function SetLeaderPhoto(ls: seq<Leader>, id: string, url: Option<string>, dbOk: bool): (r: seq<Leader>)
    ensures |r| == |ls|
    ensures forall i :: 0 <= i < |ls| ==>
      && r[i].id == ls[i].id && r[i].name == ls[i].name
      && r[i].role == ls[i].role && r[i].sortOrder == ls[i].sortOrder
    ensures forall i :: 0 <= i < |ls| ==>
      r[i].photoUrl == (if dbOk && ls[i].id == id then url else ls[i].photoUrl)
  {
    if !dbOk then ls
    else Seqs.Map(ls, (l: Leader) => if l.id == id then l.(photoUrl := url) else l)
  }

  /** The Order field's change handler: the typed integer replaces the
      matching rows' order as is, so a negative order can reach the list. */
  function EditSortOrder(ls: seq<Leader>, id: string, typed: int): (r: seq<Leader>)
    ensures |r| == |ls|
    ensures forall i :: 0 <= i < |ls| ==>
      r[i] == (if ls[i].id == id then ls[i].(sortOrder := typed) else ls[i])
  {
    Seqs.Map(ls, (l: Leader) => if l.id == id then l.(sortOrder := typed) else l)
  }

  /** The positions "Create 4 positions" sets up, in order. */
  const PositionRoles: seq<string> := ["President", "Secretary", "Treasurer", "Scout Master"]

  /** "Create 4 positions": nothing when any leader exists, otherwise four
      inserts with the fixed roles and orders 1 to 4. */
  function FourPositions(ls: seq<Leader>): (r: Option<seq<Prefill>>)
    ensures r.None? <==> ls != []
    ensures r.Some? ==> |r.value| == 4 && forall k :: 0 <= k < 4 ==>
      r.value[k].sortOrder == Some(k + 1) && r.value[k].name.None? && r.value[k].photoUrl.None?
    ensures r.Some? ==> forall k :: 0 <= k < 4 ==> r.value[k].role == Some(PositionRoles[k])
    ensures r.Some? ==>
      [r.value[0].role, r.value[1].role, r.value[2].role, r.value[3].role] ==
      [Some("President"), Some("Secretary"), Some("Treasurer"), Some("Scout Master")]
  {
    if ls != [] then None
    else Some([
      Prefill(None, Some("President"), None, Some(1)),
      Prefill(None, Some("Secretary"), None, Some(2)),
      Prefill(None, Some("Treasurer"), None, Some(3)),
      Prefill(None, Some("Scout Master"), None, Some(4))])
  }

  /** The four inserts get exactly the orders 1 to 4, whatever else is in the
      list by then. */
  lemma FourPositionsOrders(ls: seq<Leader>, others: seq<Leader>, k: nat)
    requires ls == [] && k < 4
    ensures InsertSortOrder(FourPositions(ls).value[k].sortOrder, others) == k + 1
  {
  }

  /** Stability of the leader order: leaders sharing an order keep their
      list order. */
  lemma LeadersSortedStable(ls: seq<Leader>, k: int)
    ensures Seqs.WithKey(LeadersSorted(ls), SortKey, k) == Seqs.WithKey(ls, SortKey, k)
  {
    Seqs.SortByStable(ls, SortKey, k);
  }
}
