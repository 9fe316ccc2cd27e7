/** The collapsible history timeline (src/components/HistoryTimeline.tsx):
    at most one item is open, recorded as its index, with -1 for "none". */
module Timeline {

  /** The open index names an item or is -1. */
  predicate InRange(openIndex: int, len: nat) {
    -1 <= openIndex < len
  }

  predicate IsOpen(openIndex: int, i: int) {
    i == openIndex
  }

  /** The initial open index: none for an empty list or a negative default,
      otherwise the default clamped to the last item. */
  function InitialOpenIndex(len: nat, defaultOpenIndex: int): (r: int)
    ensures InRange(r, len)
    ensures r == -1 <==> len == 0 || defaultOpenIndex < 0
    ensures 0 <= defaultOpenIndex < len ==> r == defaultOpenIndex
    ensures len > 0 && defaultOpenIndex >= len ==> r == len - 1
  {
    if len == 0 then -1
    else if defaultOpenIndex < 0 then -1
    else Min(defaultOpenIndex, len - 1)
  }

  function Min(a: int, b: int): int {
    if a <= b then a else b
  }

  /** Clicking item `i`: an open item collapses, any other opens. */
  function Toggle(prev: int, i: nat): (r: int)
    ensures IsOpen(r, i) <==> !IsOpen(prev, i)
    ensures forall j :: j != i ==> !IsOpen(r, j) || j == -1
  {
    if prev == i then -1 else i
  }

  /** Clicking the year chip of item `i`: it opens whatever was open. */
  function Focus(prev: int, i: nat): (r: int)
    ensures IsOpen(r, i)
    ensures forall j :: j != i ==> !IsOpen(r, j)
  {
    i
  }

  /** With `i` an item of the list, both transitions keep the index in
      range. */
  lemma TransitionsKeepRange(prev: int, i: nat, len: nat)
    requires InRange(prev, len) && i < len
    ensures InRange(Toggle(prev, i), len)
    ensures InRange(Focus(prev, i), len)
  {
  }

  /** Clicking the same item twice returns to the start when it was open or
      nothing was open; otherwise the second click closes everything. */
  lemma ToggleTwice(prev: int, i: nat)
    ensures prev == i || prev == -1 ==> Toggle(Toggle(prev, i), i) == prev
    ensures prev != i && prev != -1 ==> Toggle(Toggle(prev, i), i) == -1
  {
  }

  /** Focusing then clicking the same item collapses it. */
  lemma FocusThenToggleCollapses(prev: int, i: nat)
    ensures Toggle(Focus(prev, i), i) == -1
  {
  }
}
