/**
 The history panel of the picker: the drawn items listed newest first, each
 with its draw ordinal as a badge (`#n` for the latest of n draws).
 */
module History {
  import opened Items

  /** One line of the history panel: the item value and its badge number. */
  datatype Entry = Entry(text: string, badge: nat)

  /** What the panel shows: a "nothing drawn yet" notice, or the entries. */
  datatype View = NothingDrawn | Listing(entries: seq<Entry>)

  /** The drawn items reversed, the k-th line (from 0) showing the label of
      the (n-k)-th draw with badge n - k. */
  function RecentEntries(removed: seq<Item>): (r: seq<Entry>)
    ensures |r| == |removed|
    ensures forall k :: 0 <= k < |r| ==>
              r[k] == Entry(removed[|removed| - 1 - k].value, |removed| - k)
  {
    if |removed| == 0 then []
    else [Entry(removed[|removed| - 1].value, |removed|)] + RecentEntries(removed[..|removed| - 1])
  }

  /** `updateRecentItems`: the notice when nothing has been drawn, otherwise
      the newest-first listing. */
  function RecentView(removed: seq<Item>): (v: View)
    ensures v.NothingDrawn? <==> |removed| == 0
    ensures v.Listing? ==> v.entries == RecentEntries(removed)
  {
    if |removed| > 0 then Listing(RecentEntries(removed)) else NothingDrawn
  }

  /** The badge of every line is the ordinal of the draw it shows: badge b
      labels the b-th drawn item, and the badges run n, n-1, ..., 1. */
  lemma {:induction false} BadgeIsDrawOrdinal(removed: seq<Item>, k: nat)
    requires k < |removed|
    ensures var e := RecentEntries(removed)[k];
      1 <= e.badge <= |removed| && e.text == removed[e.badge - 1].value
    ensures k + 1 < |removed| ==> RecentEntries(removed)[k + 1].badge + 1 == RecentEntries(removed)[k].badge
  {
    var r := RecentEntries(removed);
    assert r[k] == Entry(removed[|removed| - 1 - k].value, |removed| - k);
  }

  /** A new draw puts its item on top with the next ordinal and shifts the
      earlier lines down unchanged. */
  lemma {:induction false} NewDrawOnTop(removed: seq<Item>, x: Item)
    ensures RecentEntries(removed + [x]) == [Entry(x.value, |removed| + 1)] + RecentEntries(removed)
  {
    var s := removed + [x];
    assert s[..|s| - 1] == removed;
  }
}
