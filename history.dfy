/** The "Recently Picked" projection of `display_history` (picker.py:60):
    the picked records, most recent first, at most five of them. */
module History {
  import opened Wrappers
  import opened Roster

  /** How many picks the history shows: `.head(5)`. */
  const Limit: nat := 5

  /** A picked record as the sort sees it: its time and its roster position. */
  datatype Entry = Entry(at: Timestamp, row: nat)

  /** `a` is listed before `b`: it is more recent, and of two picks in the
      same second the one earlier in the roster comes first. */
  predicate Precedes(a: Entry, b: Entry) {
    a.at > b.at || (a.at == b.at && a.row < b.row)
  }

  predicate Sorted(es: seq<Entry>) {
    forall k, l :: 0 <= k < l < |es| ==> Precedes(es[k], es[l])
  }

  predicate Distinct(es: seq<Entry>) {
    forall k, l :: 0 <= k < l < |es| ==> es[k] != es[l]
  }

  /** The time of a picked record (0 stands in for an empty cell, which the
      projection never reads). */
  function TimeOf(r: Record): Timestamp {
    match r.lastPicked
    case Some(t) => t
    case None => 0
  }

  /** One entry per picked record, in roster order. */
  function Entries(rs: seq<Record>): (es: seq<Entry>)
    ensures Distinct(es)
    ensures forall e :: e in es ==> e.row < |rs| && !Eligible(rs[e.row]) && e.at == TimeOf(rs[e.row])
    ensures forall i :: 0 <= i < |rs| && !Eligible(rs[i]) ==> Entry(TimeOf(rs[i]), i) in es
    ensures |es| == PickedCount(rs)
  {
    var ix := PickedIndices(rs);
    PickedIndicesCount(rs);
    var es := seq(|ix|, k requires 0 <= k < |ix| => Entry(TimeOf(rs[ix[k]]), ix[k]));
    assert forall i :: 0 <= i < |rs| && !Eligible(rs[i]) ==> Entry(TimeOf(rs[i]), i) in es by {
      forall i | 0 <= i < |rs| && !Eligible(rs[i])
        ensures Entry(TimeOf(rs[i]), i) in es
      {
        var k :| 0 <= k < |ix| && ix[k] == i;
        assert es[k] == Entry(TimeOf(rs[i]), i);
      }
    }
    es
  }

  /** Places `e` into a sorted list of entries. */
  function Insert(e: Entry, es: seq<Entry>): (r: seq<Entry>)
    requires Sorted(es) && e !in es
    ensures Sorted(r)
    ensures |r| == |es| + 1
    ensures forall x :: x in r <==> x == e || x in es
  {
    if es == [] then [e]
    else if Precedes(e, es[0]) then [e] + es
    else
      var tail := Insert(e, es[1..]);
      assert Precedes(es[0], e);
      assert forall l :: 0 <= l < |tail| ==> Precedes(es[0], tail[l]) by {
        forall l | 0 <= l < |tail| ensures Precedes(es[0], tail[l]) {
          assert tail[l] in tail;
        }
      }
      [es[0]] + tail
  }

  /** `sort_values('LastPicked', ascending=False)` on the entries. */
  function Sort(es: seq<Entry>): (r: seq<Entry>)
    requires Distinct(es)
    ensures Sorted(r)
    ensures |r| == |es|
    ensures forall x :: x in r <==> x in es
  {
    if es == [] then []
    else
      var rest := Sort(es[1..]);
      assert es[0] !in es[1..];
      Insert(es[0], rest)
  }

  /** A prefix of a sorted list is sorted, and precedes everything left out. */
  lemma SortedPrefix(es: seq<Entry>, n: nat)
    requires Sorted(es) && n <= |es|
    ensures Sorted(es[..n])
    ensures forall e :: e in es && e !in es[..n] ==> forall k :: 0 <= k < n ==> Precedes(es[k], e)
  {
    forall e, k | e in es && e !in es[..n] && 0 <= k < n
      ensures Precedes(es[k], e)
    {
      var p :| 0 <= p < |es| && es[p] == e;
    }
  }

  /** The entries `.head(Limit)` keeps after the sort, most recent first. */
  function Shown(rs: seq<Record>): (shown: seq<Entry>)
    ensures Sorted(shown)
    ensures |shown| == if PickedCount(rs) <= Limit then PickedCount(rs) else Limit
    ensures forall e :: e in shown ==> e in Entries(rs)
    ensures forall e :: e in Entries(rs) && e !in shown ==> forall k :: 0 <= k < |shown| ==> Precedes(shown[k], e)
  {
    var sorted := Sort(Entries(rs));
    var n := if |sorted| <= Limit then |sorted| else Limit;
    SortedPrefix(sorted, n);
    assert forall e :: e in sorted[..n] ==> e in sorted;
    sorted[..n]
  }

  /** The rows `display_history` lists, top to bottom: the rows of the
      picked records, most recent first, at most `Limit` of them. */
  function RecentRows(rs: seq<Record>): (rows: seq<nat>)
    ensures |rows| == if PickedCount(rs) <= Limit then PickedCount(rs) else Limit
    ensures forall k :: 0 <= k < |rows| ==> rows[k] < |rs| && !Eligible(rs[rows[k]])
  {
    var shown := Shown(rs);
    var es := Entries(rs);
    assert forall k :: 0 <= k < |shown| ==> shown[k] in shown;
    seq(|shown|, k requires 0 <= k < |shown| => shown[k].row)
  }

  /** The records `display_history` lists, top to bottom. */
  function RecentPicks(rs: seq<Record>): (h: seq<Record>)
  {
    var rows := RecentRows(rs);
    seq(|rows|, k requires 0 <= k < |rows| => rs[rows[k]])
  }

  /** The history lists the `Limit` most recent picks, or all of them when
      there are fewer: every row listed is picked and listed once, the rows
      are in order of time descending, and every picked row left out is no
      more recent than every row listed. */
  lemma RecentRowsAreMostRecent(rs: seq<Record>)
    ensures var rows := RecentRows(rs);
      && (forall k, l :: 0 <= k < l < |rows| ==>
            TimeOf(rs[rows[k]]) > TimeOf(rs[rows[l]])
            || (TimeOf(rs[rows[k]]) == TimeOf(rs[rows[l]]) && rows[k] < rows[l]))
      && (forall i, k :: 0 <= i < |rs| && !Eligible(rs[i]) && i !in rows && 0 <= k < |rows| ==>
            TimeOf(rs[i]) <= TimeOf(rs[rows[k]]))
  {
    var es := Entries(rs);
    var shown := Shown(rs);
    var rows := RecentRows(rs);
    assert forall k :: 0 <= k < |shown| ==> shown[k] == Entry(TimeOf(rs[rows[k]]), rows[k]);
    forall i, k | 0 <= i < |rs| && !Eligible(rs[i]) && i !in rows && 0 <= k < |rows|
      ensures TimeOf(rs[i]) <= TimeOf(rs[rows[k]])
    {
      var e := Entry(TimeOf(rs[i]), i);
      assert e in es;
      assert Precedes(shown[k], e);
    }
  }

  /** The history shows the records of those rows, unchanged. */
  lemma RecentPicksAreRows(rs: seq<Record>)
    ensures |RecentPicks(rs)| == |RecentRows(rs)| <= Limit
    ensures forall k :: 0 <= k < |RecentPicks(rs)| ==> RecentRows(rs)[k] < |rs| && RecentPicks(rs)[k] == rs[RecentRows(rs)[k]]
  {
    RecentRowsAreMostRecent(rs);
  }
}
