/** The roster: one record per student, the eligibility rule, the counts shown
    on screen, and the roster file as `load_students` / `save_students` see it
    (picker.py:7-21, 26, 112-116). */
module Roster {
  import opened Wrappers

  /** A wall-clock time at second resolution. The roster file stores it as
      `%Y-%m-%d %H:%M:%S` text, whose lexicographic order is its chronological
      order, so an integer with its usual order stands for it. */
  type Timestamp = int

  /** One row of the roster: the `Name`, `LastPicked` and `PickOrder` columns. */
  datatype Record = Record(name: string, lastPicked: Option<Timestamp>, pickOrder: Option<int>)

  /** A record may be picked exactly when it has never been picked: `LastPicked` is empty. */
  predicate Eligible(r: Record) {
    r.lastPicked.None?
  }

  /** Invariant I1 for one record: `LastPicked` is set iff `PickOrder` is set. */
  predicate Consistent(r: Record) {
    r.lastPicked.Some? <==> r.pickOrder.Some?
  }

  /** The roster invariants: I1 on every record, and the pick orders that are
      present are positive and pairwise distinct (I2). */
  predicate Wf(rs: seq<Record>) {
    && (forall i :: 0 <= i < |rs| ==> Consistent(rs[i]))
    && (forall i :: 0 <= i < |rs| && rs[i].pickOrder.Some? ==> rs[i].pickOrder.value >= 1)
    && (forall i, j :: 0 <= i < j < |rs| && rs[i].pickOrder.Some? ==> rs[i].pickOrder != rs[j].pickOrder)
  }

  /** `df['LastPicked'].notna().sum()` (picker.py:113): the number of picked records. */
  function PickedCount(rs: seq<Record>): (n: nat)
    ensures n <= |rs|
  {
    if rs == [] then 0
    else PickedCount(rs[..|rs| - 1]) + (if Eligible(rs[|rs| - 1]) then 0 else 1)
  }

  /** Nothing is picked exactly when every record is eligible, and
      everything is picked exactly when no record is. */
  lemma {:induction false} PickedCountExtremes(rs: seq<Record>)
    ensures PickedCount(rs) == 0 <==> forall i :: 0 <= i < |rs| ==> Eligible(rs[i])
    ensures PickedCount(rs) == |rs| <==> forall i :: 0 <= i < |rs| ==> !Eligible(rs[i])
  {
    if rs != [] {
      var init := rs[..|rs| - 1];
      PickedCountExtremes(init);
      assert forall i :: 0 <= i < |init| ==> init[i] == rs[i];
    }
  }

  /** The positions of the eligible records, in roster order: the index of
      `df[df['LastPicked'].isna()]` (picker.py:26). */
  function EligibleIndices(rs: seq<Record>): (ix: seq<nat>)
    ensures |ix| == |rs| - PickedCount(rs)
    ensures forall k :: 0 <= k < |ix| ==> ix[k] < |rs| && Eligible(rs[ix[k]])
    ensures forall i :: 0 <= i < |rs| && Eligible(rs[i]) ==> i in ix
    ensures forall k, l :: 0 <= k < l < |ix| ==> ix[k] < ix[l]
  {
    if rs == [] then []
    else
      var n := |rs|;
      var init := rs[..n - 1];
      var prev := EligibleIndices(init);
      var ix := prev + (if Eligible(rs[n - 1]) then [n - 1] else []);
      assert forall i :: 0 <= i < n - 1 ==> init[i] == rs[i];
      assert forall k :: 0 <= k < |prev| ==> ix[k] == prev[k];
      assert forall i :: 0 <= i < n - 1 && Eligible(rs[i]) ==> i in prev;
      ix
  }

  /** The positions of the picked records, in roster order: the index of
      `df[df['LastPicked'].notna()]` (picker.py:60). */
  function PickedIndices(rs: seq<Record>): (ix: seq<nat>)
    ensures |ix| <= |rs|
    ensures forall k :: 0 <= k < |ix| ==> ix[k] < |rs| && !Eligible(rs[ix[k]])
    ensures forall i :: 0 <= i < |rs| && !Eligible(rs[i]) ==> i in ix
    ensures forall k, l :: 0 <= k < l < |ix| ==> ix[k] < ix[l]
  {
    if rs == [] then []
    else
      var n := |rs|;
      var init := rs[..n - 1];
      var prev := PickedIndices(init);
      var ix := prev + (if Eligible(rs[n - 1]) then [] else [n - 1]);
      assert forall i :: 0 <= i < n - 1 ==> init[i] == rs[i];
      assert forall k :: 0 <= k < |prev| ==> ix[k] == prev[k];
      assert forall i :: 0 <= i < n - 1 && !Eligible(rs[i]) ==> i in prev;
      ix
  }

  /** The picked positions are as many as the picked count. */
  lemma {:induction false} PickedIndicesCount(rs: seq<Record>)
    ensures |PickedIndices(rs)| == PickedCount(rs)
  {
    if rs != [] {
      PickedIndicesCount(rs[..|rs| - 1]);
    }
  }

  /** The three statistics on screen (picker.py:112-116). */
  datatype Counts = Counts(total: nat, picked: nat, remaining: int)

  /** Total, picked and remaining, where remaining is total minus picked. */
  function Stats(rs: seq<Record>): (c: Counts)
    ensures c.total == |rs|
    ensures c.picked == |PickedIndices(rs)|
    ensures c.remaining == |EligibleIndices(rs)| >= 0
    ensures c.remaining == 0 <==> forall i :: 0 <= i < |rs| ==> !Eligible(rs[i])
  {
    var total := |rs|;
    var picked := PickedCount(rs);
    PickedIndicesCount(rs);
    PickedCountExtremes(rs);
    Counts(total, picked, total - picked)
  }

  /** A record with both pick columns emptied, as a reset leaves it. */
  function Cleared(r: Record): (c: Record)
    ensures c.name == r.name && Eligible(c) && c.pickOrder.None?
  {
    r.(lastPicked := None, pickOrder := None)
  }

  /** The roster after `df['LastPicked'] = None; df['PickOrder'] = None` (picker.py:158-159). */
  function ClearAll(rs: seq<Record>): (r: seq<Record>)
  {
    seq(|rs|, i requires 0 <= i < |rs| => Cleared(rs[i]))
  }

  /** Reset totality: every record stays in place with its name, nothing is
      picked any more, and the invariants hold whatever held before. */
  lemma ClearAllEmptiesRoster(rs: seq<Record>)
    ensures |ClearAll(rs)| == |rs|
    ensures forall i :: 0 <= i < |rs| ==> ClearAll(rs)[i].name == rs[i].name
    ensures forall i :: 0 <= i < |rs| ==> Eligible(ClearAll(rs)[i]) && ClearAll(rs)[i].pickOrder.None?
    ensures PickedCount(ClearAll(rs)) == 0
    ensures Stats(ClearAll(rs)).remaining == |rs|
    ensures Wf(ClearAll(rs))
  {
    PickedCountExtremes(ClearAll(rs));
  }

  /** Changing one record changes the picked count only by that record's status. */
  lemma {:induction false} PickedCountUpdate(rs: seq<Record>, i: nat, x: Record)
    requires i < |rs|
    ensures PickedCount(rs[i := x]) + (if Eligible(rs[i]) then 0 else 1)
         == PickedCount(rs) + (if Eligible(x) then 0 else 1)
  {
    var n := |rs|;
    var rs' := rs[i := x];
    var last := if Eligible(rs[n - 1]) then 0 else 1;
    var last' := if Eligible(rs'[n - 1]) then 0 else 1;
    assert PickedCount(rs) == PickedCount(rs[..n - 1]) + last;
    assert PickedCount(rs') == PickedCount(rs'[..n - 1]) + last';
    if i < n - 1 {
      assert rs'[..n - 1] == rs[..n - 1][i := x];
      assert last == last';
      PickedCountUpdate(rs[..n - 1], i, x);
    } else {
      assert rs'[..n - 1] == rs[..n - 1];
    }
  }

  /** The file as `pd.read_csv` delivers it: the `Name` column and, when the
      file has them, the `LastPicked` and `PickOrder` columns (empty cells are
      `None`). */
  datatype Table = Table(names: seq<string>,
                         lastPicked: Option<seq<Option<Timestamp>>>,
                         pickOrder: Option<seq<Option<int>>>)

  /** Every column present has one cell per row, as a parsed CSV file does. */
  predicate Rectangular(t: Table) {
    && (t.lastPicked.Some? ==> |t.lastPicked.value| == |t.names|)
    && (t.pickOrder.Some? ==> |t.pickOrder.value| == |t.names|)
  }

  /** The failure `load_students` raises when the file does not exist. */
  datatype LoadError = NotFound(path: string)

  /** The file name `main` loads and saves (picker.py:77). */
  const RosterFile: string := "students.csv"

  /** `load_students(path)` (picker.py:7-17): `file` is what is stored at
      `path`, `None` when there is no such file. A missing pick column is added
      with every cell empty. */
  function LoadStudents(path: string, file: Option<Table>): (r: Result<seq<Record>, LoadError>)
    requires file.Some? ==> Rectangular(file.value)
    ensures file.None? <==> r == Err(NotFound(path))
    ensures r.Ok? ==> |r.value| == |file.value.names|
    ensures r.Ok? ==> forall i :: 0 <= i < |r.value| ==> r.value[i].name == file.value.names[i]
    ensures r.Ok? ==> forall i :: 0 <= i < |r.value| ==>
      r.value[i].lastPicked == (if file.value.lastPicked.Some? then file.value.lastPicked.value[i] else None)
    ensures r.Ok? ==> forall i :: 0 <= i < |r.value| ==>
      r.value[i].pickOrder == (if file.value.pickOrder.Some? then file.value.pickOrder.value[i] else None)
  {
    match file
    case None => Err(NotFound(path))
    case Some(t) =>
      var n := |t.names|;
      var last := if t.lastPicked.Some? then t.lastPicked.value else seq(n, _ => None);
      var order := if t.pickOrder.Some? then t.pickOrder.value else seq(n, _ => None);
      Ok(seq(n, i requires 0 <= i < n => Record(t.names[i], last[i], order[i])))
  }

  /** `save_students(df, path)` (picker.py:19-21): the table written, with
      every column present and an empty cell for every absent value. */
  function SaveStudents(rs: seq<Record>): (t: Table)
    ensures Rectangular(t) && t.lastPicked.Some? && t.pickOrder.Some?
  {
    Table(seq(|rs|, i requires 0 <= i < |rs| => rs[i].name),
          Some(seq(|rs|, i requires 0 <= i < |rs| => rs[i].lastPicked)),
          Some(seq(|rs|, i requires 0 <= i < |rs| => rs[i].pickOrder)))
  }

  /** Loading a file that predates the pick columns makes every record
      eligible, with nothing picked and the invariants holding. */
  lemma LoadWithoutPickColumns(path: string, names: seq<string>)
    ensures var r := LoadStudents(path, Some(Table(names, None, None)));
      && r.Ok? && |r.value| == |names|
      && (forall i :: 0 <= i < |names| ==> r.value[i].name == names[i] && Eligible(r.value[i]))
      && PickedCount(r.value) == 0 && Wf(r.value)
  {
    PickedCountExtremes(LoadStudents(path, Some(Table(names, None, None))).value);
  }

  /** What a save writes, a later load reads back unchanged. */
  lemma LoadAfterSave(path: string, rs: seq<Record>)
    ensures LoadStudents(path, Some(SaveStudents(rs))) == Ok(rs)
  {
    var r := LoadStudents(path, Some(SaveStudents(rs)));
    assert r.value == rs;
  }
}
