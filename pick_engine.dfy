/** `pick_student` (picker.py:23-41): choose an eligible record, give it the
    next pick order and the current time. The random draw and the clock are
    parameters: `choice` is the position, among the eligible records, that
    `random.choice` returns, and `now` is `datetime.now()`. */
module PickEngine {
  import opened Wrappers
  import opened Roster

  /** `df['PickOrder'].max()` (picker.py:34): the largest order present,
      skipping empty cells; `None` when every cell is empty. */
  function MaxOrder(rs: seq<Record>): (m: Option<int>)
    ensures m.None? <==> forall i :: 0 <= i < |rs| ==> rs[i].pickOrder.None?
    ensures m.Some? ==> exists i :: 0 <= i < |rs| && rs[i].pickOrder == m
    ensures m.Some? ==> forall i :: 0 <= i < |rs| && rs[i].pickOrder.Some? ==> rs[i].pickOrder.value <= m.value
  {
    if rs == [] then None
    else
      var init := rs[..|rs| - 1];
      assert forall i :: 0 <= i < |init| ==> init[i] == rs[i];
      var m := MaxOrder(init);
      var o := rs[|rs| - 1].pickOrder;
      if o.None? then m
      else if m.None? || m.value < o.value then o
      else m
  }

  /** The order the next pick receives (picker.py:35): 1 when no order is
      present, otherwise one more than the largest present. */
  function NextOrder(rs: seq<Record>): (k: int)
    ensures forall i :: 0 <= i < |rs| && rs[i].pickOrder.Some? ==> rs[i].pickOrder.value < k
    ensures (forall i :: 0 <= i < |rs| ==> rs[i].pickOrder.None?) ==> k == 1
    ensures (exists i :: 0 <= i < |rs| && rs[i].pickOrder.Some?) ==>
      exists i :: 0 <= i < |rs| && rs[i].pickOrder == Some(k - 1)
    ensures Wf(rs) ==> k >= 1
  {
    match MaxOrder(rs)
    case None => 1
    case Some(m) => m + 1
  }

  /** `random.choice` draws from the eligible records, so when there is any,
      the draw is a position among them. */
  predicate CanChoose(rs: seq<Record>, choice: nat) {
    |EligibleIndices(rs)| == 0 || choice < |EligibleIndices(rs)|
  }

  /** The chosen record after the pick: stamped with the time and the order. */
  function Stamped(r: Record, now: Timestamp, order: int): (s: Record)
  {
    r.(lastPicked := Some(now), pickOrder := Some(order))
  }

  /** What `pick_student` returns: the chosen name, the roster, the order. */
  datatype PickResult = PickResult(student: Option<string>, roster: seq<Record>, order: Option<int>)

  /** `pick_student(df)` as a value: no selection when nothing is eligible,
      otherwise the `choice`-th eligible record stamped with `now` and the
      next order. */
  function Pick(rs: seq<Record>, choice: nat, now: Timestamp): (r: PickResult)
    requires CanChoose(rs, choice)
  {
    var unpicked := EligibleIndices(rs);
    if |unpicked| == 0 then PickResult(None, rs, None)
    else
      var chosen := unpicked[choice];
      var next := NextOrder(rs);
      PickResult(Some(rs[chosen].name), rs[chosen := Stamped(rs[chosen], now, next)], Some(next))
  }

  /** `pick_student(df)` on the roster in place: `df.at[...]` writes the two
      cells of the chosen row (picker.py:38-39). */
  method PickStudent(df: array<Record>, choice: nat, now: Timestamp) returns (student: Option<string>, order: Option<int>)
    requires CanChoose(df[..], choice)
    modifies df
    ensures Pick(old(df[..]), choice, now) == PickResult(student, df[..], order)
  {
    var unpicked := EligibleIndices(df[..]);
    if |unpicked| == 0 {
      return None, None;
    }
    var chosen := unpicked[choice];
    var next := NextOrder(df[..]);
    df[chosen] := df[chosen].(lastPicked := Some(now));
    df[chosen] := df[chosen].(pickOrder := Some(next));
    student, order := Some(df[chosen].name), Some(next);
  }

  /** Exhaustion: the pick selects nothing exactly when no record is
      eligible, and then the roster is unchanged. */
  lemma PickExhausted(rs: seq<Record>, choice: nat, now: Timestamp)
    requires CanChoose(rs, choice)
    ensures Pick(rs, choice, now).student.None? <==> PickedCount(rs) == |rs|
    ensures Pick(rs, choice, now).order.None? <==> PickedCount(rs) == |rs|
    ensures PickedCount(rs) == |rs| ==> Pick(rs, choice, now).roster == rs
  {
  }

  /** A successful pick: the chosen record was eligible, it alone is changed,
      its name is returned, the order stored in it is the order returned and
      exceeds every order present before, and one more record is picked. */
  lemma {:induction false} PickStampsChosen(rs: seq<Record>, choice: nat, now: Timestamp)
    requires CanChoose(rs, choice)
    requires PickedCount(rs) < |rs|
    ensures var r := Pick(rs, choice, now);
      var i := EligibleIndices(rs)[choice];
      && r.student.Some? && r.order.Some?
      && i < |rs| && Eligible(rs[i])
      && r.student.value == rs[i].name
      && |r.roster| == |rs|
      && r.roster[i] == Record(rs[i].name, Some(now), r.order)
      && (forall j :: 0 <= j < |rs| && j != i ==> r.roster[j] == rs[j])
      && (forall j :: 0 <= j < |rs| && rs[j].pickOrder.Some? ==> rs[j].pickOrder.value < r.order.value)
      && PickedCount(r.roster) == PickedCount(rs) + 1
  {
    var i := EligibleIndices(rs)[choice];
    PickedCountUpdate(rs, i, Stamped(rs[i], now, NextOrder(rs)));
  }

  /** A pick keeps invariants I1 and I2: the new order is positive and
      differs from every order already present. */
  lemma PickKeepsWf(rs: seq<Record>, choice: nat, now: Timestamp)
    requires CanChoose(rs, choice)
    requires Wf(rs)
    ensures Wf(Pick(rs, choice, now).roster)
  {
    if PickedCount(rs) < |rs| {
      PickStampsChosen(rs, choice, now);
    }
  }

  /** Eligibility monotonicity: a record that was picked before a pick is
      left exactly as it was. */
  lemma PickKeepsPicked(rs: seq<Record>, choice: nat, now: Timestamp)
    requires CanChoose(rs, choice)
    ensures |Pick(rs, choice, now).roster| == |rs|
    ensures forall j :: 0 <= j < |rs| && !Eligible(rs[j]) ==> Pick(rs, choice, now).roster[j] == rs[j]
  {
  }
}
