/** The session controller: the pick / reset / undo / quit branches of `main`
    (picker.py:148-201), the announcement kept in `main.last_picked` and
    `main.last_order`, and the single-slot undo buffer `previous_state`,
    `previous_picked`, `previous_order`. */
module Session {
  import opened Wrappers
  import opened Roster
  import opened PickEngine

  /** The text announced when a pick finds nobody eligible (picker.py:195). */
  const AllPickedMessage: string := "ALL PICKED - PRESS R TO RESET"

  /** The text announced after a reset (picker.py:161). */
  const ResetMessage: string := "ALL STUDENTS RESET"

  /** What the screen announces: nothing (`main` has no `last_picked`), a
      text without an order (`last_picked` only), or a pick with its order
      (`last_picked` and `last_order`). */
  datatype Announcement = NoAnnouncement | Message(text: string) | Picked(name: string, order: int)

  /** Undo reads the saved text and order with Python truthiness
      (`if previous_picked:`, `if previous_order:`), so an empty text or a zero
      order reads as absent. An announcement is restorable when neither is. */
  predicate Restorable(a: Announcement) {
    match a
    case NoAnnouncement => true
    case Message(t) => t != ""
    case Picked(n, o) => n != "" && o != 0
  }

  /** The announcement undo puts back from the saved one (picker.py:170-179,
      with the intended behaviour at line 175: no order is set). */
  function Restored(saved: Announcement): (a: Announcement)
    ensures Restorable(saved) ==> a == saved
    ensures Restorable(a)
  {
    match saved
    case NoAnnouncement => NoAnnouncement
    case Message(t) => if t != "" then Message(t) else NoAnnouncement
    case Picked(n, o) =>
      if n == "" then NoAnnouncement
      else if o != 0 then Picked(n, o)
      else Message(n)
  }

  /** The announcement part of undo as picker.py:170-179 is written, where
      `None` is the `AttributeError` that `delattr` raises on an attribute
      `main` does not have: `current` is the announcement before the undo. */
  function AsWrittenUndoAnnouncement(saved: Announcement, current: Announcement): Option<Announcement>
  {
    var text := match saved
      case NoAnnouncement => ""
      case Message(t) => t
      case Picked(n, _) => n;
    if text != "" then
      if saved.Picked? && saved.order != 0 then Some(Picked(text, saved.order))
      else if current.Picked? then Some(Message(text))
      else None
    else if current.NoAnnouncement? then None
    else Some(NoAnnouncement)
  }

  /** The as-written undo agrees with `Restored` whenever it returns, and it
      raises exactly when it deletes an attribute that is not there: the
      restored announcement has no order while the current one has none
      (line 175), or there is nothing to restore and nothing announced
      (line 177). */
  lemma AsWrittenUndoDiverges(saved: Announcement, current: Announcement)
    ensures AsWrittenUndoAnnouncement(saved, current).Some? ==>
      AsWrittenUndoAnnouncement(saved, current).value == Restored(saved)
    ensures AsWrittenUndoAnnouncement(saved, current).None? <==>
      (Restored(saved).Message? && !current.Picked?)
      || (Restored(saved).NoAnnouncement? && current.NoAnnouncement?)
  {
  }

  /** The undo buffer's content: a copy of the roster and the announcement. */
  datatype Snapshot = Snapshot(roster: seq<Record>, announcement: Announcement)

  /** The controller's state between two key presses. */
  datatype State = State(roster: seq<Record>, announcement: Announcement, previous: Option<Snapshot>)

  /** A transition: the new state, and whether it called `save_students` on
      the new roster. */
  datatype Step = Step(next: State, saved: bool)

  /** The state when the loop starts (picker.py:78-84). */
  function Start(rs: seq<Record>): State {
    State(rs, NoAnnouncement, None)
  }

  /** Enter (picker.py:186-201). */
  function PickStep(s: State, choice: nat, now: Timestamp): Step
    requires CanChoose(s.roster, choice)
  {
    var snapshot := Snapshot(s.roster, s.announcement);
    var r := Pick(s.roster, choice, now);
    if r.student.None? then Step(State(r.roster, Message(AllPickedMessage), Some(snapshot)), false)
    else Step(State(r.roster, Picked(r.student.value, r.order.value), Some(snapshot)), true)
  }

  /** R (picker.py:151-163). */
  function ResetStep(s: State): Step {
    Step(State(ClearAll(s.roster), Message(ResetMessage), Some(Snapshot(s.roster, s.announcement))), true)
  }

  /** U (picker.py:165-184). */
  function UndoStep(s: State): Step {
    match s.previous
    case None => Step(s, false)
    case Some(snapshot) => Step(State(snapshot.roster, Restored(snapshot.announcement), None), true)
  }

  /** A key press, as the loop of `main` reads it. */
  datatype Event = PickEvent | UndoEvent | ResetEvent | QuitEvent | Redraw

  /** The key code of Enter (picker.py:186). */
  const EnterKey: int := 10

  /** The branch of `main` that a key code takes (picker.py:148-186). */
  function EventOf(key: int): Event {
    if key == 'q' as int || key == 'Q' as int then QuitEvent
    else if key == 'r' as int || key == 'R' as int then ResetEvent
    else if key == 'u' as int || key == 'U' as int then UndoEvent
    else if key == EnterKey then PickEvent
    else Redraw
  }

  /** The state change of one event; quitting and other keys change nothing. */
  function Apply(s: State, e: Event, choice: nat, now: Timestamp): Step
    requires e == PickEvent ==> CanChoose(s.roster, choice)
  {
    match e
    case PickEvent => PickStep(s, choice, now)
    case ResetEvent => ResetStep(s)
    case UndoEvent => UndoStep(s)
    case QuitEvent => Step(s, false)
    case Redraw => Step(s, false)
  }

  predicate NamesNonEmpty(rs: seq<Record>) {
    forall i :: 0 <= i < |rs| ==> rs[i].name != ""
  }

  /** What every transition keeps: invariants I1 and I2 on the roster and on
      the snapshot, non-empty names, announcements that undo restores
      exactly, and a snapshot only after a pick or reset, which always
      announces something. */
  predicate Sound(s: State) {
    && Wf(s.roster) && NamesNonEmpty(s.roster) && Restorable(s.announcement)
    && (s.previous.Some? ==>
          && Wf(s.previous.value.roster) && NamesNonEmpty(s.previous.value.roster)
          && Restorable(s.previous.value.announcement)
          && !s.announcement.NoAnnouncement?)
  }

  /** A pick always overwrites the undo buffer with the state before it. An
      exhausted pick announces `AllPickedMessage` without an order, leaves
      the roster alone and does not save; a successful pick announces the
      chosen name with the order stored in its record, picks one more record,
      and saves. */
  lemma PickStepOutcome(s: State, choice: nat, now: Timestamp)
    requires CanChoose(s.roster, choice)
    ensures var step := PickStep(s, choice, now);
      && step.next.previous == Some(Snapshot(s.roster, s.announcement))
      && |step.next.roster| == |s.roster|
      && (PickedCount(s.roster) == |s.roster| ==>
            && step.next.roster == s.roster
            && step.next.announcement == Message(AllPickedMessage)
            && !step.saved)
      && (PickedCount(s.roster) < |s.roster| ==>
            var i := EligibleIndices(s.roster)[choice];
            && step.saved
            && Eligible(s.roster[i])
            && step.next.announcement == Picked(s.roster[i].name, step.next.announcement.order)
            && step.next.roster[i].pickOrder == Some(step.next.announcement.order)
            && PickedCount(step.next.roster) == PickedCount(s.roster) + 1)
  {
    if PickedCount(s.roster) < |s.roster| {
      PickStampsChosen(s.roster, choice, now);
    }
  }

  /** Reset snapshots the state, clears both pick cells of every record
      while keeping names and row count, announces `ResetMessage` and
      saves. */
  lemma ResetStepOutcome(s: State)
    ensures var step := ResetStep(s);
      && step.saved
      && step.next.previous == Some(Snapshot(s.roster, s.announcement))
      && step.next.announcement == Message(ResetMessage)
      && |step.next.roster| == |s.roster|
      && (forall i :: 0 <= i < |s.roster| ==>
            step.next.roster[i].name == s.roster[i].name
            && Eligible(step.next.roster[i]) && step.next.roster[i].pickOrder.None?)
      && PickedCount(step.next.roster) == 0
  {
    ClearAllEmptiesRoster(s.roster);
  }

  /** Undo without a snapshot changes nothing and does not save; with one it
      puts back the snapshot's roster and its announcement (exactly, when
      that announcement is restorable), saves, and empties the buffer. */
  lemma UndoStepOutcome(s: State)
    ensures s.previous.None? ==> UndoStep(s) == Step(s, false)
    ensures s.previous.Some? ==>
      UndoStep(s) == Step(State(s.previous.value.roster, Restored(s.previous.value.announcement), None), true)
    ensures s.previous.Some? && Restorable(s.previous.value.announcement) ==>
      UndoStep(s).next.announcement == s.previous.value.announcement
  {
  }

  /** Undo is one-shot: a second undo right after an undo changes nothing
      and does not save. */
  lemma UndoIsOneShot(s: State)
    ensures UndoStep(UndoStep(s).next) == Step(UndoStep(s).next, false)
  {
  }

  /** Undo right after a pick gives back the state before the pick, saved,
      with an empty buffer. */
  lemma UndoRevertsPick(s: State, choice: nat, now: Timestamp)
    requires CanChoose(s.roster, choice)
    requires Restorable(s.announcement)
    ensures UndoStep(PickStep(s, choice, now).next) == Step(State(s.roster, s.announcement, None), true)
  {
  }

  /** Undo right after a reset gives back the state before the reset. */
  lemma UndoRevertsReset(s: State)
    requires Restorable(s.announcement)
    ensures UndoStep(ResetStep(s).next) == Step(State(s.roster, s.announcement, None), true)
  {
  }

  /** A session starts sound from a roster that satisfies the invariants. */
  lemma StartIsSound(rs: seq<Record>)
    requires Wf(rs) && NamesNonEmpty(rs)
    ensures Sound(Start(rs))
  {
  }

  /** A pick keeps the session sound: the stamped record keeps its name
      and gets a positive order no other record has. */
  lemma PickStepKeepsSound(s: State, choice: nat, now: Timestamp)
    requires CanChoose(s.roster, choice)
    requires Sound(s)
    ensures Sound(PickStep(s, choice, now).next)
  {
    var r := Pick(s.roster, choice, now);
    PickKeepsWf(s.roster, choice, now);
    if PickedCount(s.roster) < |s.roster| {
      PickStampsChosen(s.roster, choice, now);
      assert NamesNonEmpty(r.roster);
    }
  }

  /** A reset keeps the session sound. */
  lemma ResetStepKeepsSound(s: State)
    requires Sound(s)
    ensures Sound(ResetStep(s).next)
  {
    ClearAllEmptiesRoster(s.roster);
  }

  /** Every event keeps the session sound; in particular the pick orders
      present stay positive and pairwise distinct across any sequence of
      picks, resets and undos. */
  lemma ApplyKeepsSound(s: State, e: Event, choice: nat, now: Timestamp)
    requires e == PickEvent ==> CanChoose(s.roster, choice)
    requires Sound(s)
    ensures Sound(Apply(s, e, choice, now).next)
  {
    match e
    case PickEvent => PickStepKeepsSound(s, choice, now);
    case ResetEvent => ResetStepKeepsSound(s);
    case UndoEvent =>
    case QuitEvent =>
    case Redraw =>
  }

  /** Every branch that does not call `save_students` leaves the roster as
      it was, so the file keeps matching the live roster across any key. */
  lemma UnsavedStepKeepsRoster(s: State, e: Event, choice: nat, now: Timestamp)
    requires e == PickEvent ==> CanChoose(s.roster, choice)
    ensures var step := Apply(s, e, choice, now);
      !step.saved ==> step.next.roster == s.roster
  {
    if e == PickEvent {
      PickExhausted(s.roster, choice, now);
    }
  }

  /** The divergence at picker.py:175, from any state: after reset, reset,
      the snapshot holds the reset message without an order and no order is
      announced, so the code as written raises where the model's undo
      restores the reset message. */
  lemma ResetResetUndoRaises(s: State)
    ensures var s2 := ResetStep(ResetStep(s).next).next;
      && s2.previous.Some?
      && AsWrittenUndoAnnouncement(s2.previous.value.announcement, s2.announcement).None?
      && UndoStep(s2).next.announcement == Message(ResetMessage)
  {
  }

  /** A fresh session on a roster where nobody is picked, after its first
      pick: one record is picked, with order 1, and the others remain
      eligible. */
  function FirstPick(rs: seq<Record>, c1: nat, t1: Timestamp): (s1: State)
    requires Wf(rs) && PickedCount(rs) == 0 && c1 < |rs|
    ensures var i1 := EligibleIndices(rs)[c1];
      && i1 < |rs| && Eligible(rs[i1])
      && s1 == State(rs[i1 := Stamped(rs[i1], t1, 1)], Picked(rs[i1].name, 1), Some(Snapshot(rs, NoAnnouncement)))
    ensures PickedCount(s1.roster) == 1
    ensures NextOrder(s1.roster) == 2
  {
    var i1 := EligibleIndices(rs)[c1];
    PickedCountExtremes(rs);
    assert NextOrder(rs) == 1;
    var s1 := PickStep(Start(rs), c1, t1).next;
    assert s1.roster == rs[i1 := Stamped(rs[i1], t1, 1)];
    assert PickedCount(s1.roster) == 1 by {
      PickedCountUpdate(rs, i1, Stamped(rs[i1], t1, 1));
    }
    OnlyOrderOne(rs, i1, Stamped(rs[i1], t1, 1));
    s1
  }

  /** When a single record holds an order and that order is 1, the next
      order is 2. */
  lemma OnlyOrderOne(rs: seq<Record>, i: nat, x: Record)
    requires i < |rs| && x.pickOrder == Some(1)
    requires forall j :: 0 <= j < |rs| ==> rs[j].pickOrder.None?
    ensures NextOrder(rs[i := x]) == 2
  {
    var rs' := rs[i := x];
    var k := NextOrder(rs');
    assert rs'[i].pickOrder == Some(1);
    var j :| 0 <= j < |rs'| && rs'[j].pickOrder == Some(k - 1);
  }

  /** The second pick of a fresh session gives order 2 to a record other
      than the first, and two records are then picked. */
  lemma SecondPick(rs: seq<Record>, c1: nat, c2: nat, t1: Timestamp, t2: Timestamp)
    requires Wf(rs) && PickedCount(rs) == 0 && c1 < |rs| && c2 < |rs| - 1
    requires forall j, k :: 0 <= j < k < |rs| ==> rs[j].name != rs[k].name
    ensures var s1 := FirstPick(rs, c1, t1);
      var s2 := PickStep(s1, c2, t2).next;
      && PickedCount(s2.roster) == 2
      && s2.announcement.Picked? && s2.announcement.order == 2
      && s2.announcement.name != s1.announcement.name
  {
    var s1 := FirstPick(rs, c1, t1);
    var i1 := EligibleIndices(rs)[c1];
    assert CanChoose(s1.roster, c2);
    PickStepOutcome(s1, c2, t2);
    var i2 := EligibleIndices(s1.roster)[c2];
    assert i2 != i1;
    assert s1.roster[i2].name == rs[i2].name;
  }

  /** The session scenario of a roster of distinct names where nobody is
      picked (Alice, Bob, Carol): after the first pick, a second pick gives
      order 2 to a different record, undo brings back the roster of the
      first pick with one record picked, and reset leaves nobody picked. */
  lemma PickPickUndoReset(rs: seq<Record>, c1: nat, c2: nat, t1: Timestamp, t2: Timestamp)
    requires Wf(rs) && PickedCount(rs) == 0 && c1 < |rs| && c2 < |rs| - 1
    requires forall j, k :: 0 <= j < k < |rs| ==> rs[j].name != rs[k].name
    ensures var s1 := FirstPick(rs, c1, t1);
      var s2 := PickStep(s1, c2, t2).next;
      && PickedCount(s2.roster) == 2
      && s2.announcement.Picked? && s2.announcement.order == 2
      && s2.announcement.name != s1.announcement.name
      && UndoStep(s2).next.roster == s1.roster
      && PickedCount(UndoStep(s2).next.roster) == 1
      && PickedCount(ResetStep(UndoStep(s2).next).next.roster) == 0
  {
    SecondPick(rs, c1, c2, t1, t2);
    var s1 := FirstPick(rs, c1, t1);
    var s3 := UndoStep(PickStep(s1, c2, t2).next).next;
    assert s3.roster == s1.roster;
    ResetStepOutcome(s3);
  }

  /** The session of `main` on a roster held in place. `df` is the live
      roster; `previous` is the undo buffer; `saves` records, in order,
      every roster `save_students` wrote. */
  class Picker {
    var df: array<Record>
    var announcement: Announcement
    var previous: Option<Snapshot>
    var running: bool
    ghost var saves: seq<seq<Record>>

    /** The controller's state as a value. */
    ghost function Current(): State
      reads this, df
    {
      State(df[..], announcement, previous)
    }

    /** The file holds the live roster: the last save, if any, wrote `df`. */
    ghost predicate SavedIsCurrent()
      reads this, df
    {
      saves != [] ==> saves[|saves| - 1] == df[..]
    }

    /** `df = load_students(filename)` on the stored `file` (picker.py:77-84);
        a missing file ends the program before the session starts. */
    constructor (file: Table)
      requires Rectangular(file)
      ensures Current() == Start(LoadStudents(RosterFile, Some(file)).value)
      ensures running && saves == [] && fresh(df)
    {
      var rs := LoadStudents(RosterFile, Some(file)).value;
      df := new Record[|rs|](i requires 0 <= i < |rs| => rs[i]);
      announcement := NoAnnouncement;
      previous := None;
      running := true;
      saves := [];
    }

    /** Enter: snapshot, pick in place, announce, save when someone was picked. */
    method Pick(choice: nat, now: Timestamp)
      requires running && CanChoose(df[..], choice)
      modifies this, df
      ensures running && df == old(df)
      ensures var step := PickStep(old(Current()), choice, now);
        Current() == step.next && saves == old(saves) + (if step.saved then [df[..]] else [])
    {
      previous := Some(Snapshot(df[..], announcement));
      var student, order := PickStudent(df, choice, now);
      if student.None? {
        announcement := Message(AllPickedMessage);
      } else {
        announcement := Picked(student.value, order.value);
        saves := saves + [df[..]];
      }
    }

    /** R: snapshot, clear both pick columns in place, save, announce. */
    method Reset()
      requires running
      modifies this, df
      ensures running && df == old(df)
      ensures var step := ResetStep(old(Current()));
        Current() == step.next && saves == old(saves) + [df[..]]
    {
      previous := Some(Snapshot(df[..], announcement));
      forall i | 0 <= i < df.Length {
        df[i] := df[i].(lastPicked := None);
      }
      forall i | 0 <= i < df.Length {
        df[i] := df[i].(pickOrder := None);
      }
      saves := saves + [df[..]];
      announcement := Message(ResetMessage);
    }

    /** U: when the buffer holds a snapshot, a fresh copy of its roster
        becomes the live roster, is saved, the announcement is put back and
        the buffer is emptied; otherwise nothing happens. */
    method Undo()
      requires running
      modifies this
      ensures running && (df == old(df) || fresh(df))
      ensures var step := UndoStep(old(Current()));
        Current() == step.next && saves == old(saves) + (if step.saved then [df[..]] else [])
    {
      match previous
      case None =>
      case Some(snapshot) =>
        var rs := snapshot.roster;
        df := new Record[|rs|](i requires 0 <= i < |rs| => rs[i]);
        saves := saves + [df[..]];
        announcement := Restored(snapshot.announcement);
        previous := None;
    }

    /** Q: leave the loop; nothing is saved. */
    method Quit()
      requires running
      modifies this
      ensures !running && df == old(df) && Current() == old(Current()) && saves == old(saves)
      ensures SavedIsCurrent() == old(SavedIsCurrent())
    {
      running := false;
    }

    /** One pass of the loop of `main` after rendering: read a key, take
        its branch. Soundness is kept. */
    method HandleKey(key: int, choice: nat, now: Timestamp)
      requires running
      requires EventOf(key) == PickEvent ==> CanChoose(df[..], choice)
      modifies this, df
      ensures running == (EventOf(key) != QuitEvent) && (df == old(df) || fresh(df))
      ensures var step := Apply(old(Current()), EventOf(key), choice, now);
        Current() == step.next && saves == old(saves) + (if step.saved then [df[..]] else [])
      ensures Sound(old(Current())) ==> Sound(Current())
      ensures old(SavedIsCurrent()) ==> SavedIsCurrent()
    {
      ghost var before := Current();
      match EventOf(key) {
        case QuitEvent => Quit();
        case ResetEvent => Reset();
        case UndoEvent => Undo();
        case PickEvent => Pick(choice, now);
        case Redraw =>
      }
      if Sound(before) {
        ApplyKeepsSound(before, EventOf(key), choice, now);
      }
      UnsavedStepKeepsRoster(before, EventOf(key), choice, now);
    }
  }
}
