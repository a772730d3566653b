/** The personal goals of one user: app/goals/repository.py and the goal step of add_star in app/api/sadaqah.py. */
module Goals {
  import opened Common

  datatype Status = Active | Completed | Archived | Replaced

  /** A user_goals row; its position in the table is its id. */
  datatype Goal = Goal(
    title: string,
    target: int,
    done: int,
    status: Status,
    completedAt: Option<int>,
    month: Option<string>,
    createdAt: int,
    updatedAt: int,
    deletedAt: Option<int>)

  type Table = seq<Goal>

  datatype Outcome =
    | Saved(id: nat)
    | Removed
    | Counted
    | NotFound            // None or False
    | ActiveGoalExists    // the three exceptions of the repository
    | ActiveGoalDelete
    | ActiveGoalTransition

  datatype Op =
    | Create(title: string, target: int, month: Option<string>)
    | Replace(title: string, target: int, month: Option<string>)
    | Progress(id: nat, actsDone: int)
    | Edit(id: nat, newTitle: Option<string>, newTarget: Option<int>)
    | SetStatus(id: nat, status: Status)
    | Delete(id: nat)
    | IncrementMonth(yearMonth: string)
    | Star(stars: int)    // add_star, with the stars now in the open jar

  // ---------------------------------------------------------------------------
  // Queries
  // ---------------------------------------------------------------------------

  predicate Live(g: Goal) {
    g.status == Active && g.deletedAt.None?
  }

  /** The partial unique index: at most one live ACTIVE row. */
  predicate IndexHolds(t: Table) {
    forall i, j :: 0 <= i < j < |t| ==> !(Live(t[i]) && Live(t[j]))
  }

  /** The live ACTIVE row first in (created_at desc, id desc) order. */
  function FindActive(t: Table): (r: Option<nat>)
    ensures r.None? <==> forall i :: 0 <= i < |t| ==> !Live(t[i])
    ensures r.Some? ==> r.value < |t| && Live(t[r.value])
    ensures r.Some? ==> forall i :: 0 <= i < |t| && Live(t[i]) ==>
      t[i].createdAt < t[r.value].createdAt || (t[i].createdAt == t[r.value].createdAt && i <= r.value)
  {
    if t == [] then None
    else
      var last := |t| - 1;
      var r := FindActive(t[..last]);
      if !Live(t[last]) then r
      else if r.None? || t[r.value].createdAt <= t[last].createdAt then Some(last)
      else r
  }

  /** get_goal: the row, unless it is soft-deleted. */
  predicate Visible(t: Table, id: nat) {
    id < |t| && t[id].deletedAt.None?
  }

  function NewGoal(title: string, target: int, month: Option<string>, now: int): Goal {
    Goal(title, target, 0, Active, None, month, now, now, None)
  }

  /** Progress that completes the goal when it reaches the target. */
  function WithDone(g: Goal, done: int, now: int): Goal {
    if done >= g.target
    then g.(done := done, status := Completed, completedAt := Some(now), updatedAt := now)
    else g.(done := done, updatedAt := now)
  }

  predicate CountsIn(g: Goal, yearMonth: string) {
    Live(g) && g.month == Some(yearMonth)
  }

  // ---------------------------------------------------------------------------
  // What each operation does when it runs alone
  // ---------------------------------------------------------------------------

  function Insert(t: Table, g: Goal, saved: Table): (Table, Outcome) {
    if IndexHolds(t + [g]) then (t + [g], Saved(|t|)) else (saved, ActiveGoalExists)
  }

  function Retired(t: Table, now: int): Table {
    match FindActive(t)
    case None => t
    case Some(i) => t[i := t[i].(status := Replaced, updatedAt := now)]
  }

  function Successor(t: Table, title: string, target: int, month: Option<string>, now: int): Goal {
    var current := FindActive(t);
    NewGoal(title, target, if month.None? && current.Some? then t[current.value].month else month, now)
  }

  function Apply(t: Table, op: Op, now: int): (Table, Outcome) {
    match op
    case Create(title, target, month) =>
      if FindActive(t).Some? then (t, ActiveGoalExists)
      else Insert(t, NewGoal(title, target, month, now), t)
    case Replace(title, target, month) =>
      Insert(Retired(t, now), Successor(t, title, target, month, now), t)
    case Progress(id, actsDone) =>
      if !Visible(t, id) || t[id].status != Active then (t, NotFound)
      else (t[id := WithDone(t[id], actsDone, now)], Saved(id))
    case Edit(id, newTitle, newTarget) =>
      if !Visible(t, id) || t[id].status != Active then (t, NotFound)
      else (t[id := Edited(t[id], newTitle, newTarget, now)], Saved(id))
    case SetStatus(id, status) =>
      if !Visible(t, id) || (t[id].status != Active && status != t[id].status) then (t, NotFound)
      else if t[id].status == Active && status != Active && status != Completed then (t, ActiveGoalTransition)
      else if status == Active && exists k :: 0 <= k < |t| && k != id && Live(t[k]) then (t, ActiveGoalExists)
      else
        var t' := t[id := Marked(t[id], status, now)];
        if IndexHolds(t') then (t', Saved(id)) else (t, ActiveGoalExists)
    case Delete(id) =>
      if !Visible(t, id) then (t, NotFound)
      else if t[id].status == Active then (t, ActiveGoalDelete)
      else (t[id := t[id].(deletedAt := Some(now), updatedAt := now)], Removed)
    case IncrementMonth(yearMonth) =>
      (seq(|t|, i requires 0 <= i < |t| =>
        if CountsIn(t[i], yearMonth) then WithDone(t[i], t[i].done + 1, now) else t[i]), Counted)
    case Star(stars) =>
      match FindActive(t)
      case None => (t, NotFound)
      case Some(i) => (t[i := WithDone(t[i], Max(t[i].done + 1, stars), now)], Saved(i))
  }

  function Edited(g: Goal, newTitle: Option<string>, newTarget: Option<int>, now: int): Goal {
    g.(title := if newTitle.Some? then newTitle.value else g.title,
       target := if newTarget.Some? then newTarget.value else g.target,
       updatedAt := now)
  }

  function Marked(g: Goal, status: Status, now: int): Goal {
    if status == Completed
    then g.(status := status, completedAt := Some(now), updatedAt := now)
    else g.(status := status, updatedAt := now)
  }

  /** The user's table, changed in place by the repository functions. */
  class UserGoals {
    var rows: Table

    constructor ()
      ensures rows == []
    {
      rows := [];
    }

    method CreateGoal(title: string, target: int, month: Option<string>, now: int) returns (r: Outcome)
      modifies this
      ensures (rows, r) == Apply(old(rows), Create(title, target, month), now)
    {
      if FindActive(rows).Some? {
        return ActiveGoalExists;
      }
      r := Commit(NewGoal(title, target, month, now), rows);
    }

    method ReplaceGoal(title: string, target: int, month: Option<string>, now: int) returns (r: Outcome)
      modifies this
      ensures (rows, r) == Apply(old(rows), Replace(title, target, month), now)
    {
      var saved := rows;
      var current := FindActive(rows);
      var effectiveMonth := month;
      if current.Some? {
        var i := current.value;
        rows := rows[i := rows[i].(status := Replaced, updatedAt := now)];
        if effectiveMonth.None? {
          effectiveMonth := rows[i].month;
        }
      }
      r := Commit(NewGoal(title, target, effectiveMonth, now), saved);
    }

    /** Insert and commit; a violated index rolls the transaction back to `saved`. */
    method Commit(g: Goal, saved: Table) returns (r: Outcome)
      modifies this
      ensures (rows, r) == Insert(old(rows), g, saved)
    {
      rows := rows + [g];
      if !IndexHolds(rows) {
        rows := saved;
        return ActiveGoalExists;
      }
      r := Saved(|rows| - 1);
    }

    method UpdateGoalProgress(id: nat, actsDone: int, now: int) returns (r: Outcome)
      modifies this
      ensures (rows, r) == Apply(old(rows), Progress(id, actsDone), now)
    {
      if !Visible(rows, id) || rows[id].status != Active {
        return NotFound;
      }
      var goal := rows[id].(done := actsDone);
      if actsDone >= goal.target && goal.status == Active {
        goal := goal.(status := Completed, completedAt := Some(now));
      }
      goal := goal.(updatedAt := now);
      rows := rows[id := goal];
      r := Saved(id);
    }

    method UpdateGoalFields(id: nat, newTitle: Option<string>, newTarget: Option<int>, now: int) returns (r: Outcome)
      modifies this
      ensures (rows, r) == Apply(old(rows), Edit(id, newTitle, newTarget), now)
    {
      if !Visible(rows, id) || rows[id].status != Active {
        return NotFound;
      }
      var goal := rows[id];
      if newTitle.Some? {
        goal := goal.(title := newTitle.value);
      }
      if newTarget.Some? {
        goal := goal.(target := newTarget.value);
      }
      rows := rows[id := goal.(updatedAt := now)];
      r := Saved(id);
    }

    method UpdateGoalStatus(id: nat, status: Status, now: int) returns (r: Outcome)
      modifies this
      ensures (rows, r) == Apply(old(rows), SetStatus(id, status), now)
    {
      if !Visible(rows, id) || (rows[id].status != Active && status != rows[id].status) {
        return NotFound;
      }
      if rows[id].status == Active && status !in {Active, Completed} {
        return ActiveGoalTransition;
      }
      if status == Active && exists k :: 0 <= k < |rows| && k != id && Live(rows[k]) {
        return ActiveGoalExists;
      }
      var saved := rows;
      var goal := rows[id].(status := status);
      if status == Completed {
        goal := goal.(completedAt := Some(now));
      }
      rows := rows[id := goal.(updatedAt := now)];
      if !IndexHolds(rows) {
        rows := saved;
        return ActiveGoalExists;
      }
      r := Saved(id);
    }

    /** updated_at moves with every UPDATE that does not name it. */
    method DeleteGoal(id: nat, now: int) returns (r: Outcome)
      modifies this
      ensures (rows, r) == Apply(old(rows), Delete(id), now)
    {
      if !Visible(rows, id) {
        return NotFound;
      }
      if rows[id].status == Active {
        return ActiveGoalDelete;
      }
      rows := rows[id := rows[id].(deletedAt := Some(now), updatedAt := now)];
      r := Removed;
    }

    method IncrementMonthlyGoals(yearMonth: string, now: int)
      modifies this
      ensures rows == Apply(old(rows), IncrementMonth(yearMonth), now).0
    {
      var i := 0;
      while i < |rows|
        invariant 0 <= i <= |rows| == |old(rows)|
        invariant forall k :: 0 <= k < i ==>
          rows[k] == if CountsIn(old(rows)[k], yearMonth) then WithDone(old(rows)[k], old(rows)[k].done + 1, now)
                     else old(rows)[k]
        invariant forall k :: i <= k < |rows| ==> rows[k] == old(rows)[k]
      {
        if CountsIn(rows[i], yearMonth) {
          var goal := rows[i].(done := rows[i].done + 1);
          if goal.done >= goal.target {
            goal := goal.(status := Completed, completedAt := Some(now));
          }
          rows := rows[i := goal.(updatedAt := now)];
        }
        i := i + 1;
      }
    }
  }

  // ---------------------------------------------------------------------------
  // Runs
  // ---------------------------------------------------------------------------

  ghost predicate Consistent(g: Goal) {
    && (g.status == Active ==> g.deletedAt.None?)
    && (g.completedAt.Some? <==> g.status == Completed)
  }

  ghost predicate Valid(t: Table) {
    && IndexHolds(t)
    && forall i :: 0 <= i < |t| ==> Consistent(t[i])
  }

  /** What may happen to one row over any number of operations. */
  ghost predicate Later(g: Goal, g': Goal) {
    && g'.createdAt == g.createdAt && g'.month == g.month
    && (g.status != Active ==>
          g'.status == g.status && g'.done == g.done && g'.target == g.target && g'.title == g.title)
    && (g.deletedAt.Some? ==> g' == g)
  }

  ghost predicate Grows(t: Table, t': Table) {
    |t| <= |t'| && forall i :: 0 <= i < |t| ==> Later(t[i], t'[i])
  }

  /** Writing one row of a valid table keeps it valid, unless it makes a second goal active. */
  lemma RowWriteKeepsValid(t: Table, i: nat, g: Goal)
    requires Valid(t) && i < |t| && Consistent(g) && Later(t[i], g) && (Live(g) ==> Live(t[i]))
    ensures Valid(t[i := g]) && Grows(t, t[i := g])
  {
    assert Consistent(t[i]);
  }

  lemma InsertKeepsValid(t: Table, mid: Table, g: Goal)
    requires Valid(t) && Valid(mid) && Grows(t, mid) && |mid| == |t|
    requires Live(g) && Consistent(g)
    ensures Valid(Insert(mid, g, t).0) && Grows(t, Insert(mid, g, t).0)
  {
    NothingChanges(t);
  }

  lemma NothingChanges(t: Table)
    ensures Grows(t, t)
  {
  }

  lemma MonthKeepsValid(t: Table, yearMonth: string, now: int)
    requires Valid(t)
    ensures var t' := Apply(t, IncrementMonth(yearMonth), now).0; Valid(t') && Grows(t, t')
  {
    var t' := Apply(t, IncrementMonth(yearMonth), now).0;
    forall i | 0 <= i < |t| ensures Consistent(t'[i]) && Later(t[i], t'[i]) && (Live(t'[i]) ==> Live(t[i])) {
      assert Consistent(t[i]);
    }
  }

  lemma ReplaceKeepsValid(t: Table, op: Op, now: int)
    requires Valid(t) && op.Replace?
    ensures Valid(Apply(t, op, now).0) && Grows(t, Apply(t, op, now).0)
  {
    var current := FindActive(t);
    NothingChanges(t);
    if current.Some? {
      assert Consistent(t[current.value]);
      RowWriteKeepsValid(t, current.value, t[current.value].(status := Replaced, updatedAt := now));
    }
    InsertKeepsValid(t, Retired(t, now), Successor(t, op.title, op.target, op.month, now));
  }

  lemma ApplyKeepsValid(t: Table, op: Op, now: int)
    requires Valid(t)
    ensures Valid(Apply(t, op, now).0)
    ensures Grows(t, Apply(t, op, now).0)
  {
    NothingChanges(t);
    match op
    case Create(title, target, month) => InsertKeepsValid(t, t, NewGoal(title, target, month, now));
    case Replace(_, _, _) => ReplaceKeepsValid(t, op, now);
    case IncrementMonth(yearMonth) => MonthKeepsValid(t, yearMonth, now);
    case Progress(id, actsDone) =>
      if Visible(t, id) && t[id].status == Active { RowWriteKeepsValid(t, id, WithDone(t[id], actsDone, now)); }
    case Edit(id, newTitle, newTarget) =>
      if Visible(t, id) && t[id].status == Active {
        assert Consistent(t[id]);
        RowWriteKeepsValid(t, id, Edited(t[id], newTitle, newTarget, now));
      }
    case SetStatus(id, status) =>
      if Apply(t, op, now).0 != t {
        assert Consistent(t[id]);
        RowWriteKeepsValid(t, id, Marked(t[id], status, now));
      }
    case Delete(id) =>
      if Apply(t, op, now).0 != t {
        assert Consistent(t[id]);
        RowWriteKeepsValid(t, id, t[id].(deletedAt := Some(now), updatedAt := now));
      }
    case Star(stars) =>
      if FindActive(t).Some? {
        var i := FindActive(t).value;
        RowWriteKeepsValid(t, i, WithDone(t[i], Max(t[i].done + 1, stars), now));
      }
  }

  datatype Timed = Timed(op: Op, now: int)

  function Run(t: Table, ops: seq<Timed>): Table
    decreases |ops|
  {
    if ops == [] then t else Run(Apply(t, ops[0].op, ops[0].now).0, ops[1..])
  }

  /** Over every serial run: never two live active goals, no active goal deleted, completed_at set exactly on
      completed goals; finished goals keep their status and counts, deleted ones never change again. */
  lemma {:induction false} RunKeepsValid(t: Table, ops: seq<Timed>)
    requires Valid(t)
    ensures Valid(Run(t, ops))
    ensures Grows(t, Run(t, ops))
    decreases |ops|
  {
    if ops != [] {
      var t1 := Apply(t, ops[0].op, ops[0].now).0;
      ApplyKeepsValid(t, ops[0].op, ops[0].now);
      RunKeepsValid(t1, ops[1..]);
      var t2 := Run(t, ops);
      forall i | 0 <= i < |t| ensures Later(t[i], t2[i]) {
        assert Later(t[i], t1[i]) && Later(t1[i], t2[i]);
      }
    }
  }

  /** A step that counts progress leaves the goal it touched either finished or short of its target. */
  lemma ProgressSettles(t: Table, op: Op, now: int, i: nat)
    requires op.Progress? || op.IncrementMonth? || op.Star?
    requires i < |t| && Apply(t, op, now).0[i] != t[i]
    ensures var g := Apply(t, op, now).0[i];
            && Live(t[i])
            && (g.status == Completed <==> g.done >= g.target)
            && (g.status == Completed ==> g.completedAt == Some(now))
            && (g.status != Completed ==> g.status == Active)
  {
  }

  /** Every count that is kept: progress sets it, a month's act and a star raise it, a star at least to the stars in the
      jar. The goal completes when it reaches its target, and no other row moves. */
  lemma CountsAreKept(t: Table, op: Op, now: int, i: nat)
    requires Valid(t) && i < |t| && (op.Progress? || op.IncrementMonth? || op.Star?)
    ensures |Apply(t, op, now).0| == |t|
    ensures var g, g' := t[i], Apply(t, op, now).0[i];
            var moves := g.status == Active && g.deletedAt.None? &&
                         match op
                         case Progress(id, _) => id == i
                         case IncrementMonth(month) => g.month == Some(month)
                         case _ => true;
            var done := match op
                        case Progress(_, n) => n
                        case IncrementMonth(_) => g.done + 1
                        case Star(stars) => (if g.done + 1 >= stars then g.done + 1 else stars)
                        case _ => g.done;
            g' == if !moves then g
                  else if done >= g.target
                  then g.(done := done, status := Completed, completedAt := Some(now), updatedAt := now)
                  else g.(done := done, updatedAt := now)
  {
    RetiredHasNone(t, now);
  }

  /** An active goal takes the title and the target that are given, and keeps what is not. */
  lemma EditTakesGivenFields(t: Table, id: nat, newTitle: Option<string>, newTarget: Option<int>, now: int)
    requires id < |t| && t[id].status == Active && t[id].deletedAt.None?
    ensures var t', r := Apply(t, Edit(id, newTitle, newTarget), now).0, Apply(t, Edit(id, newTitle, newTarget), now).1;
            && r == Saved(id) && |t'| == |t| && (forall k :: 0 <= k < |t| && k != id ==> t'[k] == t[k])
            && (newTitle.Some? ==> t'[id].title == newTitle.value) && (newTitle.None? ==> t'[id].title == t[id].title)
            && (newTarget.Some? ==> t'[id].target == newTarget.value)
            && (newTarget.None? ==> t'[id].target == t[id].target)
            && t'[id].done == t[id].done && t'[id].status == Active && t'[id].month == t[id].month
            && t'[id].updatedAt == now
  {
  }

  /** What a change of status does in a serial run: an active goal can be completed or left active, and nothing else; a
      finished one can only be given the status it has. */
  lemma StatusOutcome(t: Table, id: nat, status: Status, now: int)
    requires Valid(t)
    ensures var t', r := Apply(t, SetStatus(id, status), now).0, Apply(t, SetStatus(id, status), now).1;
            if id >= |t| || t[id].deletedAt.Some? then r == NotFound && t' == t
            else if t[id].status == Active && status == Completed then
              r == Saved(id) && t' == t[id := t[id].(status := Completed, completedAt := Some(now), updatedAt := now)]
            else if t[id].status == Active && status == Active then
              r == Saved(id) && t' == t[id := t[id].(updatedAt := now)]
            else if t[id].status == Active then r == ActiveGoalTransition && t' == t
            else if status != t[id].status then r == NotFound && t' == t
            else if status == Completed then
              r == Saved(id) && t' == t[id := t[id].(completedAt := Some(now), updatedAt := now)]
            else r == Saved(id) && t' == t[id := t[id].(updatedAt := now)]
  {
    if id < |t| && t[id].deletedAt.None? {
      assert Consistent(t[id]);
      if status != Active || t[id].status == Active {
        SameLiveRows(t, id, Marked(t[id], status, now));
      }
    }
  }

  lemma SameLiveRows(t: Table, i: nat, g: Goal)
    requires IndexHolds(t) && i < |t| && (Live(g) ==> Live(t[i]))
    ensures IndexHolds(t[i := g])
  {
  }

  /** Operations on one goal find nothing where there is none, or where it is not active or has been deleted. */
  lemma OnlyActiveGoalsMove(t: Table, op: Op, now: int)
    requires op.Progress? || op.Edit?
    ensures (op.id >= |t| || t[op.id].status != Active || t[op.id].deletedAt.Some?)
            <==> Apply(t, op, now).1 == NotFound
    ensures Apply(t, op, now).1 == NotFound ==> Apply(t, op, now).0 == t
  {
  }

  /** What a deletion does. */
  lemma DeleteOutcome(t: Table, id: nat, now: int)
    ensures var t', r := Apply(t, Delete(id), now).0, Apply(t, Delete(id), now).1;
            if id >= |t| || t[id].deletedAt.Some? then r == NotFound && t' == t
            else if t[id].status == Active then r == ActiveGoalDelete && t' == t
            else r == Removed && t' == t[id := t[id].(deletedAt := Some(now), updatedAt := now)]
  {
  }

  /** A goal that has been created is active, has what was asked for, no acts and this moment as its date. */
  lemma CreatedGoal(t: Table, title: string, target: int, month: Option<string>, now: int)
    requires Valid(t) && FindActive(t).None?
    ensures Apply(t, Create(title, target, month), now).0
            == t + [Goal(title, target, 0, Active, None, month, now, now, None)]
  {
    PreflightIsEnough(t, title, target, month, now);
  }

  lemma RetiredHasNone(t: Table, now: int)
    requires Valid(t)
    ensures |Retired(t, now)| == |t|
    ensures forall i :: 0 <= i < |t| ==> !Live(Retired(t, now)[i])
    ensures forall i :: 0 <= i < |t| && Live(t[i]) ==> Retired(t, now)[i].status == Replaced && FindActive(t) == Some(i)
  {
    var r := FindActive(t);
    forall i | 0 <= i < |t| && Live(t[i]) ensures r == Some(i) {
      assert Live(t[r.value]);
    }
  }

  lemma InsertIntoQuiet(t: Table, g: Goal)
    requires forall i :: 0 <= i < |t| ==> !Live(t[i])
    requires Live(g)
    ensures IndexHolds(t + [g]) && FindActive(t + [g]) == Some(|t|)
  {
  }

  /** In a serial run the index never has to reject anything: create succeeds exactly when its pre-flight check
      finds no active goal, and replace always does. */
  lemma PreflightIsEnough(t: Table, title: string, target: int, month: Option<string>, now: int)
    requires Valid(t)
    ensures Apply(t, Create(title, target, month), now).1
            == if FindActive(t).Some? then ActiveGoalExists else Saved(|t|)
    ensures Apply(t, Replace(title, target, month), now).1 == Saved(|t|)
  {
    RetiredHasNone(t, now);
    InsertIntoQuiet(Retired(t, now), Successor(t, title, target, month, now));
    if FindActive(t).None? {
      InsertIntoQuiet(t, NewGoal(title, target, month, now));
    }
  }

  /** Replacing leaves the new goal as the only active one, keeps the old one in history and carries its month over. */
  lemma ReplaceSucceeds(t: Table, title: string, target: int, month: Option<string>, now: int)
    requires Valid(t)
    ensures var t' := Apply(t, Replace(title, target, month), now).0;
            && |t'| == |t| + 1 && FindActive(t') == Some(|t|)
            && t'[|t|].title == title && t'[|t|].target == target && t'[|t|].done == 0
            && t'[|t|].createdAt == now == t'[|t|].updatedAt && (month.Some? ==> t'[|t|].month == month)
            && (month.None? && (forall i :: 0 <= i < |t| ==> !Live(t[i])) ==> t'[|t|].month.None?)
            && forall i :: 0 <= i < |t| ==>
                 if Live(t[i])
                 then t'[i] == t[i].(status := Replaced, updatedAt := now)
                   && (month.None? ==> t'[|t|].month == t[i].month)
                 else t'[i] == t[i]
  {
    RetiredHasNone(t, now);
    InsertIntoQuiet(Retired(t, now), Successor(t, title, target, month, now));
  }

  /** The operations that take goal i further from its end: replacing it, raising its target, lowering its count. */
  predicate Setback(t: Table, op: Op, i: nat)
    requires i < |t|
  {
    match op
    case Replace(_, _, _) => true
    case Edit(id, _, newTarget) => id == i && newTarget.Some? && newTarget.value > t[i].target
    case Progress(id, actsDone) => id == i && actsDone < t[i].done
    case _ => false
  }

  predicate NoSetback(t: Table, ops: seq<Timed>, i: nat)
    requires i < |t|
    decreases |ops|
  {
    ops == [] ||
    (!Setback(t, ops[0].op, i)
     && i < |Apply(t, ops[0].op, ops[0].now).0|
     && NoSetback(Apply(t, ops[0].op, ops[0].now).0, ops[1..], i))
  }

  function StarsIn(ops: seq<Timed>): nat
    decreases |ops|
  {
    if ops == [] then 0 else (if ops[0].op.Star? then 1 else 0) + StarsIn(ops[1..])
  }

  /** How many stars an active goal can still need: a target that has been lowered below the count needs one. */
  function Missing(g: Goal): int {
    Max(1, g.target - g.done)
  }

  /** One operation that is no setback: the goal completes, or stays active and needs no more than before, and one less
      after a star. */
  lemma Approaches(t: Table, op: Op, now: int, i: nat)
    requires Valid(t) && i < |t| && Live(t[i]) && !Setback(t, op, i)
    ensures var t' := Apply(t, op, now).0;
            && i < |t'|
            && (t'[i].status == Completed
                || (Live(t'[i]) && Missing(t'[i]) <= Missing(t[i]) - if op.Star? then 1 else 0))
  {
    RetiredHasNone(t, now);
  }

  /** Whatever else runs in between, a goal that suffers no setback is completed by the time as many stars have been
      added as acts were missing. */
  lemma {:induction false} StarsComplete(t: Table, i: nat, ops: seq<Timed>)
    requires Valid(t) && i < |t| && Live(t[i]) && NoSetback(t, ops, i)
    requires StarsIn(ops) >= Missing(t[i])
    ensures var t' := Run(t, ops); i < |t'| && t'[i].status == Completed
    decreases |ops|
  {
    var op, now := ops[0].op, ops[0].now;
    var t1 := Apply(t, op, now).0;
    Approaches(t, op, now, i);
    ApplyKeepsValid(t, op, now);
    if t1[i].status == Completed {
      RunKeepsValid(t1, ops[1..]);
      assert Later(t1[i], Run(t1, ops[1..])[i]);
    } else {
      StarsComplete(t1, i, ops[1..]);
    }
  }
}
