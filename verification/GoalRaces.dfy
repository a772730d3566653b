/** The goal operations interleaved. Operations that take no row lock decide on a loaded copy and write, at commit,
    the columns they changed; create and replace may have read the table before someone else committed. */
module GoalRaces {
  import opened Common
  import opened Goals

  /** A row as it was loaded and as the session left it. */
  datatype Write = Write(id: nat, loaded: Goal, edited: Goal)

  datatype Pending = Writes(writes: seq<Write>) | Insertion(goal: Goal)

  datatype System = System(rows: Table, pending: map<nat, Pending>)

  datatype Event =
    | Load(tx: nat, op: Op, now: int)            // an operation without a row lock reads and decides
    | ReadyToInsert(tx: nat, goal: Goal)         // create, or replace with no current goal, past its pre-flight check
    | Finish(tx: nat)                            // commit, or rollback when the index is violated
    | Locked(lockedOp: Op, at: int)              // replace and add_star hold the active row from read to commit

  /** SQLAlchemy's UPDATE names only the columns whose value differs from the loaded one. */
  function Merge(w: Write, current: Goal): Goal {
    var a, b := w.loaded, w.edited;
    Goal(if b.title != a.title then b.title else current.title,
         if b.target != a.target then b.target else current.target,
         if b.done != a.done then b.done else current.done,
         if b.status != a.status then b.status else current.status,
         if b.completedAt != a.completedAt then b.completedAt else current.completedAt,
         if b.month != a.month then b.month else current.month,
         if b.createdAt != a.createdAt then b.createdAt else current.createdAt,
         if b.updatedAt != a.updatedAt then b.updatedAt else current.updatedAt,
         if b.deletedAt != a.deletedAt then b.deletedAt else current.deletedAt)
  }

  function WriteAll(t: Table, writes: seq<Write>): Table
    decreases |writes|
  {
    if writes == [] then t
    else
      var w := writes[0];
      WriteAll(if w.id < |t| then t[w.id := Merge(w, t[w.id])] else t, writes[1..])
  }

  /** The rows an unlocked operation changed in its own session. */
  function Changes(before: Table, after: Table): seq<Write>
    requires |before| == |after|
  {
    ChangesFrom(before, after, 0)
  }

  function ChangesFrom(before: Table, after: Table, i: nat): seq<Write>
    requires |before| == |after| && i <= |before|
    decreases |before| - i
  {
    if i == |before| then []
    else if before[i] == after[i] then ChangesFrom(before, after, i + 1)
    else [Write(i, before[i], after[i])] + ChangesFrom(before, after, i + 1)
  }

  predicate Unlocked(op: Op) {
    op.Progress? || op.Edit? || op.SetStatus? || op.Delete? || op.IncrementMonth?
  }

  predicate Enabled(s: System, e: Event) {
    match e
    case Load(tx, op, _) => tx !in s.pending && Unlocked(op)
    case ReadyToInsert(tx, g) => tx !in s.pending && Live(g) && g.completedAt.None?
    case Finish(tx) => tx in s.pending
    case Locked(op, _) => op.Star? || (op.Replace? && FindActive(s.rows).Some?)
  }

  function Step(s: System, e: Event): System {
    match e
    case Load(tx, op, now) =>
      var after := Apply(s.rows, op, now).0;
      if |after| != |s.rows| then s
      else s.(pending := s.pending[tx := Writes(Changes(s.rows, after))])
    case ReadyToInsert(tx, g) =>
      s.(pending := s.pending[tx := Insertion(g)])
    case Finish(tx) =>
      if tx !in s.pending then s
      else
        var rows := match s.pending[tx]
                    case Writes(ws) => WriteAll(s.rows, ws)
                    case Insertion(g) => s.rows + [g];
        System(if IndexHolds(rows) then rows else s.rows, s.pending - {tx})
    case Locked(op, now) =>
      s.(rows := Apply(s.rows, op, now).0)
  }

  // ---------------------------------------------------------------------------
  // Alone, and two at once
  // ---------------------------------------------------------------------------

  /** Writing the changes of an operation over the table it has loaded gives the table it has left. */
  lemma {:induction false} ChangesAreAll(before: Table, after: Table, i: nat)
    requires |before| == |after| && i <= |before|
    ensures WriteAll(after[..i] + before[i..], ChangesFrom(before, after, i)) == after
    decreases |before| - i
  {
    var mixed := after[..i] + before[i..];
    if i == |before| {
      assert mixed == after;
    } else {
      ChangesAreAll(before, after, i + 1);
      var next := after[..i + 1] + before[i + 1..];
      assert mixed[i] == before[i];
      if before[i] == after[i] {
        assert mixed == next;
      } else {
        var w, rest := Write(i, before[i], after[i]), ChangesFrom(before, after, i + 1);
        assert Merge(w, before[i]) == after[i];
        assert mixed[i := after[i]] == next;
        assert ([w] + rest)[1..] == rest;
      }
    }
  }

  /** An operation that nothing overlaps does what it does in a serial run. */
  lemma AloneIsSerial(s: System, tx: nat, op: Op, now: int)
    requires Valid(s.rows) && Enabled(s, Load(tx, op, now))
    ensures Step(Step(s, Load(tx, op, now)), Finish(tx)) == System(Apply(s.rows, op, now).0, s.pending)
  {
    ApplyKeepsValid(s.rows, op, now);
    FinishWritesAll(s, tx, Apply(s.rows, op, now).0);
  }

  lemma FinishWritesAll(s: System, tx: nat, after: Table)
    requires |after| == |s.rows| && IndexHolds(after) && tx !in s.pending
    ensures Step(s.(pending := s.pending[tx := Writes(Changes(s.rows, after))]), Finish(tx)) == System(after, s.pending)
  {
    ChangesAreAll(s.rows, after, 0);
    assert after[..0] + s.rows[0..] == s.rows;
    assert s.pending[tx := Writes(Changes(s.rows, after))] - {tx} == s.pending;
  }

  /** Two operations that have loaded the same row, the first leaving it as `a`, the second as `b`: in each column the
      second one's value stands if it has changed it, and otherwise the first one's. */
  lemma OverlappingWrites(i: nat, g: Goal, a: Goal, b: Goal)
    ensures var h := Merge(Write(i, g, b), Merge(Write(i, g, a), g));
            && h.title == (if b.title != g.title then b.title else a.title)
            && h.target == (if b.target != g.target then b.target else a.target)
            && h.done == (if b.done != g.done then b.done else a.done)
            && h.status == (if b.status != g.status then b.status else a.status)
            && h.completedAt == (if b.completedAt != g.completedAt then b.completedAt else a.completedAt)
            && h.month == (if b.month != g.month then b.month else a.month)
            && h.createdAt == (if b.createdAt != g.createdAt then b.createdAt else a.createdAt)
            && h.updatedAt == (if b.updatedAt != g.updatedAt then b.updatedAt else a.updatedAt)
            && h.deletedAt == (if b.deletedAt != g.deletedAt then b.deletedAt else a.deletedAt)
  {
  }

  // ---------------------------------------------------------------------------
  // What survives every interleaving
  // ---------------------------------------------------------------------------

  /** A pending write was decided on a state this row has really been in, and follows the workflow. */
  ghost predicate WriteOk(t: Table, w: Write) {
    && w.id < |t|
    && Consistent(w.loaded) && Consistent(w.edited)
    && w.edited.createdAt == w.loaded.createdAt && w.edited.month == w.loaded.month
    && (w.loaded.status != Active ==> t[w.id].status != Active)
    && (w.loaded.status == Completed ==> t[w.id].status == Completed)
    && (w.loaded.status != Archived ==> t[w.id].status != Archived)
    && (w.edited.status != w.loaded.status ==> w.loaded.status == Active && w.edited.status == Completed)
  }

  /** A transaction writes a row at most once. */
  ghost predicate OneEach(ws: seq<Write>) {
    forall j, k :: 0 <= j < k < |ws| ==> ws[j].id != ws[k].id
  }

  ghost predicate PendingOk(t: Table, p: Pending) {
    match p
    case Writes(ws) => (forall k :: 0 <= k < |ws| ==> WriteOk(t, ws[k])) && OneEach(ws)
    case Insertion(g) => Live(g) && Consistent(g)
  }

  ghost predicate Inv(s: System) {
    && Valid(s.rows)
    && forall tx :: tx in s.pending ==> PendingOk(s.rows, s.pending[tx])
  }

  /** What an interleaved step may do to a row's status. */
  ghost predicate Drifts(g: Goal, g': Goal) {
    && (g.status != Active ==> g'.status == g.status || (g.status == Replaced && g'.status == Completed))
    && (g.status != Archived ==> g'.status != Archived)
    && g'.createdAt == g.createdAt && g'.month == g.month
  }

  ghost predicate AllDrift(t: Table, t': Table) {
    |t| <= |t'| && forall i :: 0 <= i < |t| ==> Drifts(t[i], t'[i])
  }

  lemma MergeOk(t: Table, w: Write)
    requires WriteOk(t, w) && Consistent(t[w.id])
    ensures Consistent(Merge(w, t[w.id])) && Drifts(t[w.id], Merge(w, t[w.id]))
    ensures Live(Merge(w, t[w.id])) ==> Live(t[w.id])
  {
  }

  lemma PendingSurvives(t: Table, t': Table, p: Pending)
    requires PendingOk(t, p) && AllDrift(t, t')
    ensures PendingOk(t', p)
  {
    if p.Writes? {
      forall k | 0 <= k < |p.writes| ensures WriteOk(t', p.writes[k]) {
        assert WriteOk(t, p.writes[k]);
        assert Drifts(t[p.writes[k].id], t'[p.writes[k].id]);
      }
    }
  }

  lemma {:induction false} WriteAllOk(t: Table, ws: seq<Write>)
    requires Valid(t) && PendingOk(t, Writes(ws))
    ensures Valid(WriteAll(t, ws)) && AllDrift(t, WriteAll(t, ws))
    decreases |ws|
  {
    if ws != [] {
      var w := ws[0];
      assert WriteOk(t, w);
      MergeOk(t, w);
      var t1 := t[w.id := Merge(w, t[w.id])];
      assert Valid(t1) && AllDrift(t, t1);
      PendingSurvives(t, t1, Writes(ws[1..]));
      WriteAllOk(t1, ws[1..]);
      var t2 := WriteAll(t, ws);
      forall i | 0 <= i < |t| ensures Drifts(t[i], t2[i]) {
        assert Drifts(t[i], t1[i]) && Drifts(t1[i], t2[i]);
      }
    }
  }

  lemma {:induction false} ChangesOk(t: Table, after: Table, i: nat)
    requires |after| == |t| && i <= |t| && Valid(t)
    requires forall k :: 0 <= k < |t| && after[k] != t[k] ==> WriteOk(t, Write(k, t[k], after[k]))
    ensures PendingOk(t, Writes(ChangesFrom(t, after, i)))
    ensures forall k :: 0 <= k < |ChangesFrom(t, after, i)| ==> ChangesFrom(t, after, i)[k].id >= i
    decreases |t| - i
  {
    if i < |t| {
      ChangesOk(t, after, i + 1);
      var ws, rest := ChangesFrom(t, after, i), ChangesFrom(t, after, i + 1);
      if ws != rest {
        assert ws[0].id == i && ws[1..] == rest;
        forall j, k | 0 <= j < k < |ws| ensures ws[j].id != ws[k].id {
          assert ws[k] == rest[k - 1] && (j > 0 ==> ws[j] == rest[j - 1]);
        }
      }
    }
  }

  lemma LoadOk(t: Table, op: Op, now: int)
    requires Valid(t) && Unlocked(op)
    ensures |Apply(t, op, now).0| == |t|
    ensures PendingOk(t, Writes(Changes(t, Apply(t, op, now).0)))
  {
    var after := Apply(t, op, now).0;
    ApplyKeepsValid(t, op, now);
    forall k | 0 <= k < |t| && after[k] != t[k] ensures WriteOk(t, Write(k, t[k], after[k])) {
      assert Consistent(t[k]) && Consistent(after[k]) && Later(t[k], after[k]);
    }
    ChangesOk(t, after, 0);
  }

  lemma LockedOk(t: Table, op: Op, now: int)
    requires Valid(t) && (op.Star? || op.Replace?)
    ensures AllDrift(t, Apply(t, op, now).0)
  {
    ApplyKeepsValid(t, op, now);
    var t' := Apply(t, op, now).0;
    forall i | 0 <= i < |t| ensures Drifts(t[i], t'[i]) {
      assert Later(t[i], t'[i]);
    }
  }

  lemma StepKeepsInv(s: System, e: Event)
    requires Inv(s) && Enabled(s, e)
    ensures Inv(Step(s, e)) && AllDrift(s.rows, Step(s, e).rows)
  {
    var s' := Step(s, e);
    match e
    case Load(tx, op, now) =>
      LoadOk(s.rows, op, now);
    case ReadyToInsert(tx, g) =>
    case Finish(tx) =>
      assert PendingOk(s.rows, s.pending[tx]);
      if s.pending[tx].Writes? {
        WriteAllOk(s.rows, s.pending[tx].writes);
      }
    case Locked(op, now) =>
      ApplyKeepsValid(s.rows, op, now);
      LockedOk(s.rows, op, now);
    forall other | other in s'.pending && other in s.pending && s'.pending[other] == s.pending[other]
      ensures PendingOk(s'.rows, s'.pending[other])
    {
      PendingSurvives(s.rows, s'.rows, s.pending[other]);
    }
  }

  function Run(s: System, es: seq<Event>): System {
    if es == [] then s else Step(Run(s, es[..|es| - 1]), es[|es| - 1])
  }

  ghost predicate Possible(s: System, es: seq<Event>) {
    es == [] || (Possible(s, es[..|es| - 1]) && Enabled(Run(s, es[..|es| - 1]), es[|es| - 1]))
  }

  /** However the operations interleave: at most one live active goal, no active goal deleted, completed_at set
      exactly on completed goals, no finished goal active again. */
  lemma {:induction false} InterleavedRunsAreSafe(s: System, es: seq<Event>)
    requires Inv(s) && Possible(s, es)
    ensures Inv(Run(s, es)) && AllDrift(s.rows, Run(s, es).rows)
  {
    if es != [] {
      var mid := Run(s, es[..|es| - 1]);
      InterleavedRunsAreSafe(s, es[..|es| - 1]);
      StepKeepsInv(mid, es[|es| - 1]);
      forall i | 0 <= i < |s.rows| ensures Drifts(s.rows[i], Run(s, es).rows[i]) {
        assert Drifts(s.rows[i], mid.rows[i]);
        assert Drifts(mid.rows[i], Run(s, es).rows[i]);
      }
    }
  }

  // ---------------------------------------------------------------------------
  // What does not survive
  // ---------------------------------------------------------------------------

  /** A write that was decided while the goal was active, and completes it. */
  predicate Completes(w: Write, i: nat) {
    w.id == i && w.loaded.status == Active && w.edited.status == Completed
  }

  ghost predicate CompletesLate(p: Pending, i: nat) {
    p.Writes? && exists k :: 0 <= k < |p.writes| && Completes(p.writes[k], i)
  }

  /** On a row that is no longer active a list of pending writes changes the status exactly when the row has been
      replaced and one of the writes completes it. */
  lemma {:induction false} WriteAllStatus(t: Table, ws: seq<Write>, i: nat)
    requires Valid(t) && PendingOk(t, Writes(ws)) && i < |t| && t[i].status != Active
    ensures i < |WriteAll(t, ws)|
    ensures WriteAll(t, ws)[i].status
            == if t[i].status == Replaced && CompletesLate(Writes(ws), i) then Completed else t[i].status
    decreases |ws|
  {
    if ws != [] {
      var w, rest := ws[0], ws[1..];
      assert WriteOk(t, w);
      MergeOk(t, w);
      var t1 := t[w.id := Merge(w, t[w.id])];
      assert Valid(t1) && AllDrift(t, t1);
      PendingSurvives(t, t1, Writes(rest));
      WriteAllStatus(t1, rest, i);
      CompletesFirstOrLater(ws, i);
    }
  }

  lemma CompletesFirstOrLater(ws: seq<Write>, i: nat)
    requires ws != []
    ensures CompletesLate(Writes(ws), i) <==> Completes(ws[0], i) || CompletesLate(Writes(ws[1..]), i)
  {
    var rest := ws[1..];
    if CompletesLate(Writes(rest), i) {
      var k :| 0 <= k < |rest| && Completes(rest[k], i);
      assert Completes(ws[k + 1], i);
    }
    if k :| 0 <= k < |ws| && Completes(ws[k], i) && k > 0 {
      assert Completes(rest[k - 1], i);
    }
  }

  /** One commit changes a finished status exactly when it brings a completion, decided while the goal was active, to a
      row that has been replaced since. */
  lemma FinishedStatusChangesIff(s: System, tx: nat, i: nat)
    requires Inv(s) && tx in s.pending && i < |s.rows| && s.rows[i].status != Active
    ensures i < |Step(s, Finish(tx)).rows|
    ensures Step(s, Finish(tx)).rows[i].status != s.rows[i].status
            <==> s.rows[i].status == Replaced && CompletesLate(s.pending[tx], i)
  {
    assert PendingOk(s.rows, s.pending[tx]);
    if s.pending[tx].Writes? {
      WriteAllOk(s.rows, s.pending[tx].writes);
      WriteAllStatus(s.rows, s.pending[tx].writes, i);
    }
  }

  /** Some transaction still holds a completion of goal i. */
  ghost predicate AwaitsCompletion(s: System, i: nat) {
    exists tx :: tx in s.pending && CompletesLate(s.pending[tx], i)
  }

  lemma {:induction false} ChangesAreOfActive(t: Table, after: Table, from: nat, i: nat)
    requires |after| == |t| && from <= |t| && i < |t| && t[i].status != Active
    ensures !CompletesLate(Writes(ChangesFrom(t, after, from)), i)
    decreases |t| - from
  {
    if from < |t| {
      ChangesAreOfActive(t, after, from + 1, i);
      var ws, rest := ChangesFrom(t, after, from), ChangesFrom(t, after, from + 1);
      if ws != rest {
        assert ws[1..] == rest;
        forall k | 0 <= k < |ws| ensures !Completes(ws[k], i) {
          assert k > 0 ==> ws[k] == rest[k - 1];
        }
      }
    }
  }

  /** No step hands out a new completion of a goal that is not active. */
  lemma NoNewCompletion(s: System, e: Event, i: nat)
    requires Inv(s) && Enabled(s, e) && i < |s.rows| && s.rows[i].status != Active
    requires AwaitsCompletion(Step(s, e), i)
    ensures AwaitsCompletion(s, i)
  {
    var s' := Step(s, e);
    var tx :| tx in s'.pending && CompletesLate(s'.pending[tx], i);
    if e.Load? && tx == e.tx {
      LoadOk(s.rows, e.op, e.now);
      ChangesAreOfActive(s.rows, Apply(s.rows, e.op, e.now).0, 0, i);
    } else {
      assert tx in s.pending && s.pending[tx] == s'.pending[tx];
    }
  }

  lemma LockedKeepsFinished(s: System, e: Event, i: nat)
    requires Inv(s) && Enabled(s, e) && !e.Finish? && i < |s.rows| && s.rows[i].status != Active
    ensures |Step(s, e).rows| > i && Step(s, e).rows[i].status == s.rows[i].status
  {
    if e.Locked? {
      ApplyKeepsValid(s.rows, e.lockedOp, e.at);
      assert Later(s.rows[i], Step(s, e).rows[i]);
    }
  }

  lemma {:induction false} StaysReplaced(s: System, es: seq<Event>, i: nat)
    requires Inv(s) && Possible(s, es) && i < |s.rows| && s.rows[i].status == Replaced && !AwaitsCompletion(s, i)
    ensures i < |Run(s, es).rows| && Run(s, es).rows[i].status == Replaced && !AwaitsCompletion(Run(s, es), i)
  {
    if es != [] {
      var front, e := es[..|es| - 1], es[|es| - 1];
      StaysReplaced(s, front, i);
      InterleavedRunsAreSafe(s, front);
      var mid := Run(s, front);
      if e.Finish? {
        FinishedStatusChangesIff(mid, e.tx, i);
        StepKeepsInv(mid, e);
      } else {
        LockedKeepsFinished(mid, e, i);
      }
      if AwaitsCompletion(Step(mid, e), i) {
        NoNewCompletion(mid, e, i);
      }
    }
  }

  /** A replaced goal stays replaced for ever, whatever runs, if and only if no transaction holds a completion of it
      when it is replaced. */
  lemma ReplacedIsFinalIff(s: System, i: nat)
    requires Inv(s) && i < |s.rows| && s.rows[i].status == Replaced
    ensures (forall es :: Possible(s, es) ==> i < |Run(s, es).rows| && Run(s, es).rows[i].status == Replaced)
            <==> !AwaitsCompletion(s, i)
  {
    if AwaitsCompletion(s, i) {
      var tx :| tx in s.pending && CompletesLate(s.pending[tx], i);
      var es := [Finish(tx)];
      assert es[..|es| - 1] == [];
      assert Possible(s, []) && Run(s, []) == s;
      assert Possible(s, es) && Run(s, es) == Step(s, Finish(tx));
      FinishedStatusChangesIff(s, tx, i);
      assert Run(s, es).rows[i].status != Replaced;
    } else {
      forall es | Possible(s, es) ensures i < |Run(s, es).rows| && Run(s, es).rows[i].status == Replaced {
        StaysReplaced(s, es, i);
      }
    }
  }

  lemma RunOfThree(s: System, a: Event, b: Event, c: Event)
    ensures var es := [a, b, c];
            && Run(s, es[..2]) == Step(Step(s, a), b)
            && Run(s, es) == Step(Step(Step(s, a), b), c)
            && (Enabled(s, a) && Enabled(Step(s, a), b) && Enabled(Step(Step(s, a), b), c) ==> Possible(s, es))
  {
    var es := [a, b, c];
    assert es[..2] == [a, b] && [a, b][..1] == [a] && [a][..0] == [];
    assert Run(s, []) == s && Possible(s, []);
    assert Run(s, [a]) == Step(s, a) && Possible(s, [a]) == Enabled(s, a);
    assert Run(s, [a, b]) == Step(Step(s, a), b);
    assert Possible(s, [a, b]) == (Possible(s, [a]) && Enabled(Step(s, a), b));
  }

  /** What a progress update to the target leaves pending. */
  lemma LoadedProgress(g: Goal, now: int)
    requires Live(g) && Consistent(g) && g.done < g.target
    ensures Apply([g], Progress(0, g.target), now).0 == [WithDone(g, g.target, now)]
    ensures Changes([g], [WithDone(g, g.target, now)]) == [Write(0, g, WithDone(g, g.target, now))]
  {
    var done := WithDone(g, g.target, now);
    assert [g][0] == g;
    assert ChangesFrom([g], [done], 1) == [];
  }

  /** Finished statuses are not final here: progress loaded before a replacement commits after it and turns the
      replaced goal into a completed one. */
  lemma ReplacedCanBecomeCompleted(g: Goal, now: int)
    requires Live(g) && Consistent(g) && g.done < g.target
    ensures var s := System([g], map[]);
            var es := [Load(1, Progress(0, g.target), now), Locked(Replace("next", 1, None), now), Finish(1)];
            && Inv(s) && Possible(s, es)
            && |Run(s, es[..2]).rows| == |Run(s, es).rows| == 2
            && Run(s, es[..2]).rows[0].status == Replaced
            && Run(s, es).rows[0].status == Completed
  {
    var s := System([g], map[]);
    var load, replace, finish := Load(1, Progress(0, g.target), now), Locked(Replace("next", 1, None), now), Finish(1);
    RunOfThree(s, load, replace, finish);
    LoadedProgress(g, now);
    var done := WithDone(g, g.target, now);
    var s1 := Step(s, load);
    assert s1 == System([g], map[1 := Writes([Write(0, g, done)])]);
    assert Live(s1.rows[0]);
    RetiredHasNone(s1.rows, now);
    ReplaceSucceeds(s1.rows, "next", 1, None, now);
    var s2 := Step(s1, replace);
    LateCommit(s2, g, done);
  }

  /** The pending completion commits over the replaced row. */
  lemma LateCommit(s: System, g: Goal, done: Goal)
    requires |s.rows| == 2 && s.rows[0].status == Replaced && IndexHolds(s.rows)
    requires g.status == Active && done.status == Completed
    requires 1 in s.pending && s.pending[1] == Writes([Write(0, g, done)])
    ensures |Step(s, Finish(1)).rows| == 2 && Step(s, Finish(1)).rows[0].status == Completed
  {
    var w := Write(0, g, done);
    assert WriteAll(s.rows, [w]) == WriteAll(s.rows[0 := Merge(w, s.rows[0])], []);
    assert forall i :: 0 <= i < 2 && Live(s.rows[0 := Merge(w, s.rows[0])][i]) ==> Live(s.rows[i]);
  }

  // ---------------------------------------------------------------------------
  // What a finished goal keeps besides its status
  // ---------------------------------------------------------------------------

  predicate SameTerms(g: Goal, g': Goal) {
    g'.title == g.title && g'.target == g.target && g'.done == g.done
  }

  lemma {:induction false} Untouched(t: Table, ws: seq<Write>, i: nat)
    requires i < |t| && forall k :: 0 <= k < |ws| ==> ws[k].id < |t| && ws[k].id != i
    ensures i < |WriteAll(t, ws)| && WriteAll(t, ws)[i] == t[i]
    decreases |ws|
  {
    if ws != [] {
      Untouched(t[ws[0].id := Merge(ws[0], t[ws[0].id])], ws[1..], i);
    }
  }

  /** What a list of writes makes of one row: the merge of the one write that names it, if one does. */
  lemma {:induction false} WriteAllRow(t: Table, ws: seq<Write>, k: nat)
    requires OneEach(ws) && k < |ws| && forall j :: 0 <= j < |ws| ==> ws[j].id < |t|
    ensures ws[k].id < |WriteAll(t, ws)| && WriteAll(t, ws)[ws[k].id] == Merge(ws[k], t[ws[k].id])
    decreases |ws|
  {
    var t1, rest := t[ws[0].id := Merge(ws[0], t[ws[0].id])], ws[1..];
    if k == 0 {
      Untouched(t1, rest, ws[0].id);
    } else {
      WriteAllRow(t1, rest, k - 1);
    }
  }

  /** The write changes the title, the target or the count that this goal has now. */
  predicate Rewrites(w: Write, i: nat, g: Goal) {
    w.id == i && !SameTerms(g, Merge(w, g))
  }

  ghost predicate RewritesLate(p: Pending, i: nat, g: Goal) {
    p.Writes? && exists k :: 0 <= k < |p.writes| && Rewrites(p.writes[k], i, g)
  }

  ghost predicate AwaitsRewrite(s: System, i: nat, g: Goal) {
    exists tx :: tx in s.pending && RewritesLate(s.pending[tx], i, g)
  }

  /** One commit rewrites the terms of a row exactly when one of its writes does. */
  lemma FinishRewritesIff(s: System, tx: nat, i: nat)
    requires Inv(s) && tx in s.pending && i < |s.rows|
    ensures i < |Step(s, Finish(tx)).rows|
    ensures !SameTerms(s.rows[i], Step(s, Finish(tx)).rows[i]) <==> RewritesLate(s.pending[tx], i, s.rows[i])
  {
    var p := s.pending[tx];
    assert PendingOk(s.rows, p);
    if p.Writes? {
      WriteAllOk(s.rows, p.writes);
      if k :| 0 <= k < |p.writes| && p.writes[k].id == i {
        WriteAllRow(s.rows, p.writes, k);
      } else {
        Untouched(s.rows, p.writes, i);
      }
    }
  }

  lemma {:induction false} ChangesKeepTerms(t: Table, after: Table, from: nat, i: nat, g: Goal)
    requires |after| == |t| && from <= |t| && i < |t| && SameTerms(t[i], after[i])
    ensures !RewritesLate(Writes(ChangesFrom(t, after, from)), i, g)
    decreases |t| - from
  {
    if from < |t| {
      ChangesKeepTerms(t, after, from + 1, i, g);
      var ws, rest := ChangesFrom(t, after, from), ChangesFrom(t, after, from + 1);
      if ws != rest {
        assert ws[1..] == rest;
        forall k | 0 <= k < |ws| ensures !Rewrites(ws[k], i, g) {
          assert k > 0 ==> ws[k] == rest[k - 1];
        }
      }
    }
  }

  /** Nothing that starts after a goal has finished rewrites its terms. */
  lemma NoNewRewrite(s: System, e: Event, i: nat, g: Goal)
    requires Inv(s) && Enabled(s, e) && i < |s.rows| && s.rows[i].status != Active
    requires AwaitsRewrite(Step(s, e), i, g)
    ensures AwaitsRewrite(s, i, g)
  {
    var s' := Step(s, e);
    var tx :| tx in s'.pending && RewritesLate(s'.pending[tx], i, g);
    if e.Load? && tx == e.tx {
      LoadOk(s.rows, e.op, e.now);
      ApplyKeepsValid(s.rows, e.op, e.now);
      assert Later(s.rows[i], Apply(s.rows, e.op, e.now).0[i]);
      ChangesKeepTerms(s.rows, Apply(s.rows, e.op, e.now).0, 0, i, g);
    } else {
      assert tx in s.pending && s.pending[tx] == s'.pending[tx];
    }
  }

  lemma TermsStep(s: System, e: Event, i: nat, g: Goal)
    requires Inv(s) && Enabled(s, e) && i < |s.rows| && s.rows[i].status != Active
    requires SameTerms(g, s.rows[i]) && !AwaitsRewrite(s, i, g)
    ensures i < |Step(s, e).rows| && SameTerms(g, Step(s, e).rows[i]) && !AwaitsRewrite(Step(s, e), i, g)
  {
    if AwaitsRewrite(Step(s, e), i, g) {
      NoNewRewrite(s, e, i, g);
    }
    if e.Finish? {
      FinishRewritesIff(s, e.tx, i);
    } else if e.Locked? {
      ApplyKeepsValid(s.rows, e.lockedOp, e.at);
      assert Later(s.rows[i], Step(s, e).rows[i]);
    }
  }

  lemma {:induction false} TermsStay(s: System, es: seq<Event>, i: nat, g: Goal)
    requires Inv(s) && Possible(s, es) && i < |s.rows| && s.rows[i].status != Active
    requires SameTerms(g, s.rows[i]) && !AwaitsRewrite(s, i, g)
    ensures i < |Run(s, es).rows| && SameTerms(g, Run(s, es).rows[i]) && !AwaitsRewrite(Run(s, es), i, g)
  {
    if es != [] {
      var front, e := es[..|es| - 1], es[|es| - 1];
      TermsStay(s, front, i, g);
      InterleavedRunsAreSafe(s, front);
      assert Drifts(s.rows[i], Run(s, front).rows[i]);
      TermsStep(Run(s, front), e, i, g);
    }
  }

  /** A finished goal keeps its title, target and count for ever, whatever runs, if and only if no transaction holds a
      write that changes one of them now. */
  lemma TermsAreFinalIff(s: System, i: nat)
    requires Inv(s) && i < |s.rows| && s.rows[i].status != Active
    ensures (forall es :: Possible(s, es) ==> i < |Run(s, es).rows| && SameTerms(s.rows[i], Run(s, es).rows[i]))
            <==> !AwaitsRewrite(s, i, s.rows[i])
  {
    if AwaitsRewrite(s, i, s.rows[i]) {
      var tx :| tx in s.pending && RewritesLate(s.pending[tx], i, s.rows[i]);
      var es := [Finish(tx)];
      assert es[..|es| - 1] == [];
      assert Possible(s, []) && Run(s, []) == s;
      assert Possible(s, es) && Run(s, es) == Step(s, Finish(tx));
      FinishRewritesIff(s, tx, i);
      assert !SameTerms(s.rows[i], Run(s, es).rows[i]);
    } else {
      forall es | Possible(s, es) ensures i < |Run(s, es).rows| && SameTerms(s.rows[i], Run(s, es).rows[i]) {
        TermsStay(s, es, i, s.rows[i]);
      }
    }
  }
}
