/** Calls of add_star that overlap, with validations of the streak and goal operations beside them. A call looks its
    request id up, waits for the lock on the user row, loads the streak row, commits or fails, and only then re-reads
    the jar it answers with. A validation loads the streak row and writes its zero later; it takes no lock. The log's
    date is read on arrival, the streak's day under the lock; between the two the calendar may move on. */
module StarCalls {
  import opened Common
  import opened StarJar
  import G = Goals
  import L = StarLaws
  import R = StarRuns
  import S = IncrementalStreak

  datatype Phase =
    | Waiting(call: Call)                                         // past the lookup, before the user lock
    | Holding(call: Call)                                         // has the lock
    | Counting(call: Call, day: int, loaded: Option<S.Row>)       // and has loaded the streak row
    | Failed(call: Call)                                          // rolled back after an integrity error
    | Committed(call: Call, log: nat, jar: nat)                   // committed, its jar not yet refreshed
    | Done(call: Call, response: Response, added: Option<nat>)

  /** `checks` are validations that are about to write a zero, with the row they have loaded. `clock` is the latest day
      anyone has read from the calendar. `days` are the streak days of the counted calls; no step looks at them. */
  datatype System = System(
    rows: Rows,
    lock: Option<nat>,
    calls: map<nat, Phase>,
    checks: map<nat, S.Row>,
    clock: int,
    days: set<int>)

  datatype Event =
    | Arrive(id: nat, call: Call)
    | Acquire(id: nat)
    | LoadStreak(id: nat, day: int)
    | Finish(id: nat, heard: bool)      // commit, or an integrity error; the client may not hear of a commit
    | Break(id: nat)                    // the database fails before it has stored anything
    | Recover(id: nat)
    | Refresh(id: nat)
    | LoadCheck(id: nat, day: int)
    | WriteZero(id: nat)
    | ChangeGoals(goals: G.Table)       // whatever interleaved goal operations leave

  predicate Enabled(s: System, e: Event) {
    match e
    case Arrive(id, c) => id !in s.calls && s.clock <= c.today && (c.act.Some? ==> StarsOf(c) >= 1)
    case Acquire(id) => id in s.calls && s.calls[id].Waiting? && s.lock.None?
    case LoadStreak(id, day) => id in s.calls && s.calls[id].Holding? && s.clock <= day
    case Finish(id, _) => id in s.calls && s.calls[id].Counting? && s.calls[id].call.act.Some?
    case Break(id) => id in s.calls && (s.calls[id].Holding? || s.calls[id].Counting?)
    case Recover(id) => id in s.calls && s.calls[id].Failed?
    case Refresh(id) => id in s.calls && s.calls[id].Committed?
    case LoadCheck(id, day) => id !in s.checks && s.clock <= day
    case WriteZero(id) => id in s.checks
    case ChangeGoals(_) => true
  }

  function Answer(rows: Rows, c: Call): Phase {
    var found := LookedUp(rows, c);
    if found.Some? then Done(c, found.value, None)
    else if c.act.None? then Done(c, ActNotFound, None)
    else Waiting(c)
  }

  /** The streak row a call stores: its own update, written over what validations have made of the row it loaded. */
  function StreakWritten(s: System, p: Phase): S.Row
    requires p.Counting?
  {
    S.Written(p.loaded, S.Updated(p.loaded, p.day), s.rows.streak)
  }

  function CommitOf(s: System, id: nat, heard: bool): System
    requires id in s.calls && s.calls[id].Counting? && s.calls[id].call.act.Some?
  {
    var p := s.calls[id];
    var log := |s.rows.logs|;
    var next := if heard then Committed(p.call, log, JarId(s.rows.jars)) else Done(p.call, Broken, Some(log));
    s.(rows := StarredWith(s.rows, p.call, StreakWritten(s, p)),
       lock := None,
       calls := s.calls[id := next],
       days := s.days + {p.day})
  }

  /** The write of a validation names one column. */
  function Zeroed(row: Option<S.Row>): Option<S.Row> {
    if row.Some? then Some(row.value.(current := 0)) else None
  }

  function Step(s: System, e: Event): System
    requires Enabled(s, e)
  {
    match e
    case Arrive(id, c) => s.(calls := s.calls[id := Answer(s.rows, c)], clock := c.today)
    case Acquire(id) => s.(lock := Some(id), calls := s.calls[id := Holding(s.calls[id].call)])
    case LoadStreak(id, day) =>
      s.(calls := s.calls[id := Counting(s.calls[id].call, day, s.rows.streak)], clock := day)
    case Finish(id, heard) =>
      if Commits(s.rows, s.calls[id].call) then CommitOf(s, id, heard)
      else s.(lock := None, calls := s.calls[id := Failed(s.calls[id].call)])
    case Break(id) => s.(lock := None, calls := s.calls[id := Done(s.calls[id].call, Broken, None)])
    case Recover(id) =>
      var c := s.calls[id].call;
      var found := LookedUp(s.rows, c);
      s.(calls := s.calls[id := Done(c, if found.Some? then found.value else Conflict, None)])
    case Refresh(id) =>
      var p := s.calls[id];
      var answer := if p.jar < |s.rows.jars| then Ok(SnapshotOf(s.rows.jars[p.jar])) else Conflict;
      s.(calls := s.calls[id := Done(p.call, answer, Some(p.log))])
    case LoadCheck(id, day) =>
      var checked := S.Validated(s.rows.streak, day);
      s.(checks := if checked != s.rows.streak then s.checks[id := s.rows.streak.value] else s.checks, clock := day)
    case WriteZero(id) =>
      s.(rows := s.rows.(streak := Zeroed(s.rows.streak)), checks := s.checks - {id})
    case ChangeGoals(goals) => s.(rows := s.rows.(goals := goals))
  }

  // ---------------------------------------------------------------------------
  // The invariant
  // ---------------------------------------------------------------------------

  /** The log a call has added, if it has added one. */
  function Added(p: Phase): Option<nat> {
    match p
    case Committed(_, l, _) => Some(l)
    case Done(_, _, added) => added
    case _ => None
  }

  /** A log that carries the call's id, stored when this call or an earlier one with the id committed. */
  ghost predicate Carries(rows: Rows, l: nat, c: Call) {
    l < |rows.logs| && rows.logs[l].requestId == StoredId(c.rawRequestId)
    && rows.logs[l].responseStars.Some? && rows.logs[l].responseCapacity.Some?
  }

  /** How far the jar may have moved since the commit that wrote log l. */
  ghost predicate JarSince(rows: Rows, l: nat, j: nat) {
    l < |rows.logs| && j < |rows.jars| &&
    var stored, now := LogSnapshot(rows.logs[l]), SnapshotOf(rows.jars[j]);
    if rows.logs[l].responseCompletedAt.Some? || |rows.logs| == l + 1
    then now == stored && (now.completedAt.None? ==> JarId(rows.jars) == j)
    else now.stars > stored.stars
  }

  /** A replay has been answered from log l. */
  predicate AnsweredFrom(rows: Rows, c: Call, snap: Snapshot, l: nat) {
    l < |rows.logs| && rows.logs[l].requestId == StoredId(c.rawRequestId) && snap == LogSnapshot(rows.logs[l])
  }

  ghost predicate PhaseOk(rows: Rows, p: Phase, most: int) {
    match p
    case Waiting(c) => c.act.Some? && 1 <= StarsOf(c) <= most
    case Holding(c) => c.act.Some? && 1 <= StarsOf(c) <= most
    case Counting(c, _, _) => c.act.Some? && 1 <= StarsOf(c) <= most
    case Failed(c) => true
    case Committed(c, l, j) => Carries(rows, l, c) && JarSince(rows, l, j)
    case Done(c, Ok(snap), None) =>
      Truthy(StoredId(c.rawRequestId)) && exists l: nat :: AnsweredFrom(rows, c, snap, l)
    case Done(c, Ok(snap), Some(l)) =>
      Carries(rows, l, c) &&
      (snap == LogSnapshot(rows.logs[l])
       || (rows.logs[l].responseCompletedAt.None? && snap.stars > LogSnapshot(rows.logs[l]).stars))
    case Done(c, Broken, Some(l)) => Carries(rows, l, c)
    case Done(c, _, added) => added.None?
  }

  /** The days a call has read, and what has become of the streak row it has loaded. */
  ghost predicate ClockOk(s: System, p: Phase) {
    && (p.Waiting? || p.Holding? || p.Counting? ==> p.call.today <= s.clock)
    && (p.Counting? ==>
          p.call.today <= p.day <= s.clock && R.StreakOk(p.loaded) && S.AtMostZeroed(p.loaded, s.rows.streak))
  }

  ghost predicate LockOk(lock: Option<nat>, calls: map<nat, Phase>) {
    forall id :: id in calls && (calls[id].Holding? || calls[id].Counting?) <==> lock == Some(id)
  }

  /** No two calls have added the same log. */
  ghost predicate AddedOnce(calls: map<nat, Phase>) {
    forall a, b :: a in calls && b in calls && a != b && Added(calls[a]).Some? ==> Added(calls[a]) != Added(calls[b])
  }

  ghost predicate PhasesOk(s: System, most: int) {
    forall id :: id in s.calls ==> PhaseOk(s.rows, s.calls[id], most) && ClockOk(s, s.calls[id])
  }

  ghost predicate Inv(s: System, most: int) {
    R.Inv(s.rows, most) && LockOk(s.lock, s.calls) && PhasesOk(s, most) && AddedOnce(s.calls)
  }

  ghost predicate Fair(e: Event, most: int) {
    match e
    case Arrive(_, c) => c.act.Some? ==> StarsOf(c) <= most
    case ChangeGoals(goals) => G.Valid(goals)
    case _ => true
  }

  /** A phase stays justified while another call commits. */
  lemma PhaseSurvives(rows: Rows, c: Call, streak: S.Row, p: Phase, most: int)
    requires c.act.Some? && Commits(rows, c) && StarsOf(c) >= 1
    requires PhaseOk(rows, p, most)
    ensures PhaseOk(StarredWith(rows, c, streak), p, most)
    ensures Added(p) != Some(|rows.logs|)
  {
    var rows' := StarredWith(rows, c, streak);
    assert forall l :: 0 <= l < |rows.logs| ==> rows'.logs[l] == rows.logs[l];
    if p.Committed? {
      assert p.jar < |rows'.jars|;
      if rows.logs[p.log].responseCompletedAt.Some? {
        assert rows'.jars[p.jar] == rows.jars[p.jar];
      } else {
        assert rows'.jars[p.jar].stars >= rows.jars[p.jar].stars;
      }
    } else if p.Done? && p.response.Ok? && p.added.None? {
      var l: nat :| AnsweredFrom(rows, p.call, p.response.snapshot, l);
      assert AnsweredFrom(rows', p.call, p.response.snapshot, l);
    }
  }

  /** So it does while only the streak row or the goals change. */
  lemma PhaseIgnores(rows: Rows, rows': Rows, p: Phase, most: int)
    requires rows'.jars == rows.jars && rows'.logs == rows.logs && PhaseOk(rows, p, most)
    ensures PhaseOk(rows', p, most)
  {
    if p.Done? && p.response.Ok? && p.added.None? {
      var l: nat :| AnsweredFrom(rows, p.call, p.response.snapshot, l);
      assert AnsweredFrom(rows', p.call, p.response.snapshot, l);
    }
  }

  lemma OwnCommit(rows: Rows, c: Call, streak: S.Row, most: int)
    requires c.act.Some? && Commits(rows, c) && StarsOf(c) >= 1
    ensures PhaseOk(StarredWith(rows, c, streak), Committed(c, |rows.logs|, JarId(rows.jars)), most)
    ensures PhaseOk(StarredWith(rows, c, streak), Done(c, Broken, Some(|rows.logs|)), most)
  {
    var rows', l, j := StarredWith(rows, c, streak), |rows.logs|, JarId(rows.jars);
    assert rows'.logs[l] == NewLog(rows.jars, c);
    assert rows'.jars[j] == JarAfter(rows.jars, StarsOf(c), c.now);
  }

  lemma LookupOk(rows: Rows, c: Call, most: int)
    requires LookedUp(rows, c).Some?
    ensures PhaseOk(rows, Done(c, LookedUp(rows, c).value, None), most)
  {
    var l := FindLog(rows.logs, StoredId(c.rawRequestId)).value;
    assert AnsweredFrom(rows, c, LookedUp(rows, c).value.snapshot, l);
  }

  /** The call whose streak row has been loaded is the only one that writes it; validations at most zero its count. */
  lemma WrittenFollows(loaded: Option<S.Row>, stored: Option<S.Row>, day: int)
    requires S.AtMostZeroed(loaded, stored) && R.StreakOk(loaded)
    ensures R.StreakFollows(stored, S.Written(loaded, S.Updated(loaded, day), stored))
  {
  }

  lemma AddedOnceMoves(calls: map<nat, Phase>, id: nat, p: Phase)
    requires AddedOnce(calls)
    requires Added(p).Some? ==> forall other :: other in calls && other != id ==> Added(calls[other]) != Added(p)
    ensures AddedOnce(calls[id := p])
  {
  }

  lemma LockMoves(lock: Option<nat>, calls: map<nat, Phase>, id: nat, p: Phase, lock': Option<nat>)
    requires LockOk(lock, calls)
    requires if p.Holding? || p.Counting? then lock' == Some(id) && (lock.None? || lock == Some(id))
             else if lock == Some(id) then lock'.None? else lock' == lock
    ensures LockOk(lock', calls[id := p])
  {
  }

  /** A step that moves one call and writes no rows. */
  lemma MoveKeepsInv(s: System, s': System, id: nat, p: Phase, most: int)
    requires Inv(s, most) && s'.rows == s.rows && s'.calls == s.calls[id := p] && s.clock <= s'.clock
    requires PhaseOk(s.rows, p, most) && ClockOk(s', p)
    requires Added(p).Some? ==> id in s.calls && Added(p) == Added(s.calls[id])
    requires LockOk(s'.lock, s'.calls)
    ensures Inv(s', most)
  {
    AddedOnceMoves(s.calls, id, p);
    forall other | other in s'.calls ensures PhaseOk(s'.rows, s'.calls[other], most) && ClockOk(s', s'.calls[other]) {
      if other != id {
        assert ClockOk(s, s.calls[other]);
      }
    }
  }

  lemma OtherPhases(s: System, id: nat, heard: bool, other: nat, most: int)
    requires Inv(s, most) && id in s.calls && s.calls[id].Counting? && PhaseOk(s.rows, s.calls[id], most)
    requires Commits(s.rows, s.calls[id].call) && other in s.calls && other != id
    ensures var s' := CommitOf(s, id, heard);
            && PhaseOk(s'.rows, s.calls[other], most) && ClockOk(s', s.calls[other])
            && Added(s.calls[other]) != Some(|s.rows.logs|)
  {
    assert PhaseOk(s.rows, s.calls[other], most) && ClockOk(s, s.calls[other]);
    PhaseSurvives(s.rows, s.calls[id].call, StreakWritten(s, s.calls[id]), s.calls[other], most);
    assert s.lock == Some(id);
  }

  lemma CommitKeepsInv(s: System, id: nat, heard: bool, most: int)
    requires Inv(s, most) && id in s.calls && s.calls[id].Counting? && PhaseOk(s.rows, s.calls[id], most)
    requires Commits(s.rows, s.calls[id].call)
    ensures Inv(CommitOf(s, id, heard), most)
  {
    var p, s' := s.calls[id], CommitOf(s, id, heard);
    assert ClockOk(s, p);
    WrittenFollows(p.loaded, s.rows.streak, p.day);
    R.StarredKeepsInv(s.rows, p.call, StreakWritten(s, p), most);
    OwnCommit(s.rows, p.call, StreakWritten(s, p), most);
    forall other | other in s.calls && other != id
      ensures PhaseOk(s'.rows, s.calls[other], most) && ClockOk(s', s.calls[other])
      ensures Added(s.calls[other]) != Some(|s.rows.logs|)
    {
      OtherPhases(s, id, heard, other, most);
    }
    LockMoves(s.lock, s.calls, id, s'.calls[id], None);
    AddedOnceMoves(s.calls, id, s'.calls[id]);
  }

  /** A step that moves no call and leaves jars and logs alone. */
  lemma BesideKeepsInv(s: System, s': System, most: int)
    requires Inv(s, most) && s'.calls == s.calls && s'.lock == s.lock && s.clock <= s'.clock
    requires s'.rows.jars == s.rows.jars && s'.rows.logs == s.rows.logs && R.Inv(s'.rows, most)
    requires s'.rows.streak == s.rows.streak || s'.rows.streak == Zeroed(s.rows.streak)
    ensures Inv(s', most)
  {
    forall id | id in s'.calls ensures PhaseOk(s'.rows, s'.calls[id], most) && ClockOk(s', s'.calls[id]) {
      assert PhaseOk(s.rows, s.calls[id], most) && ClockOk(s, s.calls[id]);
      PhaseIgnores(s.rows, s'.rows, s.calls[id], most);
    }
  }

  lemma FinishKeepsInv(s: System, id: nat, heard: bool, most: int)
    requires Inv(s, most) && Enabled(s, Finish(id, heard))
    ensures Inv(Step(s, Finish(id, heard)), most)
  {
    assert PhaseOk(s.rows, s.calls[id], most);
    var c := s.calls[id].call;
    if Commits(s.rows, c) {
      CommitKeepsInv(s, id, heard, most);
    } else {
      LockMoves(s.lock, s.calls, id, Failed(c), None);
      MoveKeepsInv(s, Step(s, Finish(id, heard)), id, Failed(c), most);
    }
  }

  /** The steps of one call besides its commit. */
  lemma CallKeepsInv(s: System, e: Event, most: int)
    requires Inv(s, most) && Enabled(s, e) && Fair(e, most)
    requires e.Arrive? || e.Acquire? || e.LoadStreak? || e.Break? || e.Recover? || e.Refresh?
    ensures Inv(Step(s, e), most)
  {
    var s' := Step(s, e);
    var id := e.id;
    if !e.Arrive? {
      assert PhaseOk(s.rows, s.calls[id], most) && ClockOk(s, s.calls[id]);
    }
    if e.Arrive? || e.Recover? {
      var c := if e.Arrive? then e.call else s.calls[id].call;
      if LookedUp(s.rows, c).Some? { LookupOk(s.rows, c, most); }
    }
    LockMoves(s.lock, s.calls, id, s'.calls[id], s'.lock);
    MoveKeepsInv(s, s', id, s'.calls[id], most);
  }

  lemma StepKeepsInv(s: System, e: Event, most: int)
    requires Inv(s, most) && Enabled(s, e) && Fair(e, most)
    ensures Inv(Step(s, e), most)
  {
    match e
    case Finish(id, heard) => FinishKeepsInv(s, id, heard, most);
    case LoadCheck(_, _) => BesideKeepsInv(s, Step(s, e), most);
    case WriteZero(_) => BesideKeepsInv(s, Step(s, e), most);
    case ChangeGoals(_) => BesideKeepsInv(s, Step(s, e), most);
    case _ => CallKeepsInv(s, e, most);
  }

  // ---------------------------------------------------------------------------
  // Every interleaving
  // ---------------------------------------------------------------------------

  function Start(clock: int): System {
    System(NO_ROWS, None, map[], map[], clock, {})
  }

  ghost predicate MovesAt(ss: seq<System>, es: seq<Event>, most: int, k: nat) {
    k < |es| && k + 1 < |ss| && Enabled(ss[k], es[k]) && Fair(es[k], most) && ss[k + 1] == Step(ss[k], es[k])
  }

  /** The states and events of one interleaving, from the empty tables on: event k leads from state k to state k + 1. */
  ghost predicate Behaviour(ss: seq<System>, es: seq<Event>, most: int) {
    |ss| == |es| + 1 && ss[0] == Start(ss[0].clock) && forall k: nat :: k < |es| ==> MovesAt(ss, es, most, k)
  }

  lemma MoveKeeps(ss: seq<System>, es: seq<Event>, most: int, k: nat)
    requires MovesAt(ss, es, most, k) && Inv(ss[k], most)
    ensures Inv(ss[k + 1], most)
  {
    StepKeepsInv(ss[k], es[k], most);
  }

  lemma {:induction false} BehaviourKeepsInv(ss: seq<System>, es: seq<Event>, most: int, k: nat)
    requires Behaviour(ss, es, most) && k < |ss|
    ensures Inv(ss[k], most)
  {
    if k == 0 {
      R.RunKeepsInv([], most);
    } else {
      BehaviourKeepsInv(ss, es, most, k - 1);
      MoveKeeps(ss, es, most, k - 1);
    }
  }

  lemma LogsDoNotClash(rows: Rows, l: nat, m: nat)
    requires R.LogsOk(rows.logs) && l < |rows.logs| && m < |rows.logs|
    requires rows.logs[l].requestId.Some? && rows.logs[l].requestId == rows.logs[m].requestId
    ensures l == m
  {
    if l < m {
      assert Clash(rows.logs[l], rows.logs[m]);
    } else if m < l {
      assert Clash(rows.logs[m], rows.logs[l]);
    }
  }

  /** The log that backs an answer, or the call that has added it. */
  lemma BackedBy(s: System, id: nat, most: int) returns (l: nat)
    requires Inv(s, most) && id in s.calls
    requires Added(s.calls[id]).Some? || (s.calls[id].Done? && s.calls[id].response.Ok?)
    ensures Added(s.calls[id]).Some? ==> Added(s.calls[id]) == Some(l)
    ensures l < |s.rows.logs| && s.rows.logs[l].requestId == StoredId(s.calls[id].call.rawRequestId)
    ensures s.calls[id].Done? && s.calls[id].response.Ok? ==>
      var stored, snap := LogSnapshot(s.rows.logs[l]), s.calls[id].response.snapshot;
      if Added(s.calls[id]).None? then snap == stored else snap == stored || snap.stars > stored.stars
  {
    var p := s.calls[id];
    assert PhaseOk(s.rows, p, most);
    if Added(p).Some? {
      l := Added(p).value;
    } else {
      l :| AnsweredFrom(s.rows, p.call, p.response.snapshot, l);
    }
  }

  predicate SameTruthyId(a: Phase, b: Phase) {
    StoredId(a.call.rawRequestId) == StoredId(b.call.rawRequestId) && Truthy(StoredId(a.call.rawRequestId))
  }

  /** In every interleaving at most one log carries a request id, at most one call with that id has counted, and every
      answered call with the id got an answer backed by that one log: exactly its stored snapshot for a replay, and a
      snapshot at least as full for the call that counted. */
  lemma ExactlyOnce(ss: seq<System>, es: seq<Event>, most: int, s: System, a: nat, b: nat)
    requires Behaviour(ss, es, most) && s == ss[|es|]
    requires a in s.calls && b in s.calls && a != b && SameTruthyId(s.calls[a], s.calls[b])
    ensures forall l: nat, m: nat :: l < m < |s.rows.logs| && s.rows.logs[l].requestId.Some? ==>
      s.rows.logs[l].requestId != s.rows.logs[m].requestId
    ensures !(Added(s.calls[a]).Some? && Added(s.calls[b]).Some?)
    ensures Answered(s.calls[a]) && Answered(s.calls[b]) && Added(s.calls[b]).None? ==>
      var first, replay := s.calls[a].response.snapshot, s.calls[b].response.snapshot;
      if Added(s.calls[a]).None? then first == replay else first == replay || first.stars > replay.stars
  {
    BehaviourKeepsInv(ss, es, most, |es|);
    forall l: nat, m: nat | l < m < |s.rows.logs| && s.rows.logs[l].requestId.Some?
      ensures s.rows.logs[l].requestId != s.rows.logs[m].requestId
    {
      if s.rows.logs[l].requestId == s.rows.logs[m].requestId { LogsDoNotClash(s.rows, l, m); }
    }
    if (Added(s.calls[a]).Some? || Answered(s.calls[a])) && (Added(s.calls[b]).Some? || Answered(s.calls[b])) {
      var l := BackedBy(s, a, most);
      var m := BackedBy(s, b, most);
      LogsDoNotClash(s.rows, l, m);
    }
  }

  predicate Answered(p: Phase) {
    p.Done? && p.response.Ok?
  }

  /** A call whose commit went unheard is not lost: sent again at any later time, it is answered at once, with the
      snapshot stored in its log, and adds nothing. */
  lemma UnheardCanBeSentAgain(ss: seq<System>, es: seq<Event>, most: int, s: System, id: nat, again: nat, c: Call)
    requires Behaviour(ss, es, most) && s == ss[|es|]
    requires id in s.calls && s.calls[id].Done? && s.calls[id].response == Broken && s.calls[id].added.Some?
    requires StoredId(c.rawRequestId) == StoredId(s.calls[id].call.rawRequestId) && Truthy(StoredId(c.rawRequestId))
    requires Enabled(s, Arrive(again, c))
    ensures var l, s' := s.calls[id].added.value, Step(s, Arrive(again, c));
            l < |s.rows.logs| && s'.rows == s.rows && s'.calls[again] == Done(c, Ok(LogSnapshot(s.rows.logs[l])), None)
  {
    BehaviourKeepsInv(ss, es, most, |es|);
    var l := BackedBy(s, id, most);
    LogsDoNotClash(s.rows, l, FindLog(s.rows.logs, StoredId(c.rawRequestId)).value);
  }

  // ---------------------------------------------------------------------------
  // Jars and logs are those of a serial run
  // ---------------------------------------------------------------------------

  /** No call that has loaded its streak row has read a day before this one. */
  ghost predicate NotAfter(day: Option<int>, s: System) {
    day.Some? ==>
      day.value <= s.clock && forall id :: id in s.calls && s.calls[id].Counting? ==> day.value <= s.calls[id].day
  }

  /** The run of whole calls `ops` leaves these jars and logs, and its streak service has seen the same days. */
  ghost predicate SerialRun(ops: seq<R.Op>, s: System, most: int) {
    && R.AllFair(ops, most) && R.DaysOrdered(ops) && NotAfter(R.LastDay(ops), s)
    && R.Run(ops).jars == s.rows.jars && R.Run(ops).logs == s.rows.logs && R.StreakDays(ops) == s.days
  }

  ghost predicate Serial(s: System, most: int) {
    exists ops :: SerialRun(ops, s, most)
  }

  /** Jars and logs depend on jars and logs only. */
  lemma SameJarsAndLogs(a: Rows, b: Rows, c: Call, streak: S.Row, day: int)
    requires a.jars == b.jars && a.logs == b.logs && c.act.Some? && Commits(b, c)
    ensures Counts(a, c)
    ensures AddStarRows(a, c, day).jars == StarredWith(b, c, streak).jars
    ensures AddStarRows(a, c, day).logs == StarredWith(b, c, streak).logs
  {
    if LookedUp(a, c).Some? {
      var l := FindLog(a.logs, StoredId(c.rawRequestId)).value;
      assert Clash(a.logs[l], NewLog(a.jars, c));
    }
  }

  lemma CommitIsSerial(s: System, id: nat, heard: bool, most: int)
    requires Inv(s, most) && Serial(s, most) && id in s.calls && s.calls[id].Counting?
    requires PhaseOk(s.rows, s.calls[id], most) && ClockOk(s, s.calls[id]) && Commits(s.rows, s.calls[id].call)
    ensures Serial(CommitOf(s, id, heard), most)
  {
    var ops :| SerialRun(ops, s, most);
    var p := s.calls[id];
    var op := R.AddStar(p.call, p.day);
    SameJarsAndLogs(R.Run(ops), s.rows, p.call, StreakWritten(s, p), p.day);
    R.RunPush(ops, op);
    var all := ops + [op];
    assert all[..|all| - 1] == ops && R.Counted(all);
    forall other | other in s.calls && s.calls[other].Counting? ensures other == id {
      assert s.lock == Some(other) && s.lock == Some(id);
    }
    assert SerialRun(all, CommitOf(s, id, heard), most);
  }

  lemma StepIsSerial(s: System, e: Event, most: int)
    requires Inv(s, most) && Enabled(s, e) && Serial(s, most)
    ensures Serial(Step(s, e), most)
  {
    if e.Finish? && Commits(s.rows, s.calls[e.id].call) {
      CommitIsSerial(s, e.id, e.heard, most);
    } else {
      var ops :| SerialRun(ops, s, most);
      assert SerialRun(ops, Step(s, e), most);
    }
  }

  /** The lock makes the calls serialisable: whatever calls, validations and goal operations overlap, and whenever
      midnight passes, the jars and the logs are those of some run of whole calls, one after the other, in which the
      streak service's days do not go back and no log is dated later than its streak day. The streak row is another
      matter: see StarStreaks. */
  lemma {:induction false} Serialisable(ss: seq<System>, es: seq<Event>, most: int, k: nat)
    requires Behaviour(ss, es, most) && k < |ss|
    ensures Serial(ss[k], most)
  {
    if k == 0 {
      assert SerialRun([], ss[0], most);
    } else {
      Serialisable(ss, es, most, k - 1);
      BehaviourKeepsInv(ss, es, most, k - 1);
      assert MovesAt(ss, es, most, k - 1);
      StepIsSerial(ss[k - 1], es[k - 1], most);
    }
  }

  /** Of the steps of calls only a commit that goes through writes a row. */
  lemma OnlyCommitsWrite(s: System, e: Event)
    requires Enabled(s, e) && !e.WriteZero? && !e.ChangeGoals?
    requires !(e.Finish? && Commits(s.rows, s.calls[e.id].call))
    ensures Step(s, e).rows == s.rows
  {
  }

  // ---------------------------------------------------------------------------
  // What each step answers
  // ---------------------------------------------------------------------------

  /** A repeated id is answered from its log, on arrival and after an integrity error. A new one waits for the lock, if
      there is such an act, or ends in the error. */
  lemma LookupAnswers(s: System, e: Event, most: int)
    requires Inv(s, most) && Enabled(s, e) && (e.Arrive? || e.Recover?)
    ensures var c, logs := if e.Arrive? then e.call else s.calls[e.id].call, s.rows.logs;
            var p := Step(s, e).calls[e.id];
            && Step(s, e).calls == s.calls[e.id := p]
            && (L.Repeats(logs, c) ==>
                  p.Done? && p.call == c && p.added.None? && L.IsStoredAnswer(logs, c, p.response))
            && (!L.Repeats(logs, c) && e.Arrive? ==>
                  p == if c.act.None? then Done(c, ActNotFound, None) else Waiting(c))
            && (!L.Repeats(logs, c) && e.Recover? ==> p == Done(c, Conflict, None))
  {
    L.LookupIs(s.rows, if e.Arrive? then e.call else s.calls[e.id].call);
  }

  /** A commit is refused exactly when a unique constraint refuses the log; otherwise it adds one log and its stars are
      in the jar that was open. Either way the lock is free again. */
  lemma CommitAnswers(s: System, id: nat, heard: bool, most: int)
    requires Inv(s, most) && Enabled(s, Finish(id, heard))
    ensures var c, logs, s' := s.calls[id].call, s.rows.logs, Step(s, Finish(id, heard));
            && s'.lock.None?
            && (L.Refused(logs, c) ==> s'.rows == s.rows && s'.calls == s.calls[id := Failed(c)])
            && (!L.Refused(logs, c) ==>
                  var jar := if s.rows.jars == [] then 0 else |s.rows.jars| - 1;
                  && |s'.rows.logs| == |logs| + 1
                  && s'.calls == s.calls[id := if heard then Committed(c, |logs|, jar)
                                               else Done(c, Broken, Some(|logs|))])
  {
    L.RefusedIs(s.rows, s.calls[id].call);
    R.JarsShape(s.rows.jars, StarsOf(s.calls[id].call), s.calls[id].call.now, most);
  }

  /** A call that has counted answers with its jar as it is now, one that breaks with an error and no log. */
  lemma LastAnswers(s: System, e: Event, most: int)
    requires Inv(s, most) && Enabled(s, e) && (e.Refresh? || e.Break?)
    ensures var p, s' := s.calls[e.id], Step(s, e);
            && (e.Refresh? ==>
                  p.jar < |s.rows.jars| &&
                  var jar := s.rows.jars[p.jar];
                  s' == s.(calls := s.calls[e.id := Done(p.call, Ok(Snapshot(jar.stars, jar.capacity, jar.completedAt)),
                                                         Some(p.log))]))
            && (e.Break? ==> s' == s.(lock := None, calls := s.calls[e.id := Done(p.call, Broken, None)]))
  {
    assert PhaseOk(s.rows, s.calls[e.id], most);
  }

  // ---------------------------------------------------------------------------
  // The first answer
  // ---------------------------------------------------------------------------

  /** The call that counted reads its jar again after its commit, outside the lock. It answers with the snapshot stored
      in its log if and only if it filled the jar or no other call has committed in between. */
  lemma FreshAnswerIsStoredIff(ss: seq<System>, es: seq<Event>, most: int, s: System, id: nat)
    requires Behaviour(ss, es, most) && s == ss[|es|]
    requires id in s.calls && s.calls[id].Committed?
    ensures var l := s.calls[id].log;
            && l < |s.rows.logs|
            && (Step(s, Refresh(id)).calls[id].response == Ok(LogSnapshot(s.rows.logs[l]))
                <==> s.rows.logs[l].responseCompletedAt.Some? || |s.rows.logs| == l + 1)
  {
    BehaviourKeepsInv(ss, es, most, |es|);
    assert PhaseOk(s.rows, s.calls[id], most);
  }

  lemma Extend(ss: seq<System>, es: seq<Event>, most: int, e: Event) returns (more: seq<System>, events: seq<Event>)
    requires Behaviour(ss, es, most) && Enabled(ss[|es|], e) && Fair(e, most)
    ensures Behaviour(more, events, most) && |events| == |es| + 1 && more[|events|] == Step(ss[|es|], e)
    ensures more[..|ss|] == ss && events[..|es|] == es
  {
    more, events := ss + [Step(ss[|es|], e)], es + [e];
    forall k: nat | k < |events| ensures MovesAt(more, events, most, k) {
      if k < |es| {
        assert MovesAt(ss, es, most, k);
      }
    }
  }

  /** A call that is alone from its arrival until it has loaded the streak row. */
  lemma UpToLoad(ss: seq<System>, es: seq<Event>, most: int, id: nat, c: Call, day: int)
    returns (more: seq<System>, events: seq<Event>)
    requires Behaviour(ss, es, most) && ss[|es|].clock <= c.today <= day
    requires id !in ss[|es|].calls && ss[|es|].lock.None? && Counts(ss[|es|].rows, c) && 1 <= StarsOf(c) <= most
    ensures Behaviour(more, events, most)
    ensures var s := ss[|es|];
            more[|events|] == s.(lock := Some(id), clock := day,
              calls := s.calls[id := Counting(c, day, s.rows.streak)])
  {
    var s := ss[|es|];
    more, events := Extend(ss, es, most, Arrive(id, c));
    assert more[|events|].calls[id] == Waiting(c);
    more, events := Extend(more, events, most, Acquire(id));
    assert more[|events|].calls[id] == Holding(c);
    more, events := Extend(more, events, most, LoadStreak(id, day));
    var p := Counting(c, day, s.rows.streak);
    assert more[|events|].calls == s.calls[id := p];
  }

  /** A call that nothing overlaps, from its arrival to its commit. */
  lemma Through(ss: seq<System>, es: seq<Event>, most: int, id: nat, c: Call, day: int)
    returns (more: seq<System>, events: seq<Event>)
    requires Behaviour(ss, es, most) && ss[|es|].clock <= c.today <= day
    requires id !in ss[|es|].calls && ss[|es|].lock.None? && Counts(ss[|es|].rows, c) && 1 <= StarsOf(c) <= most
    ensures Behaviour(more, events, most)
    ensures var s := ss[|es|];
            var p := Committed(c, |s.rows.logs|, JarId(s.rows.jars));
            more[|events|] == System(Starred(s.rows, c, day), None, s.calls[id := p], s.checks, day, s.days + {day})
  {
    var s := ss[|es|];
    more, events := UpToLoad(ss, es, most, id, c, day);
    var t := more[|events|];
    assert t.calls[id] == Counting(c, day, s.rows.streak)
      && StreakWritten(t, t.calls[id]) == S.Updated(s.rows.streak, day);
    more, events := Extend(more, events, most, Finish(id, true));
    var p := Committed(c, |s.rows.logs|, JarId(s.rows.jars));
    assert t.calls[id := p] == s.calls[id := p];
  }

  /** It does differ: a second act committed between the first call's commit and its refresh shows in the first answer,
      but not in the snapshot that every replay of the first call will return. */
  lemma FreshAnswerCanDiffer(c: Call, d: Call, most: int)
    requires c.act.Some? && d.act.Some? && c.act.value.id != d.act.value.id
    requires StoredId(c.rawRequestId).None? && StoredId(d.rawRequestId).None?
    requires 1 <= StarsOf(c) < JAR_CAPACITY && 1 <= StarsOf(d) && StarsOf(c) <= most && StarsOf(d) <= most
    requires c.today <= d.today
    ensures exists ss: seq<System>, es: seq<Event> :: Behaviour(ss, es, most) && AnsweredOtherwise(ss[|es|])
  {
    FirstTwoCount(c, c.today, d, d.today);
    var ss, es := [Start(c.today)], [];
    ss, es := Through(ss, es, most, 0, c, c.today);
    ss, es := Through(ss, es, most, 1, d, d.today);
    assert ss[|es|].calls[0] == Committed(c, 0, 0);
    LateRefresh(ss, es, most);
  }

  lemma LateRefresh(ss: seq<System>, es: seq<Event>, most: int)
    requires Behaviour(ss, es, most)
    requires var s := ss[|es|];
             && 0 in s.calls && s.calls[0].Committed? && s.calls[0].log == 0
             && |s.rows.logs| == 2 && s.rows.logs[0].responseCompletedAt.None?
    ensures exists more: seq<System>, events: seq<Event> ::
              Behaviour(more, events, most) && AnsweredOtherwise(more[|events|])
  {
    var s := ss[|es|];
    FreshAnswerIsStoredIff(ss, es, most, s, 0);
    BehaviourKeepsInv(ss, es, most, |es|);
    assert PhaseOk(s.rows, s.calls[0], most);
    var more, events := Extend(ss, es, most, Refresh(0));
    assert AnsweredOtherwise(more[|events|]);
  }

  lemma FirstTwoCount(c: Call, day: int, d: Call, day': int)
    requires c.act.Some? && d.act.Some? && c.act.value.id != d.act.value.id
    requires StoredId(c.rawRequestId).None? && StoredId(d.rawRequestId).None? && StarsOf(c) < JAR_CAPACITY
    ensures Counts(NO_ROWS, c) && JarId(NO_ROWS.jars) == 0
    ensures Counts(Starred(NO_ROWS, c, day), d)
    ensures var logs := Starred(Starred(NO_ROWS, c, day), d, day').logs;
            |logs| == 2 && logs[0].responseCompletedAt.None?
  {
    var rows := Starred(NO_ROWS, c, day);
    assert rows.logs == [NewLog([], c)] && !Clash(rows.logs[0], NewLog(rows.jars, d));
  }

  /** Call 0 added log 0 and was answered, but not with the snapshot stored there. */
  predicate AnsweredOtherwise(s: System) {
    0 in s.calls && s.calls[0].Done? && s.calls[0].added == Some(0) && s.calls[0].response.Ok?
    && |s.rows.logs| > 0 && s.calls[0].response != Ok(LogSnapshot(s.rows.logs[0]))
  }
}
