/** The add-star transaction of app/api/sadaqah.py for one user's rows. */
module StarJar {
  import opened Common
  import opened Badges
  import G = Goals
  import S = IncrementalStreak

  const JAR_CAPACITY := 33

  /** A jars row; its position is its id. */
  datatype Jar = Jar(stars: int, capacity: int, completedAt: Option<int>)

  datatype Snapshot = Snapshot(stars: int, capacity: int, completedAt: Option<int>)

  /** A sadaqah_logs row. The response columns are null on rows older than the columns. */
  datatype Log = Log(
    actId: int,
    requestId: Option<string>,
    date: int,
    createdAt: int,
    starsEarned: int,
    friday: bool,
    ramadan: bool,
    responseStars: Option<int>,
    responseCapacity: Option<int>,
    responseCompletedAt: Option<int>)

  /** Everything the transaction reads and writes. */
  datatype Rows = Rows(
    jars: seq<Jar>,
    goals: G.Table,
    logs: seq<Log>,
    streak: Option<S.Row>,
    badges: seq<Badge>)

  const NO_ROWS := Rows([], [], [], None, [])

  /** A verified act, as the catalogue query returns it. */
  datatype Act = Act(id: int, rewardWeight: Option<int>, ramadanMultiplier: int)

  /** One request, with the calendar flags and clocks it sees before it asks for the lock: `today` dates the log.
      `act` is None when the catalogue has no such act. */
  datatype Call = Call(
    rawRequestId: Option<string>,
    act: Option<Act>,
    friday: bool,
    ramadan: bool,
    last10: bool,
    today: int,
    now: int)

  /** What becomes of a commit whose flushes have gone through: it is stored, it is not, or it is stored and the client
      does not hear of it. */
  datatype CommitResult = Stored | NotStored | Unheard

  /** Conflict is the integrity error, Broken any other database failure. */
  datatype Response = Ok(snapshot: Snapshot) | ActNotFound | Conflict | Broken

  // ---------------------------------------------------------------------------
  // Request ids
  // ---------------------------------------------------------------------------

  predicate IsSpace(c: char) {
    c in " \t\n\r"
  }

  /** str.strip() */
  function Strip(s: string): string {
    if s == "" then s
    else if IsSpace(s[0]) then Strip(s[1..])
    else if IsSpace(s[|s| - 1]) then Strip(s[..|s| - 1])
    else s
  }

  /** The id stored with the log: an empty id becomes null, a blank one becomes the empty string. */
  function StoredId(raw: Option<string>): Option<string> {
    if raw.None? || raw.value == "" then None else Some(Strip(raw.value))
  }

  /** `if request_id:` */
  predicate Truthy(id: Option<string>) {
    id.Some? && id.value != ""
  }

  // ---------------------------------------------------------------------------
  // The pieces of the transaction
  // ---------------------------------------------------------------------------

  function Multiplier(a: Act, friday: bool, ramadan: bool, last10: bool): int {
    var base := if a.rewardWeight.None? || a.rewardWeight.value == 0 then 1 else a.rewardWeight.value;
    base * (if friday then 2 else 1) * (if ramadan then a.ramadanMultiplier else 1) * (if last10 then 2 else 1)
  }

  function StarsOf(c: Call): int
    requires c.act.Some?
  {
    Multiplier(c.act.value, c.friday, c.ramadan, c.last10)
  }

  /** The open jar with the greatest id. */
  function FindOpen(jars: seq<Jar>): (r: Option<nat>)
    ensures r.Some? ==> r.value < |jars| && jars[r.value].completedAt.None?
    ensures r.Some? ==> forall i :: r.value < i < |jars| ==> jars[i].completedAt.Some?
    ensures r.None? ==> forall i :: 0 <= i < |jars| ==> jars[i].completedAt.Some?
  {
    if jars == [] then None
    else if jars[|jars| - 1].completedAt.None? then Some(|jars| - 1)
    else FindOpen(jars[..|jars| - 1])
  }

  const EMPTY_JAR := Jar(0, JAR_CAPACITY, None)

  function JarId(jars: seq<Jar>): nat {
    var open := FindOpen(jars);
    if open.None? then |jars| else open.value
  }

  function JarAfter(jars: seq<Jar>, stars: int, now: int): Jar {
    var open := FindOpen(jars);
    var jar := if open.None? then EMPTY_JAR else jars[open.value];
    var total := jar.stars + stars;
    Jar(total, jar.capacity, if total >= jar.capacity then Some(now) else None)
  }

  function JarsAfter(jars: seq<Jar>, stars: int, now: int): seq<Jar> {
    var jar := JarAfter(jars, stars, now);
    var i := JarId(jars);
    var filled := if i < |jars| then jars[i := jar] else jars + [jar];
    if jar.completedAt.Some? then filled + [EMPTY_JAR] else filled
  }

  function CompletedCount(jars: seq<Jar>): nat {
    if jars == [] then 0
    else CompletedCount(jars[..|jars| - 1]) + if jars[|jars| - 1].completedAt.Some? then 1 else 0
  }

  function SnapshotOf(jar: Jar): Snapshot {
    Snapshot(jar.stars, jar.capacity, jar.completedAt)
  }

  function LogSnapshot(log: Log): Snapshot {
    if log.responseStars.None? || log.responseCapacity.None?
    then Snapshot(0, 0, log.responseCompletedAt)
    else Snapshot(log.responseStars.value, log.responseCapacity.value, log.responseCompletedAt)
  }

  function NewLog(jars: seq<Jar>, c: Call): Log
    requires c.act.Some?
  {
    var jar := JarAfter(jars, StarsOf(c), c.now);
    Log(c.act.value.id, StoredId(c.rawRequestId), c.today, c.now, StarsOf(c), c.friday, c.ramadan,
        Some(jar.stars), Some(jar.capacity), jar.completedAt)
  }

  /** The two unique constraints of sadaqah_logs; a null request id never clashes. */
  predicate Clash(a: Log, b: Log) {
    (a.actId == b.actId && a.date == b.date) || (a.requestId.Some? && a.requestId == b.requestId)
  }

  predicate Conflicts(logs: seq<Log>, log: Log) {
    exists i :: 0 <= i < |logs| && Clash(logs[i], log)
  }

  /** _lookup_request_result: the first log of this user with the id. */
  function FindLog(logs: seq<Log>, id: Option<string>): (r: Option<nat>)
    ensures r.Some? ==> r.value < |logs| && logs[r.value].requestId == id
    ensures r.None? ==> forall i :: 0 <= i < |logs| ==> logs[i].requestId != id
  {
    if logs == [] then None
    else
      var r := FindLog(logs[..|logs| - 1], id);
      if r.Some? then r
      else if logs[|logs| - 1].requestId == id then Some(|logs| - 1)
      else None
  }

  // ---------------------------------------------------------------------------
  // The whole transaction
  // ---------------------------------------------------------------------------

  /** The rows after a commit that stores this streak row. */
  function StarredWith(rows: Rows, c: Call, streak: S.Row): Rows
    requires c.act.Some?
  {
    var jars := JarsAfter(rows.jars, StarsOf(c), c.now);
    Rows(jars,
         G.Apply(rows.goals, G.Star(JarAfter(rows.jars, StarsOf(c), c.now).stars), c.now).0,
         rows.logs + [NewLog(rows.jars, c)],
         Some(streak),
         GiveAll(rows.badges, Due(streak.current, CompletedCount(jars))))
  }

  /** The rows after a commit. `day` is the streak service's own reading of the clock, taken under the lock. */
  function Starred(rows: Rows, c: Call, day: int): Rows
    requires c.act.Some?
  {
    StarredWith(rows, c, S.Updated(rows.streak, day))
  }

  predicate Commits(rows: Rows, c: Call)
    requires c.act.Some?
  {
    !Conflicts(rows.logs, NewLog(rows.jars, c))
  }

  function LookedUp(rows: Rows, c: Call): Option<Response> {
    var id := StoredId(c.rawRequestId);
    if Truthy(id) && FindLog(rows.logs, id).Some?
    then Some(Ok(LogSnapshot(rows.logs[FindLog(rows.logs, id).value])))
    else None
  }

  /** The call adds a log: it is not a replay, its act exists, and its log clashes with none. */
  predicate Counts(rows: Rows, c: Call) {
    LookedUp(rows, c).None? && c.act.Some? && Commits(rows, c)
  }

  /** The call from start to end when nothing runs beside it and nothing breaks. */
  function AddStarRows(rows: Rows, c: Call, day: int): Rows {
    if Counts(rows, c) then Starred(rows, c, day) else rows
  }

  function AddStarResponse(rows: Rows, c: Call): Response {
    if LookedUp(rows, c).Some? then LookedUp(rows, c).value
    else if c.act.None? then ActNotFound
    else if Commits(rows, c) then Ok(SnapshotOf(JarAfter(rows.jars, StarsOf(c), c.now)))
    else Conflict
  }

  /** The badges one set of rows has more than another. */
  function NewBadges(before: Rows, after: Rows): seq<Badge> {
    if |before.badges| <= |after.badges| then after.badges[|before.badges|..] else []
  }

  /** One user's rows as a session works on them. The fields are the session's objects with their unflushed changes;
      `seen` is what its queries see, which is only what has been flushed, because the session does not flush on its
      own. `sent` has left the process and no rollback brings it back. */
  class StarLedger {
    var jars: seq<Jar>
    var goals: G.Table
    var logs: seq<Log>
    var streak: Option<S.Row>
    var badges: seq<Badge>
    var seen: Rows
    var sent: seq<Badge>

    constructor ()
      ensures Contents() == seen == NO_ROWS && sent == []
    {
      jars, goals, logs, streak, badges, seen, sent := [], [], [], None, [], NO_ROWS, [];
    }

    function Contents(): Rows
      reads this
    {
      Rows(jars, goals, logs, streak, badges)
    }

    /** At most one log is new since the last flush. */
    ghost predicate FlushesAtMostOneLog()
      reads this
    {
      logs == seen.logs || (|logs| == |seen.logs| + 1 && logs[..|seen.logs|] == seen.logs)
    }

    /** The log of this transaction is still unflushed, or has been flushed without a clash. */
    ghost predicate InTransaction(base: seq<Log>, log: Log)
      reads this
    {
      logs == base + [log] && (seen.logs == base || (seen.logs == logs && !Conflicts(base, log)))
    }

    /** The badge queries see this transaction's streak, badges and number of completed jars. */
    ghost predicate QueriesSee(completed: nat)
      reads this
    {
      && seen.badges == badges && seen.streak == streak
      && CompletedCount(seen.jars) == completed == CompletedCount(jars)
    }

    /** Everything unflushed is written at once, unless the constraints refuse the new log. */
    method Flush() returns (ok: bool)
      requires FlushesAtMostOneLog()
      modifies this`seen
      ensures ok == (logs == old(seen).logs || !Conflicts(old(seen).logs, logs[|logs| - 1]))
      ensures seen == if ok then Contents() else old(seen)
    {
      if |logs| > |seen.logs| && Conflicts(seen.logs, logs[|logs| - 1]) {
        return false;
      }
      seen := Contents();
      ok := true;
    }

    /** `granted` are the badges added here: exactly those are announced. */
    method GiveUserBadge(b: Badge, ghost completed: nat, ghost base: seq<Log>, ghost log: Log)
      returns (ok: bool, ghost granted: seq<Badge>)
      requires InTransaction(base, log) && QueriesSee(completed)
      modifies this`seen, this`badges, this`sent
      ensures InTransaction(base, log)
      ensures granted == if b in old(badges) then [] else [b]
      ensures ok == (granted == [] || !Conflicts(base, log))
      ensures badges == Give(old(badges), b) == old(badges) + granted
      ensures sent == if ok then old(sent) + granted else old(sent)
      ensures ok ==> QueriesSee(completed)
    {
      granted := if b in badges then [] else [b];
      if b in seen.badges {
        return true, granted;
      }
      badges := badges + [b];
      ok := Flush();
      if ok {
        sent := sent + [b];
      }
    }

    /** One turn of an award loop. */
    method GiveWhenDue(due: bool, b: Badge, ghost held: seq<Badge>, ghost told: seq<Badge>, ghost granted: seq<Badge>,
            ghost completed: nat, ghost base: seq<Log>, ghost log: Log)
      returns (ok: bool, ghost all: seq<Badge>)
      requires InTransaction(base, log) && QueriesSee(completed)
      requires badges == held + granted && sent == told + granted && (granted != [] ==> !Conflicts(base, log))
      modifies this`seen, this`badges, this`sent
      ensures InTransaction(base, log)
      ensures ok ==>
        && QueriesSee(completed) && badges == (if due then Give(old(badges), b) else old(badges))
        && badges == held + all && sent == told + all && (all != [] ==> !Conflicts(base, log))
      ensures !ok ==> Conflicts(base, log) && sent == told
    {
      ok, all := true, granted;
      if due {
        ghost var more;
        ok, more := GiveUserBadge(b, completed, base, log);
        Associate(held, granted, more);
        Associate(told, granted, more);
        all := granted + more;
      }
    }

    /** The count is read by a query, so it sees the streak only if that has been flushed. */
    method CheckStreakBadges(ghost completed: nat, ghost base: seq<Log>, ghost log: Log)
      returns (ok: bool, ghost granted: seq<Badge>)
      requires InTransaction(base, log) && QueriesSee(completed)
      modifies this`seen, this`badges, this`sent
      ensures InTransaction(base, log)
      ensures ok ==> badges == GiveAll(old(badges), StreakDue(S.CurrentOf(streak), |STREAK_THRESHOLDS|))
      ensures ok ==> badges == old(badges) + granted && sent == old(sent) + granted
      ensures ok ==> QueriesSee(completed)
      ensures ok && granted != [] ==> !Conflicts(base, log)
      ensures !ok ==> Conflicts(base, log) && sent == old(sent)
    {
      ghost var held, told := badges, sent;
      var current := S.CurrentOf(seen.streak);
      ok, granted := true, [];
      if current == 0 {
        NothingDueAtZero();
        return;
      }
      var i := 0;
      while i < |STREAK_THRESHOLDS|
        invariant 0 <= i <= |STREAK_THRESHOLDS|
        invariant InTransaction(base, log) && QueriesSee(completed)
        invariant badges == GiveAll(held, StreakDue(current, i)) && badges == held + granted
        invariant sent == told + granted
        invariant granted != [] ==> !Conflicts(base, log)
      {
        var threshold := STREAK_THRESHOLDS[i];
        StreakDueStep(held, current, i);
        var badge := StreakBadge(threshold);
        ok, granted := GiveWhenDue(current >= threshold, badge, held, told, granted, completed, base, log);
        if !ok {
          return;
        }
        i := i + 1;
      }
    }

    /** The number of completed jars is a query as well. */
    method CheckJarBadges(ghost completed: nat, ghost base: seq<Log>, ghost log: Log)
      returns (ok: bool, ghost granted: seq<Badge>)
      requires InTransaction(base, log) && QueriesSee(completed)
      modifies this`seen, this`badges, this`sent
      ensures InTransaction(base, log)
      ensures ok ==> badges == GiveAll(old(badges), JarDue(completed, |JAR_THRESHOLDS|))
      ensures ok ==> badges == old(badges) + granted && sent == old(sent) + granted
      ensures ok ==> QueriesSee(completed)
      ensures ok && granted != [] ==> !Conflicts(base, log)
      ensures !ok ==> Conflicts(base, log) && sent == old(sent)
    {
      ghost var held, told := badges, sent;
      var count := CompletedCount(seen.jars);
      var i := 0;
      ok, granted := true, [];
      while i < |JAR_THRESHOLDS|
        invariant 0 <= i <= |JAR_THRESHOLDS|
        invariant InTransaction(base, log) && QueriesSee(completed)
        invariant badges == GiveAll(held, JarDue(count, i)) && badges == held + granted
        invariant sent == told + granted
        invariant granted != [] ==> !Conflicts(base, log)
      {
        var threshold := JAR_THRESHOLDS[i];
        JarDueStep(held, count, i);
        var badge := JarBadge(threshold);
        ok, granted := GiveWhenDue(count >= threshold, badge, held, told, granted, completed, base, log);
        if !ok {
          return;
        }
        i := i + 1;
      }
    }

    /** check_and_award_badges with commit=False. Its queries must see the streak and the completed jars of this
        transaction; only earlier flushes make them do so. */
    method AwardBadges(ghost completed: nat, ghost base: seq<Log>, ghost log: Log)
      returns (ok: bool, ghost granted: seq<Badge>)
      requires InTransaction(base, log) && QueriesSee(completed)
      modifies this`seen, this`badges, this`sent
      ensures InTransaction(base, log)
      ensures ok ==> badges == GiveAll(old(badges), Due(S.CurrentOf(streak), completed))
      ensures ok ==> badges == old(badges) + granted && sent == old(sent) + granted
      ensures ok && granted != [] ==> !Conflicts(base, log)
      ensures !ok ==> Conflicts(base, log) && sent == old(sent)
    {
      ghost var held, told := badges, sent;
      ok, granted := CheckStreakBadges(completed, base, log);
      if !ok {
        return;
      }
      ghost var more;
      ok, more := CheckJarBadges(completed, base, log);
      GiveAllDue(held, S.CurrentOf(streak), completed);
      Associate(held, granted, more);
      Associate(told, granted, more);
      granted := granted + more;
    }

    /** update_streak with commit=False: a row that is already current is returned before anything is flushed; a changed
        one is flushed. */
    method UpdateStreak(day: int, ghost base: seq<Log>, ghost log: Log) returns (ok: bool)
      requires InTransaction(base, log) && seen.streak == streak
      modifies this`seen, this`streak
      ensures InTransaction(base, log)
      ensures streak == Some(S.Updated(old(streak), day))
      ensures ok ==> seen.streak == streak && (seen == Contents() || seen == old(seen))
      ensures !ok ==> Conflicts(base, log)
    {
      if streak.Some? && streak.value.last == Some(day) {
        return true;
      }
      if streak.None? {
        streak := Some(S.Row(1, 1, Some(day)));
      } else {
        var row := streak.value;
        row := row.(current := if row.last == Some(day - 1) then row.current + 1 else 1);
        if row.current > row.longest {
          row := row.(longest := row.current);
        }
        streak := Some(row.(last := Some(day)));
      }
      ok := Flush();
    }

    /** The jar step: find or create the open jar, add the stars, complete it and open its successor. The flush after
        the completion is what lets the badge query count it. */
    method FillJar(stars: int, now: int) returns (i: nat)
      requires seen == Contents()
      modifies this`jars, this`seen
      ensures jars == JarsAfter(old(jars), stars, now)
      ensures i == JarId(old(jars)) < |jars| && jars[i] == JarAfter(old(jars), stars, now)
      ensures seen.(jars := jars) == Contents()
      ensures CompletedCount(seen.jars) == CompletedCount(jars)
    {
      ghost var before := jars;
      i := OpenJar();
      ghost var found := jars;
      FoundJar(before, found, stars, now);
      AddStars(i, stars, now);
      FilledIs(before, found, jars, stars, now);
    }

    /** Find the open jar, or create and flush one. */
    method OpenJar() returns (i: nat)
      requires seen == Contents()
      modifies this`jars, this`seen
      ensures jars == Found(old(jars)) && i == JarId(old(jars)) < |jars|
      ensures seen == Contents()
    {
      var open := FindOpen(jars);
      if open.Some? {
        return open.value;
      }
      jars := jars + [EMPTY_JAR];
      i := |jars| - 1;
      var _ := Flush();
    }

    method AddStars(i: nat, stars: int, now: int)
      requires seen == Contents() && i < |jars| && jars[i].completedAt.None?
      modifies this`jars, this`seen
      ensures jars == Poured(old(jars), i, stars, now)
      ensures seen.(jars := jars) == Contents() && CompletedCount(seen.jars) == CompletedCount(jars)
    {
      ghost var before := jars;
      var jar := jars[i].(stars := jars[i].stars + stars);
      SameCompletions(before, i, jar);
      jars := jars[i := jar];
      if jar.stars >= jar.capacity && jar.completedAt.None? {
        UpdateTwice(before, i, jar, jar.(completedAt := Some(now)));
        jars := jars[i := jar.(completedAt := Some(now))];
        jars := jars + [EMPTY_JAR];
        var _ := Flush();
      }
    }

    method AdvanceGoal(stars: int, now: int)
      modifies this`goals
      ensures goals == G.Apply(old(goals), G.Star(stars), now).0
    {
      var active := G.FindActive(goals);
      if active.Some? {
        var goal := goals[active.value];
        goal := goal.(done := Max(goal.done + 1, stars));
        if goal.done >= goal.target {
          goal := goal.(status := G.Completed, completedAt := Some(now));
        }
        goals := goals[active.value := goal.(updatedAt := now)];
      }
    }

    /** The rest of the transaction, once the log has been added: streak, badges and the flush of the commit. */
    method StreakAndBadges(day: int, ghost base: seq<Log>, ghost log: Log) returns (ok: bool)
      requires InTransaction(base, log) && QueriesSee(CompletedCount(jars))
      modifies this`seen, this`streak, this`badges, this`sent
      ensures ok == !Conflicts(base, log)
      ensures ok ==>
        && seen == Contents() && streak == Some(S.Updated(old(streak), day))
        && badges == GiveAll(old(badges), Due(S.CurrentOf(streak), CompletedCount(jars)))
        && old(badges) <= badges && sent == old(sent) + badges[|old(badges)|..]
      ensures !ok ==> sent == old(sent)
    {
      ok := UpdateStreak(day, base, log);
      ghost var granted := [];
      if ok {
        ok, granted := AwardBadges(CompletedCount(jars), base, log);
      }
      if ok {
        ok := Flush();
      }
    }

    /** From the locked rows to the last flush; false means that a flush met a constraint. The session's objects then
        already hold the changes that a rollback has to undo. */
    method Transact(c: Call, day: int) returns (ok: bool, i: nat)
      requires seen == Contents() && c.act.Some?
      modifies this
      ensures ok == Commits(old(Contents()), c)
      ensures ok ==> seen == Contents() == Starred(old(Contents()), c, day)
      ensures ok ==> i < |jars| && jars[i] == JarAfter(old(jars), StarsOf(c), c.now)
      ensures sent == if ok then old(sent) + NewBadges(old(Contents()), Starred(old(Contents()), c, day)) else old(sent)
    {
      var stars := StarsOf(c);
      ghost var base := logs;
      i := FillJar(stars, c.now);
      AdvanceGoal(jars[i].stars, c.now);
      var log := Log(c.act.value.id, StoredId(c.rawRequestId), c.today, c.now, stars, c.friday, c.ramadan,
                     Some(jars[i].stars), Some(jars[i].capacity), jars[i].completedAt);
      assert log == NewLog(old(jars), c);
      logs := logs + [log];
      ok := StreakAndBadges(day, base, log);
    }

    /** After an integrity error: the log of a concurrent call with the same id answers, otherwise the error does. */
    method Recover(id: Option<string>) returns (r: Response)
      ensures r == if Truthy(id) && FindLog(logs, id).Some? then Ok(LogSnapshot(logs[FindLog(logs, id).value]))
        else Conflict
    {
      if Truthy(id) {
        var found := FindLog(logs, id);
        if found.Some? {
          return Ok(LogSnapshot(logs[found.value]));
        }
      }
      r := Conflict;
    }

    method Rollback(saved: Rows)
      modifies this
      ensures seen == Contents() == saved && sent == old(sent)
    {
      jars, goals, logs, streak, badges := saved.jars, saved.goals, saved.logs, saved.streak, saved.badges;
      seen := saved;
    }

    /** The request handler. Badge notifications go out before the commit: a clash with a constraint sends none, because
        the flush before each has already met the constraints, but a commit that breaks leaves them sent. */
    method AddStar(c: Call, day: int, commit: CommitResult) returns (r: Response)
      requires seen == Contents()
      modifies this
      ensures seen == Contents() == if commit.NotStored? then old(Contents()) else AddStarRows(old(Contents()), c, day)
      ensures r == if Counts(old(Contents()), c) && !commit.Stored? then Broken else AddStarResponse(old(Contents()), c)
      ensures sent == old(sent) + NewBadges(old(Contents()), AddStarRows(old(Contents()), c, day))
    {
      var id := StoredId(c.rawRequestId);
      if Truthy(id) {
        var found := FindLog(logs, id);
        if found.Some? {
          return Ok(LogSnapshot(logs[found.value]));
        }
      }
      if c.act.None? {
        return ActNotFound;
      }
      var saved := Contents();
      var ok, i := Transact(c, day);
      if !ok {
        Rollback(saved);
        r := Recover(id);
        return;
      }
      if commit.NotStored? {
        Rollback(saved);
      }
      if !commit.Stored? {
        return Broken;
      }
      r := Ok(SnapshotOf(jars[i]));
    }
  }

  /** The jars once the open one has been found or made. */
  function Found(jars: seq<Jar>): seq<Jar> {
    if FindOpen(jars).None? then jars + [EMPTY_JAR] else jars
  }

  /** The jars once stars have gone into an open one of them. */
  function Poured(jars: seq<Jar>, i: nat, stars: int, now: int): seq<Jar>
    requires i < |jars|
  {
    var jar := jars[i].(stars := jars[i].stars + stars);
    if jar.stars >= jar.capacity then jars[i := jar.(completedAt := Some(now))] + [EMPTY_JAR] else jars[i := jar]
  }

  /** The jar that the stars go to, found or made. */
  lemma FoundJar(before: seq<Jar>, found: seq<Jar>, stars: int, now: int)
    requires found == Found(before)
    ensures JarId(before) < |found| && found[JarId(before)].completedAt.None?
    ensures var jar := found[JarId(before)];
            JarAfter(before, stars, now)
            == Jar(jar.stars + stars, jar.capacity, if jar.stars + stars >= jar.capacity then Some(now) else None)
  {
  }

  /** What the jar step leaves. */
  lemma FilledIs(before: seq<Jar>, found: seq<Jar>, jars: seq<Jar>, stars: int, now: int)
    requires found == Found(before) && JarId(before) < |found|
    requires jars == Poured(found, JarId(before), stars, now)
    ensures jars == JarsAfter(before, stars, now)
    ensures JarId(before) < |jars| && jars[JarId(before)] == JarAfter(before, stars, now)
  {
    var jar := JarAfter(before, stars, now);
    FoundJar(before, found, stars, now);
    UpdateLast(before, EMPTY_JAR, jar);
    var filled := found[JarId(before) := jar];
    assert jars == if jar.completedAt.Some? then filled + [EMPTY_JAR] else filled;
  }

  lemma UpdateTwice<T>(s: seq<T>, i: nat, x: T, y: T)
    requires i < |s|
    ensures s[i := x][i := y] == s[i := y]
  {
  }

  lemma UpdateLast<T>(s: seq<T>, x: T, y: T)
    ensures (s + [x])[|s| := y] == s + [y]
  {
  }

  lemma GiveAllDue(held: seq<Badge>, current: nat, completed: nat)
    ensures GiveAll(held, Due(current, completed))
            == GiveAll(GiveAll(held, StreakDue(current, |STREAK_THRESHOLDS|)), JarDue(completed, |JAR_THRESHOLDS|))
  {
    GiveAllSplit(held, StreakDue(current, |STREAK_THRESHOLDS|), JarDue(completed, |JAR_THRESHOLDS|));
  }

  lemma StreakDueStep(held: seq<Badge>, current: nat, i: nat)
    requires i < |STREAK_THRESHOLDS|
    ensures var before, t := GiveAll(held, StreakDue(current, i)), STREAK_THRESHOLDS[i];
            GiveAll(held, StreakDue(current, i + 1)) == if current >= t then Give(before, StreakBadge(t)) else before
  {
    GiveAllPush(held, StreakDue(current, i), StreakBadge(STREAK_THRESHOLDS[i]));
  }

  lemma JarDueStep(held: seq<Badge>, completed: nat, i: nat)
    requires i < |JAR_THRESHOLDS|
    ensures var before, t := GiveAll(held, JarDue(completed, i)), JAR_THRESHOLDS[i];
            GiveAll(held, JarDue(completed, i + 1)) == if completed >= t then Give(before, JarBadge(t)) else before
  {
    GiveAllPush(held, JarDue(completed, i), JarBadge(JAR_THRESHOLDS[i]));
  }

  lemma NothingDueAtZero()
    ensures StreakDue(0, |STREAK_THRESHOLDS|) == []
  {
    assert StreakDue(0, 2) == StreakDue(0, 1) == StreakDue(0, 0);
  }

  /** Stars alone do not complete a jar. */
  lemma {:induction false} SameCompletions(jars: seq<Jar>, i: nat, jar: Jar)
    requires i < |jars| && jar.completedAt == jars[i].completedAt
    ensures CompletedCount(jars[i := jar]) == CompletedCount(jars)
  {
    var last := |jars| - 1;
    if i == last {
      assert jars[i := jar][..last] == jars[..last];
    } else {
      SameCompletions(jars[..last], i, jar);
      assert jars[i := jar][..last] == jars[..last][i := jar];
    }
  }

  lemma Associate(a: seq<Badge>, b: seq<Badge>, c: seq<Badge>)
    ensures a + b + c == a + (b + c)
  {
  }

  lemma GiveAllPush(badges: seq<Badge>, due: seq<Badge>, b: Badge)
    ensures GiveAll(badges, due + [b]) == Give(GiveAll(badges, due), b)
  {
    assert (due + [b])[..|due|] == due;
  }

  lemma {:induction false} GiveAllSplit(badges: seq<Badge>, a: seq<Badge>, b: seq<Badge>)
    ensures GiveAll(badges, a + b) == GiveAll(GiveAll(badges, a), b)
  {
    if b == [] {
      assert a + b == a;
    } else {
      GiveAllSplit(badges, a, b[..|b| - 1]);
      assert (a + b)[..|a + b| - 1] == a + b[..|b| - 1];
    }
  }
}
