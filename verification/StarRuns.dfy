/** What every serial run of add_star, validate_streak and the goal operations keeps. */
module StarRuns {
  import opened Common
  import opened Badges
  import opened StarJar
  import opened StreakSpec
  import G = Goals
  import S = IncrementalStreak

  /** `streakDay` is what the streak service reads from its own clock during the call. */
  datatype Op =
    | AddStar(call: Call, streakDay: int)
    | ValidateStreak(day: int)
    | GoalOp(op: G.Op, now: int)

  function Step(rows: Rows, op: Op): Rows {
    match op
    case AddStar(c, day) => AddStarRows(rows, c, day)
    case ValidateStreak(day) => rows.(streak := S.Validated(rows.streak, day))
    case GoalOp(g, now) => rows.(goals := G.Apply(rows.goals, g, now).0)
  }

  function Run(ops: seq<Op>): Rows {
    if ops == [] then NO_ROWS else Step(Run(ops[..|ops| - 1]), ops[|ops| - 1])
  }

  /** Weights and multipliers are at least one, and no act is worth more than `most` stars. */
  ghost predicate Fair(op: Op, most: int) {
    op.AddStar? && op.call.act.Some? ==> 1 <= StarsOf(op.call) <= most
  }

  ghost predicate AllFair(ops: seq<Op>, most: int) {
    forall i :: 0 <= i < |ops| ==> Fair(ops[i], most)
  }

  lemma RunPush(ops: seq<Op>, op: Op)
    ensures Run(ops + [op]) == Step(Run(ops), op)
  {
    assert (ops + [op])[..|ops|] == ops;
  }

  // ---------------------------------------------------------------------------
  // Sums
  // ---------------------------------------------------------------------------

  function JarStars(jars: seq<Jar>): int {
    if jars == [] then 0 else JarStars(jars[..|jars| - 1]) + jars[|jars| - 1].stars
  }

  function LogStars(logs: seq<Log>): int {
    if logs == [] then 0 else LogStars(logs[..|logs| - 1]) + logs[|logs| - 1].starsEarned
  }

  lemma JarStarsAppend(jars: seq<Jar>, j: Jar)
    ensures JarStars(jars + [j]) == JarStars(jars) + j.stars
    ensures CompletedCount(jars + [j]) == CompletedCount(jars) + if j.completedAt.Some? then 1 else 0
  {
    assert (jars + [j])[..|jars|] == jars;
  }

  lemma LogStarsAppend(logs: seq<Log>, l: Log)
    ensures LogStars(logs + [l]) == LogStars(logs) + l.starsEarned
  {
    assert (logs + [l])[..|logs|] == logs;
  }

  // ---------------------------------------------------------------------------
  // The invariant
  // ---------------------------------------------------------------------------

  ghost predicate Finished(j: Jar, most: int) {
    j.completedAt.Some? && j.capacity == JAR_CAPACITY && JAR_CAPACITY <= j.stars <= JAR_CAPACITY + most - 1
  }

  ghost predicate Open(j: Jar) {
    j.completedAt.None? && j.capacity == JAR_CAPACITY && 0 <= j.stars < JAR_CAPACITY
  }

  /** No jar yet, or finished jars followed by exactly one open jar. */
  ghost predicate JarsOk(jars: seq<Jar>, most: int) {
    jars == [] ||
    (Open(jars[|jars| - 1]) && forall i :: 0 <= i < |jars| - 1 ==> Finished(jars[i], most))
  }

  ghost predicate LogsOk(logs: seq<Log>) {
    forall i, j :: 0 <= i < j < |logs| ==> !Clash(logs[i], logs[j])
  }

  ghost predicate StreakOk(row: Option<S.Row>) {
    row.Some? ==> row.value.current <= row.value.longest
  }

  ghost predicate Inv(rows: Rows, most: int) {
    && JarsOk(rows.jars, most)
    && LogsOk(rows.logs)
    && JarStars(rows.jars) == LogStars(rows.logs)
    && (rows.jars == [] <==> rows.logs == [])
    && G.Valid(rows.goals)
    && StreakOk(rows.streak)
    && Earned(rows.badges, S.LongestOf(rows.streak), CompletedCount(rows.jars))
  }

  /** Nothing that a step leaves behind is ever rewritten. */
  ghost predicate Extends(a: Rows, b: Rows) {
    && a.logs <= b.logs
    && a.badges <= b.badges
    && |a.jars| <= |b.jars|
    && (forall i :: 0 <= i < |a.jars| && a.jars[i].completedAt.Some? ==> b.jars[i] == a.jars[i])
    && G.Grows(a.goals, b.goals)
  }

  function FinishedOf(jars: seq<Jar>): seq<Jar> {
    if jars == [] then [] else jars[..|jars| - 1]
  }

  /** Only the last jar is touched, and a new one follows it when it is full. */
  lemma JarsShape(jars: seq<Jar>, stars: int, now: int, most: int)
    requires JarsOk(jars, most)
    ensures var filled := FinishedOf(jars) + [JarAfter(jars, stars, now)];
            JarsAfter(jars, stars, now)
            == if JarAfter(jars, stars, now).completedAt.Some? then filled + [EMPTY_JAR] else filled
    ensures JarAfter(jars, stars, now).capacity == JAR_CAPACITY
    ensures JarAfter(jars, stars, now).stars == stars + if jars == [] then 0 else jars[|jars| - 1].stars
  {
    if jars != [] {
      assert FindOpen(jars) == Some(|jars| - 1);
    }
  }

  lemma JarsSum(jars: seq<Jar>, most: int)
    requires JarsOk(jars, most)
    ensures JarStars(jars) == JarStars(FinishedOf(jars)) + if jars == [] then 0 else jars[|jars| - 1].stars
    ensures CompletedCount(jars) == CompletedCount(FinishedOf(jars))
  {
  }

  lemma JarsOkAfter(jars: seq<Jar>, stars: int, now: int, most: int)
    requires JarsOk(jars, most) && 1 <= stars <= most
    ensures JarsOk(JarsAfter(jars, stars, now), most) && JarsAfter(jars, stars, now) != []
    ensures |jars| <= |JarsAfter(jars, stars, now)|
    ensures FinishedOf(jars) <= JarsAfter(jars, stars, now)
  {
    JarsShape(jars, stars, now, most);
    var done, jar, after := FinishedOf(jars), JarAfter(jars, stars, now), JarsAfter(jars, stars, now);
    assert forall i :: 0 <= i < |done| ==> done[i] == jars[i] && Finished(done[i], most);
    if jar.completedAt.Some? {
      assert Finished(jar, most);
      assert Open(after[|after| - 1]);
    } else {
      assert Open(jar);
    }
  }

  lemma JarsStep(jars: seq<Jar>, stars: int, now: int, most: int)
    requires JarsOk(jars, most) && 1 <= stars <= most
    ensures var jars' := JarsAfter(jars, stars, now);
            && JarsOk(jars', most) && jars' != []
            && JarStars(jars') == JarStars(jars) + stars
            && CompletedCount(jars) <= CompletedCount(jars')
            && |jars| <= |jars'|
            && forall i :: 0 <= i < |jars| && jars[i].completedAt.Some? ==> jars'[i] == jars[i]
  {
    var done, jar, after := FinishedOf(jars), JarAfter(jars, stars, now), JarsAfter(jars, stars, now);
    JarsOkAfter(jars, stars, now, most);
    assert JarStars(after) == JarStars(jars) + stars && CompletedCount(jars) <= CompletedCount(after) by {
      JarsShape(jars, stars, now, most);
      JarsSum(jars, most);
      JarStarsAppend(done, jar);
      JarStarsAppend(done + [jar], EMPTY_JAR);
    }
    forall i | 0 <= i < |jars| && jars[i].completedAt.Some? ensures after[i] == jars[i] {
      assert done[i] == jars[i];
    }
  }

  lemma LogsStep(rows: Rows, c: Call)
    requires LogsOk(rows.logs) && c.act.Some? && Commits(rows, c)
    ensures LogsOk(rows.logs + [NewLog(rows.jars, c)])
    ensures LogStars(rows.logs + [NewLog(rows.jars, c)]) == LogStars(rows.logs) + StarsOf(c)
  {
    LogStarsAppend(rows.logs, NewLog(rows.jars, c));
  }

  /** A streak row that may follow the stored one: its longest count is the old one or its own current count. */
  ghost predicate StreakFollows(row: Option<S.Row>, next: S.Row) {
    next.longest == Max(S.LongestOf(row), next.current)
  }

  lemma BadgesStep(rows: Rows, c: Call, streak: S.Row)
    requires c.act.Some? && StreakOk(rows.streak) && StreakFollows(rows.streak, streak)
    requires Earned(rows.badges, S.LongestOf(rows.streak), CompletedCount(rows.jars))
    requires CompletedCount(rows.jars) <= CompletedCount(JarsAfter(rows.jars, StarsOf(c), c.now))
    ensures var after := StarredWith(rows, c, streak);
            && StreakOk(after.streak)
            && Earned(after.badges, S.LongestOf(after.streak), CompletedCount(after.jars))
            && rows.badges <= after.badges
  {
    var completed := CompletedCount(JarsAfter(rows.jars, StarsOf(c), c.now));
    AwardKeepsEarned(rows.badges, S.LongestOf(rows.streak), CompletedCount(rows.jars),
                     streak.current, streak.longest, completed);
    GiveAllMembers(rows.badges, Due(streak.current, completed));
  }

  lemma StarredKeepsInv(rows: Rows, c: Call, streak: S.Row, most: int)
    requires Inv(rows, most) && c.act.Some? && Commits(rows, c) && 1 <= StarsOf(c) <= most
    requires StreakFollows(rows.streak, streak)
    ensures Inv(StarredWith(rows, c, streak), most) && Extends(rows, StarredWith(rows, c, streak))
  {
    JarsStep(rows.jars, StarsOf(c), c.now, most);
    LogsStep(rows, c);
    G.ApplyKeepsValid(rows.goals, G.Star(JarAfter(rows.jars, StarsOf(c), c.now).stars), c.now);
    BadgesStep(rows, c, streak);
  }

  lemma AddStarKeepsInv(rows: Rows, c: Call, day: int, most: int)
    requires Inv(rows, most) && Fair(AddStar(c, day), most)
    ensures Inv(AddStarRows(rows, c, day), most) && Extends(rows, AddStarRows(rows, c, day))
  {
    if Counts(rows, c) {
      StarredKeepsInv(rows, c, S.Updated(rows.streak, day), most);
    }
    NothingGrows(rows);
  }

  lemma NothingGrows(rows: Rows)
    ensures Extends(rows, rows)
  {
  }

  lemma ExtendsIsTransitive(a: Rows, b: Rows, c: Rows)
    requires Extends(a, b) && Extends(b, c)
    ensures Extends(a, c)
  {
    forall i | 0 <= i < |a.goals| ensures G.Later(a.goals[i], c.goals[i]) {
      assert G.Later(a.goals[i], b.goals[i]) && G.Later(b.goals[i], c.goals[i]);
    }
  }

  lemma StepKeepsInv(rows: Rows, op: Op, most: int)
    requires Inv(rows, most) && Fair(op, most)
    ensures Inv(Step(rows, op), most) && Extends(rows, Step(rows, op))
  {
    match op
    case AddStar(c, day) =>
      AddStarKeepsInv(rows, c, day, most);
    case ValidateStreak(day) =>
      NothingGrows(rows);
    case GoalOp(g, now) =>
      G.ApplyKeepsValid(rows.goals, g, now);
  }

  /** In every reachable state: stars are conserved between jars and logs, the jars are finished ones followed by one
      open jar, no two logs clash, and the badges are exactly the reached thresholds. */
  lemma {:induction false} RunKeepsInv(ops: seq<Op>, most: int)
    requires AllFair(ops, most)
    ensures Inv(Run(ops), most)
  {
    if ops != [] {
      RunKeepsInv(ops[..|ops| - 1], most);
      StepKeepsInv(Run(ops[..|ops| - 1]), ops[|ops| - 1], most);
    }
  }

  /** A finished jar, a log, a badge never changes again, however the run goes on. */
  lemma {:induction false} RunOnlyExtends(ops: seq<Op>, more: seq<Op>, most: int)
    requires AllFair(ops + more, most)
    ensures Extends(Run(ops), Run(ops + more))
  {
    if more == [] {
      assert ops + more == ops;
      NothingGrows(Run(ops));
    } else {
      var front, last := more[..|more| - 1], more[|more| - 1];
      var all := ops + more;
      assert all == ops + front + [last];
      assert AllFair(ops + front, most) && Fair(last, most) by {
        assert forall i :: 0 <= i < |ops + front| ==> (ops + front)[i] == all[i];
        assert all[|all| - 1] == last;
      }
      RunOnlyExtends(ops, front, most);
      RunKeepsInv(ops + front, most);
      RunPush(ops + front, last);
      StepKeepsInv(Run(ops + front), last, most);
      ExtendsIsTransitive(Run(ops), Run(ops + front), Run(all));
    }
  }

  /** After the first success there is exactly one open jar, and it is the last one. */
  lemma OneOpenJar(ops: seq<Op>, most: int)
    requires AllFair(ops, most)
    requires Run(ops).logs != []
    ensures var jars := Run(ops).jars;
            jars != [] && forall i :: 0 <= i < |jars| ==>
              (jars[i].completedAt.None? <==> i == |jars| - 1)
                && (jars[i].completedAt.None? <==> jars[i].stars < jars[i].capacity)
  {
    RunKeepsInv(ops, most);
  }

  lemma {:induction false} FinishedStars(jars: seq<Jar>, most: int)
    requires forall i :: 0 <= i < |jars| ==> Finished(jars[i], most)
    ensures CompletedCount(jars) == |jars|
    ensures |jars| * JAR_CAPACITY <= JarStars(jars) <= |jars| * (JAR_CAPACITY + most - 1)
  {
    if jars != [] {
      FinishedStars(jars[..|jars| - 1], most);
      var n := |jars| - 1;
      assert (n + 1) * (JAR_CAPACITY + most - 1) == n * (JAR_CAPACITY + most - 1) + (JAR_CAPACITY + most - 1);
    }
  }

  /** With n jars completed, capacity C and no act worth more than M, the stars earned lie in
      [n*C, (n+1)*C + n*(M-1)). */
  lemma StarBounds(ops: seq<Op>, most: int)
    requires AllFair(ops, most)
    ensures var rows := Run(ops);
            var n := CompletedCount(rows.jars);
            n * JAR_CAPACITY <= LogStars(rows.logs) < (n + 1) * JAR_CAPACITY + n * (most - 1)
  {
    RunKeepsInv(ops, most);
    JarBounds(Run(ops).jars, most);
  }

  /** What an act can be worth: its weight (one when unset or zero), doubled on Fridays and in the last ten nights, and
      raised in Ramadan. */
  lemma WorthOfAnAct(c: Call, day: int, weight: nat, ramadan: nat)
    requires c.act.Some? && weight >= 1
    requires c.act.value.rewardWeight.Some? ==> 0 <= c.act.value.rewardWeight.value <= weight
    requires 1 <= c.act.value.ramadanMultiplier <= ramadan
    ensures Fair(AddStar(c, day), 4 * (weight * ramadan))
  {
    var base := if c.act.value.rewardWeight.None? || c.act.value.rewardWeight.value == 0 then 1
      else c.act.value.rewardWeight.value;
    var boost := if c.ramadan then c.act.value.ramadanMultiplier else 1;
    MonotoneProduct(base, weight, boost, ramadan);
    Doublings(base, if c.friday then 2 else 1, boost, if c.last10 then 2 else 1);
  }

  lemma MonotoneProduct(a: int, b: int, x: int, y: int)
    requires 1 <= a <= b && 1 <= x <= y
    ensures 1 <= a * x <= b * y
  {
    assert b * y - a * x == (b - a) * y + a * (y - x);
  }

  /** Doubling at most twice on the way multiplies by at most four. */
  lemma Doublings(base: int, friday: int, boost: int, last10: int)
    requires 1 <= friday <= 2 && 1 <= last10 <= 2 && 1 <= base * boost
    ensures base * boost <= base * friday * boost * last10 <= 4 * (base * boost)
  {
    var product := base * boost;
    var once := base * friday * boost;
    assert once == if friday == 1 then product else 2 * product;
    assert once * last10 == if last10 == 1 then once else 2 * once;
  }

  lemma JarBounds(jars: seq<Jar>, most: int)
    requires JarsOk(jars, most)
    ensures var n := CompletedCount(jars);
            n * JAR_CAPACITY <= JarStars(jars) < (n + 1) * JAR_CAPACITY + n * (most - 1)
  {
    if jars != [] {
      var finished := jars[..|jars| - 1];
      FinishedStars(finished, most);
      Distribute(|finished|, most);
    }
  }

  lemma Distribute(n: int, most: int)
    ensures n * (JAR_CAPACITY + most - 1) == n * JAR_CAPACITY + n * (most - 1)
  {
  }

  /** A streak or jar badge is held only together with every smaller one of its category. */
  lemma BadgesArePrefixes(ops: seq<Op>, most: int, small: nat, big: nat)
    requires AllFair(ops, most)
    requires small <= big
    ensures small in STREAK_THRESHOLDS && StreakBadge(big) in Run(ops).badges ==> StreakBadge(small) in Run(ops).badges
    ensures small in JAR_THRESHOLDS && JarBadge(big) in Run(ops).badges ==> JarBadge(small) in Run(ops).badges
  {
    RunKeepsInv(ops, most);
  }

  // ---------------------------------------------------------------------------
  // Which calls count
  // ---------------------------------------------------------------------------

  /** The log table grows by exactly one log, carrying the call's stars and its date, when the call is answered fresh; a
      replay, a missing act and a clash with a unique constraint leave every table as it was. */
  lemma CountsOrChangesNothing(rows: Rows, c: Call, day: int)
    ensures var after := AddStarRows(rows, c, day);
            if Counts(rows, c)
            then |after.logs| == |rows.logs| + 1
                 && after.logs[|rows.logs|].starsEarned == StarsOf(c) && after.logs[|rows.logs|].date == c.today
                 && AddStarResponse(rows, c) == Ok(LogSnapshot(after.logs[|rows.logs|]))
            else after == rows
  {
  }

  /** The log of a counted call is still there after any further run. */
  lemma LogStays(ops: seq<Op>, c: Call, day: int, more: seq<Op>, most: int)
    requires AllFair(ops + [AddStar(c, day)] + more, most)
    requires Counts(Run(ops), c)
    ensures var before, rows := Run(ops), Run(ops + [AddStar(c, day)] + more);
            && |before.logs| < |rows.logs| && rows.logs[|before.logs|] == NewLog(before.jars, c)
            && LogsOk(rows.logs)
  {
    var first := ops + [AddStar(c, day)];
    RunPush(ops, AddStar(c, day));
    RunOnlyExtends(first, more, most);
    RunKeepsInv(first + more, most);
    assert Run(first).logs[|Run(ops).logs|] == NewLog(Run(ops).jars, c);
  }

  /** The same act again on the same day, however much later in the run: whatever the comment in the handler says, the
      call adds no log and changes nothing, and unless it is a replay it is refused. */
  lemma SameActSameDayIsRefused(ops: seq<Op>, c: Call, day: int, more: seq<Op>, again: Call, day': int, most: int)
    requires AllFair(ops + [AddStar(c, day)] + more, most)
    requires Counts(Run(ops), c)
    requires again.act.Some? && again.act.value.id == c.act.value.id && again.today == c.today
    ensures var rows := Run(ops + [AddStar(c, day)] + more);
            && AddStarRows(rows, again, day') == rows
            && (LookedUp(rows, again).None? ==> AddStarResponse(rows, again) == Conflict)
  {
    LogStays(ops, c, day, more, most);
    var rows := Run(ops + [AddStar(c, day)] + more);
    assert Clash(rows.logs[|Run(ops).logs|], NewLog(rows.jars, again));
  }

  /** A request id made of blanks is stored as the empty string, which the replay lookup skips but the constraint
      sees: after one such call every later one is refused, whatever its act and whatever runs in between. */
  lemma BlankIdWorksOnce(ops: seq<Op>, c: Call, day: int, more: seq<Op>, again: Call, day': int, most: int)
    requires AllFair(ops + [AddStar(c, day)] + more, most)
    requires Counts(Run(ops), c)
    requires StoredId(c.rawRequestId) == Some("") == StoredId(again.rawRequestId) && again.act.Some?
    ensures var rows := Run(ops + [AddStar(c, day)] + more);
            AddStarRows(rows, again, day') == rows && AddStarResponse(rows, again) == Conflict
  {
    LogStays(ops, c, day, more, most);
    var rows := Run(ops + [AddStar(c, day)] + more);
    assert Clash(rows.logs[|Run(ops).logs|], NewLog(rows.jars, again));
  }

  lemma BlankIdExists()
    ensures StoredId(Some(" ")) == Some("")
  {
    assert " "[1..] == "";
  }

  /** Sending a call again, after any run in between, returns the stored snapshot and changes nothing. */
  lemma ReplayReturnsSnapshot(ops: seq<Op>, c: Call, day: int, more: seq<Op>, day': int, most: int)
    requires Truthy(StoredId(c.rawRequestId))
    requires AllFair(ops + [AddStar(c, day)] + more, most)
    requires Counts(Run(ops), c)
    ensures var rows := Run(ops + [AddStar(c, day)] + more);
            && AddStarRows(rows, c, day') == rows
            && AddStarResponse(rows, c) == AddStarResponse(Run(ops), c)
  {
    LogStays(ops, c, day, more, most);
    var rows := Run(ops + [AddStar(c, day)] + more);
    var found := FindLog(rows.logs, StoredId(c.rawRequestId));
    assert rows.logs[|Run(ops).logs|].requestId == StoredId(c.rawRequestId);
    assert found.value == |Run(ops).logs|;
  }

  // ---------------------------------------------------------------------------
  // The streak and the days
  // ---------------------------------------------------------------------------

  function LastDay(ops: seq<Op>): Option<int> {
    if ops == [] then None
    else
      match ops[|ops| - 1]
      case AddStar(_, day) => Some(day)
      case ValidateStreak(day) => Some(day)
      case GoalOp(_, _) => LastDay(ops[..|ops| - 1])
  }

  /** The streak service's readings of the calendar do not go back, and a call dates its log before the streak service
      reads the day. The dates of the logs need not come in order. */
  ghost predicate DaysOrdered(ops: seq<Op>) {
    ops == [] ||
    (DaysOrdered(ops[..|ops| - 1])
     && (ops[|ops| - 1].AddStar? ==> ops[|ops| - 1].call.today <= ops[|ops| - 1].streakDay)
     && (LastDay(ops[..|ops| - 1]).Some? ==> LastDay(ops[..|ops| - 1]).value <= LastDay(ops).value))
  }

  /** The last operation has added a log. */
  predicate Counted(ops: seq<Op>) {
    ops != [] && ops[|ops| - 1].AddStar? && Counts(Run(ops[..|ops| - 1]), ops[|ops| - 1].call)
  }

  /** The days on which the streak service saw a counted call. */
  function StreakDays(ops: seq<Op>): set<int> {
    if ops == [] then {}
    else
      var before := StreakDays(ops[..|ops| - 1]);
      if Counted(ops) then before + {ops[|ops| - 1].streakDay} else before
  }

  lemma {:induction false} LastDayStays(ops: seq<Op>)
    ensures ops != [] && LastDay(ops[..|ops| - 1]).Some? ==> LastDay(ops).Some?
    ensures LastDay(ops).None? ==> Run(ops).streak.None? && Run(ops).logs == [] && StreakDays(ops) == {}
  {
    if ops != [] {
      LastDayStays(ops[..|ops| - 1]);
    }
  }

  lemma {:induction false} StreakTracksCalls(ops: seq<Op>)
    requires DaysOrdered(ops) && LastDay(ops).Some?
    ensures S.Tracks(Run(ops).streak, StreakDays(ops), LastDay(ops).value)
  {
    var front, op := ops[..|ops| - 1], ops[|ops| - 1];
    LastDayStays(front);
    LastDayStays(ops);
    var today := LastDay(ops).value;
    var now := if LastDay(front).Some? then LastDay(front).value else today;
    if LastDay(front).Some? {
      StreakTracksCalls(front);
    }
    assert S.Tracks(Run(front).streak, StreakDays(front), now);
    if Counted(ops) {
      S.TracksUpdate(Run(front).streak, StreakDays(front), now, today);
    }
  }

  /** Right after a counted call or a validation the stored streak is that day's streak of the days on which the streak
      service saw the counted calls; refused and replayed calls in between have not touched it. */
  lemma StreakIsOfStreakDays(ops: seq<Op>, op: Op)
    requires DaysOrdered(ops + [op])
    requires op.ValidateStreak? || (op.AddStar? && Counts(Run(ops), op.call))
    ensures var rows, today := Run(ops + [op]), LastDay(ops + [op]).value;
            StreakIs(StreakDays(ops + [op]), today, S.CurrentOf(rows.streak), S.LongestOf(rows.streak))
  {
    var all := ops + [op];
    assert all[..|all| - 1] == ops;
    StreakTracksCalls(all);
    var rows, today := Run(all), LastDay(all).value;
    if rows.streak.None? {
      NoDays(today);
    } else if op.AddStar? {
      assert today in StreakDays(all);
    }
  }

  // ---------------------------------------------------------------------------
  // The streak and the dates in the log
  // ---------------------------------------------------------------------------

  function LogDays(logs: seq<Log>): set<int> {
    set i | 0 <= i < |logs| :: logs[i].date
  }

  lemma LogDaysAppend(logs: seq<Log>, l: Log)
    ensures LogDays(logs + [l]) == LogDays(logs) + {l.date}
  {
    var all := logs + [l];
    assert forall i :: 0 <= i < |logs| ==> all[i].date == logs[i].date;
    assert all[|logs|].date == l.date;
  }

  /** What makes a counted call leave the streak right for the dates in the log: both clock readings fall on one day, or
      the streak service has already seen a counted call that day and the log's date makes no difference. */
  ghost predicate InStep(rows: Rows, c: Call, day: int) {
    S.InStep(rows.streak, LogDays(rows.logs), c.today, day)
  }

  /** One counted call: the streak stays right for the dates in the log, at every later validation, exactly when it is
      in step. */
  lemma LoggedStep(rows: Rows, c: Call, day: int, now: int)
    requires Counts(rows, c) && c.today <= day
    requires S.Tracks(rows.streak, LogDays(rows.logs), now) && (rows.streak.Some? ==> now <= day)
    ensures var after := AddStarRows(rows, c, day);
            && (S.Faithful(after.streak, LogDays(after.logs), day) <==> InStep(rows, c, day))
            && (InStep(rows, c, day) ==> S.Tracks(after.streak, LogDays(after.logs), day))
  {
    var days, row := LogDays(rows.logs), S.Updated(rows.streak, day);
    LogDaysAppend(rows.logs, NewLog(rows.jars, c));
    assert AddStarRows(rows, c, day).streak == Some(row);
    assert LogDays(AddStarRows(rows, c, day).logs) == days + {c.today};
    S.LateDay(rows.streak, days, now, c.today, day);
    if S.Tracks(Some(row), days + {c.today}, day) {
      S.TracksIsFaithful(Some(row), days + {c.today}, day);
    } else if S.Faithful(Some(row), days + {c.today}, day) {
      S.FaithfulIsTracks(row, days + {c.today}, day);
    }
  }

  /** Every counted call of the run was in step when it committed. */
  ghost predicate AlwaysInStep(ops: seq<Op>) {
    ops == [] ||
    (AlwaysInStep(ops[..|ops| - 1])
     && (Counted(ops) ==> InStep(Run(ops[..|ops| - 1]), ops[|ops| - 1].call, ops[|ops| - 1].streakDay)))
  }

  /** After every counted call of the run the streak is, at every later validation, that of the dates in the log. */
  ghost predicate AlwaysFaithful(ops: seq<Op>) {
    ops == [] ||
    (AlwaysFaithful(ops[..|ops| - 1])
     && (Counted(ops) ==> S.Faithful(Run(ops).streak, LogDays(Run(ops).logs), ops[|ops| - 1].streakDay)))
  }

  lemma {:induction false} InStepTracks(ops: seq<Op>)
    requires DaysOrdered(ops)
    ensures AlwaysFaithful(ops) <==> AlwaysInStep(ops)
    ensures AlwaysInStep(ops) && LastDay(ops).Some? ==>
      S.Tracks(Run(ops).streak, LogDays(Run(ops).logs), LastDay(ops).value)
  {
    if ops != [] {
      var front, op := ops[..|ops| - 1], ops[|ops| - 1];
      InStepTracks(front);
      LastDayStays(front);
      LastDayStays(ops);
      if AlwaysInStep(front) && LastDay(ops).Some? {
        var now := if LastDay(front).Some? then LastDay(front).value else LastDay(ops).value;
        assert S.Tracks(Run(front).streak, LogDays(Run(front).logs), now);
        if Counted(ops) {
          LoggedStep(Run(front), op.call, op.streakDay, now);
        }
      }
    }
  }

  /** The stored streak is the streak of the dates in the log, all through a run, if and only if every counted call was
      in step; a call whose log date and streak date are one day always is. */
  lemma StreakIsOfLoggedDaysIff(ops: seq<Op>)
    requires DaysOrdered(ops)
    ensures AlwaysFaithful(ops) <==> AlwaysInStep(ops)
    ensures (forall i :: 0 <= i < |ops| && ops[i].AddStar? ==> ops[i].call.today == ops[i].streakDay) ==>
      AlwaysInStep(ops)
  {
    InStepTracks(ops);
    if forall i :: 0 <= i < |ops| && ops[i].AddStar? ==> ops[i].call.today == ops[i].streakDay {
      SameDayIsInStep(ops);
    }
  }

  lemma {:induction false} SameDayIsInStep(ops: seq<Op>)
    requires forall i :: 0 <= i < |ops| && ops[i].AddStar? ==> ops[i].call.today == ops[i].streakDay
    ensures AlwaysInStep(ops)
  {
    if ops != [] {
      SameDayIsInStep(ops[..|ops| - 1]);
    }
  }

  /** So in such a run, whatever has been called last, the row is from now on the streak of the dates in the log. */
  lemma StreakIsOfLoggedDays(ops: seq<Op>)
    requires DaysOrdered(ops) && AlwaysInStep(ops) && LastDay(ops).Some?
    ensures S.Faithful(Run(ops).streak, LogDays(Run(ops).logs), LastDay(ops).value)
  {
    InStepTracks(ops);
    S.TracksIsFaithful(Run(ops).streak, LogDays(Run(ops).logs), LastDay(ops).value);
  }

  /** A call that waits over midnight: its log is dated one day, the streak the next. The day after that, validation
      keeps a streak of one, although by the dates in the log it is over. */
  lemma WaitingOverMidnight(c: Call, day: int)
    requires c.act.Some? && c.today == day
    ensures var ops := [AddStar(c, day + 1), ValidateStreak(day + 2)];
            && DaysOrdered(ops) && !AlwaysInStep(ops)
            && S.CurrentOf(Run(ops).streak) == 1
            && LogDays(Run(ops).logs) == {day} && StreakIs({day}, day + 2, 0, 1)
  {
    var first, validate := AddStar(c, day + 1), ValidateStreak(day + 2);
    var ops := [first, validate];
    FirstCall(c, day + 1);
    assert ops[..|ops| - 1] == [first];
    FirstDay(day);
    assert Latest({day}, day);
    assert !InStep(NO_ROWS, c, day + 1);
  }

  /** A run of one call. */
  lemma FirstCall(c: Call, day: int)
    requires c.act.Some? && c.today <= day
    ensures var ops := [AddStar(c, day)];
            && DaysOrdered(ops) && LastDay(ops) == Some(day) && (AlwaysInStep(ops) <==> InStep(NO_ROWS, c, day))
            && Run(ops).streak == Some(S.Row(1, 1, Some(day))) && LogDays(Run(ops).logs) == {c.today}
  {
    var first := AddStar(c, day);
    assert [first][..|[first]| - 1] == [];
    assert Counts(NO_ROWS, c) && Counted([first]);
    assert Run([first]) == Starred(NO_ROWS, c, day);
    LogDaysAppend([], NewLog([], c));
    assert LogDays([]) == {};
    assert [] + [NewLog([], c)] == [NewLog([], c)];
    assert DaysOrdered([]) && AlwaysInStep([]);
  }

  // ---------------------------------------------------------------------------
  // Goals and stars together
  // ---------------------------------------------------------------------------

  function RunFrom(rows: Rows, ops: seq<Op>): Rows
    decreases |ops|
  {
    if ops == [] then rows else RunFrom(Step(rows, ops[0]), ops[1..])
  }

  /** What a run does to the goals: a counted call is a star, any other call or validation nothing. */
  function GoalSteps(rows: Rows, ops: seq<Op>): seq<G.Timed>
    decreases |ops|
  {
    if ops == [] then []
    else
      var later := GoalSteps(Step(rows, ops[0]), ops[1..]);
      match ops[0]
      case AddStar(c, _) =>
        if Counts(rows, c) then [G.Timed(G.Star(JarAfter(rows.jars, StarsOf(c), c.now).stars), c.now)] + later
          else later
      case ValidateStreak(_) => later
      case GoalOp(g, now) => [G.Timed(g, now)] + later
  }

  /** How many calls of the run count, stars given in any other way included. */
  function CountedCalls(rows: Rows, ops: seq<Op>): nat
    decreases |ops|
  {
    if ops == [] then 0
    else
      (if (ops[0].AddStar? && Counts(rows, ops[0].call)) || (ops[0].GoalOp? && ops[0].op.Star?) then 1 else 0)
      + CountedCalls(Step(rows, ops[0]), ops[1..])
  }

  lemma {:induction false} GoalsFollow(rows: Rows, ops: seq<Op>)
    ensures RunFrom(rows, ops).goals == G.Run(rows.goals, GoalSteps(rows, ops))
    ensures G.StarsIn(GoalSteps(rows, ops)) == CountedCalls(rows, ops)
    decreases |ops|
  {
    if ops != [] {
      var next, steps := Step(rows, ops[0]), GoalSteps(rows, ops);
      var later := GoalSteps(next, ops[1..]);
      GoalsFollow(next, ops[1..]);
      if steps != later {
        assert steps[1..] == later;
      }
    }
  }

  /** Over any run of calls, refused and replayed ones included, validations and goal operations: an active goal that
      is not replaced, whose target is not raised and whose count is not lowered is completed by the time as many
      calls have counted as acts were missing. */
  lemma CallsCompleteGoal(rows: Rows, ops: seq<Op>, i: nat)
    requires G.Valid(rows.goals) && i < |rows.goals| && G.Live(rows.goals[i])
    requires G.NoSetback(rows.goals, GoalSteps(rows, ops), i)
    requires CountedCalls(rows, ops) >= G.Missing(rows.goals[i])
    ensures var goals := RunFrom(rows, ops).goals; i < |goals| && goals[i].status == G.Completed
  {
    GoalsFollow(rows, ops);
    G.StarsComplete(rows.goals, i, GoalSteps(rows, ops));
  }
}
