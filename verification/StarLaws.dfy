/** What one call of add_star writes and answers, column by column and apart from the functions that compute it:
    app/api/sadaqah.py. */
module StarLaws {
  import opened Common
  import opened Badges
  import opened StarJar
  import G = Goals
  import R = StarRuns
  import S = IncrementalStreak

  // ---------------------------------------------------------------------------
  // Request ids
  // ---------------------------------------------------------------------------

  ghost predicate AllBlank(s: string) {
    forall i :: 0 <= i < |s| ==> s[i] == ' ' || s[i] == '\t' || s[i] == '\n' || s[i] == '\r'
  }

  ghost predicate NoBlankEnds(s: string) {
    s != "" ==> !AllBlank([s[0]]) && !AllBlank([s[|s| - 1]])
  }

  /** Stripping takes off the blanks at both ends and nothing else. */
  lemma {:induction false} StripTakesBlanksOff(before: string, core: string, after: string)
    requires AllBlank(before) && NoBlankEnds(core) && AllBlank(after)
    ensures Strip(before + core + after) == core
  {
    if before != "" {
      StripTakesBlanksOff(before[1..], core, after);
      var s := before + core + after;
      assert s[0] == before[0] && s[1..] == before[1..] + core + after;
    } else if core == "" {
      assert before + core + after == after;
      BlankIsEmpty(after);
    } else {
      assert before + core + after == core + after;
      EndBlanksGo(core, after);
    }
  }

  lemma {:induction false} EndBlanksGo(core: string, after: string)
    requires core != "" && NoBlankEnds(core) && AllBlank(after)
    ensures Strip(core + after) == core
    decreases |after|
  {
    var s := core + after;
    assert s[0] == core[0] && (AllBlank([s[0]]) <==> IsSpace(s[0]));
    if after == "" {
      assert s == core && (AllBlank([s[|s| - 1]]) <==> IsSpace(s[|s| - 1]));
    } else {
      var rest := after[..|after| - 1];
      assert s[..|s| - 1] == core + rest && s[|s| - 1] == after[|after| - 1];
      EndBlanksGo(core, rest);
    }
  }

  lemma {:induction false} BlankIsEmpty(s: string)
    requires AllBlank(s)
    ensures Strip(s) == ""
  {
    if s != "" {
      BlankIsEmpty(s[1..]);
    }
  }

  /** The log carries the id of the call: an id that was given and is not empty, without its outer blanks. */
  predicate SameRequest(log: Log, c: Call) {
    c.rawRequestId.Some? && c.rawRequestId.value != "" && log.requestId == Some(Strip(c.rawRequestId.value))
  }

  /** The call has the id of an earlier log, and not one made of blanks. */
  ghost predicate Repeats(logs: seq<Log>, c: Call) {
    exists i :: 0 <= i < |logs| && SameRequest(logs[i], c) && logs[i].requestId != Some("")
  }

  // ---------------------------------------------------------------------------
  // Which calls count
  // ---------------------------------------------------------------------------

  /** The unique constraints of the logs refuse the call: a log has its request id, or its act and its date. */
  ghost predicate Refused(logs: seq<Log>, c: Call)
    requires c.act.Some?
  {
    exists i ::
      0 <= i < |logs| && (SameRequest(logs[i], c) || (logs[i].actId == c.act.value.id && logs[i].date == c.today))
  }

  lemma RefusedIs(rows: Rows, c: Call)
    requires c.act.Some?
    ensures Commits(rows, c) <==> !Refused(rows.logs, c)
  {
    var log := NewLog(rows.jars, c);
    forall i | 0 <= i < |rows.logs|
      ensures Clash(rows.logs[i], log) <==>
              SameRequest(rows.logs[i], c) || (rows.logs[i].actId == c.act.value.id && rows.logs[i].date == c.today)
    {
    }
  }

  /** A call adds a log exactly when its act exists and the constraints do not refuse it. */
  lemma CountsIff(rows: Rows, c: Call)
    ensures Counts(rows, c) <==> c.act.Some? && !Refused(rows.logs, c)
  {
    if c.act.Some? {
      RefusedIs(rows, c);
    }
  }

  /** The flags of the calendar do not decide whether a call counts. */
  lemma FlagsDoNotDecide(rows: Rows, c: Call, friday: bool, ramadan: bool, last10: bool)
    ensures Counts(rows, c.(friday := friday, ramadan := ramadan, last10 := last10)) <==> Counts(rows, c)
  {
    CountsIff(rows, c);
    CountsIff(rows, c.(friday := friday, ramadan := ramadan, last10 := last10));
  }

  // ---------------------------------------------------------------------------
  // The stars
  // ---------------------------------------------------------------------------

  /** The stars in the log that a counted call adds. */
  function StarsLogged(rows: Rows, c: Call, day: int): int
    requires Counts(rows, c)
  {
    AddStarRows(rows, c, day).logs[|rows.logs|].starsEarned
  }

  /** What a counted call earns: on an ordinary day the weight of the act, one when that is unset or zero; on a Friday
      and in the last ten nights twice what it would earn otherwise, in Ramadan the act's multiplier times as much. */
  lemma StarsEarned(rows: Rows, c: Call, day: int)
    requires Counts(rows, c)
    ensures var plain := c.(friday := false, ramadan := false, last10 := false);
            && Counts(rows, plain)
            && StarsLogged(rows, plain, day) == match c.act.value.rewardWeight
                                                case None => 1
                                                case Some(w) => if w == 0 then 1 else w
    ensures var without := c.(friday := false);
            Counts(rows, without) && (c.friday ==> StarsLogged(rows, c, day) == 2 * StarsLogged(rows, without, day))
    ensures var without := c.(last10 := false);
            Counts(rows, without) && (c.last10 ==> StarsLogged(rows, c, day) == 2 * StarsLogged(rows, without, day))
    ensures var without := c.(ramadan := false);
            && Counts(rows, without)
            && (c.ramadan ==>
                  StarsLogged(rows, c, day) == c.act.value.ramadanMultiplier * StarsLogged(rows, without, day))
  {
    FlagsDoNotDecide(rows, c, false, false, false);
    FlagsDoNotDecide(rows, c, false, c.ramadan, c.last10);
    FlagsDoNotDecide(rows, c, c.friday, c.ramadan, false);
    FlagsDoNotDecide(rows, c, c.friday, false, c.last10);
    var plain := StarsLogged(rows, c.(friday := false, ramadan := false, last10 := false), day);
    Reorder(plain, if c.friday then 2 else 1, if c.ramadan then c.act.value.ramadanMultiplier else 1,
            if c.last10 then 2 else 1);
    Reorder(plain, if c.friday then 2 else 1, 1, if c.last10 then 2 else 1);
    Reorder(plain, 1, if c.ramadan then c.act.value.ramadanMultiplier else 1, if c.last10 then 2 else 1);
  }

  lemma Reorder(base: int, friday: int, ramadan: int, last10: int)
    requires 1 <= friday <= 2 && 1 <= last10 <= 2
    ensures base * friday * ramadan * last10 == friday * (base * ramadan * last10)
    ensures base * friday * ramadan * last10 == ramadan * (base * friday * last10)
  {
    var product := base * ramadan;
    assert base * friday == if friday == 1 then base else base + base;
    assert base * friday * ramadan == if friday == 1 then product else product + product;
  }

  // ---------------------------------------------------------------------------
  // Jars, logs and goals
  // ---------------------------------------------------------------------------

  /** The stars of the jar that the call pours into, once it has. */
  function PouredTotal(rows: Rows, c: Call, day: int): int
    requires Counts(rows, c)
  {
    (if rows.jars == [] then 0 else rows.jars[|rows.jars| - 1].stars) + StarsLogged(rows, c, day)
  }

  /** A counted call pours what it has earned into the last jar, or a first one; with thirty-three stars that jar is
      completed now and an empty one follows it. */
  lemma JarPoured(rows: Rows, c: Call, day: int, most: int)
    requires Counts(rows, c) && R.JarsOk(rows.jars, most)
    ensures var total, after := PouredTotal(rows, c, day), AddStarRows(rows, c, day).jars;
            after == (if rows.jars == [] then [] else rows.jars[..|rows.jars| - 1])
                     + if total >= 33 then [Jar(total, 33, Some(c.now)), Jar(0, 33, None)] else [Jar(total, 33, None)]
  {
    R.JarsShape(rows.jars, StarsOf(c), c.now, most);
    assert R.FinishedOf(rows.jars) == if rows.jars == [] then [] else rows.jars[..|rows.jars| - 1];
  }

  /** The log of a counted call, column by column. The three response columns are the jar it poured into. */
  lemma LogAdded(rows: Rows, c: Call, day: int, most: int)
    requires Counts(rows, c) && R.JarsOk(rows.jars, most)
    ensures var total := PouredTotal(rows, c, day);
            AddStarRows(rows, c, day).logs
            == rows.logs + [Log(c.act.value.id,
                                if c.rawRequestId.None? || c.rawRequestId.value == "" then None
                                else Some(Strip(c.rawRequestId.value)),
                                c.today, c.now, StarsLogged(rows, c, day), c.friday, c.ramadan,
                                Some(total), Some(33), if total >= 33 then Some(c.now) else None)]
  {
    R.JarsShape(rows.jars, StarsOf(c), c.now, most);
  }

  /** The active goal counts one act, or catches up with the jar if that holds more stars; it is completed now when it
      reaches its target. No other goal moves. */
  lemma GoalMoved(rows: Rows, c: Call, day: int, most: int, i: nat)
    requires Counts(rows, c) && R.JarsOk(rows.jars, most) && G.Valid(rows.goals)
    requires i < |rows.goals| && rows.goals[i].status == G.Active && rows.goals[i].deletedAt.None?
    ensures var g, done := rows.goals[i], Max(rows.goals[i].done + 1, PouredTotal(rows, c, day));
            AddStarRows(rows, c, day).goals
            == rows.goals[i := if done < g.target
                               then g.(done := done, updatedAt := c.now)
                               else g.(done := done, updatedAt := c.now,
                                       status := G.Completed, completedAt := Some(c.now))]
  {
    R.JarsShape(rows.jars, StarsOf(c), c.now, most);
    forall k | 0 <= k < |rows.goals| && k != i ensures !G.Live(rows.goals[k]) {
      assert G.IndexHolds(rows.goals);
    }
    forall k: nat | k < |rows.goals|
      ensures k == i || AddStarRows(rows, c, day).goals[k] == rows.goals[k]
    {
      G.CountsAreKept(rows.goals, G.Star(PouredTotal(rows, c, day)), c.now, k);
    }
    G.CountsAreKept(rows.goals, G.Star(PouredTotal(rows, c, day)), c.now, i);
  }

  lemma NoGoalMoved(rows: Rows, c: Call, day: int)
    requires forall i :: 0 <= i < |rows.goals| ==> rows.goals[i].status != G.Active || rows.goals[i].deletedAt.Some?
    ensures AddStarRows(rows, c, day).goals == rows.goals
  {
  }

  // ---------------------------------------------------------------------------
  // The answer
  // ---------------------------------------------------------------------------

  /** The response columns of every log with the call's id, both numbers zero when one of them is missing. */
  ghost predicate IsStoredAnswer(logs: seq<Log>, c: Call, r: Response) {
    forall i :: 0 <= i < |logs| && SameRequest(logs[i], c) ==>
      var l := logs[i];
      r == Ok(if l.responseStars.Some? && l.responseCapacity.Some?
              then Snapshot(l.responseStars.value, l.responseCapacity.value, l.responseCompletedAt)
              else Snapshot(0, 0, l.responseCompletedAt))
  }

  /** What the lookup of the request id returns: what the log of that id has stored, and nothing for an id of blanks. */
  lemma LookupIs(rows: Rows, c: Call)
    requires R.LogsOk(rows.logs)
    ensures LookedUp(rows, c).Some? <==> Repeats(rows.logs, c)
    ensures Repeats(rows.logs, c) ==> IsStoredAnswer(rows.logs, c, LookedUp(rows, c).value)
  {
    var id := StoredId(c.rawRequestId);
    var found := FindLog(rows.logs, id);
    forall i | 0 <= i < |rows.logs| && SameRequest(rows.logs[i], c) ensures found == Some(i) {
      assert Clash(rows.logs[i], rows.logs[found.value]) && Clash(rows.logs[found.value], rows.logs[i]);
    }
    if LookedUp(rows, c).Some? {
      assert SameRequest(rows.logs[found.value], c);
    }
  }

  /** Answers, in the order of the branches: what was stored for a repeated id, no such act, a refusal, and the jar as
      it stands after a call that counts. */
  lemma AnswerIs(rows: Rows, c: Call, day: int, most: int)
    requires R.LogsOk(rows.logs) && R.JarsOk(rows.jars, most)
    ensures Repeats(rows.logs, c) ==> IsStoredAnswer(rows.logs, c, AddStarResponse(rows, c))
    ensures !Repeats(rows.logs, c) && c.act.None? ==> AddStarResponse(rows, c) == ActNotFound
    ensures !Repeats(rows.logs, c) && c.act.Some? && !Counts(rows, c) ==> AddStarResponse(rows, c) == Conflict
    ensures Counts(rows, c) ==>
              var total := PouredTotal(rows, c, day);
              AddStarResponse(rows, c) == Ok(Snapshot(total, 33, if total >= 33 then Some(c.now) else None))
  {
    LookupIs(rows, c);
    if Counts(rows, c) {
      R.JarsShape(rows.jars, StarsOf(c), c.now, most);
    }
  }

  // ---------------------------------------------------------------------------
  // Badges
  // ---------------------------------------------------------------------------

  /** In every reachable state: a badge is held for seven, thirty and a hundred days exactly when the longest streak has
      reached them, and for one, five and ten jars exactly when so many have been completed. */
  lemma BadgesHeld(ops: seq<R.Op>, most: int, n: nat)
    requires R.AllFair(ops, most)
    ensures var rows := R.Run(ops);
            && (StreakBadge(n) in rows.badges <==> (n == 7 || n == 30 || n == 100) && S.LongestOf(rows.streak) >= n)
            && (JarBadge(n) in rows.badges <==> (n == 1 || n == 5 || n == 10) && |rows.jars| >= n + 1)
  {
    R.RunKeepsInv(ops, most);
    var jars := R.Run(ops).jars;
    if jars != [] {
      R.FinishedStars(jars[..|jars| - 1], most);
    }
  }

  /** A counted call announces each badge that it adds, once, and no other. */
  lemma Announced(rows: Rows, c: Call, day: int)
    requires Distinct(rows.badges)
    ensures var after := AddStarRows(rows, c, day);
            && Distinct(NewBadges(rows, after))
            && forall b :: b in NewBadges(rows, after) <==> b in after.badges && b !in rows.badges
  {
    if Counts(rows, c) {
      var after := AddStarRows(rows, c, day);
      GiveAllMembers(rows.badges, Due(S.CurrentOf(after.streak), CompletedCount(after.jars)));
      assert after.badges == rows.badges + NewBadges(rows, after);
    }
  }
}
