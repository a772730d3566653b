/** What becomes of the streak row when calls of add_star and validations overlap. Two things can go wrong, and only
    two: a validation writes its zero onto a count that a call has brought up to date since the validation loaded the
    row; and a call restarts the count at one without naming the column, because one is what it has loaded, although a
    validation has written a zero since. */
module StarStreaks {
  import opened Common
  import opened Badges
  import opened StarJar
  import opened StarCalls
  import opened StreakSpec
  import R = StarRuns
  import S = IncrementalStreak

  /** The row is the streak row of the days on which the streak service saw the counted calls: it has the last of
      them, the longest block, and the block that ends there, unless that one is over and has been zeroed. */
  ghost predicate Tracked(s: System) {
    S.Tracks(s.rows.streak, s.days, s.clock)
  }

  /** The count is that of yesterday or today, as far as anyone has read the calendar. */
  predicate LiveCount(row: Option<S.Row>, clock: int) {
    row.Some? && row.value.current != 0 && row.value.last.Some? && row.value.last.value >= clock - 1
  }

  /** A call whose update restarts the count at one has loaded a one, and finds a zero when it writes. */
  predicate OmitsOne(loaded: Option<S.Row>, stored: Option<S.Row>, day: int, clock: int) {
    && loaded.Some? && loaded.value.current == 1 && loaded.value.last !in {Some(day), Some(day - 1)}
    && stored.Some? && stored.value.current == 0 && day >= clock - 1
  }

  /** The two harmful writes. */
  predicate Harmful(s: System, e: Event) {
    match e
    case WriteZero(_) => LiveCount(s.rows.streak, s.clock)
    case Finish(id, _) =>
      id in s.calls && s.calls[id].Counting? && s.calls[id].call.act.Some? && Commits(s.rows, s.calls[id].call)
      && OmitsOne(s.calls[id].loaded, s.rows.streak, s.calls[id].day, s.clock)
    case _ => false
  }

  // ---------------------------------------------------------------------------
  // One write
  // ---------------------------------------------------------------------------

  lemma TracksLater(row: Option<S.Row>, days: set<int>, now: int, later: int)
    requires S.Tracks(row, days, now) && now <= later
    ensures S.Tracks(row, days, later)
  {
  }

  lemma ZeroTracks(row: Option<S.Row>, days: set<int>, clock: int)
    requires S.Tracks(row, days, clock)
    ensures S.Tracks(Zeroed(row), days, clock) <==> !LiveCount(row, clock)
  {
    if row.Some? {
      assert StreakSpec.Done(days, row.value.last.value);
    }
  }

  /** A call's write keeps the row right unless it omits a one. */
  lemma WrittenTracks(loaded: Option<S.Row>, stored: Option<S.Row>, days: set<int>, day: int, clock: int)
    requires S.Tracks(loaded, days, day) && S.Tracks(stored, days, clock) && day <= clock
    requires S.AtMostZeroed(loaded, stored) && R.StreakOk(loaded)
    ensures S.Tracks(Some(S.Written(loaded, S.Updated(loaded, day), stored)), days + {day}, clock)
            <==> !OmitsOne(loaded, stored, day, clock)
  {
    var edited := S.Updated(loaded, day);
    S.TracksUpdate(loaded, days, day, day);
    TracksLater(Some(edited), days + {day}, day, clock);
    if loaded.Some? && loaded.value.last == Some(day) {
      assert StreakSpec.Done(days, day);
      assert days + {day} == days;
    } else {
      assert StreakSpec.Done(days + {day}, day);
    }
  }

  // ---------------------------------------------------------------------------
  // Every interleaving
  // ---------------------------------------------------------------------------

  /** The stored row is right, and so was every row a call still works on. */
  ghost predicate TrackedAll(s: System) {
    Tracked(s) && forall id :: id in s.calls && s.calls[id].Counting? ==>
      S.Tracks(s.calls[id].loaded, s.days, s.calls[id].day)
  }

  lemma CommitTracks(s: System, id: nat, heard: bool, most: int)
    requires Inv(s, most) && TrackedAll(s) && id in s.calls && s.calls[id].Counting?
    requires s.calls[id].call.act.Some? && Commits(s.rows, s.calls[id].call)
    ensures Tracked(CommitOf(s, id, heard)) <==> !Harmful(s, Finish(id, heard))
    ensures forall other :: other in CommitOf(s, id, heard).calls ==> !CommitOf(s, id, heard).calls[other].Counting?
  {
    var p := s.calls[id];
    assert ClockOk(s, p);
    WrittenTracks(p.loaded, s.rows.streak, s.days, p.day, s.clock);
    assert s.lock == Some(id);
  }

  lemma StepTracks(s: System, e: Event, most: int)
    requires Inv(s, most) && Enabled(s, e) && TrackedAll(s)
    ensures Tracked(Step(s, e)) <==> !Harmful(s, e)
    ensures Tracked(Step(s, e)) ==> TrackedAll(Step(s, e))
  {
    var s' := Step(s, e);
    if e.Finish? && Commits(s.rows, s.calls[e.id].call) {
      CommitTracks(s, e.id, e.heard, most);
    } else if e.WriteZero? {
      ZeroTracks(s.rows.streak, s.days, s.clock);
    } else {
      TracksLater(s.rows.streak, s.days, s.clock, s'.clock);
    }
  }

  ghost predicate HarmfulAt(ss: seq<System>, es: seq<Event>, k: nat) {
    k < |es| && k < |ss| && Harmful(ss[k], es[k])
  }

  ghost predicate TrackedAt(ss: seq<System>, k: nat) {
    k < |ss| && Tracked(ss[k])
  }

  lemma {:induction false} TrackedUpTo(ss: seq<System>, es: seq<Event>, most: int, n: nat)
    requires Behaviour(ss, es, most) && n < |ss|
    ensures (forall k: nat :: k <= n ==> TrackedAt(ss, k)) <==> (forall k: nat :: k < n ==> !HarmfulAt(ss, es, k))
    ensures (forall k: nat :: k <= n ==> TrackedAt(ss, k)) ==> TrackedAll(ss[n])
  {
    if n > 0 {
      TrackedUpTo(ss, es, most, n - 1);
      BehaviourKeepsInv(ss, es, most, n - 1);
      if forall k: nat :: k <= n - 1 ==> TrackedAt(ss, k) {
        MoveTracks(ss, es, most, n - 1);
      }
    }
  }

  lemma MoveTracks(ss: seq<System>, es: seq<Event>, most: int, k: nat)
    requires Behaviour(ss, es, most) && k < |es| && Inv(ss[k], most) && TrackedAll(ss[k])
    ensures TrackedAt(ss, k + 1) <==> !HarmfulAt(ss, es, k)
    ensures TrackedAt(ss, k + 1) ==> TrackedAll(ss[k + 1])
  {
    assert MovesAt(ss, es, most, k);
    StepTracks(ss[k], es[k], most);
  }

  /** However calls, validations and midnights interleave: the stored streak is at all times that of the days on which
      the streak service saw the counted calls if and only if no validation zeroes a live count and no call omits a
      one. */
  lemma StreakIsOfStreakDaysIff(ss: seq<System>, es: seq<Event>, most: int)
    requires Behaviour(ss, es, most)
    ensures (forall k: nat :: k < |ss| ==> TrackedAt(ss, k)) <==> (forall k: nat :: k < |es| ==> !HarmfulAt(ss, es, k))
  {
    TrackedUpTo(ss, es, most, |es|);
  }

  /** And then every later validation leaves that day's streak. */
  lemma TrackedIsFaithful(s: System)
    requires Tracked(s)
    ensures S.Faithful(s.rows.streak, s.days, s.clock)
  {
    S.TracksIsFaithful(s.rows.streak, s.days, s.clock);
  }

  /** A validation that is about to write has loaded a row whose last day was over. */
  ghost predicate ChecksOk(s: System) {
    forall id :: id in s.checks ==> s.checks[id].last.Some? && s.checks[id].last.value < s.clock - 1
  }

  lemma ChecksStep(s: System, e: Event)
    requires Enabled(s, e) && ChecksOk(s)
    ensures ChecksOk(Step(s, e))
  {
  }

  lemma {:induction false} ChecksStay(ss: seq<System>, es: seq<Event>, most: int, k: nat)
    requires Behaviour(ss, es, most) && k < |ss|
    ensures ChecksOk(ss[k])
  {
    if k > 0 {
      ChecksStay(ss, es, most, k - 1);
      assert MovesAt(ss, es, most, k - 1);
      ChecksStep(ss[k - 1], es[k - 1]);
    }
  }

  /** A zero that lands on a live count is stale: the row has a later last day than the one the validation has loaded,
      so a counted call has written it in between. */
  lemma HarmfulZeroIsStale(ss: seq<System>, es: seq<Event>, most: int, k: nat)
    requires Behaviour(ss, es, most) && HarmfulAt(ss, es, k) && es[k].WriteZero?
    ensures var row := ss[k].rows.streak;
            && es[k].id in ss[k].checks && row.Some? && row.value.last.Some?
            && ss[k].checks[es[k].id].last.Some? && ss[k].checks[es[k].id].last.value < row.value.last.value
  {
    ChecksStay(ss, es, most, k);
    assert MovesAt(ss, es, most, k);
  }

  // ---------------------------------------------------------------------------
  // The rest of the tables
  // ---------------------------------------------------------------------------

  /** Two rows that track the same days differ at most in a count that is over. */
  lemma TracksIsUnique(a: Option<S.Row>, b: Option<S.Row>, days: set<int>, now: int)
    requires S.Tracks(a, days, now) && S.Tracks(b, days, now)
    ensures a.Some? == b.Some?
    ensures a.Some? ==>
      && a.value.last == b.value.last && a.value.longest == b.value.longest
      && (a.value.current == b.value.current || (a.value.last.Some? && a.value.last.value < now - 1))
  {
    if a.Some? && b.Some? {
      var last := a.value.last.value;
      if EndsAt(days, last, a.value.current) && EndsAt(days, last, b.value.current) {
        EndsAtUnique(days, last, a.value.current, b.value.current);
      }
    }
  }

  /** As long as the row is right, the serial run that has left the jars and the logs also leaves the same badges and
      the same streak, up to a count that is over. */
  lemma SerialWhenTracked(s: System, ops: seq<R.Op>, most: int)
    requires Inv(s, most) && SerialRun(ops, s, most) && Tracked(s)
    ensures var row, serial := s.rows.streak, R.Run(ops).streak;
            && row.Some? == serial.Some?
            && (row.Some? ==>
                  && row.value.last == serial.value.last && row.value.longest == serial.value.longest
                  && (row.value.current == serial.value.current
                      || (row.value.last.Some? && row.value.last.value < s.clock - 1)))
    ensures forall b :: b in s.rows.badges <==> b in R.Run(ops).badges
  {
    R.RunKeepsInv(ops, most);
    R.LastDayStays(ops);
    if R.LastDay(ops).Some? {
      R.StreakTracksCalls(ops);
      TracksLater(R.Run(ops).streak, s.days, R.LastDay(ops).value, s.clock);
    }
    TracksIsUnique(s.rows.streak, R.Run(ops).streak, s.days, s.clock);
    SameEarned(s.rows.badges, R.Run(ops).badges, S.LongestOf(s.rows.streak), CompletedCount(s.rows.jars));
  }

  lemma SameEarned(a: seq<Badge>, b: seq<Badge>, longest: nat, completed: nat)
    requires Earned(a, longest, completed) && Earned(b, longest, completed)
    ensures forall x :: x in a <==> x in b
  {
  }

  // ---------------------------------------------------------------------------
  // Both happen
  // ---------------------------------------------------------------------------

  /** No serial run leaves a count of zero on a row of the latest day. */
  lemma NoSerialZero(ops: seq<R.Op>)
    requires R.DaysOrdered(ops) && R.LastDay(ops).Some? && R.Run(ops).streak.Some?
    requires R.Run(ops).streak.value.last == R.LastDay(ops)
    ensures R.Run(ops).streak.value.current > 0
  {
    R.StreakTracksCalls(ops);
    assert StreakSpec.Done(R.StreakDays(ops), R.LastDay(ops).value);
  }

  /** The row says zero on the very day of its last counted call. */
  predicate WronglyZero(s: System) {
    s.rows.streak == Some(S.Row(0, 1, Some(s.clock)))
  }

  ghost predicate TwoActs(c: Call, d: Call, most: int) {
    && c.act.Some? && d.act.Some? && c.act.value.id != d.act.value.id
    && StoredId(c.rawRequestId).None? && StoredId(d.rawRequestId).None?
    && 1 <= StarsOf(c) < JAR_CAPACITY && StarsOf(c) <= most && 1 <= StarsOf(d) <= most
  }

  lemma WronglyZeroIsNotTracked(s: System)
    requires WronglyZero(s)
    ensures !Tracked(s)
  {
  }

  /** One call has counted, some days ago, and nothing else has happened. */
  ghost predicate OneCounted(s: System, c: Call) {
    && s.rows.streak == Some(S.Row(1, 1, Some(c.today))) && s.clock == c.today
    && s.lock.None? && s.checks == map[] && s.calls.Keys == {0}
  }

  lemma CountOne(c: Call, d: Call, most: int) returns (ss: seq<System>, es: seq<Event>)
    requires TwoActs(c, d, most)
    ensures Behaviour(ss, es, most) && OneCounted(ss[|es|], c) && Counts(ss[|es|].rows, d)
  {
    FirstTwoCount(c, c.today, d, d.today);
    ss, es := [Start(c.today)], [];
    ss, es := Through(ss, es, most, 0, c, c.today);
  }

  /** A validation loads the row of some days ago; a call restarts the count; the validation writes its zero. */
  lemma StaleZero(c: Call, d: Call, most: int)
    requires TwoActs(c, d, most) && c.today + 2 <= d.today
    ensures exists ss: seq<System>, es: seq<Event> ::
              Behaviour(ss, es, most) && WronglyZero(ss[|es|]) && !Tracked(ss[|es|])
  {
    var ss, es := CountOne(c, d, most);
    ss, es := LateZero(ss, es, most, c, d);
    WronglyZeroIsNotTracked(ss[|es|]);
  }

  lemma LateZero(ss: seq<System>, es: seq<Event>, most: int, c: Call, d: Call)
    returns (more: seq<System>, events: seq<Event>)
    requires Behaviour(ss, es, most) && OneCounted(ss[|es|], c) && Counts(ss[|es|].rows, d)
    requires c.today + 2 <= d.today && 1 <= StarsOf(d) <= most
    ensures Behaviour(more, events, most) && WronglyZero(more[|events|])
  {
    var row := S.Row(1, 1, Some(c.today));
    more, events := Extend(ss, es, most, LoadCheck(0, d.today));
    assert more[|events|].checks == map[0 := row];
    more, events := Through(more, events, most, 1, d, d.today);
    assert more[|events|].rows.streak == Some(S.Row(1, 1, Some(d.today)));
    more, events := Extend(more, events, most, WriteZero(0));
  }

  /** A call loads the row of some days ago; a validation zeroes it; the call restarts the count at the one it has
      loaded, and its UPDATE leaves the zero. */
  lemma OmittedOne(c: Call, d: Call, most: int)
    requires TwoActs(c, d, most) && c.today + 2 <= d.today
    ensures exists ss: seq<System>, es: seq<Event> ::
              Behaviour(ss, es, most) && WronglyZero(ss[|es|]) && !Tracked(ss[|es|])
  {
    var ss, es := CountOne(c, d, most);
    ss, es := ZeroFirst(ss, es, most, c, d);
    WronglyZeroIsNotTracked(ss[|es|]);
  }

  lemma ZeroFirst(ss: seq<System>, es: seq<Event>, most: int, c: Call, d: Call)
    returns (more: seq<System>, events: seq<Event>)
    requires Behaviour(ss, es, most) && OneCounted(ss[|es|], c) && Counts(ss[|es|].rows, d)
    requires c.today + 2 <= d.today && 1 <= StarsOf(d) <= most
    ensures Behaviour(more, events, most) && WronglyZero(more[|events|])
  {
    var row := S.Row(1, 1, Some(c.today));
    more, events := UpToLoad(ss, es, most, 1, d, d.today);
    more, events := Extend(more, events, most, LoadCheck(0, d.today));
    assert more[|events|].checks == map[0 := row];
    more, events := Extend(more, events, most, WriteZero(0));
    var s := more[|events|];
    assert s.calls[1] == Counting(d, d.today, Some(row)) && s.rows.streak == Some(S.Row(0, 1, Some(c.today)));
    assert Commits(s.rows, d);
    more, events := Extend(more, events, most, Finish(1, true));
  }
}
