/** Blocks of consecutive days, and what a streak is, independently of how either service computes it. */
module StreakSpec {

  /** The n days starting at `first` are all completed. */
  ghost predicate Block(days: set<int>, first: int, n: nat) {
    forall d :: first <= d < first + n ==> Done(days, d)
  }

  predicate Done(days: set<int>, d: int) {
    d in days
  }

  lemma BlockGrows(days: set<int>, more: set<int>, first: int, n: nat)
    requires Block(days, first, n) && days <= more
    ensures Block(more, first, n)
  {
    forall d | first <= d < first + n ensures Done(more, d) {
      assert Done(days, d);
    }
  }

  /** The block that ends on day `last` has exactly n days (none if `last` is not completed). */
  ghost predicate EndsAt(days: set<int>, last: int, n: nat) {
    Block(days, last - n + 1, n) && last - n !in days
  }

  ghost predicate Latest(days: set<int>, d: int) {
    d in days && forall x :: x in days ==> x <= d
  }

  /** n is the length of the longest block. */
  ghost predicate Longest(days: set<int>, n: nat) {
    && (exists first :: Block(days, first, n))
    && (forall first, m: nat :: Block(days, first, m) ==> m <= n)
  }

  /** n is the length of the block that ends on the latest day, provided that day is today or yesterday. */
  ghost predicate Current(days: set<int>, today: int, n: nat) {
    if exists d :: Latest(days, d) && today - 1 <= d <= today
    then exists d :: Latest(days, d) && EndsAt(days, d, n)
    else n == 0
  }

  ghost predicate StreakIs(days: set<int>, today: int, current: nat, longest: nat) {
    Current(days, today, current) && Longest(days, longest)
  }

  lemma EndsAtUnique(days: set<int>, last: int, m: nat, n: nat)
    requires EndsAt(days, last, m) && EndsAt(days, last, n)
    ensures m == n
  {
    assert !Done(days, last - m) && !Done(days, last - n);
  }

  /** The specification determines both numbers. */
  lemma StreakIsUnique(days: set<int>, today: int, c1: nat, l1: nat, c2: nat, l2: nat)
    requires StreakIs(days, today, c1, l1) && StreakIs(days, today, c2, l2)
    ensures c1 == c2 && l1 == l2
  {
    if d :| Latest(days, d) && today - 1 <= d <= today {
      EndsAtUnique(days, d, c1, c2);
    }
  }

  lemma NoDays(today: int)
    ensures StreakIs({}, today, 0, 0)
  {
    assert Block({}, 0, 0);
    forall first, m: nat | Block({}, first, m) ensures m == 0 {
      assert !Done({}, first);
    }
  }

  /** A new latest day either extends the block before it or starts one. */
  lemma AppendDay(days: set<int>, last: int, d: int, run: nat, longest: nat)
    requires Latest(days, last) && last < d
    requires EndsAt(days, last, run) && Longest(days, longest)
    ensures var run' := if d == last + 1 then run + 1 else 1;
            && Latest(days + {d}, d)
            && EndsAt(days + {d}, d, run')
            && Longest(days + {d}, if run' > longest then run' else longest)
  {
    var days' := days + {d};
    var run' := if d == last + 1 then run + 1 else 1;
    BlockGrows(days, days', last - run + 1, run);
    assert !Done(days, last - run);
    var best := if run' > longest then run' else longest;
    if run' > longest {
      assert Block(days', d - run' + 1, best);
    } else {
      var first :| Block(days, first, longest);
      BlockGrows(days, days', first, best);
    }
    forall first, m: nat | Block(days', first, m) ensures m <= best {
      if first + m - 1 == d && m > 0 {
        assert !Done(days', d - run');
      } else if m > 0 {
        assert Done(days', first + m - 1);
        forall x | first <= x < first + m ensures Done(days, x) {
          assert Done(days', x);
        }
        assert Block(days, first, m);
      }
    }
  }

  lemma FirstDay(d: int)
    ensures Latest({d}, d) && EndsAt({d}, d, 1) && Longest({d}, 1)
  {
    assert Block({d}, d, 1);
    forall first, m: nat | Block({d}, first, m) ensures m <= 1 {
      assert !Done({d}, first) || !Done({d}, first + 1);
    }
  }

  /** Every day is the end of some block, since a set of days is finite. */
  lemma {:induction false} EndsAtExists(days: set<int>, last: int)
    ensures exists n: nat :: EndsAt(days, last, n)
    decreases days
  {
    if last !in days {
      assert EndsAt(days, last, 0);
    } else {
      EndsAtExists(days - {last}, last - 1);
      var n: nat :| EndsAt(days - {last}, last - 1, n);
      BlockGrows(days - {last}, days, last - n, n);
      assert EndsAt(days, last, n + 1);
    }
  }

  /** The block that starts on day `first` has exactly n days. */
  ghost predicate StartsAt(days: set<int>, first: int, n: nat) {
    Block(days, first, n) && first + n !in days
  }

  lemma {:induction false} StartsAtExists(days: set<int>, first: int)
    ensures exists n: nat :: StartsAt(days, first, n)
    decreases days
  {
    if first !in days {
      assert StartsAt(days, first, 0);
    } else {
      StartsAtExists(days - {first}, first + 1);
      var n: nat :| StartsAt(days - {first}, first + 1, n);
      BlockGrows(days - {first}, days, first + 1, n);
      assert StartsAt(days, first, n + 1);
    }
  }

  /** The missing day t has exactly a days before it and b days after it. */
  ghost predicate Between(days: set<int>, t: int, a: nat, b: nat) {
    EndsAt(days, t - 1, a) && StartsAt(days, t + 1, b)
  }

  /** Filling in a missing day joins the two blocks beside it, and that is all it does to the longest block. */
  lemma FillIn(days: set<int>, t: int, a: nat, b: nat, longest: nat)
    requires t !in days && Between(days, t, a, b) && Longest(days, longest)
    ensures Longest(days + {t}, longest) <==> a + 1 + b <= longest
  {
    var days' := days + {t};
    forall d | t - a <= d < t + 1 + b ensures Done(days', d) {
      assert d != t ==> Done(days, d);
    }
    assert Block(days', t - a, a + 1 + b);
    var start :| Block(days, start, longest);
    BlockGrows(days, days', start, longest);
    forall first, m: nat | Block(days', first, m) ensures m <= longest || m <= a + 1 + b {
      if first <= t < first + m {
        assert !Done(days', t - 1 - a) && !Done(days', t + 1 + b);
      } else {
        forall x | first <= x < first + m ensures Done(days, x) {
          assert Done(days', x);
        }
        assert Block(days, first, m);
      }
    }
  }

  /** One more day joins at most two blocks, so the longest block never shrinks and at most doubles plus one. */
  lemma AddDayBounds(days: set<int>, d: int, before: nat, after: nat)
    requires Longest(days, before) && Longest(days + {d}, after)
    ensures before <= after <= 2 * before + 1
  {
    var first :| Block(days, first, before);
    BlockGrows(days, days + {d}, first, before);
    var start :| Block(days + {d}, start, after);
    assert forall x :: Done(days + {d}, x) ==> Done(days, x) || x == d;
    if start <= d < start + after {
      assert Block(days, start, d - start);
      assert Block(days, d + 1, start + after - d - 1);
    } else {
      assert Block(days, start, after);
    }
  }
}

/** _compute_streak and _update_streak of app/sadaqah/service.py. */
module BatchStreak {
  import opened Common
  import opened StreakSpec

  function DaySet(dates: seq<int>): set<int> {
    set d | d in dates
  }

  ghost predicate Increasing(s: seq<int>) {
    forall i, j :: 0 <= i < j < |s| ==> s[i] < s[j]
  }

  lemma InsertKeepsOrder(head: int, tail: seq<int>, d: int, rest: seq<int>)
    requires Increasing([head] + tail) && head < d
    requires Increasing(rest) && DaySet(rest) == DaySet(tail) + {d}
    ensures Increasing([head] + rest)
    ensures DaySet([head] + rest) == DaySet([head] + tail) + {d}
  {
    var all := [head] + tail;
    forall x | x in rest ensures head < x {
      assert x in DaySet(rest);
      if x != d {
        var k :| 0 <= k < |tail| && tail[k] == x;
        assert all[0] < all[k + 1];
      }
    }
    assert forall x :: x in DaySet([head] + rest) <==> x == head || x in DaySet(rest);
    assert forall x :: x in DaySet(all) <==> x == head || x in DaySet(tail);
    forall j | 0 <= j < |rest| ensures head < rest[j] {
      assert rest[j] in rest;
    }
  }

  lemma PrependDay(d: int, s: seq<int>)
    requires Increasing(s) && (s == [] || d < s[0])
    ensures Increasing([d] + s)
    ensures DaySet([d] + s) == DaySet(s) + {d}
  {
    assert forall x :: x in [d] + s <==> x == d || x in s;
  }

  /** Insertion into an increasing list; a day already there stays single. */
  function Insert(d: int, s: seq<int>): (r: seq<int>)
    requires Increasing(s)
    ensures Increasing(r)
    ensures DaySet(r) == DaySet(s) + {d}
  {
    if s == [] || d < s[0] then
      PrependDay(d, s);
      [d] + s
    else if d == s[0] then s
    else
      assert s == [s[0]] + s[1..];
      var rest := Insert(d, s[1..]);
      InsertKeepsOrder(s[0], s[1..], d, rest);
      [s[0]] + rest
  }

  /** sorted(set(dates)) */
  function SortedDays(dates: seq<int>): (r: seq<int>)
    ensures Increasing(r)
    ensures DaySet(r) == DaySet(dates)
  {
    if dates == [] then []
    else
      assert dates == [dates[0]] + dates[1..];
      Insert(dates[0], SortedDays(dates[1..]))
  }

  lemma PrefixLatest(days: seq<int>, i: nat)
    requires Increasing(days) && 0 < i <= |days|
    ensures Latest(DaySet(days[..i]), days[i - 1])
  {
    assert days[..i][i - 1] == days[i - 1];
    forall x | x in DaySet(days[..i]) ensures x <= days[i - 1] {
      var k :| 0 <= k < i && days[..i][k] == x;
    }
  }

  /** The two loops. `first` is the earliest day of the current streak, which the source returns as its third value. */
  method ComputeStreak(dates: seq<int>, today: int) returns (current: nat, longest: nat, first: Option<int>)
    ensures StreakIs(DaySet(dates), today, current, longest)
    ensures first.None? <==> current == 0
    ensures first.Some? ==> Latest(DaySet(dates), first.value + current - 1)
  {
    if dates == [] {
      NoDays(today);
      assert DaySet(dates) == {};
      return 0, 0, None;
    }
    var days := SortedDays(dates);
    assert dates[0] in DaySet(dates);
    longest := LongestLoop(days);
    current, first := CurrentLoop(days, today);
  }

  method LongestLoop(days: seq<int>) returns (longest: nat)
    requires Increasing(days) && days != []
    ensures Longest(DaySet(days), longest)
  {
    longest := 1;
    var longestCurrent := 1;
    FirstDay(days[0]);
    assert DaySet(days[..1]) == {days[0]};
    var i := 1;
    while i < |days|
      invariant 1 <= i <= |days|
      invariant EndsAt(DaySet(days[..i]), days[i - 1], longestCurrent)
      invariant Longest(DaySet(days[..i]), Max(longest, longestCurrent))
    {
      PrefixLatest(days, i);
      AppendDay(DaySet(days[..i]), days[i - 1], days[i], longestCurrent, Max(longest, longestCurrent));
      assert days[..i + 1] == days[..i] + [days[i]];
      assert DaySet(days[..i + 1]) == DaySet(days[..i]) + {days[i]};
      if days[i] - days[i - 1] == 1 {
        longestCurrent := longestCurrent + 1;
      } else {
        longest := Max(longest, longestCurrent);
        longestCurrent := 1;
      }
      i := i + 1;
    }
    assert days[..i] == days;
    longest := Max(longest, longestCurrent);
  }

  method CurrentLoop(days: seq<int>, today: int) returns (current: nat, first: Option<int>)
    requires Increasing(days) && days != []
    ensures Current(DaySet(days), today, current)
    ensures first.None? <==> current == 0
    ensures first.Some? ==> Latest(DaySet(days), first.value + current - 1)
  {
    var n := |days|;
    ghost var recent := today - 1 <= days[n - 1] <= today;
    var yesterday := today - 1;
    current, first := 0, None;
    var i := n - 1;
    var stop := false;
    while i >= 0 && !stop
      invariant -1 <= i < n
      invariant current == 0 <==> first.None?
      invariant current == 0 ==> i == n - 1 && yesterday == today - 1 && (stop ==> !recent)
      invariant current > 0 ==>
        recent && current <= n && first.value == days[n - current] && yesterday == first.value - 1
      invariant forall k :: n - current <= k < n ==> days[k] == days[n - 1] - (n - 1 - k)
      invariant !stop ==> i == n - 1 - current
      invariant stop && current > 0 ==> i == n - current - 1 && (i >= 0 ==> days[i] < yesterday)
      decreases i + 1, if stop then 0 else 1
    {
      var d := days[i];
      if d == today || d == yesterday {
        if current == 0 {
          first, current, yesterday := Some(d), 1, d - 1;
          i := i - 1;
        } else if first.value - d == 1 {
          first, current, yesterday := Some(d), current + 1, d - 1;
          i := i - 1;
        } else {
          stop := true;
        }
      } else {
        stop := true;
      }
    }
    CurrentFound(days, today, current);
  }

  /** What the second loop has found when it stops. */
  lemma CurrentFound(days: seq<int>, today: int, current: nat)
    requires Increasing(days) && days != [] && current <= |days|
    requires current > 0 <==> today - 1 <= days[|days| - 1] <= today
    requires forall k :: |days| - current <= k < |days| ==> days[k] == days[|days| - 1] - (|days| - 1 - k)
    requires 0 < current < |days| ==> days[|days| - current - 1] < days[|days| - current] - 1
    ensures Latest(DaySet(days), days[|days| - 1])
    ensures Current(DaySet(days), today, current)
  {
    var n := |days|;
    var last := days[n - 1];
    assert days[..n] == days;
    PrefixLatest(days, n);
    if current > 0 {
      forall d | last - current + 1 <= d < last + 1 ensures d in DaySet(days) {
        assert days[n - 1 - (last - d)] == d;
      }
      forall k | 0 <= k < n ensures days[k] != last - current {
        assert k < n - current ==> days[k] <= days[n - current - 1];
      }
      assert EndsAt(DaySet(days), last, current);
    }
  }

  /** The row _update_streak writes for one activity type. */
  class ActivityStreak {
    var currentStreak: nat
    var longestStreak: nat
    var lastCompletedAt: Option<int>

    constructor ()
      ensures longestStreak == 0
    {
      currentStreak, longestStreak, lastCompletedAt := 0, 0, None;
    }

    /** Recompute from all completions up to now. The stored longest never goes down, and it is the true
        longest whenever what was stored was the longest of some of the same days. */
    method Recompute(dates: seq<int>, today: int)
      modifies this
      ensures Current(DaySet(dates), today, currentStreak)
      ensures lastCompletedAt.None? <==> currentStreak == 0
      ensures lastCompletedAt.Some? ==> Latest(DaySet(dates), lastCompletedAt.value + currentStreak - 1)
      ensures longestStreak >= old(longestStreak)
      ensures forall days :: days <= DaySet(dates) && Longest(days, old(longestStreak)) ==>
        Longest(DaySet(dates), longestStreak)
      ensures forall n: nat :: Longest(DaySet(dates), n) ==> longestStreak == Max(old(longestStreak), n)
    {
      var current, longest, first := ComputeStreak(dates, today);
      ghost var stored := longestStreak;
      currentStreak, lastCompletedAt := current, first;
      longestStreak := Max(longestStreak, longest);
      forall days | days <= DaySet(dates) && Longest(days, stored) ensures stored <= longest {
        var start :| Block(days, start, stored);
        BlockGrows(days, DaySet(dates), start, stored);
      }
      forall n: nat | Longest(DaySet(dates), n) ensures n == longest {
        StreakIsUnique(DaySet(dates), today, current, n, current, longest);
      }
    }
  }
}

/** update_streak and validate_streak of app/services/streak_service.py. */
module IncrementalStreak {
  import opened Common
  import opened StreakSpec

  datatype Row = Row(current: nat, longest: nat, last: Option<int>)

  function Updated(row: Option<Row>, today: int): Row {
    match row
    case None => Row(1, 1, Some(today))
    case Some(r) =>
      if r.last == Some(today) then r
      else
        var run := if r.last == Some(today - 1) then r.current + 1 else 1;
        Row(run, Max(r.longest, run), Some(today))
  }

  function Validated(row: Option<Row>, today: int): Option<Row> {
    if row.Some? && row.value.last.Some? && today - row.value.last.value > 1
    then Some(row.value.(current := 0))
    else row
  }

  /** What is stored when a row loaded earlier is written: an UPDATE names the columns that differ from what was loaded,
      and leaves the others as they have become. */
  function Written(loaded: Option<Row>, edited: Row, stored: Option<Row>): Row {
    if loaded.None? || stored.None? then edited
    else
      Row(if edited.current != loaded.value.current then edited.current else stored.value.current,
          if edited.longest != loaded.value.longest then edited.longest else stored.value.longest,
          if edited.last != loaded.value.last then edited.last else stored.value.last)
  }

  /** The stored row is the loaded one, up to a count that a validation has set to zero since. */
  predicate AtMostZeroed(loaded: Option<Row>, stored: Option<Row>) {
    stored == loaded || (loaded.Some? && stored == Some(loaded.value.(current := 0)))
  }

  /** The user_streaks row of one user. */
  class UserStreak {
    var row: Option<Row>

    constructor ()
      ensures row == None
    {
      row := None;
    }

    method UpdateStreak(today: int) returns (streak: Row)
      modifies this
      ensures streak == Updated(old(row), today) && row == Some(streak)
    {
      if row == None {
        streak := Row(1, 1, Some(today));
        row := Some(streak);
        return;
      }
      streak := row.value;
      if streak.last == Some(today) {
        return;
      }
      if streak.last == Some(today - 1) {
        streak := streak.(current := streak.current + 1);
      } else {
        streak := streak.(current := 1);
      }
      if streak.current > streak.longest {
        streak := streak.(longest := streak.current);
      }
      streak := streak.(last := Some(today));
      row := Some(streak);
    }

    method ValidateStreak(today: int)
      modifies this
      ensures row == Validated(old(row), today)
    {
      if row == None || row.value.last == None {
        return;
      }
      var daysMissed := today - row.value.last.value;
      if daysMissed > 1 {
        row := Some(row.value.(current := 0));
      }
    }
  }

  // ---------------------------------------------------------------------------
  // Runs
  // ---------------------------------------------------------------------------

  datatype Op = Update(day: int) | Validate(day: int)

  function Apply(row: Option<Row>, op: Op): Option<Row> {
    match op
    case Update(t) => Some(Updated(row, t))
    case Validate(t) => Validated(row, t)
  }

  function Run(ops: seq<Op>): Option<Row> {
    if ops == [] then None else Apply(Run(ops[..|ops| - 1]), ops[|ops| - 1])
  }

  ghost predicate Ordered(ops: seq<Op>) {
    forall i, j :: 0 <= i < j < |ops| ==> ops[i].day <= ops[j].day
  }

  /** The days on which something was completed. */
  function Completed(ops: seq<Op>): set<int> {
    if ops == [] then {}
    else
      var before := Completed(ops[..|ops| - 1]);
      var op := ops[|ops| - 1];
      if op.Update? then before + {op.day} else before
  }

  function CurrentOf(row: Option<Row>): nat {
    if row.None? then 0 else row.value.current
  }

  function LongestOf(row: Option<Row>): nat {
    if row.None? then 0 else row.value.longest
  }

  /** The row as seen on day `now`: a stale current is either the old block or already zeroed. */
  ghost predicate Tracks(row: Option<Row>, days: set<int>, now: int) {
    match row
    case None => days == {}
    case Some(r) =>
      && r.last.Some?
      && Latest(days, r.last.value)
      && r.last.value <= now
      && Longest(days, r.longest)
      && (EndsAt(days, r.last.value, r.current) || (r.current == 0 && r.last.value < now - 1))
  }

  lemma TracksUpdate(row: Option<Row>, days: set<int>, now: int, today: int)
    requires Tracks(row, days, now) && (row.Some? ==> now <= today)
    ensures Tracks(Some(Updated(row, today)), days + {today}, today)
    ensures EndsAt(days + {today}, today, Updated(row, today).current)
  {
    match row
    case None =>
      FirstDay(today);
      assert days + {today} == {today};
    case Some(r) =>
      var last := r.last.value;
      if last == today {
        assert days + {today} == days;
      } else {
        var run: nat :| EndsAt(days, last, run) by { EndsAtExists(days, last); }
        AppendDay(days, last, today, run, r.longest);
        if last == today - 1 {
          EndsAtUnique(days, last, run, r.current);
        }
      }
  }

  lemma {:induction false} RunTracks(ops: seq<Op>)
    requires Ordered(ops) && ops != []
    ensures Tracks(Run(ops), Completed(ops), ops[|ops| - 1].day)
    ensures StreakIs(Completed(ops), ops[|ops| - 1].day, CurrentOf(Run(ops)), LongestOf(Run(ops)))
  {
    var front, op := ops[..|ops| - 1], ops[|ops| - 1];
    if front != [] {
      RunTracks(front);
    }
    var now := if front == [] then op.day else front[|front| - 1].day;
    var row, days := Run(front), Completed(front);
    assert Tracks(row, days, now);
    if op.Update? {
      TracksUpdate(row, days, now, op.day);
    } else if row.None? {
      NoDays(op.day);
    }
  }

  /** After every update and every validation the stored pair is what the batch algorithm computes that day
      from the set of completion days: ComputeStreak promises StreakIs, and StreakIs has one answer. */
  lemma AgreesWithBatch(ops: seq<Op>, current: nat, longest: nat)
    requires Ordered(ops) && ops != []
    requires StreakIs(Completed(ops), ops[|ops| - 1].day, current, longest)
    ensures current == CurrentOf(Run(ops)) && longest == LongestOf(Run(ops))
  {
    RunTracks(ops);
    StreakIsUnique(Completed(ops), ops[|ops| - 1].day, current, longest, CurrentOf(Run(ops)), LongestOf(Run(ops)));
  }

  function UpdatesOnly(ops: seq<Op>): seq<Op> {
    if ops == [] then []
    else
      var front := UpdatesOnly(ops[..|ops| - 1]);
      if ops[|ops| - 1].Update? then front + [ops[|ops| - 1]] else front
  }

  /** Equal up to a current count that a validation has zeroed and no later update can use. */
  ghost predicate SameForLater(a: Option<Row>, b: Option<Row>, now: int) {
    a == b ||
    (a.Some? && b.Some? && a.value == b.value.(current := 0) && a.value.last.Some? && a.value.last.value < now - 1)
  }

  lemma {:induction false} ValidationsOnlyZero(ops: seq<Op>)
    requires Ordered(ops) && ops != []
    ensures SameForLater(Run(ops), Run(UpdatesOnly(ops)), ops[|ops| - 1].day)
    ensures ops[|ops| - 1].Update? ==> Run(ops) == Run(UpdatesOnly(ops))
  {
    var front, op := ops[..|ops| - 1], ops[|ops| - 1];
    if front != [] {
      ValidationsOnlyZero(front);
    }
    var kept := UpdatesOnly(front);
    assert (kept + [op])[..|kept|] == kept;
  }

  /** Validations inserted anywhere do not change the row left by a later update. */
  lemma ValidationsAreInvisible(ops: seq<Op>, today: int)
    requires Ordered(ops + [Update(today)])
    ensures Run(ops + [Update(today)]) == Run(UpdatesOnly(ops) + [Update(today)])
  {
    var all := ops + [Update(today)];
    ValidationsOnlyZero(all);
    assert all[..|all| - 1] == ops;
  }

  // ---------------------------------------------------------------------------
  // A day that is recorded under another date
  // ---------------------------------------------------------------------------

  /** Whenever the row is validated from now on, it holds that day's streak of these days. */
  ghost predicate Faithful(row: Option<Row>, days: set<int>, now: int) {
    forall v :: v >= now ==> StreakIs(days, v, CurrentOf(Validated(row, v)), LongestOf(Validated(row, v)))
  }

  /** Recording day t leaves the streak alone: it is recorded already, or the block it makes neither reaches the current
      one nor is longer than the longest. */
  ghost predicate Absorbed(row: Row, days: set<int>, t: int)
    requires row.last.Some?
  {
    t in days ||
    (t != row.last.value - row.current && exists a: nat, b: nat :: Between(days, t, a, b) && a + 1 + b <= row.longest)
  }

  /** An update on day d stands for the day t that is recorded: they are one day, or the row has been updated on d
      before and t makes no difference. */
  ghost predicate InStep(row: Option<Row>, days: set<int>, t: int, d: int) {
    t == d || (row.Some? && row.value.last == Some(d) && Absorbed(row.value, days, t))
  }

  lemma TracksIsFaithful(row: Option<Row>, days: set<int>, now: int)
    requires Tracks(row, days, now)
    ensures Faithful(row, days, now)
  {
    forall v | v >= now ensures StreakIs(days, v, CurrentOf(Validated(row, v)), LongestOf(Validated(row, v))) {
      if row.None? {
        NoDays(v);
      } else {
        assert Latest(days, row.value.last.value);
      }
    }
  }

  /** Right after an update the next day's validation gives the row away. */
  lemma FaithfulIsTracks(row: Row, days: set<int>, d: int)
    requires row.last == Some(d) && row.current > 0 && Faithful(Some(row), days, d)
    requires forall x :: x in days ==> x <= d
    ensures Tracks(Some(row), days, d)
  {
    assert StreakIs(days, d + 1, CurrentOf(Validated(Some(row), d + 1)), LongestOf(Validated(Some(row), d + 1)));
    var latest :| Latest(days, latest) && EndsAt(days, latest, row.current) && d <= latest;
  }

  lemma LatePast(row: Row, days: set<int>, t: int, d: int)
    requires Tracks(Some(row), days, d) && row.last == Some(d) && t < d && t !in days
    ensures Tracks(Some(row), days + {t}, d) <==> Absorbed(row, days, t)
  {
    BlockGrows(days, days + {t}, d - row.current + 1, row.current);
    EndsAtExists(days, t - 1);
    StartsAtExists(days, t + 1);
    var a: nat :| EndsAt(days, t - 1, a);
    var b: nat :| StartsAt(days, t + 1, b);
    FillIn(days, t, a, b, row.longest);
    if Absorbed(row, days, t) {
      var a': nat, b': nat :| Between(days, t, a', b') && a' + 1 + b' <= row.longest;
      FillIn(days, t, a', b', row.longest);
    } else {
      assert Between(days, t, a, b);
    }
  }

  /** The row goes on tracking the recorded days exactly when the update is in step. */
  lemma LateDay(row: Option<Row>, days: set<int>, now: int, t: int, d: int)
    requires Tracks(row, days, now) && (row.Some? ==> now <= d) && t <= d
    ensures Tracks(Some(Updated(row, d)), days + {t}, d) <==> InStep(row, days, t, d)
    ensures Updated(row, d).current > 0 && Updated(row, d).last == Some(d)
    ensures forall x :: x in days + {t} ==> x <= d
  {
    if row.Some? && row.value.last == Some(d) {
      assert Done(days, d);
    }
    if t == d {
      TracksUpdate(row, days, now, d);
    } else if row.Some? && row.value.last == Some(d) {
      if t in days {
        assert days + {t} == days;
      } else {
        LatePast(row.value, days, t, d);
      }
    } else {
      assert d !in days + {t};
    }
  }
}
