/** Streak and jar badges: app/services/badge_service.py. */
module Badges {
  import opened Common

  /** A badge is identified by its category and threshold; the source maps each pair to one name. */
  datatype Badge = StreakBadge(days: nat) | JarBadge(jars: nat)

  const STREAK_THRESHOLDS: seq<nat> := [7, 30, 100]
  const JAR_THRESHOLDS: seq<nat> := [1, 5, 10]

  /** give_user_badge: a second award of the same badge adds nothing. */
  function Give(badges: seq<Badge>, b: Badge): seq<Badge> {
    if b in badges then badges else badges + [b]
  }

  /** The badges a streak of this length or this many completed jars call for. */
  function StreakDue(current: nat, k: nat): seq<Badge>
    requires k <= |STREAK_THRESHOLDS|
  {
    if k == 0 then []
    else if current >= STREAK_THRESHOLDS[k - 1] then StreakDue(current, k - 1) + [StreakBadge(STREAK_THRESHOLDS[k - 1])]
    else StreakDue(current, k - 1)
  }

  function JarDue(completed: nat, k: nat): seq<Badge>
    requires k <= |JAR_THRESHOLDS|
  {
    if k == 0 then []
    else if completed >= JAR_THRESHOLDS[k - 1] then JarDue(completed, k - 1) + [JarBadge(JAR_THRESHOLDS[k - 1])]
    else JarDue(completed, k - 1)
  }

  function Due(current: nat, completed: nat): seq<Badge> {
    StreakDue(current, |STREAK_THRESHOLDS|) + JarDue(completed, |JAR_THRESHOLDS|)
  }

  function GiveAll(badges: seq<Badge>, due: seq<Badge>): seq<Badge> {
    if due == [] then badges else Give(GiveAll(badges, due[..|due| - 1]), due[|due| - 1])
  }

  lemma {:induction false} GiveAllMembers(badges: seq<Badge>, due: seq<Badge>)
    ensures forall b :: b in GiveAll(badges, due) <==> b in badges || b in due
    ensures Distinct(badges) ==> Distinct(GiveAll(badges, due))
    ensures badges <= GiveAll(badges, due)
  {
    if due != [] {
      var front := due[..|due| - 1];
      GiveAllMembers(badges, front);
      assert due == front + [due[|due| - 1]];
    }
  }

  lemma DueMembers(current: nat, completed: nat)
    ensures forall b :: b in Due(current, completed) <==>
      match b
      case StreakBadge(t) => t in STREAK_THRESHOLDS && current >= t
      case JarBadge(k) => k in JAR_THRESHOLDS && completed >= k
  {
    assert StreakDue(current, 3) == StreakDue(current, 2) + if current >= 100 then [StreakBadge(100)] else [];
    assert StreakDue(current, 2) == StreakDue(current, 1) + if current >= 30 then [StreakBadge(30)] else [];
    assert StreakDue(current, 1) == if current >= 7 then [StreakBadge(7)] else [];
    assert JarDue(completed, 3) == JarDue(completed, 2) + if completed >= 10 then [JarBadge(10)] else [];
    assert JarDue(completed, 2) == JarDue(completed, 1) + if completed >= 5 then [JarBadge(5)] else [];
    assert JarDue(completed, 1) == if completed >= 1 then [JarBadge(1)] else [];
  }

  /** Exactly the badges whose threshold has been reached, each once. */
  ghost predicate Earned(badges: seq<Badge>, longest: nat, completed: nat) {
    && Distinct(badges)
    && forall b :: b in badges <==>
         match b
         case StreakBadge(t) => t in STREAK_THRESHOLDS && longest >= t
         case JarBadge(k) => k in JAR_THRESHOLDS && completed >= k
  }

  /** One award pass keeps the earned set exact, although it looks at the current streak and not the longest:
      a threshold the longest streak passes is passed by the current one at that moment. */
  lemma AwardKeepsEarned(badges: seq<Badge>, longest: nat, completed: nat, current': nat, longest': nat,
          completed': nat)
    requires Earned(badges, longest, completed)
    requires longest' == Max(longest, current') && completed <= completed'
    ensures Earned(GiveAll(badges, Due(current', completed')), longest', completed')
  {
    GiveAllMembers(badges, Due(current', completed'));
    DueMembers(current', completed');
  }

  // ---------------------------------------------------------------------------
  // Progress toward the next badge
  // ---------------------------------------------------------------------------

  datatype Progress = Progress(badge: Badge, current: nat, threshold: nat, progress: real)

  function Ratio(current: nat, threshold: nat): real
    requires threshold > 0
  {
    var r := current as real / threshold as real;
    if r <= 1.0 then r else 1.0
  }

  /** The least threshold not reached by n, if any. */
  ghost predicate LeastAbove(thresholds: seq<nat>, n: nat, t: nat) {
    t in thresholds && n < t && forall u :: u in thresholds && n < u ==> t <= u
  }

  /** get_badge_progress: the first missing badge of each category. */
  method GetBadgeProgress(badges: seq<Badge>, currentStreak: nat, jarsCompleted: nat, ghost longest: nat)
    returns (result: seq<Progress>)
    requires Earned(badges, longest, jarsCompleted) && currentStreak <= longest
    ensures forall p :: p in result && p.badge.StreakBadge? ==>
      p.badge == StreakBadge(p.threshold) && LeastAbove(STREAK_THRESHOLDS, longest, p.threshold)
        && p.current == currentStreak
    ensures forall p :: p in result && p.badge.JarBadge? ==>
      p.badge == JarBadge(p.threshold) && LeastAbove(JAR_THRESHOLDS, jarsCompleted, p.threshold)
        && p.current == jarsCompleted
    ensures forall p :: p in result ==> p.threshold > 0 && p.progress == p.current as real / p.threshold as real < 1.0
    ensures |result| == (if longest < 100 then 1 else 0) + (if jarsCompleted < 10 then 1 else 0)
    ensures longest < 100 ==> result[0].badge.StreakBadge?
    ensures jarsCompleted < 10 ==> result[|result| - 1].badge.JarBadge?
  {
    result := [];
    var i := 0;
    while i < |STREAK_THRESHOLDS|
      invariant 0 <= i <= |STREAK_THRESHOLDS|
      invariant result == []
      invariant forall j :: 0 <= j < i ==> STREAK_THRESHOLDS[j] <= longest
    {
      var threshold := STREAK_THRESHOLDS[i];
      if StreakBadge(threshold) !in badges {
        assert threshold in STREAK_THRESHOLDS;
        RatioBelowOne(currentStreak, threshold);
        result := [Progress(StreakBadge(threshold), currentStreak, threshold, Ratio(currentStreak, threshold))];
        break;
      }
      i := i + 1;
    }
    assert STREAK_THRESHOLDS[2] == 100;
    assert |result| == if longest < 100 then 1 else 0;
    ghost var streakPart := result;
    i := 0;
    while i < |JAR_THRESHOLDS|
      invariant 0 <= i <= |JAR_THRESHOLDS|
      invariant result == streakPart
      invariant forall j :: 0 <= j < i ==> JAR_THRESHOLDS[j] <= jarsCompleted
    {
      var threshold := JAR_THRESHOLDS[i];
      if JarBadge(threshold) !in badges {
        assert threshold in JAR_THRESHOLDS;
        RatioBelowOne(jarsCompleted, threshold);
        result := result + [Progress(JarBadge(threshold), jarsCompleted, threshold, Ratio(jarsCompleted, threshold))];
        break;
      }
      i := i + 1;
    }
    assert JAR_THRESHOLDS[2] == 10;
  }

  lemma RatioBelowOne(current: nat, threshold: nat)
    requires current < threshold
    ensures Ratio(current, threshold) == current as real / threshold as real < 1.0
  {
  }
}
