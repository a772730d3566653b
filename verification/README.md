# Verified model of the Mizan backend's state machines

This project models, in Dafny, the parts of the Mizan backend whose correctness needs an argument over whole runs: the
rate limiter, the star-jar transaction, the two streak algorithms, the WebSocket fan-out between processes, the event
notification protocol, the personal goals with the migration of their unique index, the family timeline, family goals,
memberships and invitations, and the daily rotation of acts and adhkar.

Code that changes rows or fields in place is modelled by classes and methods with loops. Each method is tied by its
contract to a function of the old state, and the laws are proved about these functions over every run. Protocols whose
steps interleave (overlapping `add_star` calls, goal and membership operations without row locks, family acts, WebSocket
processes, notification claims) are state machines; a theorem about them quantifies over every sequence of steps, in
which any step that is enabled may come next. The laws do not lean on the functions alone: amounts, limits, roles,
addressees, names and dates are written out in them with the values of the source.

| file | module | models |
|---|---|---|
| `RateLimit.dfy` | `RateLimit` | the sliding-window script on one Redis key, its callers and its outages |
| `Streak.dfy` | `StreakSpec`, `BatchStreak`, `IncrementalStreak` | what a streak is, and the two services that compute it |
| `Goals.dfy`, `GoalRaces.dfy` | `Goals`, `GoalRaces` | a user's goals, serially and interleaved |
| `Badges.dfy` | `Badges` | streak and jar badges and the progress towards the next one |
| `StarJar.dfy`, `StarRuns.dfy`, `StarLaws.dfy`, `StarCalls.dfy`, `StarStreaks.dfy` | `StarJar`, `StarRuns`, `StarLaws`, `StarCalls`, `StarStreaks` | the add-star transaction; its serial runs; what one call writes and answers, in the columns; its overlapping calls; the streak row under overlapping validations |
| `WsRegistry.dfy`, `WsRelay.dfy` | `WsRegistry`, `WsRelay` | one registry of sockets; the relay between processes |
| `Notify.dfy` | `Notifier`, `NotifyProtocol` | claim, publish, release and fallback; all of it interleaved |
| `Migration.dfy` | `Migration` | the repair of the one-active-goal index |
| `Timeline.dfy` | `Timeline` | the keyset cursor of the family timeline |
| `FamilyGoals.dfy`, `FamilyActs.dfy` | `FamilyGoals`, `FamilyActs` | the goal an act counts for and the goal a card shows; overlapping acts |
| `Membership.dfy`, `MembershipLaws.dfy`, `MembershipRaces.dfy` | `Membership`, `MembershipLaws`, `MembershipRaces` | families, roles, invitations, serially; who may do what in the columns; interleaved |
| `Rotation.dfy` | `Rotation` | the daily window over a catalogue |

`dafny verify dfyconfig.toml` checks everything.

## Assumptions

Times are integers. The database is a sequence of rows in id order; a declared unique constraint refuses the insert, and
the transaction rolls back. Friday, Ramadan and last-ten-nights flags, clocks, link failures, publish outcomes, the set
of processes a publish reaches and the result of each socket send are arbitrary inputs. Where a law needs it, weights and
multipliers are at least one (`StarRuns.Fair`), and the caller's clock does not go back while the server's clock, when the
script runs, is ahead of it by a fixed skew of any sign plus at most two seconds (`RateLimit.WellTimed`). The calendar
does not go back, but it is read twice in a call of `add_star`: once for the log's date, on arrival, and once for the
streak, under the lock (`StarRuns.DaysOrdered`, `StarCalls.Enabled`). Jars are created with the default capacity. A
transaction can break at its commit for a reason other than a constraint, stored or not; breaking earlier leaves fewer
traces.

## What the proofs found

- The handler says that duplicate acts are allowed (`app/api/sadaqah.py:273`), but the daily constraint
  (`app/models/sadaqah_log.py:21`) refuses a second log of the same act on the same day, however much later in the run,
  and the whole call rolls back (`StarRuns.SameActSameDayIsRefused`).
- A request id of blanks is stripped to the empty string and stored. The lookup skips it, the constraint does not: it
  works once per user, and every later blank id is refused whatever its act (`StarRuns.BlankIdWorksOnce`).
- The log is dated when a call arrives (`app/api/sadaqah.py:251`), the streak when it holds the lock
  (`app/services/streak_service.py:12`). In a serial run the stored streak is always that of the streak days
  (`StarRuns.StreakIsOfStreakDays`). It is that of the dates in the log, throughout the run, if and only if every counted
  call is in step: both readings fall on one day, or the row has been updated that day before and the log's date makes no
  difference (`StarRuns.StreakIsOfLoggedDaysIff`). A call that waits over midnight need not be
  (`StarRuns.WaitingOverMidnight`).
- Validations take no lock. With calls and validations interleaved, the stored streak is that of the streak days at all
  times if and only if no validation writes its zero onto a count that a call has brought up to date since, and no call
  restarts the count at a one that it has loaded and that a validation has zeroed since, because its UPDATE then leaves
  the column out (`StarStreaks.StreakIsOfStreakDaysIff`). Both happen (`StarStreaks.StaleZero`,
  `StarStreaks.OmittedOne`), and leave a row that no serial run leaves (`StarStreaks.NoSerialZero`). Jars and logs are
  those of a serial run whatever overlaps (`StarCalls.Serialisable`).
- A first answer is read again after the commit, outside the lock. It equals the snapshot that replays return if and
  only if the call filled its jar or nobody else has committed in between (`StarCalls.FreshAnswerIsStoredIff`); both
  happen (`StarCalls.FreshAnswerCanDiffer`).
- Badge notifications leave the process before the commit. A call that a constraint refuses sends none, because the flush
  before each has already met the constraints; a call whose commit breaks for another reason has sent them all the same
  (`StarJar.StarLedger.AddStar`). That the badge queries see this call's streak and completed jar is owed to explicit
  flushes, because the session never flushes by itself (`StarJar.StarLedger.AwardBadges`).
- A commit whose acknowledgement is lost is answered with an error although it is stored. With a request id nothing is
  lost: sent again, the call is answered from its log (`StarCalls.UnheardCanBeSentAgain`).
- The two spare seconds of the limiter's time to live are exactly the lag it tolerates: three seconds let one request too
  many through (`RateLimit.SlackIsTight`).
- A replaced goal stays replaced for ever if and only if no transaction holds a completion of it, decided while it was
  active, at the moment it is replaced (`GoalRaces.ReplacedIsFinalIff`, with a run of three steps in
  `GoalRaces.ReplacedCanBecomeCompleted`); at most one live active goal exists even then. A finished goal keeps its
  title, target and count for ever if and only if no transaction holds a write that changes one of them
  (`GoalRaces.TermsAreFinalIff`).
- An event is lost exactly when every attempt at it met a refused publish and a failed fallback insert
  (`NotifyProtocol.LostIff`).
- The goal a family act counts for is the goal on the family card, whatever order the database gives equal timestamps,
  if and only if the card's goal shares its creation time with no other listed goal of its kind
  (`FamilyGoals.CardAgreesIff`). Request ids of family acts are unique over all families, so an id already used
  elsewhere is answered like a replay and counts nothing (`FamilyGoals.AddActCounts`).
- The count of a family goal grows by exactly its recorded acts if and only if no act on it is committed between the load
  and the commit of another one (`FamilyActs.EveryActCountsIff`); otherwise it stays behind for ever
  (`FamilyActs.LostAct` is such a run).
- A targeted invitation is bound to its addressee on every path: over every serial run whoever has used or declined it
  is the user it names or has the email it names (`MembershipLaws.OnlyAddresseesAnswer`), and nobody else is refused for
  being somebody else (`MembershipLaws.DeniedIff`).
- The migration normalises the four lower-case names only; a live goal in any other spelling is left alone
  (`Migration.OtherSpellingsAreLeftAlone`).
- Joins take no lock on the invitation: it is used twice if and only if the checks of two joins both pass before the
  first of them commits (`MembershipRaces.UsedTwiceIff`), and from the empty tables on that can happen
  (`MembershipRaces.TwoAccountsOneInvitation`). In serial runs it admits at most one account
  (`Membership.OneJoinPerInvitation`). An accepted invitation stays accepted if and only if no call holds another answer
  to it (`MembershipRaces.AcceptedIsFinalIff`).
- The third result of `_compute_streak` is the first day of the current streak, not the last one its documentation
  names (`BatchStreak.ComputeStreak`).

## Model

| member | source | states |
|---|---|---|
| `RateLimit.LimiterKey.SlidingWindow` | app/core/rate_limit.py:23-37 | the atomic prune, count, add and expire step answers and leaves the key as `ScriptAllows` and `ScriptStore` say, the functions every law below is about |
| `RateLimit.LimiterKey.CheckRateLimitKey` | app/core/rate_limit.py:49-76 | an unreachable Redis answers with the fail-open choice and changes nothing; a lost reply does too although the script has run; any other answer is the script's |
| `RateLimit.StoreAgrees` | app/core/rate_limit.py:29-36 | over every well-timed run the pruned, expiring store and the list of all accepts agree on every entry that can still count |
| `RateLimit.PruningIsInvisible` | app/core/rate_limit.py:29-35 | the next answer is yes exactly when fewer than `limit` accepts of the whole history lie in (now - period, now] |
| `RateLimit.SlackIsTight` | app/core/rate_limit.py:35 | with three seconds of lag instead of two the script says yes where the limiter that forgets nothing says no |
| `RateLimit.WindowBound` | app/core/rate_limit.py:30-34 | no window of one period, wherever it starts, ever holds more accepts than the largest limit in use |
| `RateLimit.SpanBound` | app/core/rate_limit.py:30-34 | a span of k periods holds at most k times the limit |
| `RateLimit.FailClosedBound` | app/core/rate_limit.py:58-62 | an endpoint that fails closed grants at most k times the limit in k periods through every outage and lost reply |
| `RateLimit.UpIsExact` | app/core/rate_limit.py:65-76 | with Redis up the granted requests are exactly the remembered accepts, for both fail-open choices |
| `RateLimit.WhoIsGranted` | app/core/rate_limit.py:58-76 | request by request: with Redis up, yes exactly when fewer than `limit` accepts lie in the last period, and with a failed link the fail-open choice; an accept is remembered whether or not its caller hears of it |
| `RateLimit.GrantedAreRememberedOrFailed` | app/core/rate_limit.py:58-76 | over every run a fail-open endpoint grants the accepts made with Redis up and every request whose link has failed; a fail-closed endpoint grants only the former |
| `RateLimit.RejectedLeavesNoTrace` | app/core/rate_limit.py:31-33 | removing a rejected request from a run changes no later answer |
| `StreakSpec.StreakIsUnique` | app/sadaqah/service.py:108-112 | the definition by blocks of consecutive days determines both streak numbers |
| `StreakSpec.AppendDay` | app/sadaqah/service.py:122-127 | a new latest day extends the block before it or starts a new one, and the longest block grows accordingly |
| `StreakSpec.AddDayBounds` | app/sadaqah/service.py:119-128 | adding one date never lowers the longest streak and raises it to at most twice itself plus one |
| `BatchStreak.SortedDays` | app/sadaqah/service.py:117 | the days come out strictly increasing and are the same set |
| `BatchStreak.LongestLoop` | app/sadaqah/service.py:119-128 | the first loop finds the length of the longest block |
| `BatchStreak.CurrentLoop` | app/sadaqah/service.py:130-152 | the second loop finds the block that ends on the latest day if that is today or yesterday, else 0, and its first day |
| `BatchStreak.ComputeStreak` | app/sadaqah/service.py:108-154 | for any list of dates, in any order and with repeats, both numbers meet the definition, and the date returned is the first day of the current block |
| `BatchStreak.ActivityStreak.Recompute` | app/sadaqah/service.py:457-484 | the row gets the current streak, its first day and the larger of the stored and the true longest streak, which is the true one if the stored one was true of fewer days |
| `IncrementalStreak.UserStreak.UpdateStreak` | app/services/streak_service.py:11-46 | the row is created, kept, extended or restarted as `Updated` says |
| `IncrementalStreak.UserStreak.ValidateStreak` | app/services/streak_service.py:49-58 | a row whose last day is before yesterday loses its current streak and nothing else |
| `IncrementalStreak.RunTracks` | app/services/streak_service.py:11-58 | after every update and validation of a non-decreasing run the stored pair is the streak, by the definition, of the days completed so far |
| `IncrementalStreak.AgreesWithBatch` | app/sadaqah/service.py:108-154 | whatever the batch algorithm computes that day from the set of completed days is what the incremental row holds |
| `IncrementalStreak.ValidationsAreInvisible` | app/services/streak_service.py:49-58 | dropping all validations from a run changes nothing that a later update leaves |
| `StreakSpec.FillIn` | app/sadaqah/service.py:119-128 | recording a missing day joins the two blocks beside it, and the longest streak is unchanged exactly when the joined block is no longer |
| `IncrementalStreak.LateDay` | app/services/streak_service.py:30-42 | an update on day d keeps the row the streak of the recorded days, when day t is recorded, exactly when t is d or the row is of day d already and t makes no difference |
| `Goals.FindActive` | app/api/sadaqah.py:331-341 | the live active goal newest by creation time, then by id |
| `Goals.UserGoals.CreateGoal` | app/goals/repository.py:37-74 | refused when an active goal exists or the index is violated, else a fresh goal is appended |
| `Goals.UserGoals.ReplaceGoal` | app/goals/repository.py:77-123 | the active goal is retired and its successor inserted in one transaction, or nothing changes |
| `Goals.UserGoals.UpdateGoalProgress` | app/goals/repository.py:182-195 | only a visible active goal moves, and it completes when it reaches its target |
| `Goals.UserGoals.UpdateGoalFields` | app/goals/repository.py:198-218 | only a visible active goal is edited, the given fields alone |
| `Goals.UserGoals.UpdateGoalStatus` | app/goals/repository.py:221-263 | every branch, exception and rollback of the status change |
| `Goals.UserGoals.DeleteGoal` | app/goals/repository.py:266-276 | an active goal cannot be deleted, a finished one is soft-deleted, and its update time moves |
| `Goals.UserGoals.IncrementMonthlyGoals` | app/goals/repository.py:279-301 | the loop counts one act on every live active goal of the month, completes those that reach their target, and leaves the rest alone |
| `Goals.ApplyKeepsValid` | app/goals/repository.py:37-301 | each operation, add_star included, keeps at most one live active goal, none of them deleted, completed_at exactly on completed goals |
| `Goals.RunKeepsValid` | app/goals/models.py:73-81 | the same over every serial run; finished goals keep status, counts, target and title, deleted ones never change |
| `Goals.ProgressSettles` | app/goals/repository.py:188-191 | a step that counts progress leaves the goal completed, at or above its target, or active below it |
| `Goals.PreflightIsEnough` | app/goals/repository.py:54-72 | in serial runs the index never has to refuse: create succeeds exactly when no active goal is found, replace always does |
| `Goals.ReplaceSucceeds` | app/goals/repository.py:95-110 | afterwards the new goal is the only active one, fresh and with what was asked for, the old one is kept as replaced, its month carried over, no other row touched |
| `Goals.CreatedGoal` | app/goals/repository.py:54-72 | a created goal is active, has the title, target and month asked for, no acts and this moment as its dates |
| `Goals.EditTakesGivenFields` | app/goals/repository.py:198-218 | an edit sets title and target when they are given, and nothing else but the update time |
| `Goals.CountsAreKept` | app/goals/repository.py:182-301 | what counting does to each row: progress sets one active goal's count, a month's act adds one to every active goal of the month, a star adds one to the active goal or lifts it to the stars of the jar; at its target a goal completes now; no other row moves |
| `Goals.StatusOutcome` | app/goals/repository.py:221-263 | in a serial run an active goal can be completed or left active and nothing else; a finished one can only be given the status it has |
| `Goals.OnlyActiveGoalsMove` | app/goals/repository.py:182-205 | progress and edits find nothing exactly when the goal does not exist, is deleted or is not active |
| `Goals.DeleteOutcome` | app/goals/repository.py:266-276 | a missing or deleted goal is not found, an active one refused, any other marked deleted now |
| `Goals.StarsComplete` | app/api/sadaqah.py:342-348 | over any run of goal operations in which the active goal is not replaced, its target not raised and its count not lowered, it is completed by the time as many stars have come as acts were missing |
| `GoalRaces.AloneIsSerial` | app/goals/repository.py:182-276 | an operation that loads and commits with nothing in between does what it does in a serial run |
| `GoalRaces.OverlappingWrites` | app/goals/repository.py:198-218 | of two commits that have loaded the same row, each column keeps what the later one changed, else what the earlier one left |
| `GoalRaces.InterleavedRunsAreSafe` | app/goals/repository.py:111-121 | however loads, commits, inserts and locked operations interleave: never two live active goals, no active goal deleted, completed_at exactly on completed goals, no finished goal active again, no archived row changed in status |
| `GoalRaces.StepKeepsInv` | app/goals/models.py:73-81 | one interleaved step keeps that, given that each pending write was decided on a state the row has been in |
| `GoalRaces.FinishedStatusChangesIff` | app/goals/repository.py:185-193 | a commit changes a finished status exactly when the goal has been replaced and the commit brings a completion decided while it was active |
| `GoalRaces.ReplacedIsFinalIff` | app/goals/repository.py:95-113 | a replaced goal stays replaced in every continuation if and only if no pending transaction holds a completion of it |
| `GoalRaces.FinishRewritesIff` | app/goals/repository.py:188-193 | a commit changes title, target or count of a goal exactly when one of its writes does |
| `GoalRaces.TermsAreFinalIff` | app/goals/repository.py:206-216 | a finished goal keeps title, target and count in every continuation if and only if no pending transaction holds a write that changes one of them |
| `GoalRaces.ReplacedCanBecomeCompleted` | app/goals/repository.py:185-193 | an interleaving of three steps, for every active goal, after which a replaced goal is completed: the witness for the condition above |
| `Badges.GiveAllMembers` | app/services/badge_service.py:31-41 | awarding adds exactly the missing badges, keeps what was there in place and never repeats one |
| `Badges.AwardKeepsEarned` | app/services/badge_service.py:48-69 | one award pass by the current streak and jar count keeps the earned set exact for the longest streak |
| `Badges.GetBadgeProgress` | app/services/badge_service.py:102-166 | the loops report, per category, the least threshold above the longest streak or the jar count, and nothing when all are reached |
| `StarJar.FindOpen` | app/api/sadaqah.py:299-306 | the open jar with the greatest id, if there is one |
| `StarJar.FindLog` | app/api/sadaqah.py:168-179 | a log of the user with this request id, if there is one |
| `StarJar.StarLedger.FillJar` | app/api/sadaqah.py:298-326 | find or create the open jar, add the stars, complete it and open its successor; a query for completed jars sees the result |
| `StarJar.StarLedger.AdvanceGoal` | app/api/sadaqah.py:331-349 | the goal step of the handler is the `Star` operation of the goal table |
| `StarJar.StarLedger.Flush` | app/db/session.py:45-49 | nothing of the transaction is seen by a query before a flush; a flush writes all of it, or nothing when the new log clashes |
| `StarJar.StarLedger.GiveUserBadge` | app/services/badge_service.py:19-45 | a missing badge is added, flushed and announced; a held one is neither; a clash announces nothing |
| `StarJar.StarLedger.CheckStreakBadges` | app/services/badge_service.py:48-58 | the loop reads the flushed streak, awards the badges due for the session's streak, in order, and announces exactly the new ones |
| `StarJar.StarLedger.CheckJarBadges` | app/services/badge_service.py:61-69 | the same for the flushed number of completed jars |
| `StarJar.StarLedger.AwardBadges` | app/services/badge_service.py:72-89 | provided the earlier flushes have made the streak and the completed jars visible, all badges due are awarded, the new ones announced, and none announced after a clash |
| `StarJar.StarLedger.StreakAndBadges` | app/api/sadaqah.py:368-377 | the rest of the transaction succeeds exactly when the log clashes with none; then everything is flushed, the streak is updated, all badges due are held and exactly the new ones announced |
| `StarJar.StarLedger.Transact` | app/api/sadaqah.py:296-377 | the locked part reaches its commit exactly when the log clashes with none, and then everything is flushed and jars, goals, logs, streak and badges are as `Starred` says, which `StarLaws` states column by column; the log is dated by one clock reading and the streak by another |
| `StarJar.StarLedger.Recover` | app/api/sadaqah.py:393-402 | after an integrity error the stored snapshot of the same request id answers, else the error |
| `StarJar.StarLedger.AddStar` | app/api/sadaqah.py:230-442 | the handler's rows and answer are those of `AddStarRows` and `AddStarResponse`, which `StarLaws` states column by column; a commit that breaks is answered with an error, and has stored the rows or not; nothing stays unflushed; the badges announced are those of the call, broken or not, and none after a clash |
| `StarRuns.StarredKeepsInv` | app/api/sadaqah.py:296-377 | a committed call keeps every invariant below and rewrites nothing that was final |
| `StarRuns.StepKeepsInv` | app/api/sadaqah.py:230-442 | every call, validation and goal operation does |
| `StarRuns.RunKeepsInv` | app/api/sadaqah.py:298-366 | in every reachable state the stars in the jars are the stars in the logs, jars are finished ones followed by one open jar, no two logs clash, goals are valid, and badges are exactly the reached thresholds |
| `StarRuns.RunOnlyExtends` | app/api/sadaqah.py:314-326 | a completed jar, a log and a badge never change again; a finished goal keeps its status, title, target and count |
| `StarRuns.OneOpenJar` | app/api/sadaqah.py:321-326 | after the first success exactly the last jar is open, and a jar is open exactly when it is below its capacity |
| `StarRuns.StarBounds` | app/api/sadaqah.py:311-318 | with n jars completed, capacity C and acts worth at most M, the stars lie in [n*C, (n+1)*C + n*(M-1)) |
| `StarRuns.WorthOfAnAct` | app/api/sadaqah.py:276-286 | with weight at most W and Ramadan multiplier at most R an act is worth between 1 and 4*W*R stars |
| `StarRuns.BadgesArePrefixes` | app/services/badge_service.py:11-16 | a badge is held only together with every smaller one of its category |
| `StarRuns.CountsOrChangesNothing` | app/api/sadaqah.py:393-402 | a fresh call adds one log with its stars and answers with its snapshot; a replay, a missing act or a clash changes no table |
| `StarRuns.SameActSameDayIsRefused` | app/models/sadaqah_log.py:21 | after a counted call and any run in between, a call with the same act and date changes nothing, and is refused unless it is a replay |
| `StarRuns.BlankIdWorksOnce` | app/api/sadaqah.py:242 | after a counted call with a blank request id and any run in between, every call with a blank id is refused and changes nothing |
| `StarRuns.BlankIdExists` | app/api/sadaqah.py:242 | a request id of one blank is such an id |
| `StarRuns.ReplayReturnsSnapshot` | app/api/sadaqah.py:253-259 | sending a call again after any run in between returns the stored snapshot and changes nothing |
| `StarRuns.StreakIsOfStreakDays` | app/services/streak_service.py:11-46 | over every serial run, after a counted call or a validation, the stored streak is the streak of the days on which the streak service saw the counted calls |
| `StarRuns.StreakIsOfLoggedDays` | app/api/sadaqah.py:368-371 | in a serial run in which every counted call has been in step, the stored streak is from now on, at every validation, the streak of the dates in the log |
| `StarRuns.LoggedStep` | app/api/sadaqah.py:368-371 | one counted call leaves the streak right for the dates in the log, at every later validation, if and only if it is in step |
| `StarRuns.StreakIsOfLoggedDaysIff` | app/api/sadaqah.py:251 | in a serial run the streak is right for the dates in the log after every counted call if and only if every counted call was in step; same-day readings always are |
| `StarRuns.WaitingOverMidnight` | app/services/streak_service.py:12 | a call that is dated one day and commits the next leaves a streak of one that, by the date in its log, is already over |
| `StarRuns.CallsCompleteGoal` | app/api/sadaqah.py:331-349 | over any run of calls, refused and replayed ones included, validations and goal operations without a setback for the goal, it is completed by the time as many calls have counted as acts were missing |
| `StarLaws.StarsEarned` | app/api/sadaqah.py:276-286 | the new log earns the act's weight, one when unset or zero, on an ordinary day; twice as much on a Friday, twice as much in the last ten nights, and the Ramadan multiplier times as much in Ramadan |
| `StarLaws.CountsIff` | app/models/sadaqah_log.py:20-21 | a call adds a log exactly when its act exists and no log has its request id, or its act and date |
| `StarLaws.JarPoured` | app/api/sadaqah.py:298-326 | what was earned goes into the last jar or a first one; at thirty-three stars that jar is completed now and an empty one follows; no other jar moves |
| `StarLaws.LogAdded` | app/api/sadaqah.py:352-375 | every column of the new log: act, stripped id, date, time, stars, flags and the snapshot of the jar |
| `StarLaws.GoalMoved` | app/api/sadaqah.py:331-349 | the active goal counts one act or catches up with the jar and completes at its target; the others stay |
| `StarLaws.AnswerIs` | app/api/sadaqah.py:253-402 | a repeated id is answered with the stored columns of its log, zeroes when they are missing; else no such act, a refusal, or the jar after the call |
| `StarLaws.StripTakesBlanksOff` | app/api/sadaqah.py:242 | stripping takes the blanks off both ends and nothing else |
| `StarLaws.BadgesHeld` | app/services/badge_service.py:11-16 | in every reachable state badges for 7, 30 and 100 days and for 1, 5 and 10 jars are held exactly when the longest streak or the completed jars have reached them |
| `StarLaws.Announced` | app/services/badge_service.py:31-45 | a counted call announces each badge it adds, once, and no other |
| `StarCalls.StepKeepsInv` | app/api/sadaqah.py:253-402 | a step of any call, a load or write of a validation and any change of the goals keep the invariants, including what every waiting, committed and answered call knows |
| `StarCalls.BehaviourKeepsInv` | app/api/sadaqah.py:253-402 | so does every interleaving of them |
| `StarCalls.Serialisable` | app/api/sadaqah.py:290-296 | whatever calls, validations and goal operations overlap, and whenever midnight passes, the jars and the logs are those of some run of whole calls, one after the other, that has seen the same streak days in order |
| `StarCalls.ExactlyOnce` | app/models/sadaqah_log.py:22 | in every interleaving one log per request id, at most one call with an id has counted, replays agree, and the counting call answers with the stored snapshot or a fuller jar |
| `StarCalls.OnlyCommitsWrite` | app/api/sadaqah.py:393-402 | of the steps of calls, only a commit that goes through writes a row |
| `StarCalls.LookupAnswers` | app/api/sadaqah.py:253-270 | on arrival a repeated id is answered from its log, a new one with a missing act with that error, and any other call waits for the lock; after an integrity error the log of the id answers, else the error |
| `StarCalls.CommitAnswers` | app/api/sadaqah.py:377-402 | a commit is refused exactly when a log has the call's request id, or its act and date; otherwise it adds one log |
| `StarCalls.LastAnswers` | app/api/sadaqah.py:377-442 | a counted call answers with the columns of its jar as they are then; one that breaks answers with an error and adds nothing |
| `StarCalls.FreshAnswerIsStoredIff` | app/api/sadaqah.py:377-442 | the answer re-read after the commit is the stored snapshot exactly when the call filled its jar or no other commit came between |
| `StarCalls.FreshAnswerCanDiffer` | app/api/sadaqah.py:377-378 | for any two calls with different acts and no request ids, the first not filling its jar, there is a behaviour in which the second commits before the first refreshes its jar, and the first answer is not the stored one |
| `StarCalls.UnheardCanBeSentAgain` | app/api/sadaqah.py:253-259 | after a commit that its client did not hear of, the call sent again with its request id is answered at once with the stored snapshot and writes nothing |
| `StarStreaks.StreakIsOfStreakDaysIff` | app/services/streak_service.py:30-58 | in every interleaving of calls, validations and midnights the stored streak is at all times that of the streak days of the counted calls if and only if no validation zeroes a live count and no call leaves out a one |
| `StarStreaks.StepTracks` | app/services/streak_service.py:30-58 | one step keeps the streak row right exactly when it is not one of the two harmful writes |
| `StarStreaks.HarmfulZeroIsStale` | app/services/streak_service.py:54-58 | a zero that does harm comes from a validation that loaded the row before a counted call wrote it |
| `StarStreaks.SerialWhenTracked` | app/api/sadaqah.py:368-377 | as long as the streak row is right, the serial run that explains jars and logs also explains the badges, and the streak up to a count that is over |
| `StarStreaks.NoSerialZero` | app/services/streak_service.py:33-41 | no serial run leaves a count of zero on a row of the latest day |
| `StarStreaks.StaleZero` | app/services/streak_service.py:54-58 | a behaviour in which a stale validation does leave one |
| `StarStreaks.OmittedOne` | app/services/streak_service.py:33-43 | a behaviour in which a call that restarts the count at one leaves one |
| `WsRegistry.RemoveIsWithout` | app/core/ws_manager.py:257-259 | removing failed sockets one by one from the live list filters them out |
| `WsRegistry.WithoutMembers` | app/core/ws_manager.py:257-259 | what is left are exactly the sockets that did not fail, without repeats |
| `WsRegistry.LeaveTakesOut` | app/core/ws_manager.py:195-200 | a socket that leaves is gone, the others of its key stay in their order, the key is gone when it was the last, and no other key changes |
| `WsRegistry.PruneTakesOut` | app/core/ws_manager.py:255-261 | a prune leaves exactly the sockets that did not fail, in their order; an empty key goes and no other key changes |
| `WsRegistry.Registry.Connect` | app/core/ws_manager.py:175-193 | a connect that no other one overlaps is accepted exactly below five sockets, appends its socket to its key alone, and keeps every key within the cap |
| `WsRegistry.Registry.Disconnect` | app/core/ws_manager.py:195-200 | afterwards the socket is not registered under the key, every other socket of the key is there in the same order, the key is gone when the socket was its last, other keys are untouched, and no key outgrows the cap |
| `WsRegistry.Registry.PruneDead` | app/core/ws_manager.py:255-261 | the loop takes exactly the failed sockets out of the live list, and an empty key goes |
| `WsRegistry.Registry.Broadcast` | app/core/ws_manager.py:233-261 | every snapshot socket is tried in order whatever fails; afterwards exactly those whose send worked are registered, an empty key goes, and other keys are untouched |
| `WsRelay.StepKeepsInv` | app/core/ws_manager.py:123-261 | every step between two awaits keeps: no empty key, no repeats, each process handles an event at most once, echoes are dropped |
| `WsRelay.BehaviourKeepsInv` | app/core/ws_manager.py:123-261 | so does every interleaving of sends, relays, connects and disconnects over any number of processes |
| `WsRelay.AtMostOnce` | app/core/ws_manager.py:126-127 | in every interleaving a socket is sent an event at most once, and only in the event's scope and under its key |
| `WsRelay.PruneIsExact` | app/core/ws_manager.py:255-261 | the end of a fan-out removes exactly the sockets whose send failed and that are still registered, leaves no empty list, and every snapshot socket has been tried |
| `WsRelay.NoSocketIsLost` | app/core/ws_manager.py:245-261 | only its own disconnect, or the prune of a fan-out in which its send failed, takes a socket out |
| `WsRelay.RoomsChange` | app/core/ws_manager.py:175-261 | what each step does to the rooms: a connect appends its socket, a disconnect takes it out and keeps the others in order, the end of a fan-out keeps the order of those that stay, and no step touches another room |
| `WsRelay.JobsChange` | app/core/ws_manager.py:123-254 | what each step does to the work of a process: an echo is dropped, another message scheduled, a fan-out starts with the sockets registered then, and each send goes to the next of them and has its outcome recorded |
| `WsRelay.ExactlyOnce` | app/core/ws_manager.py:202-231 | without churn and failures, once everything has drained, every socket of the key on every process has got the event exactly once |
| `Notifier.Service.ClaimEvent` | app/notifications/dedup.py:36-58 | refused exactly when Redis is up and the key, not empty, is held by a claim that runs out later than now; a stored claim runs out sixty seconds after it was made, also when its reply is lost |
| `Notifier.Service.ReleaseEvent` | app/notifications/dedup.py:61-73 | the claim goes if the command runs, whether or not its reply arrives |
| `Notifier.ClaimWindow` | app/notifications/dedup.py:30-73 | over every sequence of claims and releases whose clock does not go back: with Redis up a claim at t is refused exactly when an earlier stored claim of the key was made after t - 60 and has not been released since |
| `Notifier.Service.CreateNotification` | app/services/notification_service.py:8-47 | an existing key returns its row, otherwise one row is added; keys stay unique; an empty key is not looked up and so is refused the second time |
| `Notifier.Service.Enqueue` | app/notifications/event_handlers.py:27-111 | which of task, row and claim exist afterwards, for every key, the empty one included, and every outcome of Redis, the broker and the database; a key whose claim has run out counts as not claimed; true exactly for a publish that reported success |
| `NotifyProtocol.BehaviourKeepsInv` | app/notifications/event_handlers.py:49-111 | over every interleaving of calls, lost replies, expiries and repeated deliveries every claimed key is stored or answered for by some call, every stored key has a call it came from, and no key has two rows |
| `NotifyProtocol.NothingIsLost` | app/notifications/event_handlers.py:70-110 | without crashes and database failures every finished call's key, also a suppressed one's, has a task or a row, or another call is still at work on it |
| `NotifyProtocol.ReleasedCanBeClaimed` | app/notifications/dedup.py:36-73 | a claimed key suppresses the next call, a released or expired one does not, and a failing Redis suppresses nobody |
| `NotifyProtocol.FallbackEnds` | app/notifications/event_handlers.py:70-110 | where publish, release, lookup and insert take a call: with the database up the fallback ends with the key stored, otherwise in the loss |
| `NotifyProtocol.DeliveryStores` | app/services/notification_service.py:18-47 | the first delivery of an accepted task leaves a row with its key, a repeated one changes nothing |
| `NotifyProtocol.LostIff` | app/notifications/event_handlers.py:82-110 | once its calls have ended without a crash, a key is not stored exactly when every call that was not suppressed had its publish refused and its insert fail |
| `NotifyProtocol.BrokerAndDatabaseDown` | app/notifications/event_handlers.py:104-110 | such a run exists |
| `Migration.Upgrade` | alembic/versions/f7b8c9d0e1f2_repair_active_goal_index.py:15-49 | the two in-place updates, each deciding on the table as it was when it started |
| `Migration.KeepsExactlyTheNewest` | alembic/versions/f7b8c9d0e1f2_repair_active_goal_index.py:32-46 | a row is live and active afterwards exactly when it was its user's newest live active row by creation time and id, in either spelling |
| `Migration.IndexBuildsAfterwards` | alembic/versions/f7b8c9d0e1f2_repair_active_goal_index.py:50-57 | whatever the table held, the unique index can be built |
| `Migration.UserKeepsOne` | alembic/versions/f7b8c9d0e1f2_repair_active_goal_index.py:36-46 | a user who had a live active goal still has one |
| `Migration.RowChange` | alembic/versions/f7b8c9d0e1f2_repair_active_goal_index.py:22-47 | a live active row that is not its user's newest becomes `ARCHIVED`, the four lower-case names become `ACTIVE`, `COMPLETED`, `ARCHIVED` and `REPLACED`, both with a new update time, and any other row stays as it was |
| `Migration.UpgradeTwice` | alembic/versions/f7b8c9d0e1f2_repair_active_goal_index.py:15-57 | a second run changes nothing, not even timestamps |
| `Migration.OtherSpellingsAreLeftAlone` | alembic/versions/f7b8c9d0e1f2_repair_active_goal_index.py:25-34 | a row with any status other than the four lower-case names and `ACTIVE` comes out unchanged and is not counted as active |
| `Timeline.ListActivities` | app/family/repository.py:1065-1107 | fetching one row too many gives the first rows below the cursor, and a next cursor exactly when more follow |
| `Timeline.PageIsSorted` | app/family/repository.py:1092-1105 | a page is in strictly descending (created_at, id) order, of this family, below its cursor, and the next cursor is the place of its last row |
| `Timeline.RestOfListing` | app/family/repository.py:1082-1087 | the rows below the next cursor are exactly the rows the page left out |
| `Timeline.WholeTimeline` | app/family/repository.py:1065-1107 | following the cursor from the first page, while only newer rows arrive, yields the timeline as it was at the start, in order, no gap, no repeat, and ends within `PagesFor` requests |
| `Timeline.WalkSorted` | app/family/repository.py:1092-1105 | whatever is inserted between requests, no row is yielded twice and the order holds across pages |
| `Timeline.WalkMissesNothing` | app/family/repository.py:1082-1087 | and every row of the family that was there at the start is yielded |
| `Timeline.PagesFor` | app/family/repository.py:1098-1100 | the number of pages is the number of rows over the page size, rounded up, and at least one |
| `Timeline.MalformedCursorRestarts` | app/family/repository.py:1089-1090 | an unreadable cursor answers with the first page |
| `FamilyGoals.Card` | app/family/repository.py:103-115 | the first listed goal: unfinished before finished, then newer, then greater id |
| `FamilyGoals.FamilyJar.ChooseGoal` | app/family/service.py:1962-1969 | the loop picks the first unfinished goal of the list, else the first goal |
| `FamilyGoals.FamilyJar.AddFamilyAct` | app/family/service.py:1934-1984 | a call that runs alone: a replay shows a goal and counts nothing, a clash of the empty id rolls the count back, a fresh act is counted and recorded |
| `FamilyGoals.PickIs` | app/family/service.py:1962-1969 | the goal chosen is the first of the list that is not completed, and the first of all when all are |
| `FamilyGoals.CardIs` | app/family/repository.py:103-115 | the card's goal is, among those neither deleted nor archived, the unfinished one before finished ones, then the younger, then the greater id |
| `FamilyGoals.PickIsCard` | app/family/service.py:1958-1969 | unless creation times tie, the goal counted is the goal on the card |
| `FamilyGoals.CardAgreesIff` | app/family/repository.py:488-497 | it is so for every order the list query may return exactly when no other listed goal of the same kind shares the card goal's creation time |
| `FamilyGoals.AddActCounts` | app/family/repository.py:647-652 | a call counts exactly when there is a goal and its request id is not in use: one act is recorded for the chosen goal, whose count and version go up by one; otherwise nothing changes, a repeated id is answered with the goal chosen now, a repeated empty id is refused |
| `FamilyGoals.ActsAreConserved` | app/family/models.py:523 | over any run of calls, one after the other, the acts counted on the goals are the acts recorded, at most one per request id |
| `FamilyActs.AloneIsSerial` | app/family/service.py:1958-1984 | a load and a commit with nothing in between are the serial call |
| `FamilyActs.EveryActCountsIff` | app/family/repository.py:647-652 | however calls overlap, a goal's count has grown by exactly its recorded acts if and only if no act on it was committed between another one's load and commit, and never by more |
| `FamilyActs.OneActPerRequest` | app/family/models.py:523 | in every interleaving a request id has at most one act |
| `FamilyActs.LostAct` | app/family/repository.py:647-652 | two calls that both load before either commits record two acts and count one |
| `Membership.FamilyDb.CreateFamily` | app/family/service.py:290-307 | a live family, its creator its owner |
| `Membership.FamilyDb.DeleteFamily` | app/family/service.py:580-588 | whoever may manage the family marks it deleted; its rows stay |
| `Membership.FamilyDb.AddOrReactivateMember` | app/family/repository.py:286-304 | a new row, or the old row revived as a plain member; an active member is left alone |
| `Membership.FamilyDb.UpdateMemberRole` | app/family/service.py:629-655 | permission, row and owner checks in the source's order, then the new role |
| `Membership.FamilyDb.RemoveFromFamily` | app/family/service.py:658-696 | self-removal needs no permission, removing others does, owners stay |
| `Membership.FamilyDb.LeaveFamily` | app/family/service.py:1812-1817 | a member removes the own row, an owner may not |
| `Membership.FamilyDb.CreateInvitation` | app/family/service.py:704-752 | not to oneself, not to a member, not twice while one is pending and in time; valid for seven days |
| `Membership.FamilyDb.CancelInvitation` | app/family/service.py:841-854 | the inviter or someone who may cancel any, while it is pending |
| `Membership.FamilyDb.DeclineInvitation` | app/family/service.py:958-978 | an account the invitation is not kept from, while it is pending; past its time it expires instead; `MembershipLaws.DeniedIff` and `DecliningDoes` state who and what in the columns |
| `Membership.FamilyDb.JoinWithCode` | app/family/service.py:857-950 | every branch of joining by an invitation or by the family's own code; `MembershipLaws.DeniedIff`, `JoiningDoes` and `FamilyCodeDoes` state who and what in the columns |
| `Membership.FamilyDb.ExpirePendingInvitations` | app/family/repository.py:455-471 | exactly the family's pending invitations past their time expire |
| `Membership.RunKeepsInv` | app/family/service.py:290-990 | over every serial run: one row per family and user, the creator of every family an active owner, an invitation accepted exactly when a join has used it; owners and answered invitations never change again |
| `Membership.OneJoinPerInvitation` | app/family/service.py:898-899 | in serial runs an invitation lets at most one account in |
| `Membership.SomeoneCanManage` | app/family/service.py:182-203 | in every live family the creator may still change roles and delete it |
| `Membership.RowChanges` | app/family/service.py:629-696 | a membership row changes only by its user joining again, by removal (by its user or a manager), or by a role change (by a role manager), never an owner's |
| `Membership.StatusChanges` | app/family/service.py:841-990 | an invitation changes only while pending, and each new status has one cause and the right caller |
| `Membership.JoinAdmits` | app/family/service.py:857-920 | a join succeeds exactly when the code leads to a family it admits to; then the account is a plain member there and no other membership has changed |
| `MembershipLaws.DeniedIff` | app/family/service.py:807-822 | a targeted invitation is kept from exactly the accounts that are neither the invited user nor have the invited email; one without an addressee from nobody |
| `MembershipLaws.OnlyAddresseesAnswer` | app/family/service.py:898-978 | over every serial run a targeted invitation that was used, or declined, was answered by the invited user or an account with the invited email, and whoever used it is the one who joined |
| `MembershipLaws.AllowedIff` | app/family/service.py:138-203 | the table of permissions: owners all, admins members and cancelling, every member inviting and viewing, only in a family that exists |
| `MembershipLaws.DeletionDoes` | app/family/service.py:580-588 | an owner and nobody else deletes the family, and nothing else changes |
| `MembershipLaws.RoleChangeDoes` | app/family/service.py:629-655 | an owner and nobody else gives a role to a member who is not an owner |
| `MembershipLaws.RemovalDoes` | app/family/service.py:658-696 | members go by themselves or through an owner or admin; owners do not go; leaving is removing one's own row |
| `MembershipLaws.InvitationDoes` | app/family/service.py:704-752 | any member invites whoever is not themselves, no member and has no invitation waiting, for 604800 seconds |
| `MembershipLaws.CancellationDoes` | app/family/service.py:841-854 | the sender and every owner and admin can cancel an invitation while it is pending |
| `MembershipLaws.DecliningDoes` | app/family/service.py:958-973 | declining declines a pending invitation in time and marks a late one expired |
| `MembershipLaws.JoiningDoes` | app/family/service.py:898-920 | an account it is not kept from gets in exactly when the invitation is pending and in time, the family exists and the account is no member; then it is a plain member and the invitation accepted |
| `MembershipLaws.FamilyCodeDoes` | app/family/service.py:861-878 | the code of a family lets in every account that is no member of it yet, as a plain member |
| `MembershipLaws.ExpiryDoes` | app/family/repository.py:455-471 | for any member, exactly the family's pending invitations whose time has come expire |
| `MembershipRaces.AloneIsSerial` | app/family/service.py:580-990 | an operation that begins and commits with nothing in between does what it does in a serial run |
| `MembershipRaces.StepKeepsInv` | app/family/models.py:174 | one step of any interleaved operation keeps the tables in order, a refused insert included, and makes no answered invitation pending again |
| `MembershipRaces.InterleavedRunsAreSafe` | app/family/models.py:174 | however the operations interleave: one membership row per family and user, and the creator of every family an owner who has not been removed |
| `MembershipRaces.UsedTwiceIff` | app/family/service.py:898-920 | an invitation is used twice if and only if the checks of two joins both passed before the first of them committed |
| `MembershipRaces.UsableAgainIff` | app/family/service.py:917-920 | once used, an invitation can be used again in some continuation if and only if another join has already passed its checks and the constraint does not refuse it |
| `MembershipRaces.AcceptedIsFinalIff` | app/family/service.py:919 | an accepted invitation stays accepted in every continuation if and only if no call holds another answer to it |
| `MembershipRaces.BothGetIn` | app/family/service.py:901-920 | from every reachable state in which two accounts may join by one invitation, an interleaving lets both in |
| `MembershipRaces.TwoAccountsOneInvitation` | app/family/service.py:898-920 | such a state is reached from the empty tables by creating a family and an invitation addressed to nobody |
| `Rotation.DailyRows` | app/api/adhkar.py:14-23 | the rows of the day are the window that starts at the offset and wraps round |
| `Rotation.DailyActs` | app/api/sadaqah.py:66-77 | the acts shown are the first five of twenty fetched |
| `Rotation.WindowPositions` | app/api/adhkar.py:19-22 | row i is item (turn + i) mod total, also when the catalogue is short |
| `Rotation.WindowLength` | app/api/adhkar.py:20-22 | how many rows there are, for every catalogue and limit |
| `Rotation.WindowMembers` | app/api/adhkar.py:19-22 | with enough items the day's list is `limit` distinct items, those less than `limit` places after the offset |
| `Rotation.EveryItemEquallyOften` | app/api/adhkar.py:14-23 | over any `total` consecutive days every item is listed on exactly `limit` of them |
| `Rotation.FirstFiveAreAWindow` | app/api/sadaqah.py:215-226 | with at least five acts, fetching twenty and showing five is a window of five |
| `Rotation.EveryActEquallyOften` | app/api/sadaqah.py:66-77 | with at least five acts, every act is shown on exactly five of any `total` consecutive days |
| `Rotation.ShortCatalogueRepeats` | app/api/adhkar.py:21-22 | when the catalogue is shorter than the window, the list is free of repeats only on days with offset 0 |

## Left out

- FamilyGoals.CardAgreesIff: takes one result of the list query as given, since the query always returns one; that a sorted order exists is not proved.
- FamilyGoals.FamilyJar.AddFamilyAct: permissions, the event payload and the rounded progress are not modelled; overlapping calls are the subject of FamilyActs.
- FamilyActs.EveryActCountsIff: edits of a goal's count by other endpoints do not run in between.
- Timeline.WholeTimeline: cursors are positions; encoding them as ISO time and id, and parsing that, is not modelled.
- RateLimit.WindowBound: all endpoints use one period, so the period is fixed per key; Redis evicting keys under memory pressure is not modelled.
- WsRegistry.Registry.Connect: the cap is checked before an await and the socket registered after it, so the cap is not an invariant of connects that overlap and none is claimed for them.
- NotifyProtocol.NothingIsLost: a key counts as kept once it has an accepted task; whether the worker's preference checks then create a row is up to the worker, which may act any number of times.
- StarRuns.StreakIsOfStreakDays: serial runs only; what overlapping validations do to the streak is the subject of StarStreaks.
- StarCalls.Serialisable: says nothing about the streak row, badges and goals: for the first two see StarStreaks.SerialWhenTracked, for goals GoalRaces. Goal operations appear here as any change to another valid table.
- Membership.JoinAdmits: an invite code is modelled by what it resolves to, so code generation, trimming and upper-casing are not; answers keep apart success, not found, denied and refused, and not every kind of refusal.
- Response envelopes, authentication, argument checks, the 429 answer of add_star and the creation of quick acts in the same transaction.
- Rank badges and badge names: a badge is its category and threshold. Leaderboards, streak cache, celebrations and WebSocket payloads after the commit.
- Other users' rows: each table is that of one user or of one family, since the constraints and queries are per user; memberships cover all families.
- Goal subtitles, goal history queries, monthly reviews, the registration path that joins a family, invitation listings, and soft deletion of invitations, which nothing calls.
- Unicode blanks in request ids: stripping is modelled for space, tab, carriage return and newline.
- The single-column cursor of app/core/pagination.py, which makes no promise about equal keys.
- Books, charities, broadcasts, reflections, comments, prayer requests, favourites and preferences: single-row updates that would only add easy members.
