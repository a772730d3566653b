/** The sliding-window limiter of app/core/rate_limit.py. One key is modelled; the script never touches another. */
module RateLimit {
  import opened Common

  /** One call of the limiter on one key.
      `now` is the caller's clock (whole seconds, read before the round trip),
      `redisNow` the server's clock while the script runs. Endpoints share a key but
      pass different limits; they all use the same period. */
  datatype Request = Request(now: nat, redisNow: int, limit: int, link: Link)

  /** The sorted set behind the key. Members are fresh UUIDs, so each ZADD adds an element
      and the set is a list of scores. `expiresAt` means something only while there are scores. */
  datatype Store = Store(scores: seq<nat>, expiresAt: int)

  const SLACK := 2

  // ---------------------------------------------------------------------------
  // Windows over a list of times
  // ---------------------------------------------------------------------------

  /** The times in the half-open window (lo, hi]. */
  function Window(times: seq<nat>, lo: int, hi: int): seq<nat> {
    if times == [] then []
    else
      var rest := Window(times[..|times| - 1], lo, hi);
      var t := times[|times| - 1];
      if lo < t <= hi then rest + [t] else rest
  }

  /** What is left after ZREMRANGEBYSCORE key 0 cut. */
  function After(times: seq<nat>, cut: int): seq<nat> {
    if times == [] then []
    else
      var rest := After(times[..|times| - 1], cut);
      var t := times[|times| - 1];
      if t > cut then rest + [t] else rest
  }

  ghost predicate NoneAfter(times: seq<nat>, hi: int) {
    forall i :: 0 <= i < |times| ==> times[i] <= hi
  }

  /** A window holds each time between its ends as often as the list does, and no other; so does what a prune leaves. */
  lemma {:induction false} WindowHolds(times: seq<nat>, lo: int, hi: int, x: nat)
    ensures multiset(Window(times, lo, hi))[x] == if x > lo && x <= hi then multiset(times)[x] else 0
    ensures multiset(After(times, lo))[x] == if x > lo then multiset(times)[x] else 0
  {
    if times != [] {
      var front := times[..|times| - 1];
      WindowHolds(front, lo, hi, x);
      assert times == front + [times[|times| - 1]];
    }
  }

  lemma {:induction false} WindowAppend(times: seq<nat>, t: nat, lo: int, hi: int)
    ensures Window(times + [t], lo, hi) == if lo < t <= hi then Window(times, lo, hi) + [t] else Window(times, lo, hi)
  {
    assert (times + [t])[..|times|] == times;
  }

  lemma {:induction false} AfterAppend(times: seq<nat>, t: nat, cut: int)
    ensures After(times + [t], cut) == if t > cut then After(times, cut) + [t] else After(times, cut)
  {
    assert (times + [t])[..|times|] == times;
  }

  lemma {:induction false} AfterTwice(times: seq<nat>, low: int, high: int)
    requires low <= high
    ensures After(After(times, low), high) == After(times, high)
  {
    if times != [] {
      var front, t := times[..|times| - 1], times[|times| - 1];
      AfterTwice(front, low, high);
      AfterAppend(After(front, low), t, high);
    }
  }

  lemma {:induction false} AfterOldIsEmpty(times: seq<nat>, cut: int)
    requires NoneAfter(times, cut)
    ensures After(times, cut) == []
  {
    if times != [] {
      AfterOldIsEmpty(times[..|times| - 1], cut);
    }
  }

  lemma {:induction false} AfterKeepsBound(times: seq<nat>, cut: int, hi: int)
    requires NoneAfter(times, hi)
    ensures NoneAfter(After(times, cut), hi)
  {
    if times != [] {
      AfterKeepsBound(times[..|times| - 1], cut, hi);
    }
  }

  lemma {:induction false} WindowWithinAfter(times: seq<nat>, lo: int, hi: int, cut: int)
    requires cut <= lo
    ensures |Window(times, lo, hi)| <= |After(times, cut)|
  {
    if times != [] {
      WindowWithinAfter(times[..|times| - 1], lo, hi, cut);
    }
  }

  lemma {:induction false} WindowSplit(times: seq<nat>, lo: int, mid: int, hi: int)
    requires lo <= mid <= hi
    ensures |Window(times, lo, hi)| == |Window(times, lo, mid)| + |Window(times, mid, hi)|
  {
    if times != [] {
      WindowSplit(times[..|times| - 1], lo, mid, hi);
    }
  }

  // ---------------------------------------------------------------------------
  // The script, on a store that prunes and expires
  // ---------------------------------------------------------------------------

  /** The scores the script sees: none once the key's time to live has run out. */
  function Visible(s: Store, redisNow: int): seq<nat> {
    if redisNow >= s.expiresAt then [] else s.scores
  }

  function ScriptAllows(s: Store, r: Request, period: nat): bool {
    |After(Visible(s, r.redisNow), r.now - period)| < r.limit
  }

  function ScriptStore(s: Store, r: Request, period: nat): Store {
    var kept := After(Visible(s, r.redisNow), r.now - period);
    if ScriptAllows(s, r, period)
    then Store(kept + [r.now], r.redisNow + period + SLACK)
    else Store(kept, s.expiresAt)
  }

  /** One Redis key, changed in place by the script. */
  class LimiterKey {
    var scores: seq<nat>
    var expiresAt: int

    constructor ()
      ensures scores == []
    {
      scores, expiresAt := [], 0;
    }

    function Contents(): Store
      reads this
    {
      Store(scores, expiresAt)
    }

    /** The atomic prune, count, add and expire step. */
    method SlidingWindow(r: Request, period: nat) returns (allowed: bool)
      modifies this
      ensures allowed == ScriptAllows(old(Contents()), r, period)
      ensures Contents() == ScriptStore(old(Contents()), r, period)
    {
      if r.redisNow >= expiresAt {
        scores := [];
      }
      scores := After(scores, r.now - period);
      var count := |scores|;
      if count >= r.limit {
        return false;
      }
      scores := scores + [r.now];
      expiresAt := r.redisNow + period + SLACK;
      return true;
    }

    /** The caller's view: an error from Redis is answered by the endpoint's fail-open choice. */
    method CheckRateLimitKey(r: Request, period: nat, failOpen: bool) returns (answer: bool)
      modifies this
      ensures answer == Answer(old(Contents()), r, period, failOpen)
      ensures r.link != Up ==> answer == failOpen
      ensures r.link == Down ==> Contents() == old(Contents())
      ensures Contents() == NextStore(old(Contents()), r, period)
    {
      match r.link
      case Down =>
        answer := failOpen;
      case ReplyLost =>
        var _ := SlidingWindow(r, period);
        answer := failOpen;
      case Up =>
        answer := SlidingWindow(r, period);
    }
  }

  function NextStore(s: Store, r: Request, period: nat): Store {
    if r.link == Down then s else ScriptStore(s, r, period)
  }

  function Answer(s: Store, r: Request, period: nat, failOpen: bool): bool {
    if r.link == Up then ScriptAllows(s, r, period) else failOpen
  }

  function RunStore(reqs: seq<Request>, period: nat): Store {
    if reqs == [] then Store([], 0)
    else NextStore(RunStore(reqs[..|reqs| - 1], period), reqs[|reqs| - 1], period)
  }

  // ---------------------------------------------------------------------------
  // The limiter that remembers every accept
  // ---------------------------------------------------------------------------

  /** The unpruned limiter counts all remembered accepts newer than now - period. */
  function ReferenceAllows(history: seq<nat>, r: Request, period: nat): bool {
    |After(history, r.now - period)| < r.limit
  }

  /** The times of every accept the script ever made. */
  function History(reqs: seq<Request>, period: nat): seq<nat> {
    if reqs == [] then []
    else
      var h := History(reqs[..|reqs| - 1], period);
      var r := reqs[|reqs| - 1];
      if r.link != Down && ReferenceAllows(h, r, period) then h + [r.now] else h
  }

  /** The caller's clock never goes back, and the server's clock runs `skew` to `skew` + 2 seconds ahead of it. */
  ghost predicate WellTimed(reqs: seq<Request>, skew: int) {
    && (forall i, j :: 0 <= i < j < |reqs| ==> reqs[i].now <= reqs[j].now)
    && (forall i :: 0 <= i < |reqs| ==> skew <= reqs[i].redisNow - reqs[i].now <= skew + 2)
  }

  ghost predicate SameAfter(a: seq<nat>, b: seq<nat>, from: int) {
    forall cut :: cut >= from ==> After(a, cut) == After(b, cut)
  }

  /** What ties the store to the history: they agree on every entry that can still count. */
  ghost predicate Agrees(s: Store, history: seq<nat>, last: int, skew: int, period: nat) {
    && NoneAfter(history, last)
    && NoneAfter(s.scores, last)
    && NoneAfter(s.scores, s.expiresAt - period - SLACK - skew)
    && SameAfter(s.scores, history, last - period)
  }

  lemma {:induction false} VisibleCounts(s: Store, history: seq<nat>, last: int, r: Request, skew: int, period: nat)
    requires Agrees(s, history, last, skew, period)
    requires r.now >= last && skew <= r.redisNow - r.now <= skew + SLACK
    ensures After(Visible(s, r.redisNow), r.now - period) == After(history, r.now - period)
  {
    if r.redisNow >= s.expiresAt {
      AfterOldIsEmpty(s.scores, r.now - period);
    }
  }

  /** What the prune leaves on the way. */
  function Kept(s: Store, r: Request, period: nat): seq<nat> {
    After(Visible(s, r.redisNow), r.now - period)
  }

  function NextHistory(history: seq<nat>, r: Request, period: nat): seq<nat> {
    if ReferenceAllows(history, r, period) then history + [r.now] else history
  }

  /** The prune step keeps the agreement, and does not change what the script counts. */
  lemma {:induction false} AgreesAfterPrune(s: Store, history: seq<nat>, last: int, r: Request, skew: int, period: nat)
    requires Agrees(s, history, last, skew, period)
    requires r.now >= last && skew <= r.redisNow - r.now <= skew + SLACK
    ensures var kept := Kept(s, r, period);
            && |kept| == |After(history, r.now - period)|
            && Agrees(Store(kept, s.expiresAt), history, r.now, skew, period)
  {
    VisibleCounts(s, history, last, r, skew, period);
    SameAfterPrune(Visible(s, r.redisNow), history, r.now - period);
    BoundsAfterPrune(s, last, r, s.expiresAt - period - SLACK - skew, period);
    LaterBound(history, last, r.now);
    LaterBound(Kept(s, r, period), last, r.now);
  }

  lemma SameAfterPrune(seen: seq<nat>, history: seq<nat>, cut: int)
    requires After(seen, cut) == After(history, cut)
    ensures SameAfter(After(seen, cut), history, cut)
  {
    forall c | c >= cut ensures After(After(seen, cut), c) == After(history, c) {
      AfterTwice(history, cut, c);
    }
  }

  lemma BoundsAfterPrune(s: Store, last: int, r: Request, hi: int, period: nat)
    requires NoneAfter(s.scores, last) && NoneAfter(s.scores, hi)
    ensures NoneAfter(Kept(s, r, period), last) && NoneAfter(Kept(s, r, period), hi)
  {
    AfterKeepsBound(Visible(s, r.redisNow), r.now - period, last);
    AfterKeepsBound(Visible(s, r.redisNow), r.now - period, hi);
  }

  lemma LaterBound(times: seq<nat>, hi: int, later: int)
    requires NoneAfter(times, hi) && hi <= later
    ensures NoneAfter(times, later)
  {
  }

  lemma AgreesAfterAccept(kept: seq<nat>, expiresAt: int, history: seq<nat>, r: Request, skew: int, period: nat)
    requires Agrees(Store(kept, expiresAt), history, r.now, skew, period)
    requires skew <= r.redisNow - r.now
    ensures Agrees(Store(kept + [r.now], r.redisNow + period + SLACK), history + [r.now], r.now, skew, period)
  {
    AgreesOnAppend(kept, history, r.now - period, r.now);
  }

  /** Given what the prune has left, counting and adding keep the agreement. */
  lemma AgreesAfterAnswer(s: Store, history: seq<nat>, r: Request, skew: int, period: nat)
    requires Agrees(Store(Kept(s, r, period), s.expiresAt), history, r.now, skew, period)
    requires |Kept(s, r, period)| == |After(history, r.now - period)| && skew <= r.redisNow - r.now
    ensures ScriptAllows(s, r, period) == ReferenceAllows(history, r, period)
    ensures Agrees(ScriptStore(s, r, period), NextHistory(history, r, period), r.now, skew, period)
  {
    var kept := Kept(s, r, period);
    if ScriptAllows(s, r, period) {
      AgreesAfterAccept(kept, s.expiresAt, history, r, skew, period);
      assert ScriptStore(s, r, period) == Store(kept + [r.now], r.redisNow + period + SLACK);
    } else {
      assert ScriptStore(s, r, period) == Store(kept, s.expiresAt);
    }
  }

  lemma {:induction false} AgreesAfterStep(s: Store, history: seq<nat>, last: int, r: Request, skew: int, period: nat)
    requires Agrees(s, history, last, skew, period)
    requires r.now >= last && skew <= r.redisNow - r.now <= skew + SLACK
    ensures ScriptAllows(s, r, period) == ReferenceAllows(history, r, period)
    ensures Agrees(ScriptStore(s, r, period), NextHistory(history, r, period), r.now, skew, period)
  {
    AgreesAfterPrune(s, history, last, r, skew, period);
    AgreesAfterAnswer(s, history, r, skew, period);
  }

  lemma AgreesOnAppend(kept: seq<nat>, history: seq<nat>, cut: int, t: nat)
    requires SameAfter(kept, history, cut)
    ensures SameAfter(kept + [t], history + [t], cut)
  {
    forall c | c >= cut ensures After(kept + [t], c) == After(history + [t], c) {
      AfterAppend(kept, t, c);
      AfterAppend(history, t, c);
    }
  }

  lemma {:induction false} StoreAgrees(reqs: seq<Request>, skew: int, period: nat)
    requires WellTimed(reqs, skew)
    ensures Agrees(RunStore(reqs, period), History(reqs, period),
                   if reqs == [] then 0 else reqs[|reqs| - 1].now, skew, period)
  {
    if reqs != [] {
      var front, r := reqs[..|reqs| - 1], reqs[|reqs| - 1];
      StoreAgrees(front, skew, period);
      var last := if front == [] then 0 else front[|front| - 1].now;
      if r.link != Down {
        AgreesAfterStep(RunStore(front, period), History(front, period), last, r, skew, period);
      }
    }
  }

  lemma WellTimedPrefix(reqs: seq<Request>, r: Request, skew: int)
    requires WellTimed(reqs + [r], skew)
    ensures WellTimed(reqs, skew) && skew <= r.redisNow - r.now <= skew + SLACK
    ensures reqs != [] ==> reqs[|reqs| - 1].now <= r.now
  {
    var all := reqs + [r];
    assert forall i :: 0 <= i < |reqs| ==> all[i] == reqs[i];
    assert all[|reqs|] == r;
  }

  /** No remembered accept is later than a request that follows them, so a reader of the history needs no upper end. */
  lemma HistoryIsPast(reqs: seq<Request>, r: Request, skew: int, period: nat)
    requires WellTimed(reqs + [r], skew)
    ensures After(History(reqs, period), r.now - period) == Window(History(reqs, period), r.now - period, r.now)
  {
    WellTimedPrefix(reqs, r, skew);
    StoreAgrees(reqs, skew, period);
    NoLaterAccepts(History(reqs, period), r.now - period, r.now);
  }

  lemma StoreShows(reqs: seq<Request>, r: Request, skew: int, period: nat)
    requires WellTimed(reqs + [r], skew)
    ensures After(Visible(RunStore(reqs, period), r.redisNow), r.now - period)
      == After(History(reqs, period), r.now - period)
  {
    WellTimedPrefix(reqs, r, skew);
    StoreAgrees(reqs, skew, period);
    var last := if reqs == [] then 0 else reqs[|reqs| - 1].now;
    VisibleCounts(RunStore(reqs, period), History(reqs, period), last, r, skew, period);
  }

  /** Pruning and key expiry are invisible: over every well-timed run the script answers the next
      request as a limiter that forgets nothing, counting the accepts in (now - period, now]. */
  lemma {:induction false} PruningIsInvisible(reqs: seq<Request>, r: Request, skew: int, period: nat)
    requires WellTimed(reqs + [r], skew)
    ensures ScriptAllows(RunStore(reqs, period), r, period)
            <==> |Window(History(reqs, period), r.now - period, r.now)| < r.limit
  {
    StoreShows(reqs, r, skew, period);
    HistoryIsPast(reqs, r, skew, period);
  }

  lemma {:induction false} NoLaterAccepts(times: seq<nat>, lo: int, hi: int)
    requires NoneAfter(times, hi)
    ensures Window(times, lo, hi) == After(times, lo)
  {
    if times != [] {
      NoLaterAccepts(times[..|times| - 1], lo, hi);
    }
  }

  /** The two spare seconds of EXPIRE are needed: a round trip three seconds long lets a second request through. */
  lemma SlackIsTight(period: nat)
    requires period >= 1
    ensures var first := Request(0, 0, 1, Up);
            var late := Request(period - 1, period - 1 + 3, 1, Up);
            && ScriptAllows(RunStore([first], period), late, period)
            && !ReferenceAllows(History([first], period), late, period)
  {
    var first := Request(0, 0, 1, Up);
    assert [first][..0] == [];
    assert RunStore([first], period) == ScriptStore(Store([], 0), first, period);
    assert History([first], period) == [0];
    AfterAppend([], 0, -1);
    assert [] + [0] == [0 as nat];
  }

  // ---------------------------------------------------------------------------
  // The bounds
  // ---------------------------------------------------------------------------

  /** No window of one period ever holds more accepts than the largest limit in use. */
  lemma {:induction false} WindowBound(reqs: seq<Request>, period: nat, limit: nat, a: int)
    requires forall i :: 0 <= i < |reqs| ==> reqs[i].limit <= limit
    ensures |Window(History(reqs, period), a, a + period)| <= limit
  {
    if reqs != [] {
      var front, r := reqs[..|reqs| - 1], reqs[|reqs| - 1];
      WindowBound(front, period, limit, a);
      var h := History(front, period);
      WindowAppend(h, r.now, a, a + period);
      if a < r.now <= a + period {
        WindowWithinAfter(h, a, a + period, r.now - period);
      }
    }
  }

  /** A span of k periods holds at most k times the limit. */
  lemma {:induction false} SpanBound(reqs: seq<Request>, period: nat, limit: nat, a: int, k: nat)
    requires forall i :: 0 <= i < |reqs| ==> reqs[i].limit <= limit
    ensures |Window(History(reqs, period), a, a + k * period)| <= k * limit
  {
    var h := History(reqs, period);
    if k == 0 {
      EmptyWindow(h, a);
    } else {
      SpanBound(reqs, period, limit, a, k - 1);
      var mid := a + (k - 1) * period;
      assert a + k * period == mid + period;
      assert (k - 1) * period >= 0;
      WindowSplit(h, a, mid, mid + period);
      WindowBound(reqs, period, limit, mid);
      assert k * limit == (k - 1) * limit + limit;
    }
  }

  lemma {:induction false} EmptyWindow(times: seq<nat>, a: int)
    ensures Window(times, a, a) == []
  {
    if times != [] {
      EmptyWindow(times[..|times| - 1], a);
    }
  }

  /** The times at which callers were told yes. */
  function Granted(reqs: seq<Request>, period: nat, failOpen: bool): seq<nat> {
    if reqs == [] then []
    else
      var front, r := reqs[..|reqs| - 1], reqs[|reqs| - 1];
      var g := Granted(front, period, failOpen);
      if Answer(RunStore(front, period), r, period, failOpen) then g + [r.now] else g
  }

  /** An endpoint that fails closed keeps its bound through every outage, lost replies included. */
  lemma {:induction false} FailClosedBound(reqs: seq<Request>, skew: int, period: nat, limit: nat, a: int, k: nat)
    requires WellTimed(reqs, skew)
    requires forall i :: 0 <= i < |reqs| ==> reqs[i].limit <= limit
    ensures |Window(Granted(reqs, period, false), a, a + k * period)| <= k * limit
  {
    SpanBound(reqs, period, limit, a, k);
    GrantedWithin(reqs, skew, period, a, a + k * period, k * limit);
  }

  lemma GrantedWithin(reqs: seq<Request>, skew: int, period: nat, lo: int, hi: int, bound: int)
    requires WellTimed(reqs, skew) && |Window(History(reqs, period), lo, hi)| <= bound
    ensures |Window(Granted(reqs, period, false), lo, hi)| <= bound
  {
    GrantedWithinHistory(reqs, skew, period, lo, hi);
  }

  /** A request that is granted is remembered, if its caller fails closed. */
  lemma GrantedIsRemembered(front: seq<Request>, r: Request, skew: int, period: nat)
    requires WellTimed(front + [r], skew)
    ensures var g, h := Granted(front, period, false), History(front, period);
            && (Granted(front + [r], period, false) == g
                || (Granted(front + [r], period, false) == g + [r.now] && History(front + [r], period) == h + [r.now]))
            && (History(front + [r], period) == h || History(front + [r], period) == h + [r.now])
  {
    HistoryAppend(front, r, period);
    GrantedAppend(front, r, period, false);
    if r.link == Up {
      SameAnswer(front, r, skew, period);
    }
  }

  lemma GrantedAppend(reqs: seq<Request>, r: Request, period: nat, failOpen: bool)
    ensures var g := Granted(reqs, period, failOpen);
            Granted(reqs + [r], period, failOpen)
            == if Answer(RunStore(reqs, period), r, period, failOpen) then g + [r.now] else g
  {
    assert (reqs + [r])[..|reqs|] == reqs;
  }

  lemma SameAnswer(reqs: seq<Request>, r: Request, skew: int, period: nat)
    requires WellTimed(reqs + [r], skew)
    ensures ScriptAllows(RunStore(reqs, period), r, period) == ReferenceAllows(History(reqs, period), r, period)
  {
    StoreShows(reqs, r, skew, period);
  }

  lemma {:induction false} GrantedWithinHistory(reqs: seq<Request>, skew: int, period: nat, lo: int, hi: int)
    requires WellTimed(reqs, skew)
    ensures |Window(Granted(reqs, period, false), lo, hi)| <= |Window(History(reqs, period), lo, hi)|
  {
    if reqs != [] {
      var front, r := reqs[..|reqs| - 1], reqs[|reqs| - 1];
      assert reqs == front + [r];
      GrantedWithinHistory(front, skew, period, lo, hi);
      GrantedIsRemembered(front, r, skew, period);
      WindowAppend(Granted(front, period, false), r.now, lo, hi);
      WindowAppend(History(front, period), r.now, lo, hi);
    }
  }

  /** With Redis up, fail-open and fail-closed endpoints are told yes at exactly the remembered accepts. */
  lemma {:induction false} UpIsExact(reqs: seq<Request>, skew: int, period: nat, failOpen: bool)
    requires WellTimed(reqs, skew)
    requires forall i :: 0 <= i < |reqs| ==> reqs[i].link == Up
    ensures Granted(reqs, period, failOpen) == History(reqs, period)
  {
    if reqs != [] {
      var front, r := reqs[..|reqs| - 1], reqs[|reqs| - 1];
      UpIsExact(front, skew, period, failOpen);
      StoreAgrees(front, skew, period);
      var last := if front == [] then 0 else front[|front| - 1].now;
      AgreesAfterStep(RunStore(front, period), History(front, period), last, r, skew, period);
    }
  }

  /** Who is granted, request by request: with Redis up, whoever finds fewer than `limit` remembered accepts in the
      last period; otherwise everybody or nobody, as the endpoint has chosen. And what is remembered: every accept,
      whether or not its caller hears of it. */
  lemma WhoIsGranted(reqs: seq<Request>, k: nat, skew: int, period: nat, failOpen: bool)
    requires WellTimed(reqs, skew) && k < |reqs|
    ensures var r, h := reqs[k], History(reqs[..k], period);
            var fits := |Window(h, r.now - period, r.now)| < r.limit;
            && (Answer(RunStore(reqs[..k], period), r, period, failOpen) <==> if r.link == Up then fits else failOpen)
            && History(reqs[..k + 1], period) == if r.link != Down && fits then h + [r.now] else h
  {
    assert reqs[..k + 1] == reqs[..k] + [reqs[k]];
    WellTimedUpTo(reqs, k + 1, skew);
    NextIsGranted(reqs[..k], reqs[k], skew, period, failOpen);
  }

  lemma NextIsGranted(front: seq<Request>, r: Request, skew: int, period: nat, failOpen: bool)
    requires WellTimed(front + [r], skew)
    ensures var h := History(front, period);
            var fits := |Window(h, r.now - period, r.now)| < r.limit;
            && (Answer(RunStore(front, period), r, period, failOpen) <==> if r.link == Up then fits else failOpen)
            && History(front + [r], period) == if r.link != Down && fits then h + [r.now] else h
  {
    PruningIsInvisible(front, r, skew, period);
    SameAnswer(front, r, skew, period);
    HistoryAppend(front, r, period);
  }

  lemma WellTimedUpTo(reqs: seq<Request>, k: nat, skew: int)
    requires WellTimed(reqs, skew) && k <= |reqs|
    ensures WellTimed(reqs[..k], skew)
  {
  }

  function GrantedRequests(reqs: seq<Request>, period: nat, failOpen: bool): set<nat> {
    set k: nat | k < |reqs| && Answer(RunStore(reqs[..k], period), reqs[k], period, failOpen)
  }

  /** The requests that the list of accepts has grown by, with Redis up. */
  function RememberedRequests(reqs: seq<Request>, period: nat): set<nat> {
    set k: nat | k < |reqs| && reqs[k].link == Up && History(reqs[..k + 1], period) != History(reqs[..k], period)
  }

  function FailedRequests(reqs: seq<Request>): set<nat> {
    set k: nat | k < |reqs| && reqs[k].link != Up
  }

  /** A fail-open endpoint grants the remembered requests and every one whose link has failed; a fail-closed endpoint
      grants the remembered ones only. */
  lemma GrantedAreRememberedOrFailed(reqs: seq<Request>, skew: int, period: nat)
    requires WellTimed(reqs, skew)
    ensures GrantedRequests(reqs, period, true) == RememberedRequests(reqs, period) + FailedRequests(reqs)
    ensures GrantedRequests(reqs, period, false) == RememberedRequests(reqs, period)
  {
    forall k: nat | k < |reqs|
      ensures k in GrantedRequests(reqs, period, true) <==> k in RememberedRequests(reqs, period) + FailedRequests(reqs)
      ensures k in GrantedRequests(reqs, period, false) <==> k in RememberedRequests(reqs, period)
    {
      WhoIsGranted(reqs, k, skew, period, true);
      WhoIsGranted(reqs, k, skew, period, false);
    }
  }

  // ---------------------------------------------------------------------------
  // Rejected requests leave no trace
  // ---------------------------------------------------------------------------

  lemma {:induction false} HistoryAppend(reqs: seq<Request>, r: Request, period: nat)
    ensures var h := History(reqs, period);
            History(reqs + [r], period)
            == if r.link != Down && ReferenceAllows(h, r, period) then h + [r.now] else h
  {
    assert (reqs + [r])[..|reqs|] == reqs;
  }

  lemma LastOut(before: seq<Request>, front: seq<Request>, x: Request, later: seq<Request>)
    requires later != [] && front == later[..|later| - 1] && x == later[|later| - 1]
    ensures before + later == before + front + [x]
  {
  }

  lemma {:induction false} HistoryIgnoresRejected(before: seq<Request>, r: Request, later: seq<Request>, period: nat)
    requires !ReferenceAllows(History(before, period), r, period)
    ensures History(before + [r] + later, period) == History(before + later, period)
  {
    if later == [] {
      assert before + [r] + [] == before + [r] && before + [] == before;
      HistoryAppend(before, r, period);
    } else {
      var front, x := later[..|later| - 1], later[|later| - 1];
      HistoryIgnoresRejected(before, r, front, period);
      LastOut(before + [r], front, x, later);
      LastOut(before, front, x, later);
      HistoryAppend(before + [r] + front, x, period);
      HistoryAppend(before + front, x, period);
    }
  }

  /** A request that was turned away changes no later answer. */
  lemma RejectedLeavesNoTrace(before: seq<Request>, r: Request, later: seq<Request>, x: Request, skew: int, period: nat)
    requires WellTimed(before + [r] + later + [x], skew)
    requires !ScriptAllows(RunStore(before, period), r, period)
    ensures ScriptAllows(RunStore(before + [r] + later, period), x, period)
            == ScriptAllows(RunStore(before + later, period), x, period)
  {
    var all := before + [r] + later + [x];
    assert WellTimed(before + [r], skew) by {
      assert forall i :: 0 <= i <= |before| ==> all[i] == (before + [r])[i];
    }
    var short := before + later + [x];
    assert WellTimed(short, skew) by {
      assert forall i :: 0 <= i < |before| ==> short[i] == all[i];
      assert forall i :: |before| <= i < |short| ==> short[i] == all[i + 1];
    }
    PruningIsInvisible(before, r, skew, period);
    HistoryIsPast(before, r, skew, period);
    HistoryIgnoresRejected(before, r, later, period);
    PruningIsInvisible(before + [r] + later, x, skew, period);
    PruningIsInvisible(before + later, x, skew, period);
  }
}
