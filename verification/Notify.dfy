/** One event notification at a time: app/notifications/dedup.py, event_handlers.py and
    app/services/notification_service.py. */
module Notifier {
  import opened Common

  const DEFAULT_DEDUP_TTL_SECONDS := 60

  /** A notifications row, by its content and its unique, nullable idempotency key. */
  datatype Note = Note(user: int, title: string, message: string, key: Option<string>)

  /** What delay() does: the broker takes the task; it takes it but the publisher sees an error; it never takes it. */
  datatype Publish = Accepted | Ambiguous | Refused

  /** The keys Redis holds, each with the time at which it expires. */
  type Claims = map<string, int>

  predicate Held(claims: Claims, key: string, now: int) {
    key in claims && now < claims[key]
  }

  function Grants(claims: Claims, key: string, now: int, link: Link): bool {
    key == "" || link != Up || !Held(claims, key, now)
  }

  function AfterClaim(claims: Claims, key: string, now: int, link: Link): Claims {
    if key == "" || link == Down || Held(claims, key, now) then claims
    else claims[key := now + DEFAULT_DEDUP_TTL_SECONDS]
  }

  function AfterRelease(claims: Claims, key: string, link: Link): Claims {
    if key == "" || link == Down then claims else claims - {key}
  }

  function FindKey(rows: seq<Note>, key: string): (r: Option<nat>)
    ensures r.Some? ==> r.value < |rows| && rows[r.value].key == Some(key)
    ensures r.None? ==> forall i :: 0 <= i < |rows| ==> rows[i].key != Some(key)
  {
    if rows == [] then None
    else
      var r := FindKey(rows[..|rows| - 1], key);
      if r.Some? then r
      else if rows[|rows| - 1].key == Some(key) then Some(|rows| - 1)
      else None
  }

  /** The unique constraint: no two rows share a key; rows without a key are free. */
  ghost predicate UniqueKeys(rows: seq<Note>) {
    forall i, j :: 0 <= i < j < |rows| && rows[i].key.Some? ==> rows[i].key != rows[j].key
  }

  class Service {
    var claims: Claims
    var tasks: seq<Note>
    var rows: seq<Note>

    constructor ()
      ensures claims == map[] && tasks == [] && rows == []
    {
      claims, tasks, rows := map[], [], [];
    }

    /** SET key NX EX ttl. Any error grants the claim, also when the command has run and stored it. A stored claim runs
        out sixty seconds later. */
    method ClaimEvent(key: string, now: int, link: Link) returns (granted: bool)
      modifies this`claims
      ensures granted == Grants(old(claims), key, now, link)
      ensures claims == AfterClaim(old(claims), key, now, link)
      ensures !granted <==> key != "" && link == Up && key in old(claims) && now < old(claims)[key]
      ensures key in claims && (key !in old(claims) || claims[key] != old(claims)[key]) ==> claims[key] == now + 60
    {
      if key == "" || link == Down {
        return true;
      }
      var held := Held(claims, key, now);
      if !held {
        claims := claims[key := now + DEFAULT_DEDUP_TTL_SECONDS];
      }
      granted := !held || link == ReplyLost;
    }

    /** DEL key, best effort. */
    method ReleaseEvent(key: string, link: Link)
      modifies this`claims
      ensures claims == AfterRelease(old(claims), key, link)
      ensures key != "" && link != Down ==> key !in claims
      ensures forall other :: other != key || key == "" || link == Down ==>
        (other in claims <==> other in old(claims)) && (other in claims ==> claims[other] == old(claims)[other])
    {
      if key == "" {
        return;
      }
      if link != Down {
        claims := claims - {key};
      }
    }

    /** The idempotent insert. None is an exception: the database is down, or the constraint refuses a second empty key,
        which the lookup does not search for. */
    method CreateNotification(n: Note, databaseUp: bool) returns (r: Option<nat>)
      requires UniqueKeys(rows)
      modifies this`rows
      ensures UniqueKeys(rows)
      ensures !databaseUp ==> r.None? && rows == old(rows)
      ensures r.Some? ==> r.value < |rows| && rows[r.value].key == n.key
      ensures databaseUp && (n.key.None? || FindKey(old(rows), n.key.value).None?) ==>
        rows == old(rows) + [n] && r == Some(|old(rows)|)
      ensures databaseUp && n.key.Some? && FindKey(old(rows), n.key.value).Some? ==>
        rows == old(rows) && (r.None? <==> n.key.value == "")
    {
      if !databaseUp {
        return None;
      }
      if n.key.Some? && n.key.value != "" {
        var existing := FindKey(rows, n.key.value);
        if existing.Some? {
          return existing;
        }
      }
      if n.key.Some? && FindKey(rows, n.key.value).Some? {
        return None;
      }
      rows := rows + [n];
      r := Some(|rows| - 1);
    }

    /** _enqueue from start to end. With the database up, an event that is not suppressed ends as an accepted task, as
        a row with its key, or as both; the result is true exactly for a publish that reported success. The empty key is
        neither claimed nor looked up. */
    method Enqueue(n: Note, now: int, link: Link, publish: Publish, linkLater: Link, databaseUp: bool)
      returns (enqueued: bool)
      requires UniqueKeys(rows) && n.key.Some?
      modifies this
      ensures UniqueKeys(rows)
      ensures var key := n.key.value;
              var granted := key == "" || link != Up || key !in old(claims) || old(claims)[key] <= now;
              && enqueued == (granted && publish.Accepted?)
              && tasks == (if granted && !publish.Refused? then old(tasks) + [n] else old(tasks))
              && (if granted && !publish.Accepted? && databaseUp
                  then rows == (if FindKey(old(rows), key).Some? then old(rows) else old(rows) + [n])
                  else rows == old(rows))
              && (var free := key !in old(claims) || old(claims)[key] <= now;
                  claims == if granted && !publish.Accepted? && key != "" && linkLater != Down then old(claims) - {key}
                            else if key != "" && link != Down && free then old(claims)[key := now + 60]
                            else old(claims))
    {
      var key := n.key.value;
      var granted := ClaimEvent(key, now, link);
      if !granted {
        return false;
      }
      if !publish.Refused? {
        tasks := tasks + [n];
      }
      if publish.Accepted? {
        return true;
      }
      ReleaseEvent(key, linkLater);
      var stored := CreateNotification(n, databaseUp);
      enqueued := false;
    }
  }

  // ---------------------------------------------------------------------------
  // The window
  // ---------------------------------------------------------------------------

  datatype ClaimOp = Claim(key: string, now: int, link: Link) | Release(key: string, link: Link)

  function ClaimsAfter(ops: seq<ClaimOp>): Claims {
    if ops == [] then map[]
    else
      var before := ClaimsAfter(ops[..|ops| - 1]);
      match ops[|ops| - 1]
      case Claim(key, now, link) => AfterClaim(before, key, now, link)
      case Release(key, link) => AfterRelease(before, key, link)
  }

  /** Operation k claims the key, reaches Redis, and finds no claim of it that is in force: none of the last sixty
      seconds that has not been released since. */
  ghost predicate StoresAt(ops: seq<ClaimOp>, k: nat, key: string)
    decreases k, 1
  {
    k < |ops| && ops[k].Claim? && ops[k].key == key != "" && ops[k].link != Down
    && !InForce(ops, k, key, ops[k].now)
  }

  /** Some claim of the key among the first k operations has been stored after now - 60 and not been released since. */
  ghost predicate InForce(ops: seq<ClaimOp>, k: nat, key: string, now: int)
    decreases k, 0
  {
    exists j: nat :: j < k && StoresAt(ops, j, key) && now < ops[j].now + 60 && !ReleasedIn(ops, j, k, key)
  }

  ghost predicate ReleasedIn(ops: seq<ClaimOp>, from: nat, to: nat, key: string) {
    exists i: nat :: from < i < to && i < |ops| && ops[i].Release? && ops[i].key == key && ops[i].link != Down
  }

  /** The clock of the claims does not go back. */
  ghost predicate ClaimsOrdered(ops: seq<ClaimOp>) {
    forall i, j :: 0 <= i < j < |ops| && ops[i].Claim? && ops[j].Claim? ==> ops[i].now <= ops[j].now
  }

  /** What a claim in the map means, after the first k operations: it is the last stored one, not released. */
  ghost predicate Explains(ops: seq<ClaimOp>, k: nat, key: string, claims: Claims) {
    && (key in claims ==> exists j: nat ::
          j < k && StoresAt(ops, j, key) && claims[key] == ops[j].now + 60 && !ReleasedIn(ops, j, k, key))
    && (forall j: nat :: j < k && StoresAt(ops, j, key) && !ReleasedIn(ops, j, k, key) ==>
          key in claims && ops[j].now + 60 <= claims[key])
  }

  lemma {:induction false} MapExplained(ops: seq<ClaimOp>, k: nat, key: string)
    requires k <= |ops| && ClaimsOrdered(ops) && key != ""
    ensures Explains(ops, k, key, ClaimsAfter(ops[..k]))
  {
    if k > 0 {
      MapExplained(ops, k - 1, key);
      assert ops[..k][..k - 1] == ops[..k - 1];
      OperationExplained(ops, k - 1, key, ClaimsAfter(ops[..k - 1]));
    }
  }

  lemma ExplainsInForce(ops: seq<ClaimOp>, k: nat, key: string, claims: Claims, now: int)
    requires Explains(ops, k, key, claims)
    ensures InForce(ops, k, key, now) <==> key in claims && now < claims[key]
  {
  }

  lemma OperationExplained(ops: seq<ClaimOp>, k: nat, key: string, before: Claims)
    requires k < |ops| && ClaimsOrdered(ops) && key != "" && Explains(ops, k, key, before)
    ensures Explains(ops, k + 1, key,
              match ops[k]
              case Claim(other, now, link) => AfterClaim(before, other, now, link)
              case Release(other, link) => AfterRelease(before, other, link))
  {
    var released := ops[k].Release? && ops[k].key == key && ops[k].link != Down;
    forall j: nat | j < k ensures ReleasedIn(ops, j, k + 1, key) <==> ReleasedIn(ops, j, k, key) || released {
    }
    assert !ReleasedIn(ops, k, k + 1, key);
    if ops[k].Claim? && ops[k].key == key && ops[k].link != Down {
      ExplainsInForce(ops, k, key, before, ops[k].now);
      assert StoresAt(ops, k, key) <==> !Held(before, key, ops[k].now);
    }
  }

  /** The sixty seconds, over every sequence of claims and releases whose clock does not go back: with Redis up, a claim
      of a key is refused exactly when an earlier stored claim of it, not released since, is less than sixty seconds
      old. The empty key and a failed link are always granted. */
  lemma ClaimWindow(ops: seq<ClaimOp>, key: string, now: int, link: Link)
    requires ClaimsOrdered(ops)
    ensures !Grants(ClaimsAfter(ops), key, now, link) <==>
            key != "" && link == Up
            && (exists j: nat ::
                  j < |ops| && StoresAt(ops, j, key) && now < ops[j].now + 60 && !ReleasedIn(ops, j, |ops|, key))
  {
    if key != "" {
      MapExplained(ops, |ops|, key);
      assert ops[..|ops|] == ops;
    }
  }
}

/** The same protocol with any number of callers and workers, interleaved at every call that leaves the process. */
module NotifyProtocol {
  import opened Common
  import N = Notifier

  type Key = nat

  /** Where one call of _enqueue is. `reached` says whether its publish got to the broker although it failed. */
  datatype Phase =
    | Claimed(key: Key)
    | Releasing(key: Key, reached: bool)
    | Looking(key: Key, reached: bool)
    | Inserting(key: Key, reached: bool)
    | Enqueued(key: Key)
    | Suppressed(key: Key)
    | Saved(key: Key, reached: bool)
    | Lost(key: Key, reached: bool)      // the fallback insert failed as well
    | Crashed(key: Key)

  datatype System = System(
    claims: set<Key>,
    tasks: set<Key>,
    rows: seq<Key>,
    calls: map<nat, Phase>,
    workers: map<nat, Key>)     // deliveries past their lookup

  datatype Step =
    | Claim(id: nat, key: Key, link: Link)
    | TryPublish(id: nat, outcome: N.Publish)
    | Release(id: nat, link: Link)
    | Lookup(id: nat, databaseUp: bool)
    | Insert(id: nat, databaseUp: bool)
    | Crash(id: nat)
    | Expire(key: Key)                       // the time to live runs out
    | WorkerLookup(worker: nat, key: Key)    // a delivery of an accepted task, the first or a repeated one
    | WorkerInsert(worker: nat)

  predicate InFlight(p: Phase) {
    p.Claimed? || p.Releasing? || p.Looking? || p.Inserting?
  }

  predicate Enabled(s: System, e: Step) {
    match e
    case Claim(id, _, _) => id !in s.calls
    case TryPublish(id, _) => id in s.calls && s.calls[id].Claimed?
    case Release(id, _) => id in s.calls && s.calls[id].Releasing?
    case Lookup(id, _) => id in s.calls && s.calls[id].Looking?
    case Insert(id, _) => id in s.calls && s.calls[id].Inserting?
    case Crash(id) => id in s.calls && InFlight(s.calls[id])
    case Expire(_) => true
    case WorkerLookup(w, key) => w !in s.workers && key in s.tasks
    case WorkerInsert(w) => w in s.workers
  }

  /** The unique constraint decides at commit, whatever the lookup saw before. */
  function Inserted(rows: seq<Key>, key: Key): seq<Key> {
    if key in rows then rows else rows + [key]
  }

  function Apply(s: System, e: Step): System
    requires Enabled(s, e)
  {
    match e
    case Claim(id, key, link) =>
      if link == Up && key in s.claims then s.(calls := s.calls[id := Suppressed(key)])
      else s.(claims := if link == Down then s.claims else s.claims + {key}, calls := s.calls[id := Claimed(key)])
    case TryPublish(id, outcome) =>
      var key := s.calls[id].key;
      s.(tasks := if outcome.Refused? then s.tasks else s.tasks + {key},
         calls := s.calls[id := if outcome.Accepted? then Enqueued(key) else Releasing(key, outcome.Ambiguous?)])
    case Release(id, link) =>
      var p := s.calls[id];
      s.(claims := if link == Down then s.claims else s.claims - {p.key},
         calls := s.calls[id := Looking(p.key, p.reached)])
    case Lookup(id, databaseUp) =>
      var p := s.calls[id];
      s.(calls := s.calls[id := if !databaseUp then Lost(p.key, p.reached)
                                else if p.key in s.rows then Saved(p.key, p.reached)
                                else Inserting(p.key, p.reached)])
    case Insert(id, databaseUp) =>
      var p := s.calls[id];
      if !databaseUp then s.(calls := s.calls[id := Lost(p.key, p.reached)])
      else s.(rows := Inserted(s.rows, p.key), calls := s.calls[id := Saved(p.key, p.reached)])
    case Crash(id) => s.(calls := s.calls[id := Crashed(s.calls[id].key)])
    case Expire(key) => s.(claims := s.claims - {key})
    case WorkerLookup(w, key) => if key in s.rows then s else s.(workers := s.workers[w := key])
    case WorkerInsert(w) => s.(rows := Inserted(s.rows, s.workers[w]), workers := s.workers - {w})
  }

  // ---------------------------------------------------------------------------
  // The invariant
  // ---------------------------------------------------------------------------

  ghost predicate Stored(s: System, key: Key) {
    key in s.tasks || key in s.rows
  }

  /** This call answers for the key: it is still working on it, or it is where the event got lost. */
  predicate Answers(p: Phase, key: Key) {
    p.key == key && (InFlight(p) || p.Lost? || p.Crashed?)
  }

  ghost predicate Accounted(s: System, key: Key) {
    Stored(s, key) || exists id :: id in s.calls && Answers(s.calls[id], key)
  }

  ghost predicate CallOk(s: System, p: Phase) {
    && Accounted(s, p.key)
    && (p.Enqueued? ==> p.key in s.tasks)
    && (p.Saved? ==> p.key in s.rows)
    && ((p.Releasing? || p.Looking? || p.Inserting? || p.Saved? || p.Lost?) && p.reached ==> p.key in s.tasks)
  }

  ghost predicate OneRowPerKey(rows: seq<Key>) {
    forall i, j :: 0 <= i < j < |rows| ==> rows[i] != rows[j]
  }

  /** This call brought a task to the broker or a row to the table, or may have done so before it crashed. */
  predicate Source(p: Phase, key: Key) {
    p.key == key &&
    (p.Enqueued? || p.Saved? || p.Crashed? || ((p.Releasing? || p.Looking? || p.Inserting? || p.Lost?) && p.reached))
  }

  ghost predicate HasSource(s: System, key: Key) {
    exists id :: id in s.calls && Source(s.calls[id], key)
  }

  ghost predicate Inv(s: System) {
    && OneRowPerKey(s.rows)
    && (forall key :: key in s.claims ==> Accounted(s, key))
    && (forall id :: id in s.calls ==> CallOk(s, s.calls[id]))
    && (forall key :: Stored(s, key) ==> HasSource(s, key))
    && (forall w :: w in s.workers ==> s.workers[w] in s.tasks)
  }

  /** Tasks and rows only grow, and a call stops answering for its key only when the key is stored. */
  ghost predicate Keeps(s: System, s': System) {
    && s.tasks <= s'.tasks && s.rows <= s'.rows && s.calls.Keys <= s'.calls.Keys
    && (forall id, key :: id in s.calls && Answers(s.calls[id], key) ==> Answers(s'.calls[id], key) || Stored(s', key))
    && (forall id, key :: id in s.calls && Source(s.calls[id], key) ==> Source(s'.calls[id], key))
  }

  lemma KeepsAccounted(s: System, s': System, key: Key)
    requires Keeps(s, s') && Accounted(s, key)
    ensures Accounted(s', key)
  {
    if !Stored(s, key) {
      var id :| id in s.calls && Answers(s.calls[id], key);
      assert Answers(s'.calls[id], key) || Stored(s', key);
    }
  }

  lemma KeepsSource(s: System, s': System, key: Key)
    requires Keeps(s, s') && HasSource(s, key)
    ensures HasSource(s', key)
  {
    var id :| id in s.calls && Source(s.calls[id], key);
    assert Source(s'.calls[id], key);
  }

  lemma StepKeeps(s: System, e: Step)
    requires Inv(s) && Enabled(s, e)
    ensures Keeps(s, Apply(s, e))
  {
    if e.Insert? || e.TryPublish? || e.Lookup? || e.Release? || e.Crash? {
      assert CallOk(s, s.calls[e.id]);
    }
  }

  lemma MovedCallOk(s: System, e: Step, id: nat)
    requires Inv(s) && Enabled(s, e)
    requires id in Apply(s, e).calls && (id !in s.calls || Apply(s, e).calls[id] != s.calls[id])
    ensures CallOk(Apply(s, e), Apply(s, e).calls[id])
  {
    var s' := Apply(s, e);
    var p := s'.calls[id];
    StepKeeps(s, e);
    if id in s.calls {
      assert CallOk(s, s.calls[id]);
    }
    if p.Suppressed? {
      KeepsAccounted(s, s', p.key);
    } else if !Stored(s', p.key) {
      assert Answers(s'.calls[id], p.key);
    }
  }

  lemma StoredHasSource(s: System, e: Step, key: Key)
    requires Inv(s) && Enabled(s, e) && Stored(Apply(s, e), key)
    ensures HasSource(Apply(s, e), key)
  {
    var s' := Apply(s, e);
    StepKeeps(s, e);
    if Stored(s, key) {
      KeepsSource(s, s', key);
    } else {
      assert e.TryPublish? || e.Insert?;
      assert Source(s'.calls[e.id], key);
    }
  }

  lemma StepKeepsInv(s: System, e: Step)
    requires Inv(s) && Enabled(s, e)
    ensures Inv(Apply(s, e))
  {
    var s' := Apply(s, e);
    StepKeeps(s, e);
    forall id | id in s'.calls ensures CallOk(s', s'.calls[id]) {
      if id in s.calls && s'.calls[id] == s.calls[id] {
        assert CallOk(s, s.calls[id]);
        KeepsAccounted(s, s', s.calls[id].key);
      } else {
        MovedCallOk(s, e, id);
      }
    }
    forall key | key in s'.claims ensures Accounted(s', key) {
      if key in s.claims {
        KeepsAccounted(s, s', key);
      } else {
        assert Answers(s'.calls[e.id], key);
      }
    }
    forall key | Stored(s', key) ensures HasSource(s', key) {
      StoredHasSource(s, e, key);
    }
  }

  // ---------------------------------------------------------------------------
  // Every interleaving
  // ---------------------------------------------------------------------------

  const START := System({}, {}, [], map[], map[])

  ghost predicate Next(s: System, s': System) {
    exists e :: Enabled(s, e) && s' == Apply(s, e)
  }

  ghost predicate Behaviour(ss: seq<System>) {
    ss != [] && ss[0] == START && forall i :: 0 < i < |ss| ==> Next(ss[i - 1], ss[i])
  }

  lemma {:induction false} BehaviourKeepsInv(ss: seq<System>, i: nat)
    requires Behaviour(ss) && i < |ss|
    ensures Inv(ss[i])
  {
    if i > 0 {
      BehaviourKeepsInv(ss, i - 1);
      assert Next(ss[i - 1], ss[i]);
      var e :| Enabled(ss[i - 1], e) && ss[i] == Apply(ss[i - 1], e);
      StepKeepsInv(ss[i - 1], e);
    }
  }

  /** Suppression loses nothing: without crashes and database failures, the key of every finished call, suppressed
      ones included, has an accepted task or a row, unless another call is still working on it. */
  lemma NothingIsLost(ss: seq<System>, s: System, id: nat)
    requires Behaviour(ss) && s == ss[|ss| - 1] && id in s.calls
    requires forall other :: other in s.calls ==> !s.calls[other].Lost? && !s.calls[other].Crashed?
    ensures Stored(s, s.calls[id].key)
            || exists other :: other in s.calls && s.calls[other].key == s.calls[id].key && InFlight(s.calls[other])
  {
    BehaviourKeepsInv(ss, |ss| - 1);
    assert CallOk(s, s.calls[id]);
  }

  /** Exactly when an event gets lost for good, once its calls have finished without a crash: every call that was not
      suppressed had its publish refused and its fallback insert fail. */
  lemma LostIff(ss: seq<System>, s: System, key: Key)
    requires Behaviour(ss) && s == ss[|ss| - 1]
    requires forall id :: id in s.calls && s.calls[id].key == key ==> !InFlight(s.calls[id]) && !s.calls[id].Crashed?
    ensures !Stored(s, key)
            <==> forall id :: id in s.calls && s.calls[id].key == key && !s.calls[id].Suppressed?
                   ==> s.calls[id] == Lost(key, false)
  {
    BehaviourKeepsInv(ss, |ss| - 1);
    if Stored(s, key) {
      var id :| id in s.calls && Source(s.calls[id], key);
      assert s.calls[id] != Lost(key, false) && !s.calls[id].Suppressed?;
    } else {
      forall id | id in s.calls && s.calls[id].key == key && !s.calls[id].Suppressed?
        ensures s.calls[id] == Lost(key, false)
      {
        assert CallOk(s, s.calls[id]);
      }
    }
  }

  /** What a claim is answered: with Redis up, suppressed while the key is claimed, and through once the claim has been
      deleted or has run out, so a caller whose publish and insert failed can try again; with Redis failing, through. */
  lemma ReleasedCanBeClaimed(s: System, e: Step, id: nat, key: Key)
    requires Enabled(s, e) && id !in Apply(s, e).calls
    ensures forall link :: id !in s.calls && link != Up ==> Apply(s, Claim(id, key, link)).calls[id] == Claimed(key)
    ensures key in s.claims && id !in s.calls ==> Apply(s, Claim(id, key, Up)).calls[id] == Suppressed(key)
    ensures e == Expire(key) || (e.Release? && s.calls[e.id].key == key && e.link != Down) ==>
              Apply(Apply(s, e), Claim(id, key, Up)).calls[id] == Claimed(key)
    ensures e.Claim? && e.key == key && e.link != Down ==>
              Apply(Apply(s, e), Claim(id, key, Up)).calls[id] == Suppressed(key)
  {
  }

  /** The fallback: with the database up it ends with the key stored, either found or inserted, and with the database
      down it is lost. Before it comes the release, whatever becomes of that. */
  lemma FallbackEnds(s: System, e: Step)
    requires Inv(s) && Enabled(s, e)
    ensures match e
            case TryPublish(id, outcome) =>
              var p := s.calls[id];
              Apply(s, e).calls[id] == if outcome.Accepted? then Enqueued(p.key)
                                       else if outcome.Ambiguous? then Releasing(p.key, true)
                                       else Releasing(p.key, false)
            case Release(id, _) => Apply(s, e).calls[id] == Looking(s.calls[id].key, s.calls[id].reached)
            case Lookup(id, databaseUp) =>
              var p, p' := s.calls[id], Apply(s, e).calls[id];
              p' == if databaseUp && p.key in s.rows then Saved(p.key, p.reached)
                    else if databaseUp then Inserting(p.key, p.reached)
                    else Lost(p.key, p.reached)
            case Insert(id, databaseUp) =>
              var p, p' := s.calls[id], Apply(s, e).calls[id];
              && p' == (if databaseUp then Saved(p.key, p.reached) else Lost(p.key, p.reached))
              && (databaseUp ==> p.key in Apply(s, e).rows)
            case _ => true
  {
  }

  /** The first delivery of an accepted task leaves a row with its key, and a repeated one changes nothing. */
  lemma DeliveryStores(s: System, w: nat, key: Key)
    requires key in s.tasks && w !in s.workers
    ensures key !in s.rows ==>
              var looked := Apply(s, WorkerLookup(w, key));
              Enabled(looked, WorkerInsert(w)) && Apply(looked, WorkerInsert(w)).rows == s.rows + [key]
    ensures key in s.rows ==> Apply(s, WorkerLookup(w, key)) == s
  {
  }

  /** It can happen: Redis grants the claim, then the broker and the database are both down. */
  lemma BrokerAndDatabaseDown(key: Key)
    ensures exists ss: seq<System> ::
              Behaviour(ss) && ss[|ss| - 1].calls == map[0 := Lost(key, false)] && !Stored(ss[|ss| - 1], key)
  {
    var e1, e2, e3, e4 := Claim(0, key, Up), TryPublish(0, N.Refused), Release(0, Up), Lookup(0, false);
    var s1 := Apply(START, e1);
    var s2 := Apply(s1, e2);
    var s3 := Apply(s2, e3);
    var s4 := Apply(s3, e4);
    var ss := [START, s1, s2, s3, s4];
    assert Enabled(START, e1) && Enabled(s1, e2) && Enabled(s2, e3) && Enabled(s3, e4);
    assert Next(ss[0], ss[1]) && Next(ss[1], ss[2]) && Next(ss[2], ss[3]) && Next(ss[3], ss[4]);
    assert Behaviour(ss);
    assert s4.calls == map[0 := Lost(key, false)];
  }
}
