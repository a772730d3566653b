/** Events fanned out to sockets by several processes that share one Redis channel: app/core/ws_manager.py.
    Steps are the stretches of code between two awaits; every process, listener and fan-out interleaves freely. */
module WsRelay {
  import opened Common
  import opened WsRegistry

  datatype Scope = User | Family

  /** A key of one of the two registries of one process. */
  datatype Place = Place(host: nat, scope: Scope, key: int)

  /** An event handed to send_user_event or send_family_event with publish left on; its position is its identity. */
  datatype Event = Event(origin: nat, scope: Scope, key: int)

  /** What one process does about one event. The results list has one entry per socket tried so far. */
  datatype Stage =
    | OnWire
    | Scheduled
    | Sending(snapshot: seq<Socket>, results: seq<bool>)
    | Finished(snapshot: seq<Socket>, results: seq<bool>)
    | Dropped

  datatype Job = Job(event: nat, host: nat, relayed: bool, stage: Stage)

  datatype System = System(
    rooms: Table<Place>,
    homes: map<Socket, Place>,
    events: seq<Event>,
    published: seq<nat>,
    jobs: seq<Job>)

  datatype Step =
    | Send(event: Event, reached: seq<nat>)   // publish, reaching some of the subscribed processes, and start locally
    | Receive(job: nat)                       // a listener takes the message and compares its source
    | Start(job: nat)                         // the scheduled coroutine begins, with publish off
    | Deliver(job: nat, ok: bool)             // one send_json returns or raises
    | EndFan(job: nat)                        // prune after the last send
    | Connect(place: Place, ws: Socket)
    | Disconnect(place: Place, ws: Socket)

  // ---------------------------------------------------------------------------
  // Reading the state
  // ---------------------------------------------------------------------------

  function PlaceOf(s: System, j: Job): Place
    requires j.event < |s.events|
  {
    Place(j.host, s.events[j.event].scope, s.events[j.event].key)
  }

  function SnapshotOf(j: Job): seq<Socket> {
    if j.stage.Sending? || j.stage.Finished? then j.stage.snapshot else []
  }

  function ResultsOf(j: Job): seq<bool> {
    if j.stage.Sending? || j.stage.Finished? then j.stage.results else []
  }

  /** The message comes back to the process that published it. */
  predicate Echo(s: System, j: Job)
    requires j.event < |s.events|
  {
    j.relayed && s.events[j.event].origin == j.host
  }

  /** Send number `pos` of job `k` has been tried, on this socket. */
  predicate Attempt(s: System, k: nat, pos: nat, ws: Socket) {
    k < |s.jobs| && pos < |ResultsOf(s.jobs[k])| <= |SnapshotOf(s.jobs[k])| && SnapshotOf(s.jobs[k])[pos] == ws
  }

  predicate FailedIn(j: Job, ws: Socket) {
    exists pos :: 0 <= pos < |ResultsOf(j)| && pos < |SnapshotOf(j)| && SnapshotOf(j)[pos] == ws && !ResultsOf(j)[pos]
  }

  /** The `dead` list of the fan-out. */
  function DeadOf(snapshot: seq<Socket>, results: seq<bool>): seq<Socket>
    requires |results| <= |snapshot|
  {
    if results == [] then []
    else
      var n := |results| - 1;
      DeadOf(snapshot, results[..n]) + if results[n] then [] else [snapshot[n]]
  }

  // ---------------------------------------------------------------------------
  // Steps
  // ---------------------------------------------------------------------------

  function Relays(event: nat, reached: seq<nat>): seq<Job> {
    seq(|reached|, i requires 0 <= i < |reached| => Job(event, reached[i], true, OnWire))
  }

  predicate NoRepeat(hosts: seq<nat>) {
    forall i, j :: 0 <= i < j < |hosts| ==> hosts[i] != hosts[j]
  }

  predicate Enabled(s: System, e: Step) {
    match e
    case Send(_, reached) => NoRepeat(reached)
    case Receive(k) => k < |s.jobs| && s.jobs[k].stage.OnWire? && s.jobs[k].event < |s.events|
    case Start(k) => k < |s.jobs| && s.jobs[k].stage.Scheduled? && s.jobs[k].event < |s.events|
    case Deliver(k, _) => k < |s.jobs| && s.jobs[k].stage.Sending?
      && |s.jobs[k].stage.results| < |s.jobs[k].stage.snapshot|
    case EndFan(k) => k < |s.jobs| && s.jobs[k].stage.Sending?
      && |s.jobs[k].stage.results| == |s.jobs[k].stage.snapshot|
                      && s.jobs[k].event < |s.events|
    case Connect(p, ws) => ws !in s.homes && ws.host == p.host
    case Disconnect(_, _) => true
  }

  function SetStage(s: System, k: nat, stage: Stage): seq<Job>
    requires k < |s.jobs|
  {
    s.jobs[k := s.jobs[k].(stage := stage)]
  }

  function Apply(s: System, e: Step): System
    requires Enabled(s, e)
  {
    match e
    case Send(ev, reached) =>
      var id := |s.events|;
      var snapshot := Get(s.rooms, Place(ev.origin, ev.scope, ev.key));
      s.(events := s.events + [ev],
         published := s.published + [id],
         jobs := s.jobs + [Job(id, ev.origin, false, Sending(snapshot, []))] + Relays(id, reached))
    case Receive(k) =>
      s.(jobs := SetStage(s, k, if Echo(s, s.jobs[k]) then Dropped else Scheduled))
    case Start(k) =>
      s.(jobs := SetStage(s, k, Sending(Get(s.rooms, PlaceOf(s, s.jobs[k])), [])))
    case Deliver(k, ok) =>
      s.(jobs := SetStage(s, k, Sending(s.jobs[k].stage.snapshot, s.jobs[k].stage.results + [ok])))
    case EndFan(k) =>
      var stage := s.jobs[k].stage;
      s.(jobs := SetStage(s, k, Finished(stage.snapshot, stage.results)),
         rooms := Prune(s.rooms, PlaceOf(s, s.jobs[k]), DeadOf(stage.snapshot, stage.results)))
    case Connect(p, ws) =>
      s.(rooms := Join(s.rooms, p, ws), homes := s.homes[ws := p])
    case Disconnect(p, ws) =>
      s.(rooms := Leave(s.rooms, p, ws))
  }

  // ---------------------------------------------------------------------------
  // The invariant
  // ---------------------------------------------------------------------------

  ghost predicate RoomsOk(s: System) {
    && NoEmptyKey(s.rooms)
    && (forall p :: p in s.rooms ==> Distinct(s.rooms[p]))
    && (forall p, ws :: p in s.rooms && ws in s.rooms[p] ==> ws in s.homes && s.homes[ws] == p)
    && (forall ws :: ws in s.homes ==> s.homes[ws].host == ws.host)
  }

  ghost predicate JobOk(s: System, j: Job) {
    && j.event < |s.events|
    && (!j.relayed ==> j.host == s.events[j.event].origin && (j.stage.Sending? || j.stage.Finished?))
    && (Echo(s, j) ==> j.stage.OnWire? || j.stage.Dropped?)
    && (j.stage.Dropped? ==> Echo(s, j))
    && |ResultsOf(j)| <= |SnapshotOf(j)|
    && (j.stage.Finished? ==> |j.stage.results| == |j.stage.snapshot|)
    && Distinct(SnapshotOf(j))
    && (forall ws :: ws in SnapshotOf(j) ==> ws in s.homes && s.homes[ws] == PlaceOf(s, j))
  }

  /** One process handles one event at most once, echoes aside. */
  ghost predicate Separate(s: System, a: Job, b: Job)
    requires a.event < |s.events| && b.event < |s.events|
  {
    a.event == b.event && a.host == b.host ==> Echo(s, a) || Echo(s, b)
  }

  ghost predicate Inv(s: System) {
    && RoomsOk(s)
    && (forall k :: 0 <= k < |s.jobs| ==> JobOk(s, s.jobs[k]))
    && (forall a, b :: 0 <= a < b < |s.jobs| ==> Separate(s, s.jobs[a], s.jobs[b]))
    && (forall i :: 0 <= i < |s.published| ==> s.published[i] == i)
    && |s.published| == |s.events|
  }

  lemma GetOk(s: System, p: Place)
    requires RoomsOk(s)
    ensures Distinct(Get(s.rooms, p))
    ensures forall ws :: ws in Get(s.rooms, p) ==> ws in s.homes && s.homes[ws] == p
  {
  }

  /** Replacing one room by a part of itself keeps the rooms in order. */
  lemma ShrinkRoom(s: System, p: Place, conns: seq<Socket>)
    requires RoomsOk(s) && Distinct(conns)
    requires forall ws :: ws in conns ==> ws in Get(s.rooms, p)
    ensures RoomsOk(s.(rooms := Put(s.rooms, p, conns)))
  {
  }

  lemma SetStageOk(s: System, k: nat, stage: Stage, rooms: Table<Place>)
    requires Inv(s) && k < |s.jobs|
    requires JobOk(s, s.jobs[k].(stage := stage))
    requires RoomsOk(s.(rooms := rooms))
    ensures Inv(s.(jobs := SetStage(s, k, stage), rooms := rooms))
  {
    var s' := s.(jobs := SetStage(s, k, stage), rooms := rooms);
    forall i | 0 <= i < |s'.jobs| ensures JobOk(s', s'.jobs[i]) {
      assert JobOk(s, s.jobs[i]);
    }
    forall a, b | 0 <= a < b < |s'.jobs| ensures Separate(s', s'.jobs[a], s'.jobs[b]) {
      assert Separate(s, s.jobs[a], s.jobs[b]);
    }
  }

  lemma SendKeepsInv(s: System, e: Step)
    requires Inv(s) && e.Send? && Enabled(s, e)
    ensures Inv(Apply(s, e))
  {
    var s' := Apply(s, e);
    var n := |s.jobs|;
    GetOk(s, Place(e.event.origin, e.event.scope, e.event.key));
    forall k | 0 <= k < |s'.jobs| ensures JobOk(s', s'.jobs[k]) {
      if k < n {
        assert s'.jobs[k] == s.jobs[k] && JobOk(s, s.jobs[k]);
      }
    }
    forall a, b | 0 <= a < b < |s'.jobs| ensures Separate(s', s'.jobs[a], s'.jobs[b]) {
      if b < n {
        assert Separate(s, s.jobs[a], s.jobs[b]);
      } else if a < n {
        assert s'.jobs[a] == s.jobs[a] && JobOk(s, s.jobs[a]);
      }
    }
  }

  lemma ConnectKeepsInv(s: System, e: Step)
    requires Inv(s) && (e.Connect? || e.Disconnect?) && Enabled(s, e)
    ensures Inv(Apply(s, e))
  {
    var s' := Apply(s, e);
    GetOk(s, e.place);
    if e.Disconnect? {
      RemoveMembers(Get(s.rooms, e.place), e.ws);
      ShrinkRoom(s, e.place, Remove(Get(s.rooms, e.place), e.ws));
    }
    forall k | 0 <= k < |s'.jobs| ensures JobOk(s', s'.jobs[k]) {
      assert JobOk(s, s.jobs[k]);
    }
    forall a, b | 0 <= a < b < |s'.jobs| ensures Separate(s', s'.jobs[a], s'.jobs[b]) {
      assert Separate(s, s.jobs[a], s.jobs[b]);
    }
  }

  lemma StepKeepsInv(s: System, e: Step)
    requires Inv(s) && Enabled(s, e)
    ensures Inv(Apply(s, e))
  {
    match e
    case Send(_, _) => SendKeepsInv(s, e);
    case Connect(_, _) => ConnectKeepsInv(s, e);
    case Disconnect(_, _) => ConnectKeepsInv(s, e);
    case Receive(k) =>
      assert JobOk(s, s.jobs[k]);
      SetStageOk(s, k, Apply(s, e).jobs[k].stage, s.rooms);
    case Start(k) =>
      assert JobOk(s, s.jobs[k]);
      GetOk(s, PlaceOf(s, s.jobs[k]));
      SetStageOk(s, k, Apply(s, e).jobs[k].stage, s.rooms);
    case Deliver(k, ok) =>
      assert JobOk(s, s.jobs[k]);
      SetStageOk(s, k, Apply(s, e).jobs[k].stage, s.rooms);
    case EndFan(k) =>
      assert JobOk(s, s.jobs[k]);
      var stage, p := s.jobs[k].stage, PlaceOf(s, s.jobs[k]);
      GetOk(s, p);
      WithoutMembers(Get(s.rooms, p), DeadOf(stage.snapshot, stage.results));
      ShrinkRoom(s, p, Without(Get(s.rooms, p), DeadOf(stage.snapshot, stage.results)));
      SetStageOk(s, k, Finished(stage.snapshot, stage.results), Apply(s, e).rooms);
  }

  // ---------------------------------------------------------------------------
  // Every interleaving
  // ---------------------------------------------------------------------------

  const START := System(map[], map[], [], [], [])

  ghost predicate Next(s: System, s': System) {
    exists e :: Enabled(s, e) && s' == Apply(s, e)
  }

  ghost predicate Behaviour(ss: seq<System>) {
    ss != [] && ss[0] == START && forall i :: 0 < i < |ss| ==> Next(ss[i - 1], ss[i])
  }

  lemma {:induction false} BehaviourKeepsInv(ss: seq<System>, i: nat)
    requires Behaviour(ss) && i < |ss|
    ensures Inv(ss[i])
    ensures i > 0 ==> ss[i - 1].published <= ss[i].published && ss[i - 1].events <= ss[i].events
  {
    if i > 0 {
      BehaviourKeepsInv(ss, i - 1);
      assert Next(ss[i - 1], ss[i]);
      var e :| Enabled(ss[i - 1], e) && ss[i] == Apply(ss[i - 1], e);
      StepKeepsInv(ss[i - 1], e);
    }
  }

  lemma OneAttempt(s: System, a: nat, i: nat, b: nat, j: nat, ws: Socket)
    requires Inv(s)
    requires Attempt(s, a, i, ws) && Attempt(s, b, j, ws) && s.jobs[a].event == s.jobs[b].event
    ensures a == b && i == j
    ensures s.jobs[a].event < |s.events| && ws in s.homes && s.homes[ws] == PlaceOf(s, s.jobs[a])
  {
    assert JobOk(s, s.jobs[a]) && JobOk(s, s.jobs[b]);
    assert ws in SnapshotOf(s.jobs[a]) && ws in SnapshotOf(s.jobs[b]);
  }

  /** In every interleaving a socket is sent a given event at most once, and only if it is registered in this event's
      scope and under its key. That each event has been published once is how the steps are made: only a send
      publishes. */
  lemma AtMostOnce(ss: seq<System>, s: System, a: nat, i: nat, b: nat, j: nat, ws: Socket)
    requires Behaviour(ss) && s == ss[|ss| - 1]
    requires Attempt(s, a, i, ws) && Attempt(s, b, j, ws) && s.jobs[a].event == s.jobs[b].event
    ensures a == b && i == j
    ensures s.jobs[a].event < |s.events| && ws in s.homes && s.homes[ws] == PlaceOf(s, s.jobs[a])
    ensures s.published == seq(|s.events|, n => n)
  {
    BehaviourKeepsInv(ss, |ss| - 1);
    OneAttempt(s, a, i, b, j, ws);
    assert s.published == seq(|s.events|, n => n);
  }

  // ---------------------------------------------------------------------------
  // Pruning between awaits
  // ---------------------------------------------------------------------------

  lemma {:induction false} DeadMembers(snapshot: seq<Socket>, results: seq<bool>)
    requires |results| <= |snapshot|
    ensures forall ws :: ws in DeadOf(snapshot, results) <==>
              exists pos :: 0 <= pos < |results| && snapshot[pos] == ws && !results[pos]
  {
    if results != [] {
      var n := |results| - 1;
      DeadMembers(snapshot, results[..n]);
      forall ws ensures ws in DeadOf(snapshot, results) <==>
                          exists pos :: 0 <= pos < |results| && snapshot[pos] == ws && !results[pos]
      {
        if pos :| 0 <= pos < |results| && snapshot[pos] == ws && !results[pos] {
          assert pos < n ==> !results[..n][pos];
        }
      }
    }
  }

  /** The end of a fan-out takes out exactly the sockets whose send failed and that are still registered, in place;
      no key is left with an empty list, and every socket of the snapshot has been tried, whatever failed. */
  lemma PruneIsExact(s: System, k: nat, p: Place, ws: Socket)
    requires Inv(s) && Enabled(s, EndFan(k))
    ensures var s' := Apply(s, EndFan(k));
            && (ws in Get(s'.rooms, p)
                <==> ws in Get(s.rooms, p) && !(p == PlaceOf(s, s.jobs[k]) && FailedIn(s.jobs[k], ws)))
            && (p in s'.rooms ==> s'.rooms[p] != [])
            && (forall pos :: 0 <= pos < |s.jobs[k].stage.snapshot| ==>
              Attempt(s', k, pos, s.jobs[k].stage.snapshot[pos]))
  {
    var stage, room := s.jobs[k].stage, PlaceOf(s, s.jobs[k]);
    DeadIsFailed(s.jobs[k], ws);
    WithoutMembers(Get(s.rooms, room), DeadOf(stage.snapshot, stage.results));
    StepKeepsInv(s, EndFan(k));
  }

  lemma DeadIsFailed(j: Job, ws: Socket)
    requires j.stage.Sending? && |j.stage.results| <= |j.stage.snapshot|
    ensures ws in DeadOf(j.stage.snapshot, j.stage.results) <==> FailedIn(j, ws)
  {
    DeadMembers(j.stage.snapshot, j.stage.results);
    assert SnapshotOf(j) == j.stage.snapshot && ResultsOf(j) == j.stage.results;
    if FailedIn(j, ws) {
      var pos :| 0 <= pos < |ResultsOf(j)| && pos < |SnapshotOf(j)| && SnapshotOf(j)[pos] == ws && !ResultsOf(j)[pos];
      assert j.stage.snapshot[pos] == ws && !j.stage.results[pos];
    }
    if pos :| 0 <= pos < |j.stage.results| && j.stage.snapshot[pos] == ws && !j.stage.results[pos] {
      assert SnapshotOf(j)[pos] == ws && !ResultsOf(j)[pos];
    }
  }

  /** Only its own disconnect, or the prune of a fan-out in which its send failed, takes a socket out of a room: one
      that joined after the snapshot stays. */
  lemma NoSocketIsLost(s: System, e: Step, p: Place, ws: Socket)
    requires Inv(s) && Enabled(s, e)
    requires ws in Get(s.rooms, p) && ws !in Get(Apply(s, e).rooms, p)
    ensures e == Disconnect(p, ws)
            || (e.EndFan? && p == PlaceOf(s, s.jobs[e.job]) && ws in s.jobs[e.job].stage.snapshot
              && FailedIn(s.jobs[e.job], ws))
  {
    if e.EndFan? {
      PruneIsExact(s, e.job, p, ws);
    } else if e.Disconnect? {
      GetOk(s, e.place);
      RemoveMembers(Get(s.rooms, e.place), e.ws);
    }
  }

  /** What each step does to the rooms, in full: a connect puts the socket at the end of its room, a disconnect takes it
      out and leaves the others in their order, the end of a fan-out keeps the order of those that stay, no other room
      is touched, and every other step leaves the rooms alone. */
  lemma RoomsChange(s: System, e: Step)
    requires Inv(s) && Enabled(s, e)
    ensures var rooms, rooms' := s.rooms, Apply(s, e).rooms;
            match e
            case Connect(p, ws) => rooms' == rooms[p := (if p in rooms then rooms[p] else []) + [ws]]
            case Disconnect(p, ws) =>
              && SameElsewhere(rooms, rooms', p)
              && (p !in rooms || ws !in rooms[p] ==> rooms' == rooms)
              && (p in rooms && ws in rooms[p] ==>
                    && (p !in rooms' <==> rooms[p] == [ws])
                    && (p in rooms' ==> ws !in rooms'[p])
                    && (forall i :: 0 <= i < |rooms[p]| && rooms[p][i] == ws && p in rooms' ==>
                          rooms'[p] == rooms[p][..i] + rooms[p][i + 1..]))
            case EndFan(k) =>
              var p := PlaceOf(s, s.jobs[k]);
              && SameElsewhere(rooms, rooms', p)
              && (p in rooms' ==> p in rooms && forall x, y :: x in rooms'[p] && y in rooms'[p] ==>
                    (Before(rooms'[p], x, y) <==> Before(rooms[p], x, y)))
            case _ => rooms' == rooms
  {
    match e
    case Disconnect(p, ws) => LeaveTakesOut(s.rooms, p, ws);
    case EndFan(k) =>
      assert JobOk(s, s.jobs[k]);
      PruneTakesOut(s.rooms, PlaceOf(s, s.jobs[k]), DeadOf(s.jobs[k].stage.snapshot, s.jobs[k].stage.results));
    case _ =>
  }

  /** What each step does to the work of a process: an echo is dropped and any other message scheduled; a fan-out
      starts with the sockets its room holds at that moment; each send goes to the next of them, and its outcome is
      what the results say. */
  lemma JobsChange(s: System, e: Step)
    requires Inv(s) && Enabled(s, e)
    ensures var jobs, s' := s.jobs, Apply(s, e);
            match e
            case Send(ev, reached) =>
              var p := Place(ev.origin, ev.scope, ev.key);
              && |s'.jobs| == |jobs| + 1 + |reached| && s'.jobs[..|jobs|] == jobs
              && s'.jobs[|jobs|] == Job(|s.events|, ev.origin, false,
                                        Sending(if p in s.rooms then s.rooms[p] else [], []))
              && forall i :: 0 <= i < |reached| ==>
                   s'.jobs[|jobs| + 1 + i] == Job(|s.events|, reached[i], true, OnWire)
            case Receive(k) =>
              var echo := jobs[k].relayed && s.events[jobs[k].event].origin == jobs[k].host;
              s'.jobs == jobs[k := jobs[k].(stage := if echo then Dropped else Scheduled)]
            case Start(k) =>
              var ev := s.events[jobs[k].event];
              var p := Place(jobs[k].host, ev.scope, ev.key);
              s'.jobs == jobs[k := jobs[k].(stage := Sending(if p in s.rooms then s.rooms[p] else [], []))]
            case Deliver(k, ok) =>
              var stage := jobs[k].stage;
              && s'.jobs == jobs[k := jobs[k].(stage := Sending(stage.snapshot, stage.results + [ok]))]
              && Attempt(s', k, |stage.results|, stage.snapshot[|stage.results|])
            case EndFan(k) =>
              s'.jobs == jobs[k := jobs[k].(stage := Finished(jobs[k].stage.snapshot, jobs[k].stage.results))]
            case _ => s'.jobs == jobs
  {
  }

  // ---------------------------------------------------------------------------
  // Exactly once when nothing fails
  // ---------------------------------------------------------------------------

  /** No churn, every process subscribed, every send works. */
  ghost predicate Quiet(e: Step, hosts: seq<nat>) {
    match e
    case Send(ev, reached) => ev.origin in hosts && reached == hosts
    case Deliver(_, ok) => ok
    case Connect(_, _) => false
    case Disconnect(_, _) => false
    case _ => true
  }

  predicate Handles(s: System, k: nat, event: nat, host: nat) {
    k < |s.jobs| && s.jobs[k].event == event < |s.events| && s.jobs[k].host == host && !Echo(s, s.jobs[k])
  }

  ghost predicate Handled(s: System, event: nat, host: nat) {
    exists k: nat :: Handles(s, k, event, host)
  }

  ghost predicate AllWorked(results: seq<bool>) {
    forall i :: 0 <= i < |results| ==> results[i]
  }

  ghost predicate QuietInv(s: System, rooms: Table<Place>, hosts: seq<nat>) {
    && Inv(s)
    && s.rooms == rooms
    && (forall k :: 0 <= k < |s.jobs| ==> AllWorked(ResultsOf(s.jobs[k])))
    && (forall k :: 0 <= k < |s.jobs| && (s.jobs[k].stage.Sending? || s.jobs[k].stage.Finished?) ==>
          SnapshotOf(s.jobs[k]) == Get(rooms, PlaceOf(s, s.jobs[k])))
    && (forall event: nat, host :: event < |s.events| && host in hosts ==> Handled(s, event, host))
  }

  lemma HandlersStay(s: System, s': System, hosts: seq<nat>)
    requires s.events <= s'.events && |s.jobs| <= |s'.jobs|
    requires forall k :: 0 <= k < |s.jobs| ==> s'.jobs[k].(stage := s.jobs[k].stage) == s.jobs[k]
    requires forall event: nat, host :: event < |s.events| && host in hosts ==> Handled(s, event, host)
    ensures forall event: nat, host :: event < |s.events| && host in hosts ==> Handled(s', event, host)
  {
    forall event: nat, host | event < |s.events| && host in hosts ensures Handled(s', event, host) {
      assert Handled(s, event, host);
      var k :| Handles(s, k, event, host);
      assert Handles(s', k, event, host);
    }
  }

  lemma {:induction false} NoneDead(snapshot: seq<Socket>, results: seq<bool>)
    requires |results| <= |snapshot| && AllWorked(results)
    ensures DeadOf(snapshot, results) == []
  {
    if results != [] {
      NoneDead(snapshot, results[..|results| - 1]);
    }
  }

  lemma QuietSend(s: System, e: Step, rooms: Table<Place>, hosts: seq<nat>)
    requires QuietInv(s, rooms, hosts) && e.Send? && Enabled(s, e) && Quiet(e, hosts)
    ensures QuietInv(Apply(s, e), rooms, hosts)
  {
    StepKeepsInv(s, e);
    var s' := Apply(s, e);
    var n, id := |s.jobs|, |s.events|;
    assert forall k :: 0 <= k < n ==> s'.jobs[k] == s.jobs[k];
    HandlersStay(s, s', hosts);
    forall event: nat, host | event < |s'.events| && host in hosts ensures Handled(s', event, host) {
      if event == id {
        var i :| 0 <= i < |hosts| && hosts[i] == host;
        assert s'.jobs[n + 1 + i] == Job(id, host, true, OnWire);
        assert Handles(s', if host == e.event.origin then n else n + 1 + i, event, host);
      }
    }
    forall k | 0 <= k < |s'.jobs| && (s'.jobs[k].stage.Sending? || s'.jobs[k].stage.Finished?)
      ensures SnapshotOf(s'.jobs[k]) == Get(rooms, PlaceOf(s', s'.jobs[k]))
    {
      if k < n { assert JobOk(s, s.jobs[k]); }
    }
  }

  lemma QuietSetStage(s: System, e: Step, k: nat, rooms: Table<Place>, hosts: seq<nat>)
    requires QuietInv(s, rooms, hosts) && Enabled(s, e) && k < |s.jobs|
    requires Apply(s, e) == s.(jobs := SetStage(s, k, Apply(s, e).jobs[k].stage))
    requires var j := Apply(s, e).jobs[k];
             && AllWorked(ResultsOf(j))
             && (j.stage.Sending? || j.stage.Finished? ==>
               j.event < |s.events| && SnapshotOf(j) == Get(rooms, PlaceOf(s, j)))
    ensures QuietInv(Apply(s, e), rooms, hosts)
  {
    StepKeepsInv(s, e);
    HandlersStay(s, Apply(s, e), hosts);
  }

  lemma QuietStep(s: System, e: Step, rooms: Table<Place>, hosts: seq<nat>)
    requires QuietInv(s, rooms, hosts) && Enabled(s, e) && Quiet(e, hosts)
    ensures QuietInv(Apply(s, e), rooms, hosts)
  {
    match e
    case Send(_, _) => QuietSend(s, e, rooms, hosts);
    case Receive(k) => QuietSetStage(s, e, k, rooms, hosts);
    case Start(k) => QuietSetStage(s, e, k, rooms, hosts);
    case Deliver(k, _) =>
      assert JobOk(s, s.jobs[k]);
      QuietSetStage(s, e, k, rooms, hosts);
    case EndFan(k) =>
      assert JobOk(s, s.jobs[k]);
      NoneDead(s.jobs[k].stage.snapshot, s.jobs[k].stage.results);
      QuietSetStage(s, e, k, rooms, hosts);
  }

  ghost predicate QuietNext(s: System, s': System, hosts: seq<nat>) {
    exists e :: Enabled(s, e) && Quiet(e, hosts) && s' == Apply(s, e)
  }

  ghost predicate QuietBehaviour(ss: seq<System>, hosts: seq<nat>) {
    && ss != [] && Inv(ss[0]) && ss[0].jobs == [] && ss[0].events == []
    && forall i :: 0 < i < |ss| ==> QuietNext(ss[i - 1], ss[i], hosts)
  }

  lemma {:induction false} QuietBehaviourInv(ss: seq<System>, hosts: seq<nat>, i: nat)
    requires QuietBehaviour(ss, hosts) && i < |ss|
    ensures QuietInv(ss[i], ss[0].rooms, hosts)
  {
    if i > 0 {
      QuietBehaviourInv(ss, hosts, i - 1);
      assert QuietNext(ss[i - 1], ss[i], hosts);
      var e :| Enabled(ss[i - 1], e) && Quiet(e, hosts) && ss[i] == Apply(ss[i - 1], e);
      QuietStep(ss[i - 1], e, ss[0].rooms, hosts);
    }
  }

  ghost predicate Drained(s: System) {
    forall k :: 0 <= k < |s.jobs| ==> s.jobs[k].stage.Finished? || s.jobs[k].stage.Dropped?
  }

  predicate Got(s: System, k: nat, pos: nat, ws: Socket, event: nat) {
    Attempt(s, k, pos, ws) && s.jobs[k].event == event && ResultsOf(s.jobs[k])[pos]
  }

  /** Once the channel and the fan-outs have drained, every socket of the event's key on every process has got the
      event; OneAttempt says that it got it once. */
  lemma ExactlyOnce(ss: seq<System>, hosts: seq<nat>, s: System, event: nat, host: nat, ws: Socket)
    requires QuietBehaviour(ss, hosts) && s == ss[|ss| - 1] && Drained(s)
    requires event < |s.events| && host in hosts
    requires ws in Get(ss[0].rooms, Place(host, s.events[event].scope, s.events[event].key))
    ensures exists k: nat, pos: nat :: Got(s, k, pos, ws, event)
    ensures forall a: nat, i: nat, b: nat, j: nat :: Got(s, a, i, ws, event) && Got(s, b, j, ws, event) ==>
      a == b && i == j
  {
    QuietBehaviourInv(ss, hosts, |ss| - 1);
    assert Handled(s, event, host);
    var k: nat :| Handles(s, k, event, host);
    assert JobOk(s, s.jobs[k]);
    var snapshot := SnapshotOf(s.jobs[k]);
    assert snapshot == Get(ss[0].rooms, PlaceOf(s, s.jobs[k]));
    var pos: nat :| pos < |snapshot| && snapshot[pos] == ws;
    assert Got(s, k, pos, ws, event);
    forall a: nat, i: nat, b: nat, j: nat | Got(s, a, i, ws, event) && Got(s, b, j, ws, event)
      ensures a == b && i == j
    {
      OneAttempt(s, a, i, b, j, ws);
    }
  }
}
