/** Calls of add_family_act that overlap. A call loads the goal, adds one to the count it has loaded and writes the
    sum when it commits; it locks nothing in between. */
module FamilyActs {
  import opened Common
  import opened FamilyGoals

  /** What a call has loaded. `acts` is how many acts its goal had then; no step looks at it. */
  datatype Loaded = Loaded(goal: nat, done: int, version: int, requestId: Option<string>, acts: nat)

  datatype System = System(goals: seq<Goal>, acts: seq<Act>, calls: map<nat, Loaded>)

  /** `elsewhere` are the request ids on other rows of the activity table at that moment. */
  datatype Event =
    | Load(call: nat, requestId: Option<string>, order: seq<nat>, elsewhere: set<string>)
    | Commit(call: nat, elsewhere: set<string>)

  function ActsOn(acts: seq<Act>, goal: nat): nat {
    if acts == [] then 0 else ActsOn(acts[..|acts| - 1], goal) + if acts[|acts| - 1].goal == goal then 1 else 0
  }

  lemma ActsOnAppend(acts: seq<Act>, a: Act, goal: nat)
    ensures ActsOn(acts + [a], goal) == ActsOn(acts, goal) + if a.goal == goal then 1 else 0
  {
    assert (acts + [a])[..|acts|] == acts;
  }

  /** A call goes on to write unless its request id is found or there is no goal. */
  predicate Enabled(s: System, e: Event) {
    match e
    case Load(id, requestId, order, elsewhere) =>
      && id !in s.calls
      && (forall k :: 0 <= k < |order| ==> order[k] < |s.goals|)
      && Pick(s.goals, order).Some?
      && !(requestId.Some? && requestId.value != "" && Taken(s.acts, requestId, elsewhere))
    case Commit(id, _) => id in s.calls && s.calls[id].goal < |s.goals|
  }

  function Step(s: System, e: Event): System
    requires Enabled(s, e)
  {
    match e
    case Load(id, requestId, order, _) =>
      var i := Pick(s.goals, order).value;
      s.(calls := s.calls[id := Loaded(i, s.goals[i].done, s.goals[i].version, requestId, ActsOn(s.acts, i))])
    case Commit(id, elsewhere) =>
      var c := s.calls[id];
      if Taken(s.acts, c.requestId, elsewhere) then s.(calls := s.calls - {id})
      else System(s.goals[c.goal := s.goals[c.goal].(done := c.done + 1, version := c.version + 1)],
                  s.acts + [Act(c.goal, c.requestId)], s.calls - {id})
  }

  /** This commit goes through. */
  predicate Writes(s: System, e: Event, goal: nat) {
    e.Commit? && e.call in s.calls && s.calls[e.call].goal == goal
      && !Taken(s.acts, s.calls[e.call].requestId, e.elsewhere)
  }

  /** This commit goes through although another act on the goal has been committed since it loaded the count. */
  predicate Stale(s: System, e: Event, goal: nat) {
    Writes(s, e, goal) && s.calls[e.call].acts != ActsOn(s.acts, goal)
  }

  // ---------------------------------------------------------------------------
  // Alone
  // ---------------------------------------------------------------------------

  /** With nothing between its load and its commit a call does what it does in a serial run. */
  lemma AloneIsSerial(s: System, id: nat, requestId: Option<string>, order: seq<nat>, elsewhere: set<string>)
    requires Enabled(s, Load(id, requestId, order, elsewhere))
    ensures var s1 := Step(s, Load(id, requestId, order, elsewhere));
            && Enabled(s1, Commit(id, elsewhere))
            && var s2 := Step(s1, Commit(id, elsewhere));
               State(s2.goals, s2.acts) == AddAct(State(s.goals, s.acts), requestId, order, elsewhere).0
                 && s2.calls == s.calls
  {
    var s1 := Step(s, Load(id, requestId, order, elsewhere));
    assert s1.calls - {id} == s.calls;
  }

  // ---------------------------------------------------------------------------
  // Counting acts
  // ---------------------------------------------------------------------------

  /** Calls that have loaded this goal know a number of acts that has been reached. */
  ghost predicate CallsOk(s: System, goal: nat) {
    && goal < |s.goals|
    && forall id :: id in s.calls && s.calls[id].goal == goal ==> s.calls[id].acts <= ActsOn(s.acts, goal)
  }

  /** The count and the acts are in step, and so was every count that has been loaded. */
  ghost predicate InStep(s: System, goal: nat, base: int) {
    && CallsOk(s, goal)
    && s.goals[goal].done == base + ActsOn(s.acts, goal)
    && forall id :: id in s.calls && s.calls[id].goal == goal ==> s.calls[id].done == base + s.calls[id].acts
  }

  /** The count is behind, and nobody can bring it back: whoever has loaded a count from before is out of date. */
  ghost predicate Behind(s: System, goal: nat, base: int) {
    && CallsOk(s, goal)
    && s.goals[goal].done < base + ActsOn(s.acts, goal)
    && forall id :: id in s.calls && s.calls[id].goal == goal ==>
         s.calls[id].done <= base + s.calls[id].acts
         && (s.calls[id].done == base + s.calls[id].acts ==> s.calls[id].acts < ActsOn(s.acts, goal))
  }

  lemma StepCounts(s: System, e: Event, goal: nat, base: int)
    requires Enabled(s, e)
    ensures InStep(s, goal, base) && !Stale(s, e, goal) ==> InStep(Step(s, e), goal, base)
    ensures InStep(s, goal, base) && Stale(s, e, goal) ==> Behind(Step(s, e), goal, base)
    ensures Behind(s, goal, base) ==> Behind(Step(s, e), goal, base)
  {
    if e.Commit? {
      ActsOnAppend(s.acts, Act(s.calls[e.call].goal, s.calls[e.call].requestId), goal);
    }
  }

  ghost predicate MovesAt(ss: seq<System>, es: seq<Event>, k: nat) {
    k < |es| && k + 1 < |ss| && Enabled(ss[k], es[k]) && ss[k + 1] == Step(ss[k], es[k])
  }

  ghost predicate Behaviour(ss: seq<System>, es: seq<Event>) {
    |ss| == |es| + 1 && forall k: nat :: k < |es| ==> MovesAt(ss, es, k)
  }

  ghost predicate StaleAt(ss: seq<System>, es: seq<Event>, k: nat, goal: nat) {
    k < |es| && k < |ss| && Stale(ss[k], es[k], goal)
  }

  lemma {:induction false} CountsAt(ss: seq<System>, es: seq<Event>, k: nat, goal: nat, base: int)
    requires Behaviour(ss, es) && k <= |es| && InStep(ss[0], goal, base)
    ensures (forall j: nat :: j < k ==> !StaleAt(ss, es, j, goal)) ==> InStep(ss[k], goal, base)
    ensures (exists j: nat :: j < k && StaleAt(ss, es, j, goal)) ==> Behind(ss[k], goal, base)
  {
    if k > 0 {
      CountsAt(ss, es, k - 1, goal, base);
      assert MovesAt(ss, es, k - 1);
      StepCounts(ss[k - 1], es[k - 1], goal, base);
      assert Stale(ss[k - 1], es[k - 1], goal) == StaleAt(ss, es, k - 1, goal);
    }
  }

  /** However the calls overlap: the count of a goal has grown by exactly its recorded acts if and only if no act on
      it was committed between the load and the commit of another one. */
  lemma EveryActCountsIff(ss: seq<System>, es: seq<Event>, goal: nat)
    requires Behaviour(ss, es) && ss[0].calls == map[] && goal < |ss[0].goals|
    ensures var first, last := ss[0], ss[|es|];
            && goal < |last.goals|
            && (last.goals[goal].done - first.goals[goal].done == ActsOn(last.acts, goal) - ActsOn(first.acts, goal)
                <==> forall j: nat :: j < |es| ==> !StaleAt(ss, es, j, goal))
            && last.goals[goal].done - first.goals[goal].done <= ActsOn(last.acts, goal) - ActsOn(first.acts, goal)
  {
    CountsAt(ss, es, |es|, goal, ss[0].goals[goal].done - ActsOn(ss[0].acts, goal));
  }

  /** The constraint holds in every interleaving: no request id has two acts. */
  lemma {:induction false} OneActPerRequest(ss: seq<System>, es: seq<Event>, k: nat)
    requires Behaviour(ss, es) && k <= |es| && UniqueRequests(ss[0].acts)
    ensures UniqueRequests(ss[k].acts)
  {
    if k > 0 {
      OneActPerRequest(ss, es, k - 1);
      assert MovesAt(ss, es, k - 1);
    }
  }

  lemma Extend(ss: seq<System>, es: seq<Event>, e: Event) returns (more: seq<System>, events: seq<Event>)
    requires Behaviour(ss, es) && Enabled(ss[|es|], e)
    ensures Behaviour(more, events) && more[0] == ss[0] && |events| == |es| + 1
    ensures more[|events|] == Step(ss[|es|], e)
  {
    more, events := ss + [Step(ss[|es|], e)], es + [e];
    forall k: nat | k < |events| ensures MovesAt(more, events, k) {
      if k < |es| {
        assert MovesAt(ss, es, k);
      }
    }
  }

  /** An act can get lost: two calls that load before either commits record two acts and count one. */
  lemma LostAct(goals: seq<Goal>, order: seq<nat>, i: nat)
    requires (forall k :: 0 <= k < |order| ==> order[k] < |goals|) && Pick(goals, order) == Some(i)
    ensures exists ss: seq<System>, es: seq<Event> ::
              Behaviour(ss, es) && ss[0] == System(goals, [], map[]) && OneOfTwo(goals, ss[|es|], i)
  {
    var load := Loaded(i, goals[i].done, goals[i].version, None, 0);
    var ss, es := [System(goals, [], map[])], [];
    ss, es := Extend(ss, es, Load(0, None, order, {}));
    assert ss[|es|] == System(goals, [], map[0 := load]);
    ss, es := Extend(ss, es, Load(1, None, order, {}));
    assert ss[|es|] == System(goals, [], map[0 := load, 1 := load]);
    ss, es := Extend(ss, es, Commit(0, {}));
    assert ss[|es|].calls[1] == load;
    ss, es := Extend(ss, es, Commit(1, {}));
    assert OneOfTwo(goals, ss[|es|], i);
  }

  /** Two acts are recorded, one is counted. */
  predicate OneOfTwo(before: seq<Goal>, s: System, i: nat)
    requires i < |before|
  {
    |s.goals| == |before| && |s.acts| == 2 && s.acts[0].goal == s.acts[1].goal == i
      && s.goals[i].done == before[i].done + 1
  }
}
