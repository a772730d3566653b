/** Which family goal an act counts for, and which one the family card shows: add_family_act of app/family/service.py,
    list_family_goals and list_user_family_summaries of app/family/repository.py. One family's goals are modelled. */
module FamilyGoals {
  import opened Common

  /** A family_goals row; its position is its id. */
  datatype Goal = Goal(createdAt: int, completedAt: Option<int>, archived: bool, deleted: bool, done: int, version: int)

  /** An ACT_ADDED row of the timeline. */
  datatype Act = Act(goal: nat, requestId: Option<string>)

  datatype Response = Shown(goal: nat) | NoGoal | Conflict

  predicate Listed(g: Goal) {
    !g.deleted && !g.archived
  }

  predicate Unfinished(g: Goal) {
    g.completedAt.None?
  }

  // ---------------------------------------------------------------------------
  // The two queries
  // ---------------------------------------------------------------------------

  /** A result of list_family_goals: the listed goals by created_at descending. The query has no second key, so goals
      created at the same moment may come in either order. */
  ghost predicate Listing(goals: seq<Goal>, order: seq<nat>) {
    && (forall k :: 0 <= k < |order| ==> order[k] < |goals| && Listed(goals[order[k]]))
    && (forall i :: 0 <= i < |goals| && Listed(goals[i]) ==> i in order)
    && (forall j, k :: 0 <= j < k < |order| ==> order[j] != order[k])
    && (forall j, k :: 0 <= j < k < |order| ==> goals[order[j]].createdAt >= goals[order[k]].createdAt)
  }

  /** The first unfinished goal of the list, else its first goal. */
  function Pick(goals: seq<Goal>, order: seq<nat>): (r: Option<nat>)
    requires forall k :: 0 <= k < |order| ==> order[k] < |goals|
    ensures r.Some? ==> r.value < |goals|
    ensures r.None? <==> order == []
  {
    var k := FirstUnfinished(goals, order);
    if k < |order| then Some(order[k]) else if order != [] then Some(order[0]) else None
  }

  function FirstUnfinished(goals: seq<Goal>, order: seq<nat>): (k: nat)
    requires forall k :: 0 <= k < |order| ==> order[k] < |goals|
    ensures k <= |order|
    ensures k < |order| ==> Unfinished(goals[order[k]])
    ensures forall j :: 0 <= j < k ==> !Unfinished(goals[order[j]])
  {
    if order == [] then 0
    else if Unfinished(goals[order[0]]) then 0
    else 1 + FirstUnfinished(goals, order[1..])
  }

  /** Row order of the card query: unfinished goals first, then newer, then greater id. */
  predicate Preferred(goals: seq<Goal>, i: nat, j: nat)
    requires i < |goals| && j < |goals|
  {
    var a, b := goals[i], goals[j];
    if Unfinished(a) != Unfinished(b) then Unfinished(a)
    else if a.createdAt != b.createdAt then a.createdAt > b.createdAt
    else i > j
  }

  /** The goal whose title and counts the card shows. */
  function Card(goals: seq<Goal>): (r: Option<nat>)
    ensures r.None? <==> forall i :: 0 <= i < |goals| ==> !Listed(goals[i])
    ensures r.Some? ==> r.value < |goals| && Listed(goals[r.value])
    ensures r.Some? ==> forall i :: 0 <= i < |goals| && Listed(goals[i]) && i != r.value ==>
      Preferred(goals, r.value, i)
  {
    CardUpTo(goals, |goals|)
  }

  function CardUpTo(goals: seq<Goal>, n: nat): (r: Option<nat>)
    requires n <= |goals|
    ensures r.None? <==> forall i :: 0 <= i < n ==> !Listed(goals[i])
    ensures r.Some? ==> r.value < n && Listed(goals[r.value])
    ensures r.Some? ==> forall i :: 0 <= i < n && Listed(goals[i]) && i != r.value ==> Preferred(goals, r.value, i)
  {
    if n == 0 then None
    else
      var r := CardUpTo(goals, n - 1);
      if !Listed(goals[n - 1]) then r
      else if r.None? || Preferred(goals, n - 1, r.value) then Some(n - 1)
      else r
  }

  /** The goal chosen is the first of the list that has not been completed, and the first of all when all have been. */
  lemma PickIs(goals: seq<Goal>, order: seq<nat>)
    requires forall k :: 0 <= k < |order| ==> order[k] < |goals|
    ensures forall k ::
              (0 <= k < |order| && goals[order[k]].completedAt.None?
               && forall j :: 0 <= j < k ==> goals[order[j]].completedAt.Some?) ==>
                Pick(goals, order) == Some(order[k])
    ensures order != [] && (forall k :: 0 <= k < |order| ==> goals[order[k]].completedAt.Some?) ==>
              Pick(goals, order) == Some(order[0])
  {
    forall k | 0 <= k < |order| && goals[order[k]].completedAt.None?
             && (forall j :: 0 <= j < k ==> goals[order[j]].completedAt.Some?)
      ensures Pick(goals, order) == Some(order[k])
    {
      FirstUnfinishedIs(goals, order, k);
    }
  }

  /** The card's goal, in the columns of the table: neither deleted nor archived, and against every other such goal not
      completed while that one is, or else younger, or else with the greater id. */
  lemma CardIs(goals: seq<Goal>, c: nat)
    ensures Card(goals) == Some(c) <==>
            c < |goals| && !goals[c].deleted && !goals[c].archived
            && (forall i :: 0 <= i < |goals| && i != c && !goals[i].deleted && !goals[i].archived ==>
                  var a, b := goals[c], goals[i];
                  if a.completedAt.None? && b.completedAt.Some? then true
                  else if a.completedAt.Some? && b.completedAt.None? then false
                  else a.createdAt > b.createdAt || (a.createdAt == b.createdAt && c > i))
  {
    if c < |goals| && Listed(goals[c]) && Card(goals) != Some(c) {
      assert Preferred(goals, Card(goals).value, c) && !Preferred(goals, c, Card(goals).value);
    }
  }

  // ---------------------------------------------------------------------------
  // Adding an act
  // ---------------------------------------------------------------------------

  datatype State = State(goals: seq<Goal>, acts: seq<Act>)

  predicate Recorded(acts: seq<Act>, requestId: Option<string>) {
    exists k :: 0 <= k < |acts| && acts[k].requestId == requestId
  }

  /** Request ids are unique over all families: `elsewhere` are those on other rows of the table. */
  predicate Taken(acts: seq<Act>, requestId: Option<string>, elsewhere: set<string>) {
    requestId.Some? && (requestId.value in elsewhere || Recorded(acts, requestId))
  }

  /** A call that runs alone. The empty id is not looked up, but its constraint refuses it the second time. */
  function AddAct(s: State, requestId: Option<string>, order: seq<nat>, elsewhere: set<string>): (State, Response)
    requires forall k :: 0 <= k < |order| ==> order[k] < |s.goals|
  {
    var picked := Pick(s.goals, order);
    if picked.None? then (s, NoGoal)
    else if Taken(s.acts, requestId, elsewhere)
      then (s, if requestId.value == "" then Conflict else Shown(picked.value))
    else
      var g := s.goals[picked.value];
      (State(s.goals[picked.value := g.(done := g.done + 1, version := g.version + 1)],
             s.acts + [Act(picked.value, requestId)]),
       Shown(picked.value))
  }

  class FamilyJar {
    var goals: seq<Goal>
    var acts: seq<Act>

    constructor (goals: seq<Goal>)
      ensures this.goals == goals && acts == []
    {
      this.goals, acts := goals, [];
    }

    /** The loop that looks for the active goal. */
    method ChooseGoal(order: seq<nat>) returns (picked: Option<nat>)
      requires forall k :: 0 <= k < |order| ==> order[k] < |goals|
      ensures picked == Pick(goals, order)
    {
      var k := 0;
      while k < |order|
        invariant 0 <= k <= |order|
        invariant forall j :: 0 <= j < k ==> !Unfinished(goals[order[j]])
      {
        if goals[order[k]].completedAt.None? {
          FirstUnfinishedIs(goals, order, k);
          return Some(order[k]);
        }
        k := k + 1;
      }
      FirstUnfinishedIs(goals, order, k);
      picked := if order == [] then None else Some(order[0]);
    }

    method AddFamilyAct(requestId: Option<string>, order: seq<nat>, elsewhere: set<string>) returns (r: Response)
      requires forall k :: 0 <= k < |order| ==> order[k] < |goals|
      modifies this
      ensures (State(goals, acts), r) == AddAct(State(old(goals), old(acts)), requestId, order, elsewhere)
    {
      if requestId.Some? && requestId.value != "" && Taken(acts, requestId, elsewhere) {
        var shown := ChooseGoal(order);
        if shown.Some? {
          return Shown(shown.value);
        }
      }
      if order == [] {
        return NoGoal;
      }
      var picked := ChooseGoal(order);
      var saved := goals;
      var g := goals[picked.value];
      goals := goals[picked.value := g.(done := g.done + 1, version := g.version + 1)];
      if Taken(acts, requestId, elsewhere) {
        goals := saved;
        return Conflict;
      }
      acts := acts + [Act(picked.value, requestId)];
      r := Shown(picked.value);
    }
  }

  lemma {:induction false} FirstUnfinishedIs(goals: seq<Goal>, order: seq<nat>, k: nat)
    requires forall j :: 0 <= j < |order| ==> order[j] < |goals|
    requires k <= |order| && (k < |order| ==> Unfinished(goals[order[k]]))
    requires forall j :: 0 <= j < k ==> !Unfinished(goals[order[j]])
    ensures FirstUnfinished(goals, order) == k
  {
    var f := FirstUnfinished(goals, order);
    assert f == k;
  }

  // ---------------------------------------------------------------------------
  // The card shows the goal that is counted
  // ---------------------------------------------------------------------------

  /** Another listed goal that the list may place level with goal c. */
  ghost predicate Tied(goals: seq<Goal>, c: nat, d: nat) {
    && c < |goals| && d < |goals| && c != d
    && Listed(goals[d]) && Unfinished(goals[c]) == Unfinished(goals[d]) && goals[c].createdAt == goals[d].createdAt
  }

  lemma PickIsCard(goals: seq<Goal>, order: seq<nat>)
    requires Listing(goals, order)
    requires Card(goals).Some? ==> forall d :: !Tied(goals, Card(goals).value, d)
    ensures Pick(goals, order) == Card(goals)
  {
    if order == [] {
      return;
    }
    assert Listed(goals[order[0]]);
    var c, p := Card(goals).value, Pick(goals, order).value;
    var k := FirstUnfinished(goals, order);
    var at :| 0 <= at < |order| && order[at] == c;
    assert k <= at || !Unfinished(goals[c]);
    assert p != c ==> Preferred(goals, c, p) && !Tied(goals, c, p);
  }

  function Swap(s: seq<nat>, i: nat, j: nat): seq<nat>
    requires i < |s| && j < |s|
  {
    s[i := s[j]][j := s[i]]
  }

  lemma SwapMembers(s: seq<nat>, i: nat, j: nat)
    requires i < j < |s|
    requires forall a, b :: 0 <= a < b < |s| ==> s[a] != s[b]
    ensures forall x :: x in s ==> x in Swap(s, i, j)
    ensures forall a, b :: 0 <= a < b < |s| ==> Swap(s, i, j)[a] != Swap(s, i, j)[b]
  {
    var t := Swap(s, i, j);
    forall x | x in s ensures x in t {
      var k :| 0 <= k < |s| && s[k] == x;
      assert t[if k == i then j else if k == j then i else k] == x;
    }
  }

  /** Two goals of the same age can trade places in the list. */
  lemma SwapListing(goals: seq<Goal>, order: seq<nat>, i: nat, j: nat)
    requires Listing(goals, order) && i < j < |order|
    requires goals[order[i]].createdAt == goals[order[j]].createdAt
    ensures Listing(goals, Swap(order, i, j))
  {
    SwapMembers(order, i, j);
    SameAgesList(goals, order, Swap(order, i, j));
  }

  lemma SameAgesList(goals: seq<Goal>, order: seq<nat>, s: seq<nat>)
    requires Listing(goals, order) && |s| == |order|
    requires forall k :: 0 <= k < |s| ==> s[k] < |goals| && Listed(goals[s[k]])
    requires forall k :: 0 <= k < |s| ==> goals[s[k]].createdAt == goals[order[k]].createdAt
    requires forall a, b :: 0 <= a < b < |s| ==> s[a] != s[b]
    requires forall x :: x in order ==> x in s
    ensures Listing(goals, s)
  {
    forall a, b | 0 <= a < b < |s| ensures goals[s[a]].createdAt >= goals[s[b]].createdAt {
      assert goals[order[a]].createdAt >= goals[order[b]].createdAt;
    }
  }

  /** The act is counted for the goal on the card, whichever order the database lists equal timestamps in, if and only
      if no other listed goal of the same kind was created at the same moment as the card's goal. */
  lemma CardAgreesIff(goals: seq<Goal>, order: seq<nat>)
    requires Listing(goals, order) && Card(goals).Some?
    ensures (forall o :: Listing(goals, o) ==> Pick(goals, o) == Card(goals))
            <==> forall d :: !Tied(goals, Card(goals).value, d)
  {
    var c := Card(goals).value;
    if forall d :: !Tied(goals, c, d) {
      forall o | Listing(goals, o) ensures Pick(goals, o) == Card(goals) {
        PickIsCard(goals, o);
      }
    } else {
      var d :| Tied(goals, c, d);
      if Pick(goals, order) == Some(c) {
        var i :| 0 <= i < |order| && order[i] == c;
        var j :| 0 <= j < |order| && order[j] == d;
        var o := PickMoves(goals, order, i, j);
      }
    }
  }

  lemma PickMoves(goals: seq<Goal>, order: seq<nat>, i: nat, j: nat) returns (o: seq<nat>)
    requires Listing(goals, order) && i < |order| && j < |order|
    requires Pick(goals, order) == Some(order[i]) && Tied(goals, order[i], order[j])
    ensures Listing(goals, o) && Pick(goals, o) != Some(order[i])
  {
    o := Swap(order, i, j);
    assert i < j;
    SwapListing(goals, order, i, j);
    FirstUnfinishedIs(goals, o, FirstUnfinished(goals, order));
  }

  // ---------------------------------------------------------------------------
  // Runs
  // ---------------------------------------------------------------------------

  function TotalDone(goals: seq<Goal>): int {
    if goals == [] then 0 else TotalDone(goals[..|goals| - 1]) + goals[|goals| - 1].done
  }

  lemma {:induction false} TotalDoneUpdate(goals: seq<Goal>, i: nat, g: Goal)
    requires i < |goals|
    ensures TotalDone(goals[i := g]) == TotalDone(goals) - goals[i].done + g.done
  {
    var last := |goals| - 1;
    if i == last {
      assert goals[i := g][..last] == goals[..last];
    } else {
      TotalDoneUpdate(goals[..last], i, g);
      assert goals[i := g][..last] == goals[..last][i := g];
    }
  }

  /** request_id is unique over the whole timeline. */
  ghost predicate UniqueRequests(acts: seq<Act>) {
    forall i, j :: 0 <= i < j < |acts| && acts[i].requestId.Some? ==> acts[i].requestId != acts[j].requestId
  }

  /** The request id is on another row of the activity table. */
  ghost predicate Used(acts: seq<Act>, c: Call) {
    c.requestId.Some?
    && (c.requestId.value in c.elsewhere || exists k :: 0 <= k < |acts| && acts[k].requestId == c.requestId)
  }

  /** A call counts exactly when the family has a goal and its request id is not in use: then one act is recorded for
      the chosen goal and that goal's count and version go up by one. Any other call changes nothing; a repeated id is
      answered with the goal chosen now, a repeated empty id is refused. Acts and counts stay in step and no request id
      counts twice. */
  lemma AddActCounts(s: State, c: Call)
    requires forall k :: 0 <= k < |c.order| ==> c.order[k] < |s.goals|
    requires UniqueRequests(s.acts)
    ensures var s', r, picked := After(s, c), AddAct(s, c.requestId, c.order, c.elsewhere).1, Pick(s.goals, c.order);
            && UniqueRequests(s'.acts)
            && TotalDone(s'.goals) - TotalDone(s.goals) == |s'.acts| - |s.acts|
            && (picked.None? ==> s' == s && r == NoGoal)
            && (picked.Some? && Used(s.acts, c) ==>
                  s' == s && r == if c.requestId == Some("") then Conflict else Shown(picked.value))
            && (picked.Some? && !Used(s.acts, c) ==>
                  && r == Shown(picked.value)
                  && s'.acts == s.acts + [Act(picked.value, c.requestId)]
                  && |s'.goals| == |s.goals|
                  && var g, g' := s.goals[picked.value], s'.goals[picked.value];
                     && g'.done == g.done + 1 && g'.version == g.version + 1
                     && g'.createdAt == g.createdAt && g'.completedAt == g.completedAt
                     && g'.archived == g.archived && g'.deleted == g.deleted
                     && forall i :: 0 <= i < |s.goals| && i != picked.value ==> s'.goals[i] == s.goals[i])
  {
    var s' := After(s, c);
    var picked := Pick(s.goals, c.order);
    if s' != s {
      TotalDoneUpdate(s.goals, picked.value, s'.goals[picked.value]);
    }
  }

  datatype Call = Call(requestId: Option<string>, order: seq<nat>, elsewhere: set<string>)

  function After(s: State, c: Call): State
    requires forall k :: 0 <= k < |c.order| ==> c.order[k] < |s.goals|
  {
    AddAct(s, c.requestId, c.order, c.elsewhere).0
  }

  function AddAll(s: State, calls: seq<Call>): State
    requires forall i, k :: 0 <= i < |calls| && 0 <= k < |calls[i].order| ==> calls[i].order[k] < |s.goals|
    decreases |calls|
  {
    if calls == [] then s else AddAll(After(s, calls[0]), calls[1..])
  }

  /** Over any run of calls, one after the other, the acts counted on the goals are the acts on the timeline, at most
      one per request id. */
  lemma {:induction false} ActsAreConserved(s: State, calls: seq<Call>)
    requires forall i, k :: 0 <= i < |calls| && 0 <= k < |calls[i].order| ==> calls[i].order[k] < |s.goals|
    requires UniqueRequests(s.acts)
    ensures UniqueRequests(AddAll(s, calls).acts)
    ensures TotalDone(AddAll(s, calls).goals) - TotalDone(s.goals) == |AddAll(s, calls).acts| - |s.acts|
    decreases |calls|
  {
    if calls != [] {
      AddActCounts(s, calls[0]);
      ActsAreConserved(After(s, calls[0]), calls[1..]);
    }
  }
}
