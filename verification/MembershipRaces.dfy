/** The membership operations interleaved. An operation checks the committed tables, and writes later what it has
    decided on; other operations commit in between. Only the unique constraint on (family, user) stands in the way of
    a commit. */
module MembershipRaces {
  import opened Common
  import opened Membership

  /** What a call is about to write. */
  datatype Call =
    | SetRole(row: nat, loaded: Role, role: Role)
    | RemoveRow(row: nat)
    | DropFamily(family: nat)
    | AddInvitation(invitation: Invitation)
    | Answer(invitationId: nat, status: Status)
    | Admitting(familyId: nat, userId: int, through: Option<nat>)   // the checks of a join have passed
    | Inserting(familyId: nat, userId: int, through: Option<nat>)   // and it has found no row to revive
    | Closed

  datatype System = System(db: State, calls: map<nat, Call>)

  datatype Event =
    | Begin(call: nat, op: Op)
    | FindNoRow(call: nat)
    | Commit(call: nat)
    | Atomic(single: Op)       // creating a family, and the one statement that expires invitations

  /** The write that an operation decides on when it finds the tables like this, if it gets that far. */
  function Intent(s: State, op: Op): Option<Call> {
    var fine := Apply(s, op).1 == Fine;
    match op
    case CreateFamily(_) => None
    case ExpireInvitations(_, _, _) => None
    case DeleteFamily(f, _) => if fine then Some(DropFamily(f)) else None
    case UpdateRole(_, m, role, _) => if fine then Some(SetRole(m, s.members[m].role, role)) else None
    case RemoveMember(_, m, _) => if fine then Some(RemoveRow(m)) else None
    case LeaveFamily(f, actor) => if fine then Some(RemoveRow(FindRow(s.members, f, actor).value)) else None
    case Invite(f, actor, toUser, toEmail, now) =>
      if fine then Some(AddInvitation(Invitation(f, actor, toUser, toEmail, Pending, now + SEVEN_DAYS))) else None
    case CancelInvitation(_, i, _) => if fine then Some(Answer(i, Cancelled)) else None
    case Decline(i, _, _) =>
      if fine then Some(Answer(i, Declined)) else if Apply(s, op).0 != s then Some(Answer(i, Expired)) else None
    case Join(code, who, now) =>
      var to := Destination(s, code, who, now);
      if to.Some? then Some(Admitting(to.value, who.id, if code.InvitationCode? then Some(code.id) else None))
      else if Apply(s, op).0 != s && code.InvitationCode? then Some(Answer(code.id, Expired))
      else None
  }

  /** An admission records the join and marks its invitation accepted, whatever its status has become. */
  function Admitted(s: State, f: nat, user: int, through: Option<nat>): State {
    var s1 := s.(members := Admit(s.members, f, user), joins := s.joins + [Joined(user, f, through)]);
    if through.Some? && through.value < |s.invitations| then WithStatus(s1, through.value, Accepted) else s1
  }

  /** What a commit does. An UPDATE names only the columns that differ from what was loaded. A row that an admission
      revives is locked from its lookup on; an insert can find that another one was faster, and is rolled back. */
  function Effect(s: State, c: Call): State {
    match c
    case SetRole(m, loaded, role) =>
      if m < |s.members| && role != loaded then s.(members := s.members[m := s.members[m].(role := role)]) else s
    case RemoveRow(m) => if m < |s.members| then s.(members := s.members[m := s.members[m].(deleted := true)]) else s
    case DropFamily(f) => if f < |s.families| then s.(families := s.families[f := s.families[f].(deleted := true)])
      else s
    case AddInvitation(inv) => s.(invitations := s.invitations + [inv])
    case Answer(i, status) => if i < |s.invitations| then WithStatus(s, i, status) else s
    case Admitting(f, user, through) => Admitted(s, f, user, through)
    case Inserting(f, user, through) => if FindRow(s.members, f, user).Some? then s else Admitted(s, f, user, through)
    case Closed => s
  }

  predicate Enabled(s: System, e: Event) {
    match e
    case Begin(id, op) => id !in s.calls && Intent(s.db, op).Some?
    case FindNoRow(id) =>
      id in s.calls && s.calls[id].Admitting? && FindRow(s.db.members, s.calls[id].familyId, s.calls[id].userId).None?
    case Commit(id) => id in s.calls && !s.calls[id].Closed?
    case Atomic(op) => op.CreateFamily? || op.ExpireInvitations?
  }

  function Step(s: System, e: Event): System
    requires Enabled(s, e)
  {
    match e
    case Begin(id, op) => s.(calls := s.calls[id := Intent(s.db, op).value])
    case FindNoRow(id) =>
      var c := s.calls[id];
      s.(calls := s.calls[id := Inserting(c.familyId, c.userId, c.through)])
    case Commit(id) => System(Effect(s.db, s.calls[id]), s.calls[id := Closed])
    case Atomic(op) => s.(db := Apply(s.db, op).0)
  }

  /** Begun and committed with nothing in between, an operation does what it does in a serial run. */
  lemma AloneIsSerial(s: State, op: Op)
    requires RowsOk(s) && Intent(s, op).Some?
    ensures Effect(s, Intent(s, op).value) == Apply(s, op).0
  {
  }

  // ---------------------------------------------------------------------------
  // What every interleaving keeps
  // ---------------------------------------------------------------------------

  /** The membership row of somebody who has not created the family. */
  predicate NotCreator(s: State, m: nat) {
    m < |s.members| && s.members[m].familyId < |s.families|
    && s.members[m].userId != s.families[s.members[m].familyId].createdBy
  }

  ghost predicate CallOk(s: State, c: Call) {
    match c
    case SetRole(m, _, _) => NotCreator(s, m)
    case RemoveRow(m) => NotCreator(s, m)
    case DropFamily(f) => f < |s.families|
    case AddInvitation(inv) => true
    case Answer(i, status) => i < |s.invitations| && status != Pending && status != Accepted
    case Admitting(f, _, through) => f < |s.families| && (through.Some? ==> through.value < |s.invitations|)
    case Inserting(f, _, through) => f < |s.families| && (through.Some? ==> through.value < |s.invitations|)
    case Closed => true
  }

  ghost predicate TablesOk(s: State) {
    && RowsOk(s)
    && (forall f :: 0 <= f < |s.families| ==> CreatorOwns(s, f))
    && (forall j :: 0 <= j < |s.joins| && s.joins[j].invitation.Some? ==>
          s.joins[j].invitation.value < |s.invitations| && s.invitations[s.joins[j].invitation.value].status != Pending)
  }

  ghost predicate Inv(s: System) {
    && TablesOk(s.db)
    && forall id :: id in s.calls ==> CallOk(s.db, s.calls[id])
  }

  /** Rows keep their family and user, families their creator, answered invitations never become pending again. */
  ghost predicate Onward(s: State, s': State) {
    && |s.families| <= |s'.families| && |s.members| <= |s'.members| && |s.invitations| <= |s'.invitations|
    && s.joins <= s'.joins
    && (forall f :: 0 <= f < |s.families| ==> s'.families[f].createdBy == s.families[f].createdBy)
    && (forall m :: 0 <= m < |s.members| ==>
          s'.members[m].familyId == s.members[m].familyId && s'.members[m].userId == s.members[m].userId)
    && (forall i :: 0 <= i < |s.invitations| && s.invitations[i].status != Pending ==>
      s'.invitations[i].status != Pending)
  }

  lemma CallSurvives(s: State, s': State, c: Call)
    requires RowsOk(s) && CallOk(s, c) && Onward(s, s')
    ensures CallOk(s', c)
  {
  }

  /** The creator's row is the only one of its family and user, and an owner's; so a call that has passed the owner
      check is about another row. */
  lemma NotTheOwner(s: State, m: nat)
    requires TablesOk(s) && m < |s.members| && s.members[m].role != Owner
    ensures NotCreator(s, m)
  {
    var f := s.members[m].familyId;
    assert CreatorOwns(s, f);
    var o :| 0 <= o < |s.members| && s.members[o] == Row(f, s.families[f].createdBy, Owner, false);
    assert o != m;
  }

  lemma IntentOk(s: State, op: Op)
    requires TablesOk(s) && Intent(s, op).Some?
    ensures CallOk(s, Intent(s, op).value)
  {
    match op
    case UpdateRole(_, m, _, _) => NotTheOwner(s, m);
    case RemoveMember(_, m, _) => NotTheOwner(s, m);
    case LeaveFamily(f, actor) => NotTheOwner(s, FindRow(s.members, f, actor).value);
    case _ =>
  }

  lemma AdmittedOk(s: State, f: nat, user: int, through: Option<nat>)
    requires TablesOk(s) && f < |s.families| && (through.Some? ==> through.value < |s.invitations|)
    ensures TablesOk(Admitted(s, f, user, through)) && Onward(s, Admitted(s, f, user, through))
  {
    AdmitOk(s.members, f, user);
    var s' := Admitted(s, f, user, through);
    forall g | 0 <= g < |s'.families| ensures CreatorOwns(s', g) {
      assert CreatorOwns(s, g);
      var m :| 0 <= m < |s.members| && s.members[m] == Row(g, s.families[g].createdBy, Owner, false);
      assert s'.members[m] == s.members[m];
    }
    assert forall j :: 0 <= j < |s.joins| ==> s'.joins[j] == s.joins[j];
  }

  lemma RowEditOk(s: State, m: nat, row: Row)
    requires TablesOk(s) && NotCreator(s, m)
    requires row.familyId == s.members[m].familyId && row.userId == s.members[m].userId
    ensures TablesOk(s.(members := s.members[m := row])) && Onward(s, s.(members := s.members[m := row]))
  {
    var s' := s.(members := s.members[m := row]);
    forall g | 0 <= g < |s'.families| ensures CreatorOwns(s', g) {
      assert CreatorOwns(s, g);
      var o :| 0 <= o < |s.members| && s.members[o] == Row(g, s.families[g].createdBy, Owner, false);
      assert s'.members[o] == s.members[o];
    }
  }

  lemma SameMembers(s: State, s': State)
    requires TablesOk(s) && s'.members == s.members && s'.joins == s.joins && Onward(s, s')
      && |s'.families| == |s.families|
    ensures TablesOk(s')
  {
    forall g | 0 <= g < |s'.families| ensures CreatorOwns(s', g) {
      assert CreatorOwns(s, g);
    }
  }

  lemma EffectOk(s: State, c: Call)
    requires TablesOk(s) && CallOk(s, c)
    ensures TablesOk(Effect(s, c)) && Onward(s, Effect(s, c))
  {
    match c
    case SetRole(m, loaded, role) =>
      RowEditOk(s, m, s.members[m].(role := if role != loaded then role else s.members[m].role));
    case RemoveRow(m) => RowEditOk(s, m, s.members[m].(deleted := true));
    case Admitting(f, user, through) => AdmittedOk(s, f, user, through);
    case Inserting(f, user, through) => AdmittedOk(s, f, user, through);
    case _ => SameMembers(s, Effect(s, c));
  }

  lemma AtomicOk(s: State, op: Op)
    requires TablesOk(s) && (op.CreateFamily? || op.ExpireInvitations?)
    ensures TablesOk(Apply(s, op).0) && Onward(s, Apply(s, op).0)
  {
    var s' := Apply(s, op).0;
    FamilyStep(s, op);
    OwnersStay(s, s');
    if op.CreateFamily? {
      assert s'.members[|s.members|] == Row(|s.families|, op.actor, Owner, false);
    }
  }

  lemma StepKeepsInv(s: System, e: Event)
    requires Inv(s) && Enabled(s, e)
    ensures Inv(Step(s, e)) && Onward(s.db, Step(s, e).db)
  {
    var s' := Step(s, e);
    match e
    case Begin(_, op) => IntentOk(s.db, op);
    case FindNoRow(id) => assert CallOk(s.db, s.calls[id]);
    case Commit(id) => EffectOk(s.db, s.calls[id]);
    case Atomic(op) => AtomicOk(s.db, op);
    CallsSurvive(s, s'.db);
  }

  lemma CallsSurvive(s: System, db: State)
    requires Inv(s) && Onward(s.db, db)
    ensures forall id :: id in s.calls ==> CallOk(db, s.calls[id])
  {
    forall id | id in s.calls ensures CallOk(db, s.calls[id]) {
      CallSurvives(s.db, db, s.calls[id]);
    }
  }

  // ---------------------------------------------------------------------------
  // Runs
  // ---------------------------------------------------------------------------

  const START := System(EMPTY, map[])

  ghost predicate MovesAt(ss: seq<System>, es: seq<Event>, k: nat) {
    k < |es| && k + 1 < |ss| && Enabled(ss[k], es[k]) && ss[k + 1] == Step(ss[k], es[k])
  }

  /** Event k leads from state k to state k + 1. */
  ghost predicate Behaviour(ss: seq<System>, es: seq<Event>) {
    |ss| == |es| + 1 && forall k: nat :: k < |es| ==> MovesAt(ss, es, k)
  }

  lemma MoveKeepsInv(ss: seq<System>, es: seq<Event>, k: nat)
    requires MovesAt(ss, es, k) && Inv(ss[k])
    ensures Inv(ss[k + 1]) && Onward(ss[k].db, ss[k + 1].db)
  {
    StepKeepsInv(ss[k], es[k]);
  }

  lemma {:induction false} InvAt(ss: seq<System>, es: seq<Event>, k: nat)
    requires Behaviour(ss, es) && Inv(ss[0]) && k <= |es|
    ensures Inv(ss[k])
  {
    if k > 0 {
      InvAt(ss, es, k - 1);
      MoveKeepsInv(ss, es, k - 1);
    }
  }

  lemma OnwardIsTransitive(a: State, b: State, c: State)
    requires Onward(a, b) && Onward(b, c)
    ensures Onward(a, c)
  {
  }

  lemma {:induction false} OnwardAt(ss: seq<System>, es: seq<Event>, j: nat, k: nat)
    requires Behaviour(ss, es) && Inv(ss[0]) && j <= k <= |es|
    ensures Onward(ss[j].db, ss[k].db)
  {
    if j < k {
      OnwardAt(ss, es, j, k - 1);
      InvAt(ss, es, k - 1);
      MoveKeepsInv(ss, es, k - 1);
      OnwardIsTransitive(ss[j].db, ss[k - 1].db, ss[k].db);
    }
  }

  /** However the operations interleave: one membership row per family and user, and the creator of every family an
      owner who has not been removed. */
  lemma InterleavedRunsAreSafe(ss: seq<System>, es: seq<Event>, k: nat)
    requires Behaviour(ss, es) && ss[0] == START && k <= |es|
    ensures OneRowEach(ss[k].db.members) && forall f :: 0 <= f < |ss[k].db.families| ==> CreatorOwns(ss[k].db, f)
  {
    InvAt(ss, es, k);
  }

  // ---------------------------------------------------------------------------
  // How often an invitation is used
  // ---------------------------------------------------------------------------

  predicate JoinsBy(c: Call, i: nat) {
    (c.Admitting? || c.Inserting?) && c.through == Some(i)
  }

  /** A join that the constraint would let commit as things are. */
  predicate Ready(s: System, id: nat, i: nat) {
    id in s.calls && JoinsBy(s.calls[id], i)
    && (s.calls[id].Admitting? || FindRow(s.db.members, s.calls[id].familyId, s.calls[id].userId).None?)
  }

  /** Event k lets an account in on invitation i. */
  ghost predicate UseAt(ss: seq<System>, es: seq<Event>, k: nat, i: nat) {
    k < |es| && k < |ss| && es[k].Commit? && Ready(ss[k], es[k].call, i)
  }

  predicate Checks(s: System, e: Event, id: nat, i: nat) {
    e.Begin? && e.call == id && e.op.Join? && e.op.code == InvitationCode(i) && MayJoin(s.db, i, e.op.who, e.op.now)
  }

  /** Event k is the passing check of a join by invitation i. */
  ghost predicate CheckAt(ss: seq<System>, es: seq<Event>, k: nat, id: nat, i: nat) {
    k < |es| && k < |ss| && Checks(ss[k], es[k], id, i)
  }

  lemma JoinHasBegun(s: System, e: Event, id: nat, i: nat)
    requires Enabled(s, e) && id in Step(s, e).calls && JoinsBy(Step(s, e).calls[id], i)
    ensures (id in s.calls && JoinsBy(s.calls[id], i)) || Checks(s, e, id, i)
  {
  }

  lemma {:induction false} UseHasCheck(ss: seq<System>, es: seq<Event>, k: nat, id: nat, i: nat)
    requires Behaviour(ss, es) && ss[0] == START && k <= |es|
    requires id in ss[k].calls && JoinsBy(ss[k].calls[id], i)
    ensures exists b: nat :: b < k && CheckAt(ss, es, b, id, i)
  {
    assert MovesAt(ss, es, k - 1);
    JoinHasBegun(ss[k - 1], es[k - 1], id, i);
    if Checks(ss[k - 1], es[k - 1], id, i) {
      assert CheckAt(ss, es, k - 1, id, i);
    } else {
      UseHasCheck(ss, es, k - 1, id, i);
    }
  }

  lemma ReadyIsRecorded(s: System, id: nat, i: nat)
    requires Inv(s) && Ready(s, id, i)
    ensures Enabled(s, Commit(id))
    ensures var before, after := s.db, Step(s, Commit(id)).db;
            && |after.joins| == |before.joins| + 1 && UsedBy(after, |before.joins|, i)
            && i < |after.invitations| && after.invitations[i].status != Pending
  {
    assert CallOk(s.db, s.calls[id]);
  }

  /** A use adds a record of itself, and its invitation is not pending afterwards. */
  lemma UseIsRecorded(ss: seq<System>, es: seq<Event>, k: nat, i: nat)
    requires Behaviour(ss, es) && Inv(ss[0]) && UseAt(ss, es, k, i)
    ensures var before, after := ss[k].db, ss[k + 1].db;
            && |after.joins| == |before.joins| + 1 && UsedBy(after, |before.joins|, i)
            && i < |after.invitations| && after.invitations[i].status != Pending
  {
    InvAt(ss, es, k);
    ReadyIsRecorded(ss[k], es[k].call, i);
    assert MovesAt(ss, es, k);
  }

  lemma RecordIsNew(s: System, e: Event, j: nat, i: nat)
    requires Enabled(s, e) && UsedBy(Step(s, e).db, j, i) && j >= |s.db.joins|
    ensures e.Commit? && Ready(s, e.call, i) && j == |s.db.joins|
  {
  }

  lemma {:induction false} RecordHasUse(ss: seq<System>, es: seq<Event>, k: nat, j: nat, i: nat)
    requires Behaviour(ss, es) && Inv(ss[0]) && k <= |es|
    requires UsedBy(ss[k].db, j, i) && j >= |ss[0].db.joins|
    ensures exists c: nat :: c < k && UseAt(ss, es, c, i) && |ss[c].db.joins| == j
  {
    assert MovesAt(ss, es, k - 1);
    if j < |ss[k - 1].db.joins| {
      OnwardAt(ss, es, k - 1, k);
      RecordHasUse(ss, es, k - 1, j, i);
    } else {
      RecordIsNew(ss[k - 1], es[k - 1], j, i);
      assert UseAt(ss, es, k - 1, i);
    }
  }

  /** Two joins whose checks both come before the first of their commits. */
  ghost predicate Overlap(ss: seq<System>, es: seq<Event>, i: nat, b: nat, c: nat, b': nat, c': nat) {
    && b < c && b' < c < c'
    && UseAt(ss, es, c, i) && CheckAt(ss, es, b, es[c].call, i)
    && UseAt(ss, es, c', i) && CheckAt(ss, es, b', es[c'].call, i)
  }

  ghost predicate UsedTwice(s: State, i: nat) {
    exists j: nat, k: nat :: j < k && UsedBy(s, j, i) && UsedBy(s, k, i)
  }

  /** After a use no check passes. */
  lemma CheckComesFirst(ss: seq<System>, es: seq<Event>, i: nat, c: nat, b: nat, id: nat)
    requires Behaviour(ss, es) && Inv(ss[0]) && UseAt(ss, es, c, i) && CheckAt(ss, es, b, id, i)
    ensures b < c
  {
    if b > c {
      UseIsRecorded(ss, es, c, i);
      OnwardAt(ss, es, c + 1, b);
    }
  }

  lemma TwoUsesOverlap(ss: seq<System>, es: seq<Event>, i: nat)
    requires Behaviour(ss, es) && ss[0] == START && UsedTwice(ss[|es|].db, i)
    ensures exists b: nat, c: nat, b': nat, c': nat :: Overlap(ss, es, i, b, c, b', c')
  {
    var j: nat, k: nat :| j < k && UsedBy(ss[|es|].db, j, i) && UsedBy(ss[|es|].db, k, i);
    RecordHasUse(ss, es, |es|, j, i);
    RecordHasUse(ss, es, |es|, k, i);
    var c: nat :| c < |es| && UseAt(ss, es, c, i) && |ss[c].db.joins| == j;
    var c': nat :| c' < |es| && UseAt(ss, es, c', i) && |ss[c'].db.joins| == k;
    if c' <= c {
      OnwardAt(ss, es, c', c);
    }
    UseHasCheck(ss, es, c, es[c].call, i);
    UseHasCheck(ss, es, c', es[c'].call, i);
    var b: nat :| b < c && CheckAt(ss, es, b, es[c].call, i);
    var b': nat :| b' < c' && CheckAt(ss, es, b', es[c'].call, i);
    CheckComesFirst(ss, es, i, c, b', es[c'].call);
    assert Overlap(ss, es, i, b, c, b', c');
  }

  lemma OverlapUsesTwice(ss: seq<System>, es: seq<Event>, i: nat, c: nat, c': nat)
    requires Behaviour(ss, es) && Inv(ss[0]) && c < c' && UseAt(ss, es, c, i) && UseAt(ss, es, c', i)
    ensures UsedTwice(ss[|es|].db, i)
  {
    UseIsRecorded(ss, es, c, i);
    UseIsRecorded(ss, es, c', i);
    OnwardAt(ss, es, c + 1, c');
    OnwardAt(ss, es, c + 1, |es|);
    OnwardAt(ss, es, c' + 1, |es|);
    var j, k := |ss[c].db.joins|, |ss[c'].db.joins|;
    assert UsedBy(ss[|es|].db, j, i) && UsedBy(ss[|es|].db, k, i);
  }

  /** An invitation is used twice if and only if two joins have overlapped on it: their checks both passed before the
      first of them committed. */
  lemma UsedTwiceIff(ss: seq<System>, es: seq<Event>, i: nat)
    requires Behaviour(ss, es) && ss[0] == START
    ensures UsedTwice(ss[|es|].db, i)
            <==> exists b: nat, c: nat, b': nat, c': nat :: Overlap(ss, es, i, b, c, b', c')
  {
    if UsedTwice(ss[|es|].db, i) {
      TwoUsesOverlap(ss, es, i);
    }
    if b: nat, c: nat, b': nat, c': nat :| Overlap(ss, es, i, b, c, b', c') {
      OverlapUsesTwice(ss, es, i, c, c');
    }
  }

  lemma ReadyBefore(s: System, e: Event, id: nat, i: nat)
    requires Enabled(s, e) && Onward(s.db, Step(s, e).db)
    requires i < |s.db.invitations| && s.db.invitations[i].status != Pending
    requires Ready(Step(s, e), id, i)
    ensures Ready(s, id, i)
  {
    var s' := Step(s, e);
    JoinHasBegun(s, e, id, i);
    if s.calls[id].Inserting? {
      var f, user := s.calls[id].familyId, s.calls[id].userId;
      RowStays(s.db, s'.db, f, user);
    }
  }

  lemma RowStays(s: State, s': State, f: nat, user: int)
    requires Onward(s, s') && FindRow(s'.members, f, user).None?
    ensures FindRow(s.members, f, user).None?
  {
  }

  lemma ReadyMove(ss: seq<System>, es: seq<Event>, k: nat, id: nat, i: nat)
    requires MovesAt(ss, es, k) && Onward(ss[k].db, ss[k + 1].db) && Ready(ss[k + 1], id, i)
    requires i < |ss[k].db.invitations| && ss[k].db.invitations[i].status != Pending
    ensures Ready(ss[k], id, i)
  {
    ReadyBefore(ss[k], es[k], id, i);
  }

  lemma {:induction false} ReadySince(ss: seq<System>, es: seq<Event>, k: nat, id: nat, i: nat)
    requires Behaviour(ss, es) && Inv(ss[0]) && k <= |es| && Ready(ss[k], id, i)
    requires i < |ss[0].db.invitations| && ss[0].db.invitations[i].status != Pending
    ensures Ready(ss[0], id, i)
  {
    if k > 0 {
      OnwardAt(ss, es, 0, k - 1);
      OnwardAt(ss, es, k - 1, k);
      ReadyMove(ss, es, k - 1, id, i);
      ReadySince(ss, es, k - 1, id, i);
    }
  }

  ghost predicate UsedLater(s: System, i: nat) {
    exists ss: seq<System>, es: seq<Event>, k: nat :: Behaviour(ss, es) && ss[0] == s && UseAt(ss, es, k, i)
  }

  /** Once an invitation has been used, it can be used again if and only if another join has passed its checks already
      and the constraint does not refuse it. */
  lemma UsableAgainIff(s: System, j: nat, i: nat)
    requires Inv(s) && UsedBy(s.db, j, i)
    ensures UsedLater(s, i) <==> exists id :: Ready(s, id, i)
  {
    if id :| Ready(s, id, i) {
      ReadyIsRecorded(s, id, i);
      var ss, es := [s, Step(s, Commit(id))], [Commit(id)];
      assert MovesAt(ss, es, 0);
      assert Behaviour(ss, es) && UseAt(ss, es, 0, i);
    }
    if UsedLater(s, i) {
      var ss: seq<System>, es: seq<Event>, k: nat :| Behaviour(ss, es) && ss[0] == s && UseAt(ss, es, k, i);
      ReadySince(ss, es, k, es[k].call, i);
    }
  }

  // ---------------------------------------------------------------------------
  // How long an answer stays
  // ---------------------------------------------------------------------------

  predicate Accepts(s: State, i: nat) {
    i < |s.invitations| && s.invitations[i].status == Accepted
  }

  /** Some call has decided on another answer while the invitation was still pending. */
  ghost predicate AwaitsAnswer(s: System, i: nat) {
    exists id :: id in s.calls && s.calls[id].Answer? && s.calls[id].invitationId == i
  }

  lemma AcceptedStep(s: System, e: Event, i: nat)
    requires Inv(s) && Enabled(s, e) && Accepts(s.db, i) && !AwaitsAnswer(s, i)
    ensures Accepts(Step(s, e).db, i) && !AwaitsAnswer(Step(s, e), i)
  {
  }

  lemma {:induction false} AcceptedStays(ss: seq<System>, es: seq<Event>, k: nat, i: nat)
    requires Behaviour(ss, es) && Inv(ss[0]) && k <= |es| && Accepts(ss[0].db, i) && !AwaitsAnswer(ss[0], i)
    ensures Accepts(ss[k].db, i) && !AwaitsAnswer(ss[k], i)
  {
    if k > 0 {
      AcceptedStays(ss, es, k - 1, i);
      InvAt(ss, es, k - 1);
      assert MovesAt(ss, es, k - 1);
      AcceptedStep(ss[k - 1], es[k - 1], i);
    }
  }

  ghost predicate StaysAccepted(s: System, i: nat) {
    forall ss: seq<System>, es: seq<Event> :: Behaviour(ss, es) && ss[0] == s ==> Accepts(ss[|es|].db, i)
  }

  /** An accepted invitation stays accepted in every continuation if and only if no call holds another answer to it. */
  lemma AcceptedIsFinalIff(s: System, i: nat)
    requires Inv(s) && Accepts(s.db, i)
    ensures StaysAccepted(s, i) <==> !AwaitsAnswer(s, i)
  {
    if AwaitsAnswer(s, i) {
      var id :| id in s.calls && s.calls[id].Answer? && s.calls[id].invitationId == i;
      assert CallOk(s.db, s.calls[id]);
      var ss, es := [s, Step(s, Commit(id))], [Commit(id)];
      assert MovesAt(ss, es, 0);
      assert Behaviour(ss, es) && !Accepts(ss[|es|].db, i);
    } else {
      forall ss: seq<System>, es: seq<Event> | Behaviour(ss, es) && ss[0] == s ensures Accepts(ss[|es|].db, i) {
        AcceptedStays(ss, es, |es|, i);
      }
    }
  }

  // ---------------------------------------------------------------------------
  // It happens
  // ---------------------------------------------------------------------------

  lemma Extend(ss: seq<System>, es: seq<Event>, e: Event) returns (more: seq<System>, events: seq<Event>)
    requires Behaviour(ss, es) && Enabled(ss[|es|], e)
    ensures Behaviour(more, events) && more[0] == ss[0] && |events| == |es| + 1
    ensures more[|events|] == Step(ss[|es|], e)
  {
    more, events := ss + [Step(ss[|es|], e)], es + [e];
    forall k: nat | k < |events| ensures MovesAt(more, events, k) {
      if k < |es| {
        assert MovesAt(ss, es, k);
      }
    }
  }

  /** A join that may go ahead passes its checks. */
  lemma JoinBegins(s: System, id: nat, i: nat, who: Account, now: int)
    requires id !in s.calls && MayJoin(s.db, i, who, now)
    ensures var e := Begin(id, Join(InvitationCode(i), who, now));
            Enabled(s, e) && Step(s, e)
              == s.(calls := s.calls[id := Admitting(s.db.invitations[i].familyId, who.id, Some(i))])
  {
  }

  lemma JoinCommits(s: System, id: nat, f: nat, user: int, i: nat)
    requires id in s.calls && s.calls[id] == Admitting(f, user, Some(i))
    ensures Enabled(s, Commit(id))
    ensures Step(s, Commit(id)) == System(Admitted(s.db, f, user, Some(i)), s.calls[id := Closed])
  {
  }

  /** Whenever two accounts may join by one invitation, they can both get in on it: each checks before the other
      commits. */
  lemma BothGetIn(ss: seq<System>, es: seq<Event>, i: nat, a: Account, b: Account, now: int, id: nat, id': nat)
    returns (more: seq<System>, events: seq<Event>)
    requires Behaviour(ss, es) && Inv(ss[0])
    requires MayJoin(ss[|es|].db, i, a, now) && MayJoin(ss[|es|].db, i, b, now) && a.id != b.id
    requires id !in ss[|es|].calls && id' !in ss[|es|].calls && id != id'
    ensures Behaviour(more, events) && more[0] == ss[0]
    ensures var f, end := ss[|es|].db.invitations[i].familyId, more[|events|].db;
            UsedTwice(end, i) && IsMember(end, f, a.id) && IsMember(end, f, b.id)
  {
    var s := ss[|es|];
    var f := s.db.invitations[i].familyId;
    JoinBegins(s, id, i, a, now);
    more, events := Extend(ss, es, Begin(id, Join(InvitationCode(i), a, now)));
    JoinBegins(more[|events|], id', i, b, now);
    more, events := Extend(more, events, Begin(id', Join(InvitationCode(i), b, now)));
    JoinCommits(more[|events|], id, f, a.id, i);
    more, events := Extend(more, events, Commit(id));
    JoinCommits(more[|events|], id', f, b.id, i);
    more, events := Extend(more, events, Commit(id'));
    assert more[|events|].db == Admitted(Admitted(s.db, f, a.id, Some(i)), f, b.id, Some(i));
    TwoAdmitted(s.db, f, i, a.id, b.id);
  }

  lemma TwoAdmitted(s: State, f: nat, i: nat, a: int, b: int)
    requires i < |s.invitations| && a != b
    ensures var end := Admitted(Admitted(s, f, a, Some(i)), f, b, Some(i));
            UsedTwice(end, i) && IsMember(end, f, a) && IsMember(end, f, b)
  {
    var end := Admitted(Admitted(s, f, a, Some(i)), f, b, Some(i));
    assert end.members == Admit(Admit(s.members, f, a), f, b);
    BothAdmitted(s.members, f, a, b);
    assert UsedBy(end, |s.joins|, i) && UsedBy(end, |s.joins| + 1, i);
  }

  function Founded(owner: int): State {
    State([Family(owner, false)], [Row(0, owner, Owner, false)], [], [])
  }

  function Invited(owner: int, now: int): State {
    Founded(owner).(invitations := [Invitation(0, owner, None, None, Pending, now + SEVEN_DAYS)])
  }

  lemma InviteBegins(owner: int, now: int)
    ensures var s, e := System(Founded(owner), map[]), Begin(0, Invite(0, owner, None, None, now));
            && Enabled(s, e) && Enabled(Step(s, e), Commit(0))
            && Step(Step(s, e), Commit(0)) == System(Invited(owner, now), map[0 := Closed])
  {
    var s := Founded(owner);
    assert FindRow(s.members, 0, owner) == Some(0);
    assert Allowed(s, 0, owner, CreateInvitation);
    assert Intent(s, Invite(0, owner, None, None, now))
        == Some(AddInvitation(Invitation(0, owner, None, None, Pending, now + SEVEN_DAYS)));
  }

  lemma StrangerMayJoin(owner: int, who: Account, now: int)
    requires who.id != owner
    ensures MayJoin(Invited(owner, now), 0, who, now)
  {
    assert Invited(owner, now).members[..0] == [];
    assert FindRow(Invited(owner, now).members, 0, who.id).None?;
  }

  /** The tables right after an owner has created a family and an invitation that is addressed to nobody. */
  lemma Opening(owner: int, now: int) returns (ss: seq<System>, es: seq<Event>)
    ensures Behaviour(ss, es) && ss[0] == START && ss[|es|] == System(Invited(owner, now), map[0 := Closed])
  {
    ss, es := [START], [];
    assert Step(START, Atomic(CreateFamily(owner))) == System(Founded(owner), map[]);
    ss, es := Extend(ss, es, Atomic(CreateFamily(owner)));
    InviteBegins(owner, now);
    ss, es := Extend(ss, es, Begin(0, Invite(0, owner, None, None, now)));
    ss, es := Extend(ss, es, Commit(0));
  }

  /** From the empty tables on: one invitation, two accounts, both in. */
  lemma TwoAccountsOneInvitation(owner: int, a: Account, b: Account, now: int)
    requires a.id != owner && b.id != owner && a.id != b.id
    ensures exists ss: seq<System>, es: seq<Event> ::
              && Behaviour(ss, es) && ss[0] == START
              && UsedTwice(ss[|es|].db, 0) && IsMember(ss[|es|].db, 0, a.id) && IsMember(ss[|es|].db, 0, b.id)
  {
    var ss, es := Opening(owner, now);
    StrangerMayJoin(owner, a, now);
    StrangerMayJoin(owner, b, now);
    ss, es := BothGetIn(ss, es, 0, a, b, now, 1, 2);
  }
}
