/** Families, roles and invitations: app/family/service.py and app/family/repository.py. */
module Membership {
  import opened Common

  datatype Role = Owner | Admin | Member

  datatype Status = Pending | Accepted | Declined | Expired | Cancelled

  datatype Family = Family(createdBy: int, deleted: bool)

  /** A family_members row; rows are soft-deleted, never dropped. */
  datatype Row = Row(familyId: nat, userId: int, role: Role, deleted: bool)

  datatype Invitation = Invitation(
    familyId: nat,
    invitedBy: int,
    invitedUser: Option<int>,
    invitedEmail: Option<string>,
    status: Status,
    expiresAt: int)

  /** A successful join, with the invitation it used, if any. */
  datatype Joined = Joined(userId: int, familyId: nat, invitation: Option<nat>)

  /** Positions are ids. `joins` is the history of successful joins. */
  datatype State = State(families: seq<Family>, members: seq<Row>, invitations: seq<Invitation>, joins: seq<Joined>)

  /** What an invite code resolves to: an invitation, else a family's own code, else nothing. */
  datatype Code = InvitationCode(id: nat) | FamilyCode(id: nat) | UnknownCode

  /** The account that calls, with its normalised email (None when there is no such user). */
  datatype Account = Account(id: int, email: Option<string>)

  datatype Op =
    | CreateFamily(actor: int)
    | DeleteFamily(family: nat, actor: int)
    | UpdateRole(family: nat, member: nat, role: Role, actor: int)
    | RemoveMember(family: nat, member: nat, actor: int)
    | LeaveFamily(family: nat, actor: int)
    | Invite(family: nat, actor: int, toUser: Option<int>, toEmail: Option<string>, now: int)
    | CancelInvitation(family: nat, invitation: nat, actor: int)
    | Join(code: Code, who: Account, now: int)
    | Decline(invitation: nat, who: Account, now: int)
    | ExpireInvitations(family: nat, actor: int, now: int)

  datatype Response = Fine | NotFound | Denied | Refused

  // ---------------------------------------------------------------------------
  // Permissions
  // ---------------------------------------------------------------------------

  datatype Permission =
    ManageFamily | ManageMembers | ManageRoles | CreateInvitation | CancelAnyInvitation | ViewMembers

  function PermissionsOf(role: Role): set<Permission> {
    match role
    case Owner => {ManageFamily, ManageMembers, ManageRoles, CreateInvitation, CancelAnyInvitation, ViewMembers}
    case Admin => {ManageMembers, CreateInvitation, CancelAnyInvitation, ViewMembers}
    case Member => {CreateInvitation, ViewMembers}
  }

  predicate LiveFamily(s: State, f: nat) {
    f < |s.families| && !s.families[f].deleted
  }

  /** The membership row of a user, removed or not. */
  function FindRow(members: seq<Row>, f: nat, user: int): (r: Option<nat>)
    ensures r.Some? ==> r.value < |members| && members[r.value].familyId == f && members[r.value].userId == user
    ensures r.None? ==> forall i :: 0 <= i < |members| ==> !(members[i].familyId == f && members[i].userId == user)
  {
    if members == [] then None
    else
      var last := |members| - 1;
      if members[last].familyId == f && members[last].userId == user then Some(last)
        else FindRow(members[..last], f, user)
  }

  /** get_member */
  predicate IsMember(s: State, f: nat, user: int) {
    var r := FindRow(s.members, f, user);
    r.Some? && !s.members[r.value].deleted
  }

  predicate Allowed(s: State, f: nat, user: int, p: Permission) {
    LiveFamily(s, f) && IsMember(s, f, user) && p in PermissionsOf(s.members[FindRow(s.members, f, user).value].role)
  }

  // ---------------------------------------------------------------------------
  // Operations
  // ---------------------------------------------------------------------------

  /** get_member_by_id, and the row belongs to the family */
  predicate ActiveRow(s: State, f: nat, m: nat) {
    m < |s.members| && !s.members[m].deleted && s.members[m].familyId == f
  }

  predicate Addressed(i: Invitation, who: Account) {
    (i.invitedUser.None? && i.invitedEmail.None?)
    || (who.email.Some? && (i.invitedUser == Some(who.id) || i.invitedEmail == who.email))
  }

  const SEVEN_DAYS := 7 * 24 * 60 * 60

  /** get_pending_targeted_invitation */
  predicate AlreadyInvited(invitations: seq<Invitation>, f: nat, toUser: Option<int>, toEmail: Option<string>,
          now: int) {
    exists k :: 0 <= k < |invitations|
                && invitations[k].familyId == f && invitations[k].status == Pending && invitations[k].expiresAt > now
                && ((toUser.Some? && invitations[k].invitedUser == toUser)
                  || (toEmail.Some? && invitations[k].invitedEmail == toEmail))
  }

  /** add_or_reactivate_member */
  function Admit(members: seq<Row>, f: nat, user: int): seq<Row> {
    match FindRow(members, f, user)
    case None => members + [Row(f, user, Member, false)]
    case Some(i) => if members[i].deleted then members[i := Row(f, user, Member, false)] else members
  }

  function WithStatus(s: State, i: nat, status: Status): State
    requires i < |s.invitations|
  {
    s.(invitations := s.invitations[i := s.invitations[i].(status := status)])
  }

  /** The checks of join_family, up to the point where it starts to write. */
  predicate MayJoin(s: State, i: nat, who: Account, now: int) {
    && i < |s.invitations|
    && s.invitations[i].status == Pending
    && Addressed(s.invitations[i], who)
    && LiveFamily(s, s.invitations[i].familyId)
    && s.invitations[i].expiresAt >= now
    && !IsMember(s, s.invitations[i].familyId, who.id)
  }

  /** The writes of join_family. */
  function JoinBy(s: State, i: nat, user: int): State
    requires i < |s.invitations|
  {
    var f := s.invitations[i].familyId;
    WithStatus(s.(members := Admit(s.members, f, user), joins := s.joins + [Joined(user, f, Some(i))]), i, Accepted)
  }

  function ExpireAll(invitations: seq<Invitation>, f: nat, now: int): seq<Invitation> {
    seq(|invitations|, k requires 0 <= k < |invitations| => ExpireOne(invitations[k], f, now))
  }

  function ExpireOne(i: Invitation, f: nat, now: int): Invitation {
    if i.familyId == f && i.status == Pending && i.expiresAt <= now then i.(status := Expired) else i
  }

  function Apply(s: State, op: Op): (State, Response) {
    match op
    case CreateFamily(actor) =>
      (s.(families := s.families + [Family(actor, false)],
          members := s.members + [Row(|s.families|, actor, Owner, false)]), Fine)
    case DeleteFamily(f, actor) =>
      if !Allowed(s, f, actor, ManageFamily) then (s, Denied)
      else (s.(families := s.families[f := s.families[f].(deleted := true)]), Fine)
    case UpdateRole(f, m, role, actor) =>
      if !Allowed(s, f, actor, ManageRoles) then (s, Denied)
      else if !ActiveRow(s, f, m) then (s, NotFound)
      else if s.members[m].role == Owner then (s, Refused)
      else (s.(members := s.members[m := s.members[m].(role := role)]), Fine)
    case RemoveMember(f, m, actor) =>
      Remove(s, f, m, actor)
    case LeaveFamily(f, actor) =>
      if !IsMember(s, f, actor) then (s, NotFound) else Remove(s, f, FindRow(s.members, f, actor).value, actor)
    case Invite(f, actor, toUser, toEmail, now) =>
      if !Allowed(s, f, actor, CreateInvitation) then (s, Denied)
      else if toUser == Some(actor) || (toUser.Some? && IsMember(s, f, toUser.value)) then (s, Refused)
      else if AlreadyInvited(s.invitations, f, toUser, toEmail, now) then (s, Refused)
      else (s.(invitations := s.invitations + [Invitation(f, actor, toUser, toEmail, Pending, now + SEVEN_DAYS)]), Fine)
    case CancelInvitation(f, i, actor) =>
      if !(i < |s.invitations| && s.invitations[i].familyId == f) then (s, NotFound)
      else if s.invitations[i].invitedBy != actor && !Allowed(s, f, actor, CancelAnyInvitation) then (s, Denied)
      else if s.invitations[i].status != Pending then (s, Refused)
      else (WithStatus(s, i, Cancelled), Fine)
    case Join(code, who, now) =>
      JoinFamily(s, code, who, now)
    case Decline(i, who, now) =>
      if i >= |s.invitations| then (s, NotFound)
      else if !Addressed(s.invitations[i], who) then (s, Denied)
      else if s.invitations[i].status != Pending then (s, Refused)
      else if s.invitations[i].expiresAt < now then (WithStatus(s, i, Expired), Refused)
      else (WithStatus(s, i, Declined), Fine)
    case ExpireInvitations(f, actor, now) =>
      if !Allowed(s, f, actor, ViewMembers) then (s, Denied)
      else (s.(invitations := ExpireAll(s.invitations, f, now)), Fine)
  }

  function Remove(s: State, f: nat, m: nat, actor: int): (State, Response) {
    if !ActiveRow(s, f, m) then (s, NotFound)
    else if s.members[m].userId != actor && !Allowed(s, f, actor, ManageMembers) then (s, Denied)
    else if s.members[m].role == Owner then (s, Refused)
    else (s.(members := s.members[m := s.members[m].(deleted := true)]), Fine)
  }

  function JoinFamily(s: State, code: Code, who: Account, now: int): (State, Response) {
    match code
    case UnknownCode => (s, NotFound)
    case FamilyCode(f) =>
      if !LiveFamily(s, f) then (s, NotFound)
      else if IsMember(s, f, who.id) then (s, Refused)
      else (s.(members := Admit(s.members, f, who.id), joins := s.joins + [Joined(who.id, f, None)]), Fine)
    case InvitationCode(i) =>
      if i >= |s.invitations| then (s, NotFound)
      else if s.invitations[i].status != Pending then (s, Refused)
      else if !Addressed(s.invitations[i], who) then (s, Denied)
      else if !LiveFamily(s, s.invitations[i].familyId) then (s, NotFound)
      else if s.invitations[i].expiresAt < now then (WithStatus(s, i, Expired), Refused)
      else if !MayJoin(s, i, who, now) then (s, Refused)
      else (JoinBy(s, i, who.id), Fine)
  }

  /** The tables, changed in place by the service functions. */
  class FamilyDb {
    var families: seq<Family>
    var members: seq<Row>
    var invitations: seq<Invitation>
    var joins: seq<Joined>

    constructor ()
      ensures Contents() == EMPTY
    {
      families, members, invitations, joins := [], [], [], [];
    }

    function Contents(): State
      reads this
    {
      State(families, members, invitations, joins)
    }

    /** The creator becomes the owner. */
    method CreateFamily(actor: int) returns (f: nat)
      modifies this`families, this`members
      ensures (Contents(), Fine) == Apply(old(Contents()), Op.CreateFamily(actor))
      ensures f == |old(families)| && LiveFamily(Contents(), f)
    {
      f := |families|;
      families := families + [Family(actor, false)];
      members := members + [Row(f, actor, Owner, false)];
    }

    method DeleteFamily(f: nat, actor: int) returns (r: Response)
      modifies this`families
      ensures (Contents(), r) == Apply(old(Contents()), Op.DeleteFamily(f, actor))
    {
      if !Allowed(Contents(), f, actor, ManageFamily) {
        return Denied;
      }
      families := families[f := families[f].(deleted := true)];
      r := Fine;
    }

    method AddOrReactivateMember(f: nat, user: int)
      modifies this`members
      ensures members == Admit(old(members), f, user)
    {
      var row := FindRow(members, f, user);
      if row.None? {
        members := members + [Row(f, user, Member, false)];
      } else if members[row.value].deleted {
        members := members[row.value := members[row.value].(deleted := false, role := Member)];
      }
    }

    method UpdateMemberRole(f: nat, m: nat, role: Role, actor: int) returns (r: Response)
      modifies this`members
      ensures (Contents(), r) == Apply(old(Contents()), UpdateRole(f, m, role, actor))
    {
      if !Allowed(Contents(), f, actor, ManageRoles) {
        return Denied;
      }
      if !ActiveRow(Contents(), f, m) {
        return NotFound;
      }
      if members[m].role == Owner {
        return Refused;
      }
      members := members[m := members[m].(role := role)];
      r := Fine;
    }

    method RemoveFromFamily(f: nat, m: nat, actor: int) returns (r: Response)
      modifies this`members
      ensures (Contents(), r) == Apply(old(Contents()), RemoveMember(f, m, actor))
    {
      if !ActiveRow(Contents(), f, m) {
        return NotFound;
      }
      if members[m].userId == actor {
        if members[m].role == Owner {
          return Refused;
        }
        members := members[m := members[m].(deleted := true)];
        return Fine;
      }
      if !Allowed(Contents(), f, actor, ManageMembers) {
        return Denied;
      }
      if members[m].role == Owner {
        return Refused;
      }
      members := members[m := members[m].(deleted := true)];
      r := Fine;
    }

    method LeaveFamily(f: nat, actor: int) returns (r: Response)
      modifies this`members
      ensures (Contents(), r) == Apply(old(Contents()), Op.LeaveFamily(f, actor))
    {
      if !IsMember(Contents(), f, actor) {
        return NotFound;
      }
      r := RemoveFromFamily(f, FindRow(members, f, actor).value, actor);
    }

    method CreateInvitation(f: nat, actor: int, toUser: Option<int>, toEmail: Option<string>, now: int)
      returns (r: Response)
      modifies this`invitations
      ensures (Contents(), r) == Apply(old(Contents()), Invite(f, actor, toUser, toEmail, now))
    {
      if !Allowed(Contents(), f, actor, Permission.CreateInvitation) {
        return Denied;
      }
      if toUser == Some(actor) {
        return Refused;
      }
      if toUser.Some? && IsMember(Contents(), f, toUser.value) {
        return Refused;
      }
      if AlreadyInvited(invitations, f, toUser, toEmail, now) {
        return Refused;
      }
      invitations := invitations + [Invitation(f, actor, toUser, toEmail, Pending, now + SEVEN_DAYS)];
      r := Fine;
    }

    method CancelInvitation(f: nat, i: nat, actor: int) returns (r: Response)
      modifies this`invitations
      ensures (Contents(), r) == Apply(old(Contents()), Op.CancelInvitation(f, i, actor))
    {
      if i >= |invitations| || invitations[i].familyId != f {
        return NotFound;
      }
      if invitations[i].invitedBy != actor {
        if !Allowed(Contents(), f, actor, CancelAnyInvitation) {
          return Denied;
        }
      }
      if invitations[i].status != Pending {
        return Refused;
      }
      UpdateInvitationStatus(i, Cancelled);
      r := Fine;
    }

    method DeclineInvitation(i: nat, who: Account, now: int) returns (r: Response)
      modifies this`invitations
      ensures (Contents(), r) == Apply(old(Contents()), Decline(i, who, now))
    {
      if i >= |invitations| {
        return NotFound;
      }
      if !Addressed(invitations[i], who) {
        return Denied;
      }
      if invitations[i].status != Pending {
        return Refused;
      }
      if invitations[i].expiresAt < now {
        UpdateInvitationStatus(i, Expired);
        return Refused;
      }
      UpdateInvitationStatus(i, Declined);
      r := Fine;
    }

    method UpdateInvitationStatus(i: nat, status: Status)
      requires i < |invitations|
      modifies this`invitations
      ensures Contents() == WithStatus(old(Contents()), i, status)
    {
      invitations := invitations[i := invitations[i].(status := status)];
    }

    method JoinWithCode(code: Code, who: Account, now: int) returns (r: Response)
      modifies this
      ensures (Contents(), r) == Apply(old(Contents()), Join(code, who, now))
    {
      if code.UnknownCode? {
        return NotFound;
      }
      if code.FamilyCode? {
        if !LiveFamily(Contents(), code.id) {
          return NotFound;
        }
        if IsMember(Contents(), code.id, who.id) {
          return Refused;
        }
        AddOrReactivateMember(code.id, who.id);
        joins := joins + [Joined(who.id, code.id, None)];
        return Fine;
      }
      var i := code.id;
      if i >= |invitations| {
        return NotFound;
      }
      if invitations[i].status != Pending {
        return Refused;
      }
      if !Addressed(invitations[i], who) {
        return Denied;
      }
      var f := invitations[i].familyId;
      if !LiveFamily(Contents(), f) {
        return NotFound;
      }
      if invitations[i].expiresAt < now {
        UpdateInvitationStatus(i, Expired);
        return Refused;
      }
      if IsMember(Contents(), f, who.id) {
        return Refused;
      }
      AddOrReactivateMember(f, who.id);
      joins := joins + [Joined(who.id, f, Some(i))];
      UpdateInvitationStatus(i, Accepted);
      r := Fine;
    }

    /** The bulk update of expire_pending_invitations. */
    method ExpirePendingInvitations(f: nat, now: int)
      modifies this`invitations
      ensures invitations == ExpireAll(old(invitations), f, now)
    {
      var k := 0;
      while k < |invitations|
        invariant 0 <= k <= |invitations| == |old(invitations)|
        invariant forall j :: 0 <= j < k ==> invitations[j] == ExpireOne(old(invitations)[j], f, now)
        invariant forall j :: k <= j < |invitations| ==> invitations[j] == old(invitations)[j]
      {
        var i := invitations[k];
        if i.familyId == f && i.status == Pending && i.expiresAt <= now {
          invitations := invitations[k := i.(status := Expired)];
        }
        k := k + 1;
      }
    }
  }

  // ---------------------------------------------------------------------------
  // Runs
  // ---------------------------------------------------------------------------

  const EMPTY := State([], [], [], [])

  ghost predicate OneRowEach(members: seq<Row>) {
    forall i, j :: 0 <= i < j < |members| ==>
      members[i].familyId != members[j].familyId || members[i].userId != members[j].userId
  }

  /** The creator of family f is an owner who has not been removed. */
  ghost predicate CreatorOwns(s: State, f: nat)
    requires f < |s.families|
  {
    exists m :: 0 <= m < |s.members| && s.members[m] == Row(f, s.families[f].createdBy, Owner, false)
  }

  ghost predicate UsedBy(s: State, j: nat, i: nat) {
    j < |s.joins| && s.joins[j].invitation == Some(i)
  }

  /** An invitation is accepted exactly when one join has used it. */
  ghost predicate JoinsOk(s: State) {
    && (forall j :: 0 <= j < |s.joins| && s.joins[j].invitation.Some? ==>
          s.joins[j].invitation.value < |s.invitations|
            && s.invitations[s.joins[j].invitation.value].status == Accepted)
    && (forall j, k :: 0 <= j < k < |s.joins| && s.joins[j].invitation.Some? ==>
      s.joins[j].invitation != s.joins[k].invitation)
    && (forall i: nat :: i < |s.invitations| && s.invitations[i].status == Accepted ==>
      exists j: nat :: UsedBy(s, j, i))
  }

  ghost predicate Inv(s: State) {
    && RowsOk(s)
    && (forall f :: 0 <= f < |s.families| ==> CreatorOwns(s, f))
    && JoinsOk(s)
  }

  /** Owners stay, rows keep their family and user, answered invitations keep their answer, history only grows. */
  ghost predicate Keeps(s: State, s': State) {
    && |s.families| <= |s'.families| && |s.members| <= |s'.members| && |s.invitations| <= |s'.invitations|
    && s.joins <= s'.joins
    && (forall f :: 0 <= f < |s.families| ==>
          s'.families[f].createdBy == s.families[f].createdBy && (s.families[f].deleted ==> s'.families[f].deleted))
    && (forall m :: 0 <= m < |s.members| ==>
          s'.members[m].familyId == s.members[m].familyId && s'.members[m].userId == s.members[m].userId
          && (s.members[m].role == Owner && !s.members[m].deleted ==> s'.members[m] == s.members[m]))
    && (forall i :: 0 <= i < |s.invitations| && s.invitations[i].status != Pending ==>
      s'.invitations[i] == s.invitations[i])
    && (forall i :: 0 <= i < |s.invitations| ==>
      s'.invitations[i].(status := Pending) == s.invitations[i].(status := Pending))
  }

  lemma AdmitOk(members: seq<Row>, f: nat, user: int)
    requires OneRowEach(members)
    ensures var ms := Admit(members, f, user);
            && OneRowEach(ms) && |members| <= |ms|
            && (forall m :: 0 <= m < |members| && !members[m].deleted ==> ms[m] == members[m])
            && (forall m :: 0 <= m < |members| ==>
              ms[m].familyId == members[m].familyId && ms[m].userId == members[m].userId)
            && (forall m :: |members| <= m < |ms| ==> ms[m].familyId == f)
  {
  }

  lemma OwnersStay(s: State, s': State)
    requires Keeps(s, s')
    requires forall f :: 0 <= f < |s.families| ==> CreatorOwns(s, f)
    ensures forall f :: 0 <= f < |s.families| ==> CreatorOwns(s', f)
  {
    forall f | 0 <= f < |s.families| ensures CreatorOwns(s', f) {
      assert CreatorOwns(s, f);
      var m :| 0 <= m < |s.members| && s.members[m] == Row(f, s.families[f].createdBy, Owner, false);
      assert s'.members[m] == s.members[m];
    }
  }

  ghost predicate RowsOk(s: State) {
    && OneRowEach(s.members)
    && (forall m :: 0 <= m < |s.members| ==> s.members[m].familyId < |s.families|)
  }

  lemma AdmitStep(s: State, f: nat, user: int, invitation: Option<nat>)
    requires RowsOk(s) && f < |s.families|
    ensures var s' := s.(members := Admit(s.members, f, user), joins := s.joins + [Joined(user, f, invitation)]);
            RowsOk(s') && Keeps(s, s')
  {
    AdmitOk(s.members, f, user);
  }

  lemma StatusStep(s: State, i: nat, status: Status)
    requires RowsOk(s) && i < |s.invitations| && s.invitations[i].status == Pending
    ensures RowsOk(WithStatus(s, i, status)) && Keeps(s, WithStatus(s, i, status))
  {
  }

  lemma JoinStep(s: State, code: Code, who: Account, now: int)
    requires RowsOk(s)
    ensures RowsOk(JoinFamily(s, code, who, now).0) && Keeps(s, JoinFamily(s, code, who, now).0)
  {
    match code
    case UnknownCode =>
    case FamilyCode(f) =>
      if LiveFamily(s, f) { AdmitStep(s, f, who.id, None); }
    case InvitationCode(i) =>
      if i < |s.invitations| && s.invitations[i].status == Pending {
        if MayJoin(s, i, who, now) {
          var f := s.invitations[i].familyId;
          AdmitStep(s, f, who.id, Some(i));
          var mid := s.(members := Admit(s.members, f, who.id), joins := s.joins + [Joined(who.id, f, Some(i))]);
          StatusStep(mid, i, Accepted);
          KeepsIsTransitive(s, mid, WithStatus(mid, i, Accepted));
        } else {
          StatusStep(s, i, Expired);
        }
      }
  }

  lemma RowStep(s: State, m: nat, role: Role, deleted: bool)
    requires RowsOk(s) && m < |s.members| && s.members[m].role != Owner
    ensures var s' := s.(members := s.members[m := s.members[m].(role := role, deleted := deleted)]);
            RowsOk(s') && Keeps(s, s')
  {
  }

  lemma CreateStep(s: State, actor: int)
    requires RowsOk(s)
    ensures var s' := Apply(s, CreateFamily(actor)).0; RowsOk(s') && Keeps(s, s')
  {
  }

  lemma RemoveStep(s: State, f: nat, m: nat, actor: int)
    requires RowsOk(s)
    ensures RowsOk(Remove(s, f, m, actor).0) && Keeps(s, Remove(s, f, m, actor).0)
  {
    if ActiveRow(s, f, m) && s.members[m].role != Owner {
      RowStep(s, m, s.members[m].role, true);
    }
  }

  lemma ExpireStep(s: State, f: nat, now: int)
    requires RowsOk(s)
    ensures var s' := s.(invitations := ExpireAll(s.invitations, f, now)); RowsOk(s') && Keeps(s, s')
  {
  }

  lemma AnswerStep(s: State, op: Op)
    requires RowsOk(s) && (op.CancelInvitation? || op.Decline?)
    ensures RowsOk(Apply(s, op).0) && Keeps(s, Apply(s, op).0)
  {
    var i := op.invitation;
    if i < |s.invitations| && s.invitations[i].status == Pending {
      StatusStep(s, i, Cancelled);
      StatusStep(s, i, Expired);
      StatusStep(s, i, Declined);
    }
  }

  lemma FamilyStep(s: State, op: Op)
    requires RowsOk(s) && (op.CreateFamily? || op.DeleteFamily? || op.Invite? || op.ExpireInvitations?)
    ensures RowsOk(Apply(s, op).0) && Keeps(s, Apply(s, op).0)
  {
    match op
    case CreateFamily(actor) => CreateStep(s, actor);
    case DeleteFamily(_, _) =>
    case Invite(_, _, _, _, _) =>
    case ExpireInvitations(f, _, now) => ExpireStep(s, f, now);
  }

  lemma MemberStep(s: State, op: Op)
    requires RowsOk(s) && (op.UpdateRole? || op.RemoveMember? || op.LeaveFamily?)
    ensures RowsOk(Apply(s, op).0) && Keeps(s, Apply(s, op).0)
  {
    match op
    case UpdateRole(f, m, role, _) =>
      if ActiveRow(s, f, m) && s.members[m].role != Owner { RowStep(s, m, role, false); }
    case RemoveMember(f, m, actor) => RemoveStep(s, f, m, actor);
    case LeaveFamily(f, actor) =>
      if IsMember(s, f, actor) { RemoveStep(s, f, FindRow(s.members, f, actor).value, actor); }
  }

  lemma MembersStep(s: State, op: Op)
    requires RowsOk(s)
    ensures RowsOk(Apply(s, op).0) && Keeps(s, Apply(s, op).0)
  {
    if op.Join? {
      JoinStep(s, op.code, op.who, op.now);
    } else if op.CancelInvitation? || op.Decline? {
      AnswerStep(s, op);
    } else if op.UpdateRole? || op.RemoveMember? || op.LeaveFamily? {
      MemberStep(s, op);
    } else {
      FamilyStep(s, op);
    }
  }

  /** Steps that join nobody and accept nothing. */
  lemma SameJoins(s: State, s': State)
    requires JoinsOk(s) && s'.joins == s.joins && |s.invitations| <= |s'.invitations|
    requires forall i :: 0 <= i < |s.invitations| ==>
      (s'.invitations[i].status == Accepted <==> s.invitations[i].status == Accepted)
    requires forall i :: |s.invitations| <= i < |s'.invitations| ==> s'.invitations[i].status != Accepted
    ensures JoinsOk(s')
  {
    forall i: nat | i < |s'.invitations| && s'.invitations[i].status == Accepted
      ensures exists j: nat :: UsedBy(s', j, i)
    {
      var j: nat :| UsedBy(s, j, i);
      assert UsedBy(s', j, i);
    }
  }

  lemma OneMoreJoin(s: State, user: int, f: nat, invitation: Option<nat>, members: seq<Row>)
    requires JoinsOk(s)
    requires invitation.Some? ==>
      invitation.value < |s.invitations| && s.invitations[invitation.value].status == Pending
    ensures var s1 := s.(members := members, joins := s.joins + [Joined(user, f, invitation)]);
            JoinsOk(if invitation.Some? then WithStatus(s1, invitation.value, Accepted) else s1)
  {
    var s1 := s.(members := members, joins := s.joins + [Joined(user, f, invitation)]);
    var s' := if invitation.Some? then WithStatus(s1, invitation.value, Accepted) else s1;
    assert forall j :: 0 <= j < |s.joins| ==> s'.joins[j] == s.joins[j];
    forall i: nat | i < |s'.invitations| && s'.invitations[i].status == Accepted
      ensures exists j: nat :: UsedBy(s', j, i)
    {
      if s.invitations[i].status == Accepted {
        var j: nat :| UsedBy(s, j, i);
        assert UsedBy(s', j, i);
      } else {
        assert UsedBy(s', |s.joins|, i);
      }
    }
  }

  lemma JoinsStep(s: State, op: Op)
    requires Inv(s)
    ensures JoinsOk(Apply(s, op).0)
  {
    var s' := Apply(s, op).0;
    if op.Join? && op.code.InvitationCode? && s'.joins != s.joins {
      var i := op.code.id;
      OneMoreJoin(s, op.who.id, s.invitations[i].familyId, Some(i),
        Admit(s.members, s.invitations[i].familyId, op.who.id));
    } else if op.Join? && s'.joins != s.joins {
      OneMoreJoin(s, op.who.id, op.code.id, None, Admit(s.members, op.code.id, op.who.id));
    } else {
      SameJoins(s, s');
    }
  }

  lemma StepKeepsInv(s: State, op: Op)
    requires Inv(s)
    ensures Inv(Apply(s, op).0) && Keeps(s, Apply(s, op).0)
  {
    var s' := Apply(s, op).0;
    MembersStep(s, op);
    JoinsStep(s, op);
    OwnersStay(s, s');
    if op.CreateFamily? {
      assert s'.members[|s.members|] == Row(|s.families|, op.actor, Owner, false);
    }
  }

  // ---------------------------------------------------------------------------
  // Who may change what
  // ---------------------------------------------------------------------------

  /** A membership row changes only in three ways: its user joins again as a plain member, it is removed by its user or
      by someone who may manage members, or its role is set by someone who may manage roles; owners are left alone. */
  lemma RowChanges(s: State, op: Op, m: nat)
    requires RowsOk(s) && m < |s.members| && |Apply(s, op).0.members| > m
    requires Apply(s, op).0.members[m] != s.members[m]
    ensures var row, row' := s.members[m], Apply(s, op).0.members[m];
            if row.deleted then
              op.Join? && op.who.id == row.userId && Apply(s, op).1 == Fine
                && row' == row.(role := Member, deleted := false)
            else if row'.deleted then
              && (op.RemoveMember? || op.LeaveFamily?) && row.role != Owner
              && (row.userId == op.actor || Allowed(s, row.familyId, op.actor, ManageMembers))
              && row' == row.(deleted := true)
            else
              && op.UpdateRole? && op.member == m && row.role != Owner
              && Allowed(s, row.familyId, op.actor, ManageRoles)
              && row' == row.(role := op.role)
  {
  }

  /** An invitation changes only while it is pending, and each answer has one cause. */
  lemma StatusChanges(s: State, op: Op, i: nat)
    requires RowsOk(s) && i < |s.invitations| && |Apply(s, op).0.invitations| > i
    requires Apply(s, op).0.invitations[i] != s.invitations[i]
    ensures var inv, inv' := s.invitations[i], Apply(s, op).0.invitations[i];
            && inv.status == Pending && inv' == inv.(status := inv'.status)
            && match inv'.status
               case Accepted => op.Join? && op.code == InvitationCode(i) && MayJoin(s, i, op.who, op.now)
               case Declined => op.Decline? && op.invitation == i && Addressed(inv, op.who) && op.now <= inv.expiresAt
               case Expired => !op.Invite? && !op.CancelInvitation?
                 && (op.Join? || op.Decline? || op.ExpireInvitations?)
                               && op.now >= inv.expiresAt
               case Cancelled => op.CancelInvitation? && op.invitation == i
                                 && (inv.invitedBy == op.actor
                                   || Allowed(s, inv.familyId, op.actor, CancelAnyInvitation))
               case Pending => false
  {
  }

  /** Where a code leads: the family it admits to, if it admits this account now. */
  function Destination(s: State, code: Code, who: Account, now: int): Option<nat> {
    match code
    case UnknownCode => None
    case FamilyCode(f) => if LiveFamily(s, f) && !IsMember(s, f, who.id) then Some(f) else None
    case InvitationCode(i) => if MayJoin(s, i, who, now) then Some(s.invitations[i].familyId) else None
  }

  /** A join succeeds exactly when its code leads somewhere. Then the account is a plain member there, as a new row or
      as its old row revived, and no other account's membership of any family has changed; otherwise nobody's has. */
  lemma JoinAdmits(s: State, code: Code, who: Account, now: int)
    requires RowsOk(s)
    ensures var s', r, to := JoinFamily(s, code, who, now).0, JoinFamily(s, code, who, now).1,
      Destination(s, code, who, now);
            && (r == Fine <==> to.Some?)
            && (to.None? ==> s'.members == s.members && s'.joins == s.joins)
            && (to.Some? ==> MemberWithRole(s', to.value, who.id, Member) && |s'.joins| == |s.joins| + 1)
    ensures forall f: nat, user: int, role :: Destination(s, code, who, now) != Some(f) || user != who.id ==>
              (MemberWithRole(JoinFamily(s, code, who, now).0, f, user, role) <==> MemberWithRole(s, f, user, role))
  {
    var to := Destination(s, code, who, now);
    if to.Some? {
      var f := to.value;
      AdmittedIsMember(s.members, f, who.id);
      forall g: nat, user: int, role | to != Some(g) || user != who.id
        ensures MemberWithRole(JoinFamily(s, code, who, now).0, g, user, role) <==> MemberWithRole(s, g, user, role)
      {
        AdmitLeavesOthers(s.members, f, who.id, g, user);
      }
    }
  }

  ghost predicate MemberWithRole(s: State, f: nat, user: int, role: Role) {
    var r := FindRow(s.members, f, user);
    r.Some? && !s.members[r.value].deleted && s.members[r.value].role == role
  }

  lemma AdmitLeavesOthers(members: seq<Row>, f: nat, user: int, g: nat, other: int)
    requires g != f || other != user
    ensures var ms := Admit(members, f, user);
            && FindRow(ms, g, other) == FindRow(members, g, other)
            && (FindRow(members, g, other).Some? ==>
              ms[FindRow(members, g, other).value] == members[FindRow(members, g, other).value])
  {
    var r := FindRow(members, f, user);
    if r.None? {
      assert (members + [Row(f, user, Member, false)])[..|members|] == members;
    } else if members[r.value].deleted {
      SameRows(members, Admit(members, f, user), g, other);
    }
  }

  function Run(s: State, ops: seq<Op>): State
    decreases |ops|
  {
    if ops == [] then s else Run(Apply(s, ops[0]).0, ops[1..])
  }

  /** Over every serial run: one membership row per family and user, every family's creator an active owner, an
      invitation accepted exactly when one join has used it; owners and answered invitations never change again. */
  lemma {:induction false} RunKeepsInv(s: State, ops: seq<Op>)
    requires Inv(s)
    ensures Inv(Run(s, ops)) && Keeps(s, Run(s, ops))
    decreases |ops|
  {
    if ops != [] {
      var mid := Apply(s, ops[0]).0;
      StepKeepsInv(s, ops[0]);
      RunKeepsInv(mid, ops[1..]);
      KeepsIsTransitive(s, mid, Run(s, ops));
    }
  }

  lemma KeepsIsTransitive(a: State, b: State, c: State)
    requires Keeps(a, b) && Keeps(b, c)
    ensures Keeps(a, c)
  {
    forall i | 0 <= i < |a.invitations| && a.invitations[i].status != Pending
      ensures c.invitations[i] == a.invitations[i]
    {
      assert b.invitations[i] == a.invitations[i];
    }
    forall m | 0 <= m < |a.members| && a.members[m].role == Owner && !a.members[m].deleted
      ensures c.members[m] == a.members[m]
    {
      assert b.members[m] == a.members[m];
    }
  }

  /** From the empty tables on, an invitation lets at most one account in. */
  lemma OneJoinPerInvitation(ops: seq<Op>, i: nat, j: nat, k: nat)
    requires UsedBy(Run(EMPTY, ops), j, i) && UsedBy(Run(EMPTY, ops), k, i)
    ensures j == k
  {
    RunKeepsInv(EMPTY, ops);
  }

  /** Every live family can be managed: some member may change roles and delete it, and nobody can take that away. */
  lemma SomeoneCanManage(ops: seq<Op>, f: nat)
    requires LiveFamily(Run(EMPTY, ops), f)
    ensures var s := Run(EMPTY, ops);
            Allowed(s, f, s.families[f].createdBy, ManageRoles) && Allowed(s, f, s.families[f].createdBy, ManageFamily)
  {
    RunKeepsInv(EMPTY, ops);
    var s := Run(EMPTY, ops);
    assert CreatorOwns(s, f);
    var m :| 0 <= m < |s.members| && s.members[m] == Row(f, s.families[f].createdBy, Owner, false);
    var r := FindRow(s.members, f, s.families[f].createdBy).value;
    assert r == m;
  }

  /** FindRow prefers the last row, so look at what admitting does to it. */
  lemma AdmittedIsMember(members: seq<Row>, f: nat, user: int)
    ensures var ms := Admit(members, f, user);
            && FindRow(ms, f, user).Some? && !ms[FindRow(ms, f, user).value].deleted
            && (FindRow(members, f, user).None? || members[FindRow(members, f, user).value].deleted ==>
                  ms[FindRow(ms, f, user).value].role == Member)
  {
    var r := FindRow(members, f, user);
    if r.Some? && members[r.value].deleted {
      SameRows(members, Admit(members, f, user), f, user);
    }
  }

  lemma BothAdmitted(members: seq<Row>, f: nat, a: int, b: int)
    requires a != b
    ensures var ms := Admit(Admit(members, f, a), f, b);
            && FindRow(ms, f, a).Some? && !ms[FindRow(ms, f, a).value].deleted
            && FindRow(ms, f, b).Some? && !ms[FindRow(ms, f, b).value].deleted
  {
    AdmittedIsMember(members, f, a);
    AdmittedIsMember(Admit(members, f, a), f, b);
    AdmitLeavesOthers(Admit(members, f, a), f, b, f, a);
  }

  lemma {:induction false} SameRows(a: seq<Row>, b: seq<Row>, f: nat, user: int)
    requires |a| == |b|
    requires forall i :: 0 <= i < |a| ==> a[i].familyId == b[i].familyId && a[i].userId == b[i].userId
    ensures FindRow(a, f, user) == FindRow(b, f, user)
  {
    if a != [] {
      SameRows(a[..|a| - 1], b[..|b| - 1], f, user);
    }
  }
}
