/** Who may do what in app/family/service.py, and what comes of it, in the columns of the tables: roles, addressees and
    dates are written out here, apart from the functions that the service functions are proved against. */
module MembershipLaws {
  import opened Common
  import opened Membership

  /** The user has a row of the family that has not been removed, with one of these roles. */
  ghost predicate Holds(members: seq<Row>, f: nat, user: int, roles: set<Role>) {
    exists m ::
      0 <= m < |members| && members[m].familyId == f && members[m].userId == user && !members[m].deleted
      && members[m].role in roles
  }

  const ANY_ROLE := {Owner, Admin, Member}

  ghost predicate Exists(s: State, f: nat) {
    f < |s.families| && !s.families[f].deleted
  }

  lemma AnyRole(role: Role)
    ensures role in ANY_ROLE
  {
    assert role.Owner? || role.Admin? || role.Member?;
  }

  lemma MembersHold(s: State, f: nat, user: int)
    requires OneRowEach(s.members)
    ensures IsMember(s, f, user) <==> Holds(s.members, f, user, ANY_ROLE)
    ensures forall roles :: Holds(s.members, f, user, roles) <==>
              IsMember(s, f, user) && s.members[FindRow(s.members, f, user).value].role in roles
  {
    var r := FindRow(s.members, f, user);
    if r.Some? {
      AnyRole(s.members[r.value].role);
    }
    if m :| 0 <= m < |s.members| && s.members[m].familyId == f && s.members[m].userId == user {
      assert r == Some(m);
    }
  }

  /** The table of permissions: an owner has every one, an admin those about members and invitations, a plain member may
      see the members and invite; and only in a family that exists. */
  lemma AllowedIff(s: State, f: nat, user: int, p: Permission)
    requires OneRowEach(s.members)
    ensures Allowed(s, f, user, p) <==> Exists(s, f) && Holds(s.members, f, user,
              match p
              case ManageFamily => {Owner}
              case ManageRoles => {Owner}
              case ManageMembers => {Owner, Admin}
              case CancelAnyInvitation => {Owner, Admin}
              case CreateInvitation => {Owner, Admin, Member}
              case ViewMembers => {Owner, Admin, Member})
  {
    MembersHold(s, f, user);
  }

  // ---------------------------------------------------------------------------
  // Families and members
  // ---------------------------------------------------------------------------

  /** Whoever creates a family owns it. */
  lemma CreationDoes(s: State, actor: int)
    ensures Apply(s, CreateFamily(actor))
            == (s.(families := s.families + [Family(actor, false)],
                   members := s.members + [Row(|s.families|, actor, Owner, false)]), Fine)
  {
  }

  /** An owner, and nobody else, deletes the family; nothing else changes. */
  lemma DeletionDoes(s: State, f: nat, actor: int)
    requires RowsOk(s)
    ensures Apply(s, DeleteFamily(f, actor))
            == if Exists(s, f) && Holds(s.members, f, actor, {Owner})
               then (s.(families := s.families[f := Family(s.families[f].createdBy, true)]), Fine)
               else (s, Denied)
  {
    AllowedIff(s, f, actor, ManageFamily);
  }

  /** The row is a membership of the family that has not been removed. */
  ghost predicate RowOf(s: State, f: nat, m: nat) {
    m < |s.members| && s.members[m].familyId == f && !s.members[m].deleted
  }

  /** An owner, and nobody else, gives any role to a member who is not an owner. */
  lemma RoleChangeDoes(s: State, f: nat, m: nat, role: Role, actor: int)
    requires RowsOk(s)
    ensures Apply(s, UpdateRole(f, m, role, actor))
            == if !(Exists(s, f) && Holds(s.members, f, actor, {Owner})) then (s, Denied)
               else if !RowOf(s, f, m) then (s, NotFound)
               else if s.members[m].role == Owner then (s, Refused)
               else (s.(members := s.members[m := s.members[m].(role := role)]), Fine)
  {
    AllowedIff(s, f, actor, ManageRoles);
  }

  /** Members go by themselves, or through an owner or an admin of a family that exists; owners do not go. */
  lemma RemovalDoes(s: State, f: nat, m: nat, actor: int)
    requires RowsOk(s)
    ensures Apply(s, RemoveMember(f, m, actor))
            == if !RowOf(s, f, m) then (s, NotFound)
               else if s.members[m].userId != actor && !(Exists(s, f) && Holds(s.members, f, actor, {Owner, Admin}))
               then (s, Denied)
               else if s.members[m].role == Owner then (s, Refused)
               else (s.(members := s.members[m := s.members[m].(deleted := true)]), Fine)
    ensures RowOf(s, f, m) && s.members[m].userId == actor ==>
              Apply(s, LeaveFamily(f, actor)) == Apply(s, RemoveMember(f, m, actor))
    ensures !Holds(s.members, f, actor, ANY_ROLE) ==> Apply(s, LeaveFamily(f, actor)) == (s, NotFound)
  {
    AllowedIff(s, f, actor, ManageMembers);
    MembersHold(s, f, actor);
    if RowOf(s, f, m) && s.members[m].userId == actor {
      assert FindRow(s.members, f, actor) == Some(m);
    }
  }

  // ---------------------------------------------------------------------------
  // Invitations
  // ---------------------------------------------------------------------------

  /** A pending invitation of the family, not yet expired, to one of these addressees. */
  ghost predicate Waiting(s: State, f: nat, toUser: Option<int>, toEmail: Option<string>, now: int) {
    exists k ::
      0 <= k < |s.invitations| && s.invitations[k].familyId == f && s.invitations[k].status == Pending
      && now < s.invitations[k].expiresAt
      && ((toUser.Some? && s.invitations[k].invitedUser == toUser)
          || (toEmail.Some? && s.invitations[k].invitedEmail == toEmail))
  }

  /** Any member invites: not themselves, no member, nobody whose invitation is still waiting. The invitation is good
      for seven days. */
  lemma InvitationDoes(s: State, f: nat, actor: int, toUser: Option<int>, toEmail: Option<string>, now: int)
    requires RowsOk(s)
    ensures Apply(s, Invite(f, actor, toUser, toEmail, now))
            == if !(Exists(s, f) && Holds(s.members, f, actor, ANY_ROLE)) then (s, Denied)
               else if (toUser.Some? && (toUser.value == actor || Holds(s.members, f, toUser.value, ANY_ROLE)))
                       || Waiting(s, f, toUser, toEmail, now)
               then (s, Refused)
               else (s.(invitations := s.invitations
                          + [Invitation(f, actor, toUser, toEmail, Pending, now + 604800)]), Fine)
  {
    AllowedIff(s, f, actor, Permission.CreateInvitation);
    if toUser.Some? {
      MembersHold(s, f, toUser.value);
    }
    assert Waiting(s, f, toUser, toEmail, now) <==> AlreadyInvited(s.invitations, f, toUser, toEmail, now);
  }

  /** Who sent an invitation, and every owner and admin of a family that exists, can cancel it while it is pending. */
  lemma CancellationDoes(s: State, f: nat, i: nat, actor: int)
    requires RowsOk(s) && i < |s.invitations| && s.invitations[i].familyId == f
    ensures Apply(s, CancelInvitation(f, i, actor))
            == if s.invitations[i].invitedBy != actor && !(Exists(s, f) && Holds(s.members, f, actor, {Owner, Admin}))
               then (s, Denied)
               else if s.invitations[i].status != Pending then (s, Refused)
               else (s.(invitations := s.invitations[i := s.invitations[i].(status := Cancelled)]), Fine)
  {
    AllowedIff(s, f, actor, CancelAnyInvitation);
  }

  /** The expiry of a family's invitations, for any member: the pending ones whose time has come, and no other. */
  lemma ExpiryDoes(s: State, f: nat, actor: int, now: int)
    requires RowsOk(s)
    ensures var s', r := Apply(s, ExpireInvitations(f, actor, now)).0, Apply(s, ExpireInvitations(f, actor, now)).1;
            if !(Exists(s, f) && Holds(s.members, f, actor, ANY_ROLE)) then s' == s && r == Denied
            else
              && r == Fine && s' == s.(invitations := s'.invitations) && |s'.invitations| == |s.invitations|
              && forall i :: 0 <= i < |s.invitations| ==>
                   var inv := s.invitations[i];
                   s'.invitations[i] == if inv.familyId == f && inv.status == Pending && inv.expiresAt <= now
                                        then inv.(status := Expired) else inv
  {
    AllowedIff(s, f, actor, ViewMembers);
  }

  // ---------------------------------------------------------------------------
  // Addressees
  // ---------------------------------------------------------------------------

  /** A targeted invitation is kept from every account that is neither the invited user nor has the invited email, and
      from nobody else; one without an addressee is kept from nobody. Joining asks first whether it is still pending. */
  lemma DeniedIff(s: State, i: nat, who: Account, now: int)
    requires i < |s.invitations|
    ensures var inv := s.invitations[i];
            var meant := who.email.Some? && (inv.invitedUser == Some(who.id) || inv.invitedEmail == who.email);
            var targeted := inv.invitedUser.Some? || inv.invitedEmail.Some?;
            && (Apply(s, Decline(i, who, now)).1 == Denied <==> targeted && !meant)
            && (Apply(s, Join(InvitationCode(i), who, now)).1 == Denied
                <==> targeted && !meant && inv.status == Pending)
  {
  }

  /** Declining a pending invitation that has not expired, by an account it is not kept from, declines it. */
  lemma DecliningDoes(s: State, i: nat, who: Account, now: int)
    requires i < |s.invitations| && Apply(s, Decline(i, who, now)).1 != Denied
    ensures var inv := s.invitations[i];
            Apply(s, Decline(i, who, now))
            == if inv.status != Pending then (s, Refused)
               else if now <= inv.expiresAt
               then (s.(invitations := s.invitations[i := inv.(status := Declined)]), Fine)
               else (s.(invitations := s.invitations[i := inv.(status := Expired)]), Refused)
  {
  }

  /** Joining with an invitation. An account that it is not kept from gets in exactly when the invitation is pending and
      has not expired, the family exists and the account is no member of it yet; a late one marks it expired. */
  lemma JoiningDoes(s: State, i: nat, who: Account, now: int)
    requires RowsOk(s) && i < |s.invitations| && Apply(s, Join(InvitationCode(i), who, now)).1 != Denied
    ensures var inv, s', r := s.invitations[i], Apply(s, Join(InvitationCode(i), who, now)).0,
                              Apply(s, Join(InvitationCode(i), who, now)).1;
            var pending := inv.status == Pending && Exists(s, inv.familyId);
            && (r == Fine <==> pending && now <= inv.expiresAt && !Holds(s.members, inv.familyId, who.id, ANY_ROLE))
            && (r == Fine ==>
                  && s'.families == s.families && s'.joins == s.joins + [Joined(who.id, inv.familyId, Some(i))]
                  && s'.invitations == s.invitations[i := inv.(status := Accepted)]
                  && Holds(s'.members, inv.familyId, who.id, {Member}))
            && (r != Fine ==>
                  s' == if pending && inv.expiresAt < now
                        then s.(invitations := s.invitations[i := inv.(status := Expired)]) else s)
  {
    var f := s.invitations[i].familyId;
    MembersHold(s, f, who.id);
    if !Holds(s.members, f, who.id, ANY_ROLE) {
      AdmittedHolds(s.members, f, who.id);
    }
  }

  lemma AdmittedHolds(members: seq<Row>, f: nat, user: int)
    requires OneRowEach(members) && !Holds(members, f, user, ANY_ROLE)
    ensures Holds(Admit(members, f, user), f, user, {Member})
  {
    var ms := Admit(members, f, user);
    var r := FindRow(members, f, user);
    if r.Some? {
      AnyRole(members[r.value].role);
    }
    var m := if r.None? then |members| else r.value;
    assert ms[m] == Row(f, user, Member, false);
  }

  /** The code of a family lets in every account that is no member of it yet. */
  lemma FamilyCodeDoes(s: State, f: nat, who: Account, now: int)
    requires RowsOk(s)
    ensures var s', r := Apply(s, Join(FamilyCode(f), who, now)).0, Apply(s, Join(FamilyCode(f), who, now)).1;
            if !Exists(s, f) then s' == s && r == NotFound
            else if Holds(s.members, f, who.id, ANY_ROLE) then s' == s && r == Refused
            else
              && r == Fine && s'.families == s.families && s'.invitations == s.invitations
              && s'.joins == s.joins + [Joined(who.id, f, None)] && Holds(s'.members, f, who.id, {Member})
  {
    MembersHold(s, f, who.id);
    if !Holds(s.members, f, who.id, ANY_ROLE) {
      AdmittedHolds(s.members, f, who.id);
    }
  }

  // ---------------------------------------------------------------------------
  // Over every serial run
  // ---------------------------------------------------------------------------

  /** The invited user, or an account with the invited email. */
  ghost predicate Meant(inv: Invitation, who: Account) {
    inv.invitedUser == Some(who.id) || (who.email.Some? && inv.invitedEmail == who.email)
  }

  /** Operation k of the run was the answer of account `who` to invitation i. */
  ghost predicate AnsweredAt(ops: seq<Op>, k: nat, i: nat, who: Account, status: Status) {
    k < |ops| &&
    if status == Accepted then ops[k].Join? && ops[k].code == InvitationCode(i) && ops[k].who == who
    else ops[k].Decline? && ops[k].invitation == i && ops[k].who == who
  }

  ghost predicate LetIn(s: State, i: nat, user: int) {
    exists j: nat :: UsedBy(s, j, i) && s.joins[j].userId == user
  }

  /** The operation that answers an invitation comes from its addressee. */
  lemma AnswerIsMeant(s: State, op: Op, i: nat)
    requires RowsOk(s) && i < |Apply(s, op).0.invitations|
    requires Apply(s, op).0.invitations[i].status in {Accepted, Declined}
    requires i < |s.invitations| ==> s.invitations[i].status == Pending
    ensures i < |s.invitations| && AnsweredAt([op], 0, i, op.who, Apply(s, op).0.invitations[i].status)
    ensures var inv := s.invitations[i]; inv.invitedUser.Some? || inv.invitedEmail.Some? ==> Meant(inv, op.who)
    ensures Apply(s, op).0.invitations[i].status == Accepted ==> LetIn(Apply(s, op).0, i, op.who.id)
  {
    StatusChanges(s, op, i);
    DeniedIff(s, i, op.who, op.now);
    if op.Join? {
      JoiningDoes(s, i, op.who, op.now);
      assert UsedBy(Apply(s, op).0, |s.joins|, i);
    }
  }

  lemma StillLetIn(s: State, s': State, i: nat, user: int)
    requires Keeps(s, s') && LetIn(s, i, user)
    ensures LetIn(s', i, user)
  {
    var j: nat :| UsedBy(s, j, i) && s.joins[j].userId == user;
    assert UsedBy(s', j, i);
  }

  /** Operation k answered invitation i, its account was an addressee if there were any, and if it joined it is in. */
  ghost predicate AnsweredBy(ops: seq<Op>, s: State, i: nat, k: nat, who: Account) {
    && i < |s.invitations| && AnsweredAt(ops, k, i, who, s.invitations[i].status)
    && (s.invitations[i].invitedUser.Some? || s.invitations[i].invitedEmail.Some? ==> Meant(s.invitations[i], who))
    && (s.invitations[i].status == Accepted ==> LetIn(s, i, who.id))
  }

  lemma FirstAnswers(s: State, op: Op, ops: seq<Op>, s': State, i: nat)
    requires RowsOk(s) && i < |Apply(s, op).0.invitations| && ops != [] && ops[0] == op
    requires Apply(s, op).0.invitations[i].status in {Accepted, Declined} && Keeps(Apply(s, op).0, s')
    requires i < |s.invitations| ==> s.invitations[i].status == Pending
    ensures AnsweredBy(ops, s', i, 0, op.who)
  {
    var mid := Apply(s, op).0;
    AnswerIsMeant(s, op, i);
    if mid.invitations[i].status == Accepted {
      StillLetIn(mid, s', i, op.who.id);
    }
    StatusChanges(s, op, i);
  }

  lemma {:induction false} AnswersComeFromAddressees(s: State, ops: seq<Op>, i: nat)
    requires Inv(s)
    requires var s' := Run(s, ops); i < |s'.invitations| && s'.invitations[i].status in {Accepted, Declined}
    requires i < |s.invitations| ==> s.invitations[i].status == Pending
    ensures exists k: nat, who :: AnsweredBy(ops, Run(s, ops), i, k, who)
    decreases |ops|
  {
    var op, mid := ops[0], Apply(s, ops[0]).0;
    StepKeepsInv(s, op);
    RunKeepsInv(mid, ops[1..]);
    if i < |mid.invitations| && mid.invitations[i].status != Pending {
      FirstAnswers(s, op, ops, Run(s, ops), i);
    } else {
      AnswersComeFromAddressees(mid, ops[1..], i);
      var k: nat, who :| AnsweredBy(ops[1..], Run(mid, ops[1..]), i, k, who);
      assert AnsweredBy(ops, Run(s, ops), i, k + 1, who);
    }
  }

  /** From the empty tables on: a targeted invitation that has been used, or declined, was answered by the user it
      names or by an account with the email it names; if it has been used, that is who joined with it. */
  lemma OnlyAddresseesAnswer(ops: seq<Op>, i: nat)
    requires var s := Run(EMPTY, ops); i < |s.invitations| && s.invitations[i].status in {Accepted, Declined}
    ensures var inv := Run(EMPTY, ops).invitations[i];
            exists k: nat, who ::
              && AnsweredAt(ops, k, i, who, inv.status)
              && (inv.invitedUser.Some? || inv.invitedEmail.Some? ==>
                    inv.invitedUser == Some(who.id) || (who.email.Some? && inv.invitedEmail == who.email))
              && (inv.status == Accepted ==> LetIn(Run(EMPTY, ops), i, who.id))
  {
    AnswersComeFromAddressees(EMPTY, ops, i);
    var k: nat, who :| AnsweredBy(ops, Run(EMPTY, ops), i, k, who);
    assert AnsweredAt(ops, k, i, who, Run(EMPTY, ops).invitations[i].status);
  }
}
