/** Invitation redemption (server/src/routes/invitations.js): the gate a
    token passes through and the joint insert of the membership with the
    acceptance of the invitation. */
module Invitations {
  import opened Base
  import opened Seqs
  import opened Store

  /** What the gate does to the found invitation: the invitation as written
      back, whether the caller joins the group, and the refusal if not. */
  datatype Redemption = Redemption(inv: Invitation, joined: bool, error: Option<Error>)

  /** The checks on a found invitation, in source order: still pending,
      not past its deadline (lazily written `expired`), the caller's email,
      and no existing membership (the invitation is consumed anyway). */
  function RedeemStep(inv: Invitation, userId: Id, email: string, alreadyMember: bool, now: int): (o: Redemption)
    ensures o.joined <==> o.error.None?
    ensures o.joined <==> inv.status == Pending && now <= inv.expiresAt && email == inv.email && !alreadyMember
    ensures o.joined ==> o.inv == inv.(status := Accepted, userId := Some(userId))
    ensures inv.status != Pending ==> o == Redemption(inv, false, Some(BadRequest))
    ensures inv.status == Pending && now > inv.expiresAt ==> o == Redemption(inv.(status := Expired), false, Some(BadRequest))
    ensures inv.status == Pending && now <= inv.expiresAt && email != inv.email ==> o == Redemption(inv, false, Some(Forbidden))
    ensures inv.status == Pending && now <= inv.expiresAt && email == inv.email && alreadyMember ==>
      o == Redemption(inv.(status := Accepted), false, Some(BadRequest))
    ensures o.inv == inv.(status := o.inv.status, userId := o.inv.userId)
    ensures o.inv != inv ==> o.inv.status != Pending
  {
    if inv.status != Pending then Redemption(inv, false, Some(BadRequest))
    else if now > inv.expiresAt then Redemption(inv.(status := Expired), false, Some(BadRequest))
    else if inv.email != email then Redemption(inv, false, Some(Forbidden))
    else if alreadyMember then Redemption(inv.(status := Accepted), false, Some(BadRequest))
    else Redemption(inv.(status := Accepted, userId := Some(userId)), true, None)
  }

  /** A token is good for one write: whatever a redemption wrote, any later
      redemption of that invitation, by anyone at any time, is refused with
      400 and writes nothing. */
  lemma RedemptionIsOneShot(inv: Invitation, u1: Id, e1: string, m1: bool, t1: int,
                            u2: Id, e2: string, m2: bool, t2: int)
    requires RedeemStep(inv, u1, e1, m1, t1).inv != inv
    ensures var later := RedeemStep(inv, u1, e1, m1, t1).inv;
      RedeemStep(later, u2, e2, m2, t2) == Redemption(later, false, Some(BadRequest))
  {
  }

  /** An expired token stays refused: the second attempt stops at the
      not-pending check and does not look at the deadline again. */
  lemma ExpiryIsSticky(inv: Invitation, userId: Id, email: string, member: bool, now: int, later: int)
    requires inv.status == Pending && now > inv.expiresAt
    ensures RedeemStep(inv, userId, email, member, now).inv.status == Expired
    ensures var o := RedeemStep(inv, userId, email, member, now);
      RedeemStep(o.inv, userId, email, member, later) == Redemption(o.inv, false, Some(BadRequest))
  {
  }

  /** The deadline is inclusive: at `now == expiresAt` the matching email of a
      non-member still joins. */
  lemma DeadlineIsInclusive(inv: Invitation, userId: Id)
    requires inv.status == Pending
    ensures RedeemStep(inv, userId, inv.email, false, inv.expiresAt).joined
  {
  }

  /** Position of the invitation carrying `token`, the unique lookup. */
  function TokenIndex(invitations: seq<Invitation>, token: string): (k: Option<nat>)
    ensures k.Some? ==> k.value < |invitations| && invitations[k.value].token == token
    ensures k.None? <==> forall inv :: inv in invitations ==> inv.token != token
  {
    FirstIndex(invitations, (inv: Invitation) => inv.token == token)
  }

  /** POST /invitations/accept. A missing token is 400 and an unknown one 404,
      both without writes; otherwise the gate decides, the invitation is
      written back as the gate says, and a membership with no preference
      tags is inserted exactly when the gate lets the caller join. */
  method AcceptInvitation(db: Db, token: Option<string>, userId: Id, email: string, now: int) returns (r: Result<Member>)
    requires db.Valid()
    modifies db`invitations, db`members, db`nextId
    ensures db.Valid()
    ensures !Truthy(token) ==> r == Err(BadRequest)
    ensures Truthy(token) && TokenIndex(old(db.invitations), token.value).None? ==> r == Err(NotFound)
    ensures (!Truthy(token) || TokenIndex(old(db.invitations), token.value).None?) ==>
      db.invitations == old(db.invitations) && db.members == old(db.members) && db.nextId == old(db.nextId)
    ensures Truthy(token) && TokenIndex(old(db.invitations), token.value).Some? ==>
      var k := TokenIndex(old(db.invitations), token.value).value;
      var inv := old(db.invitations)[k];
      var o := RedeemStep(inv, userId, email, IsMember(old(db.members), inv.groupId, userId), now);
      && db.invitations == old(db.invitations)[k := o.inv]
      && (o.joined ==>
            && r == Ok(Member(old(db.nextId), inv.groupId, userId, []))
            && db.members == old(db.members) + [r.value]
            && db.nextId == old(db.nextId) + 1)
      && (!o.joined ==> r == Err(o.error.value) && db.members == old(db.members) && db.nextId == old(db.nextId))
  {
    if !Truthy(token) {
      return Err(BadRequest);
    }
    var found := TokenIndex(db.invitations, token.value);
    if found.None? {
      return Err(NotFound);
    }
    var k := found.value;
    var inv := db.invitations[k];
    if inv.status != Pending {
      return Err(BadRequest);
    }
    if now > inv.expiresAt {
      WriteInvitation(db, k, inv.(status := Expired));
      return Err(BadRequest);
    }
    if inv.email != email {
      return Err(Forbidden);
    }
    if IsMember(db.members, inv.groupId, userId) {
      WriteInvitation(db, k, inv.(status := Accepted));
      return Err(BadRequest);
    }
    // The transaction: both rows are written together.
    var member := Member(db.nextId, inv.groupId, userId, []);
    AddMember(db, member);
    WriteInvitation(db, k, inv.(status := Accepted, userId := Some(userId)));
    r := Ok(member);
  }

  /** Rewrites the status or redeeming user of invitation row `k`. */
  method WriteInvitation(db: Db, k: nat, inv: Invitation)
    requires db.Valid()
    requires k < |db.invitations| && inv == db.invitations[k].(status := inv.status, userId := inv.userId)
    modifies db`invitations
    ensures db.Valid()
    ensures db.invitations == old(db.invitations)[k := inv]
  {
    db.invitations := db.invitations[k := inv];
    assert forall j :: 0 <= j < |db.invitations| ==>
      db.invitations[j].id == old(db.invitations)[j].id && db.invitations[j].token == old(db.invitations)[j].token;
    assert forall i :: i in db.invitations ==> i.id < db.nextId by {
      forall i | i in db.invitations ensures i.id < db.nextId {
        var j :| 0 <= j < |db.invitations| && db.invitations[j] == i;
        assert old(db.invitations)[j] in old(db.invitations);
      }
    }
  }

  /** Inserts a membership with a fresh id for a user not yet in the group. */
  method AddMember(db: Db, member: Member)
    requires db.Valid()
    requires member.id == db.nextId && !IsMember(db.members, member.groupId, member.userId)
    modifies db`members, db`nextId
    ensures db.Valid()
    ensures db.members == old(db.members) + [member] && db.nextId == old(db.nextId) + 1
  {
    db.members := db.members + [member];
    db.nextId := db.nextId + 1;
    assert forall j :: 0 <= j < |old(db.members)| ==> old(db.members)[j] in old(db.members);
  }
}
