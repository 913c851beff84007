/** Friend groups (server/src/routes/groups.js): creating a group, issuing
    an invitation and its link, the members access rule and the
    replacement of a member's preference tags. */
module Groups {
  import opened Base
  import opened Seqs
  import opened Store

  /** An invitation is valid for seven days from its creation. */
  const INVITATION_TTL: int := 7 * DAY

  /** The base URL used when neither client URL setting is present. */
  const DEFAULT_BASE_URL: string := "http://localhost:3000"

  /** The path and query that precede the token in an invite link. */
  const ACCEPT_PATH: string := "/invitations/accept?token="

  /** POST /groups. A missing or empty name is 400; otherwise a group owned by
      the caller is inserted. */
  method CreateGroup(db: Db, userId: Id, name: Option<string>) returns (r: Result<Group>)
    requires db.Valid()
    modifies db`groups, db`nextId
    ensures db.Valid()
    ensures r.Err? <==> !Truthy(name)
    ensures r.Err? ==> r.error == BadRequest && db.groups == old(db.groups) && db.nextId == old(db.nextId)
    ensures r.Ok? ==>
      && r.value == Group(old(db.nextId), userId, name.value)
      && db.groups == old(db.groups) + [r.value]
      && db.nextId == old(db.nextId) + 1
  {
    if !Truthy(name) {
      return Err(BadRequest);
    }
    var group := Group(db.nextId, userId, name.value);
    db.groups := db.groups + [group];
    db.nextId := db.nextId + 1;
    assert forall j :: 0 <= j < |old(db.groups)| ==> old(db.groups)[j] in old(db.groups);
    r := Ok(group);
  }

  /** The group `groupId` exists and is owned by `userId`. */
  predicate OwnsGroup(groups: seq<Group>, groupId: Id, userId: Id) {
    exists g :: g in groups && g.id == groupId && g.ownerId == userId
  }

  /** Some member of the group is a user registered with `email`. */
  predicate HasMemberWithEmail(members: seq<Member>, users: map<Id, string>, groupId: Id, email: string)
    ensures HasMemberWithEmail(members, users, groupId, email) ==> email in users.Values
  {
    exists m :: m in members && m.groupId == groupId && m.userId in users && users[m.userId] == email
  }

  /** The base of the invite link: the client URL setting, else the
      front-end URL setting, else the local default; empty settings count
      as absent. */
  function BaseUrl(clientUrl: Option<string>, frontendUrl: Option<string>): (base: string)
    ensures Truthy(clientUrl) ==> base == clientUrl.value
    ensures !Truthy(clientUrl) && Truthy(frontendUrl) ==> base == frontendUrl.value
    ensures !Truthy(clientUrl) && !Truthy(frontendUrl) ==> base == DEFAULT_BASE_URL
    ensures base != ""
  {
    if Truthy(clientUrl) then clientUrl.value
    else if Truthy(frontendUrl) then frontendUrl.value
    else DEFAULT_BASE_URL
  }

  /** The link answered to the inviter: the base URL, the accept path and
      the token. */
  function InviteLink(base: string, token: string): (link: string)
    ensures |link| == |base| + |ACCEPT_PATH| + |token|
    ensures link[..|base|] == base && link[|link| - |token|..] == token
    ensures link[|base|..|base| + |ACCEPT_PATH|] == ACCEPT_PATH
  {
    base + ACCEPT_PATH + token
  }

  /** Reads the token back out of a link built on `base`. */
  function TokenOfLink(base: string, link: string): Option<string> {
    var prefix := base + ACCEPT_PATH;
    if |prefix| <= |link| && link[..|prefix|] == prefix then Some(link[|prefix|..]) else None
  }

  /** The link carries exactly its token: reading a link built from `token`
      gives `token` back, and a link that reads as `token` is the one built
      from it. */
  lemma {:induction false} InviteLinkRoundTrip(base: string, link: string, token: string)
    ensures TokenOfLink(base, link) == Some(token) <==> link == InviteLink(base, token)
  {
    var prefix := base + ACCEPT_PATH;
    if link == InviteLink(base, token) {
      assert link == prefix + token;
      assert link[..|prefix|] == prefix;
      assert link[|prefix|..] == token;
    }
    if TokenOfLink(base, link) == Some(token) {
      assert link == link[..|prefix|] + link[|prefix|..];
    }
  }

  /** Different tokens give different links over the same base. */
  lemma InviteLinkInjective(base: string, t1: string, t2: string)
    requires InviteLink(base, t1) == InviteLink(base, t2)
    ensures t1 == t2
  {
    InviteLinkRoundTrip(base, InviteLink(base, t1), t1);
    InviteLinkRoundTrip(base, InviteLink(base, t2), t2);
  }

  /** What a successful invite answers: the stored invitation and its link. */
  datatype Invite = Invite(invitation: Invitation, link: string)

  /** POST /groups/:id/invite. A missing email is 400; a group the caller does
      not own is 404; an email already held by a member of the group is
      400. Otherwise a pending invitation for the email is stored with the
      fresh `token`, expiring seven days after `now`; earlier invitations to
      the same email do not block it. The answered link is built on the base
      URL chosen from the two client URL settings. */
  method InviteMember(db: Db, groupId: Id, userId: Id, email: Option<string>, token: string, now: int,
                      clientUrl: Option<string>, frontendUrl: Option<string>)
    returns (r: Result<Invite>)
    requires db.Valid()
    requires forall inv :: inv in db.invitations ==> inv.token != token
    modifies db`invitations, db`nextId
    ensures db.Valid()
    ensures !Truthy(email) ==> r == Err(BadRequest)
    ensures Truthy(email) && !OwnsGroup(db.groups, groupId, userId) ==> r == Err(NotFound)
    ensures Truthy(email) && OwnsGroup(db.groups, groupId, userId) && HasMemberWithEmail(db.members, db.users, groupId, email.value) ==>
      r == Err(BadRequest)
    ensures r.Ok? <==>
      Truthy(email) && OwnsGroup(db.groups, groupId, userId) && !HasMemberWithEmail(db.members, db.users, groupId, email.value)
    ensures r.Ok? ==>
      && r.value.invitation == Invitation(old(db.nextId), groupId, email.value, token, now + INVITATION_TTL, Pending, None)
      && r.value.link == InviteLink(BaseUrl(clientUrl, frontendUrl), token)
      && db.invitations == old(db.invitations) + [r.value.invitation]
      && db.nextId == old(db.nextId) + 1
    ensures r.Err? ==> db.invitations == old(db.invitations) && db.nextId == old(db.nextId)
  {
    if !Truthy(email) {
      return Err(BadRequest);
    }
    if !OwnsGroup(db.groups, groupId, userId) {
      return Err(NotFound);
    }
    if HasMemberWithEmail(db.members, db.users, groupId, email.value) {
      return Err(BadRequest);
    }
    var inv := Invitation(db.nextId, groupId, email.value, token, now + INVITATION_TTL, Pending, None);
    AddInvitation(db, inv);
    r := Ok(Invite(inv, InviteLink(BaseUrl(clientUrl, frontendUrl), token)));
  }

  /** Inserts an invitation with a fresh id and an unused token. */
  method AddInvitation(db: Db, inv: Invitation)
    requires db.Valid()
    requires inv.id == db.nextId && forall i :: i in db.invitations ==> i.token != inv.token
    modifies db`invitations, db`nextId
    ensures db.Valid()
    ensures db.invitations == old(db.invitations) + [inv] && db.nextId == old(db.nextId) + 1
  {
    db.invitations := db.invitations + [inv];
    db.nextId := db.nextId + 1;
    assert forall j :: 0 <= j < |old(db.invitations)| ==> old(db.invitations)[j] in old(db.invitations);
  }

  /** GET /groups/:id/members. The group's owner and its members see every
      membership row of the group; for anyone else the group does not exist. */
  function ListMembers(groups: seq<Group>, members: seq<Member>, groupId: Id, userId: Id): (r: Result<seq<Member>>)
    ensures r.Ok? <==>
      OwnsGroup(groups, groupId, userId) ||
      ((exists g :: g in groups && g.id == groupId) && IsMember(members, groupId, userId))
    ensures r.Err? ==> r.error == NotFound
    ensures r.Ok? ==> forall m :: m in r.value <==> m in members && m.groupId == groupId
    ensures r.Ok? ==> forall m :: multiset(r.value)[m] == if m.groupId == groupId then multiset(members)[m] else 0
  {
    if exists g :: g in groups && g.id == groupId && (g.ownerId == userId || IsMember(members, groupId, userId)) then
      Ok(Filter(members, (m: Member) => m.groupId == groupId))
    else Err(NotFound)
  }

  /** Position of membership `memberId` among the rows of group `groupId`. */
  function MemberIndex(members: seq<Member>, groupId: Id, memberId: Id): (k: Option<nat>)
    ensures k.Some? ==> k.value < |members| && members[k.value].id == memberId && members[k.value].groupId == groupId
    ensures k.None? <==> !exists m :: m in members && m.id == memberId && m.groupId == groupId
  {
    FirstIndex(members, (m: Member) => m.id == memberId && m.groupId == groupId)
  }

  /** PATCH /groups/:id/members/:memberId/preferences. The caller must own the
      group (else 404) and the membership must belong to it (else 404). The
      tags are replaced by the given list, or emptied when none is given;
      the membership's other fields and every other row stay as they were.
      The source's further 403 check cannot fire once the group was found
      with the caller as owner, so it has no branch here. */
  method UpdatePreferences(db: Db, groupId: Id, memberId: Id, userId: Id, tags: Option<seq<string>>)
    returns (r: Result<Member>)
    requires db.Valid()
    modifies db`members
    ensures db.Valid()
    ensures !OwnsGroup(db.groups, groupId, userId) ==> r == Err(NotFound)
    ensures OwnsGroup(db.groups, groupId, userId) && MemberIndex(old(db.members), groupId, memberId).None? ==> r == Err(NotFound)
    ensures r.Ok? <==> OwnsGroup(db.groups, groupId, userId) && MemberIndex(old(db.members), groupId, memberId).Some?
    ensures r.Ok? ==>
      var k := MemberIndex(old(db.members), groupId, memberId).value;
      && r.value == old(db.members)[k].(tags := tags.GetOr([]))
      && db.members == old(db.members)[k := r.value]
    ensures r.Err? ==> db.members == old(db.members)
  {
    if !OwnsGroup(db.groups, groupId, userId) {
      return Err(NotFound);
    }
    var found := MemberIndex(db.members, groupId, memberId);
    if found.None? {
      return Err(NotFound);
    }
    var k := found.value;
    var member := db.members[k];
    var updated := member.(tags := tags.GetOr([]));
    db.members := db.members[k := updated];
    assert forall j :: 0 <= j < |db.members| ==>
      db.members[j].id == old(db.members)[j].id && db.members[j].groupId == old(db.members)[j].groupId &&
      db.members[j].userId == old(db.members)[j].userId;
    assert forall m :: m in db.members ==> m.id < db.nextId by {
      forall m | m in db.members ensures m.id < db.nextId {
        var j :| 0 <= j < |db.members| && db.members[j] == m;
        assert old(db.members)[j] in old(db.members);
      }
    }
    r := Ok(updated);
  }
}
