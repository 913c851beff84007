/** The database the route handlers share: one table per record kind,
    each a sequence of rows that carry their own id. */
module Store {
  import opened Base
  import opened Seqs

  type Id = nat

  /** Milliseconds in a day; dates and times are integer milliseconds. */
  const DAY: int := 86_400_000

  /** The farthest a valid JavaScript Date lies from the epoch, in
      milliseconds; a time further out makes the Date invalid. */
  const MAX_TIME: int := 8_640_000_000_000_000

  datatype ClaimStatus = Requested | Approved | Rejected | Cancelled
  datatype InvitationStatus = Pending | Accepted | Expired

  datatype Category = Category(id: Id, ownerId: Id, name: string)

  datatype Item = Item(
    id: Id, ownerId: Id, name: string, categoryId: Id, quantity: string,
    expiry: int, isShareable: bool, isClaimed: bool)

  datatype Claim = Claim(id: Id, itemId: Id, claimantId: Id, status: ClaimStatus, createdAt: int)

  datatype Group = Group(id: Id, ownerId: Id, name: string)

  datatype Member = Member(id: Id, groupId: Id, userId: Id, tags: seq<string>)

  /** `userId` is the redeeming user, recorded only by a successful redemption. */
  datatype Invitation = Invitation(
    id: Id, groupId: Id, email: string, token: string, expiresAt: int,
    status: InvitationStatus, userId: Option<Id>)

  /** A claim in flight or won: the statuses that block new requests. */
  predicate IsActive(status: ClaimStatus) {
    status == Requested || status == Approved
  }

  /** Some claim on `itemId` is requested or approved. */
  predicate HasActiveClaim(claims: seq<Claim>, itemId: Id) {
    exists c :: c in claims && c.itemId == itemId && IsActive(c.status)
  }

  /** The per-item invariant of the claim ledger: no two claims on one item
      are active at the same time. */
  ghost predicate SingleActivePerItem(claims: seq<Claim>) {
    forall i, j :: 0 <= i < j < |claims| && claims[i].itemId == claims[j].itemId ==>
      !(IsActive(claims[i].status) && IsActive(claims[j].status))
  }

  /** Every approved claim's item is marked claimed. */
  ghost predicate ApprovedMeansClaimed(items: seq<Item>, claims: seq<Claim>) {
    forall c, it :: c in claims && it in items && c.status == Approved && it.id == c.itemId ==> it.isClaimed
  }

  ghost predicate DistinctItemIds(items: seq<Item>) {
    forall i, j :: 0 <= i < j < |items| ==> items[i].id != items[j].id
  }

  ghost predicate DistinctClaimIds(claims: seq<Claim>) {
    forall i, j :: 0 <= i < j < |claims| ==> claims[i].id != claims[j].id
  }

  ghost predicate DistinctGroupIds(groups: seq<Group>) {
    forall i, j :: 0 <= i < j < |groups| ==> groups[i].id != groups[j].id
  }

  ghost predicate DistinctMemberIds(members: seq<Member>) {
    forall i, j :: 0 <= i < j < |members| ==> members[i].id != members[j].id
  }

  ghost predicate DistinctInvitationIds(invitations: seq<Invitation>) {
    forall i, j :: 0 <= i < j < |invitations| ==> invitations[i].id != invitations[j].id
  }

  /** The (group, user) pair of a membership is unique. */
  ghost predicate UniqueMemberships(members: seq<Member>) {
    forall i, j :: 0 <= i < j < |members| ==>
      !(members[i].groupId == members[j].groupId && members[i].userId == members[j].userId)
  }

  /** Invitation tokens are unique. */
  ghost predicate UniqueTokens(invitations: seq<Invitation>) {
    forall i, j :: 0 <= i < j < |invitations| ==> invitations[i].token != invitations[j].token
  }

  predicate IsMember(members: seq<Member>, groupId: Id, userId: Id) {
    exists m :: m in members && m.groupId == groupId && m.userId == userId
  }

  /** Looks a row up by id, as `findUnique({ where: { id } })` does. */
  function ItemById(items: seq<Item>, id: Id): (r: Option<Item>)
    ensures r.Some? ==> r.value in items && r.value.id == id
    ensures r.None? ==> forall it :: it in items ==> it.id != id
  {
    match FirstIndex(items, (it: Item) => it.id == id)
    case None => None
    case Some(k) => Some(items[k])
  }

  function ClaimById(claims: seq<Claim>, id: Id): (r: Option<Claim>)
    ensures r.Some? ==> r.value in claims && r.value.id == id
    ensures r.None? ==> forall c :: c in claims ==> c.id != id
  {
    match FirstIndex(claims, (c: Claim) => c.id == id)
    case None => None
    case Some(k) => Some(claims[k])
  }

  ghost predicate ItemIdsBelow(items: seq<Item>, n: nat) {
    forall it :: it in items ==> it.id < n
  }

  ghost predicate ClaimIdsBelow(claims: seq<Claim>, n: nat) {
    forall c :: c in claims ==> c.id < n
  }

  ghost predicate ReferToItems(claims: seq<Claim>, items: seq<Item>) {
    forall c :: c in claims ==> exists it :: it in items && it.id == c.itemId
  }

  /** `claims'` is `claims` with nothing but statuses rewritten. */
  ghost predicate OnlyStatusesChanged(claims: seq<Claim>, claims': seq<Claim>) {
    |claims'| == |claims| &&
    forall j :: 0 <= j < |claims| ==> claims'[j] == claims[j].(status := claims'[j].status)
  }

  /** `items'` is `items` with nothing but `isClaimed` flags rewritten. */
  ghost predicate OnlyClaimedFlagsChanged(items: seq<Item>, items': seq<Item>) {
    |items'| == |items| &&
    forall j :: 0 <= j < |items| ==> items'[j] == items[j].(isClaimed := items'[j].isClaimed)
  }

  /** `items'` holds the rows of `items`, in place, each keeping its id. */
  ghost predicate SameItemIds(items: seq<Item>, items': seq<Item>) {
    |items'| == |items| &&
    forall j :: 0 <= j < |items| ==> items'[j].id == items[j].id
  }

  /** Rewriting claim statuses and item fields other than the id keeps ids
      fresh and distinct and claims pointing at stored items. */
  lemma RewritesKeepIds(items: seq<Item>, claims: seq<Claim>, items': seq<Item>, claims': seq<Claim>, n: nat)
    requires OnlyStatusesChanged(claims, claims') && SameItemIds(items, items')
    requires ItemIdsBelow(items, n) && ClaimIdsBelow(claims, n)
    requires DistinctItemIds(items) && DistinctClaimIds(claims) && ReferToItems(claims, items)
    ensures ItemIdsBelow(items', n) && ClaimIdsBelow(claims', n)
    ensures DistinctItemIds(items') && DistinctClaimIds(claims') && ReferToItems(claims', items')
  {
    forall c | c in claims' ensures c.id < n && exists it :: it in items' && it.id == c.itemId {
      var j :| 0 <= j < |claims'| && claims'[j] == c;
      assert claims[j] in claims;
      var it :| it in items && it.id == claims[j].itemId;
      var m :| 0 <= m < |items| && items[m] == it;
      assert items'[m] in items';
    }
    forall it | it in items' ensures it.id < n {
      var j :| 0 <= j < |items'| && items'[j] == it;
      assert items[j] in items;
    }
  }

  /** Editing items without touching ids or claimed flags keeps every
      approved claim's item marked claimed. */
  lemma ClaimedFlagsKept(items: seq<Item>, items': seq<Item>, claims: seq<Claim>)
    requires SameItemIds(items, items')
    requires forall j :: 0 <= j < |items| ==> items'[j].isClaimed == items[j].isClaimed
    requires ApprovedMeansClaimed(items, claims)
    ensures ApprovedMeansClaimed(items', claims)
  {
    forall c, it | c in claims && it in items' && c.status == Approved && it.id == c.itemId
      ensures it.isClaimed
    {
      var j :| 0 <= j < |items'| && items'[j] == it;
      assert items[j] in items;
    }
  }

  class Db {
    /** Registered users: id to verified email. No handler here changes it. */
    var users: map<Id, string>
    var categories: seq<Category>
    var items: seq<Item>
    var claims: seq<Claim>
    var groups: seq<Group>
    var members: seq<Member>
    var invitations: seq<Invitation>
    /** The id the next inserted row receives; every stored id is below it. */
    var nextId: nat

    ghost predicate FreshIds()
      reads this
    {
      && ItemIdsBelow(items, nextId)
      && ClaimIdsBelow(claims, nextId)
      && (forall g :: g in groups ==> g.id < nextId)
      && (forall m :: m in members ==> m.id < nextId)
      && (forall inv :: inv in invitations ==> inv.id < nextId)
    }

    /** Every claim refers to a stored item. */
    ghost predicate ClaimsReferToItems()
      reads this
    {
      ReferToItems(claims, items)
    }

    ghost predicate Valid()
      reads this
    {
      && FreshIds()
      && DistinctItemIds(items)
      && DistinctClaimIds(claims)
      && DistinctGroupIds(groups)
      && DistinctMemberIds(members)
      && DistinctInvitationIds(invitations)
      && UniqueMemberships(members)
      && UniqueTokens(invitations)
      && ClaimsReferToItems()
      && SingleActivePerItem(claims)
      && ApprovedMeansClaimed(items, claims)
    }

    constructor (users: map<Id, string>, categories: seq<Category>)
      ensures Valid()
      ensures this.users == users && this.categories == categories
      ensures items == [] && claims == [] && groups == [] && members == [] && invitations == []
    {
      this.users := users;
      this.categories := categories;
      items, claims, groups, members, invitations := [], [], [], [], [];
      nextId := 0;
    }
  }
}
