/** The claim ledger (server/src/routes/claims.js): requesting a claim on a
    shared item, resolving it (approve, reject, cancel) and the two claim
    lists. */
module Claims {
  import opened Base
  import opened Seqs
  import opened Store

  // ---------------------------------------------------------------------
  // Requesting a claim

  /** The claims on `itemId` that are requested or approved, as the request
      handler loads them with its item. */
  function ActiveClaimsOn(claims: seq<Claim>, itemId: Id): seq<Claim> {
    Filter(claims, (c: Claim) => c.itemId == itemId && IsActive(c.status))
  }

  /** `userId` already holds a requested or approved claim on `itemId`. Such
      a claim is one of the item's active claims, so this check never refuses
      a request that the pending-claims check let through. */
  predicate HoldsActiveClaim(claims: seq<Claim>, itemId: Id, userId: Id)
    ensures HoldsActiveClaim(claims, itemId, userId) ==> HasActiveClaim(claims, itemId)
  {
    exists c :: c in claims && c.itemId == itemId && c.claimantId == userId && IsActive(c.status)
  }

  /** The checks a claim request on a found item passes through, in source
      order: self-claim, shareability, already claimed or pending, and the
      caller's own pending claim. Every refusal is a 400. */
  function RequestGuard(item: Item, claims: seq<Claim>, userId: Id): (e: Option<Error>)
    ensures item.ownerId == userId ==> e == Some(BadRequest)
    ensures e.Some? ==> e.value == BadRequest
    ensures e.None? <==>
      item.ownerId != userId && item.isShareable && !item.isClaimed && !HasActiveClaim(claims, item.id)
  {
    var active := ActiveClaimsOn(claims, item.id);
    assert HasActiveClaim(claims, item.id) <==> |active| > 0 by {
      if HasActiveClaim(claims, item.id) {
        var c :| c in claims && c.itemId == item.id && IsActive(c.status);
        assert c in active;
      }
      if |active| > 0 {
        assert active[0] in active;
      }
    }
    if item.ownerId == userId then Some(BadRequest)
    else if !item.isShareable then Some(BadRequest)
    else if item.isClaimed || |active| > 0 then Some(BadRequest)
    else if HoldsActiveClaim(claims, item.id, userId) then Some(BadRequest)
    else None
  }

  /** POST /claims/items/:id/claims. The new claim is `requested`; the item
      itself, `isClaimed` included, is left alone. */
  method RequestClaim(db: Db, itemId: Id, userId: Id, now: int) returns (r: Result<Claim>)
    requires db.Valid()
    modifies db`claims, db`nextId
    ensures db.Valid()
    ensures ItemById(db.items, itemId).None? ==> r == Err(NotFound)
    ensures ItemById(db.items, itemId).Some? ==>
      var e := RequestGuard(ItemById(db.items, itemId).value, old(db.claims), userId);
      (e.Some? ==> r == Err(e.value)) && (e.None? <==> r.Ok?)
    ensures r.Ok? ==>
      && r.value == Claim(old(db.nextId), itemId, userId, Requested, now)
      && db.claims == old(db.claims) + [r.value]
      && db.nextId == old(db.nextId) + 1
    ensures r.Err? ==> db.claims == old(db.claims) && db.nextId == old(db.nextId)
  {
    var found := ItemById(db.items, itemId);
    if found.None? {
      return Err(NotFound);
    }
    var e := RequestGuard(found.value, db.claims, userId);
    if e.Some? {
      return Err(e.value);
    }
    var claim := Claim(db.nextId, itemId, userId, Requested, now);
    RequestKeepsSingleActive(db.claims, claim);
    db.claims := db.claims + [claim];
    db.nextId := db.nextId + 1;
    r := Ok(claim);
  }

  /** Adding a requested claim to an item with no active claim keeps at most
      one active claim per item. */
  lemma RequestKeepsSingleActive(claims: seq<Claim>, c: Claim)
    requires SingleActivePerItem(claims)
    requires !HasActiveClaim(claims, c.itemId)
    ensures SingleActivePerItem(claims + [c])
  {
    var s := claims + [c];
    forall i, j | 0 <= i < j < |s| && s[i].itemId == s[j].itemId
      ensures !(IsActive(s[i].status) && IsActive(s[j].status))
    {
      if j == |claims| {
        assert s[i] in claims;
      }
    }
  }

  // ---------------------------------------------------------------------
  // Resolving a claim

  /** The `status` of a PATCH body; only the three resolutions are accepted.
      A missing status is any string outside them. */
  function ParseStatus(s: string): (r: Option<ClaimStatus>)
    ensures r.Some? <==> s == "approved" || s == "rejected" || s == "cancelled"
    ensures r != Some(Requested)
  {
    if s == "approved" then Some(Approved)
    else if s == "rejected" then Some(Rejected)
    else if s == "cancelled" then Some(Cancelled)
    else None
  }

  function StatusName(status: ClaimStatus): string {
    match status
    case Requested => "requested"
    case Approved => "approved"
    case Rejected => "rejected"
    case Cancelled => "cancelled"
  }

  /** Every resolution is read back from its name; `requested` is refused. */
  lemma ParseStatusName(status: ClaimStatus)
    ensures ParseStatus(StatusName(status)) == if status == Requested then None else Some(status)
  {
  }

  /** The authorisation and transition checks of a resolution, in source
      order, for the item's owner, the claim's claimant, the caller, the
      requested status and the claim's current status. */
  function Authorize(ownerId: Id, claimantId: Id, userId: Id, target: ClaimStatus, current: ClaimStatus): (e: Option<Error>)
    ensures userId != ownerId && userId != claimantId ==> e == Some(Forbidden)
    ensures target == Cancelled ==> (e.None? <==> userId == claimantId)
    ensures target == Rejected ==> (e.None? <==> userId == ownerId)
    ensures target == Approved ==> (e.None? <==> userId == ownerId && current == Requested)
    ensures target == Approved && userId == ownerId && current != Requested ==> e == Some(BadRequest)
    ensures e == Some(BadRequest) ==> target == Approved
    ensures e.Some? && !(target == Approved && userId == ownerId) ==> e == Some(Forbidden)
    ensures e.Some? ==> e.value == Forbidden || e.value == BadRequest
  {
    if userId != ownerId && userId != claimantId then Some(Forbidden)
    else if target == Cancelled && claimantId != userId then Some(Forbidden)
    else if target == Approved && ownerId != userId then Some(Forbidden)
    else if target == Rejected && ownerId != userId then Some(Forbidden)
    else if target == Approved && current != Requested then Some(BadRequest)
    else None
  }

  /** A rival of `winner`: another requested claim on the same item. */
  predicate IsRival(c: Claim, winner: Claim) {
    c.itemId == winner.itemId && c.id != winner.id && c.status == Requested
  }

  /** The effect of approving `winner` on one claim row. */
  function AfterApproval(c: Claim, winner: Claim): Claim {
    if c.id == winner.id then c.(status := Approved)
    else if IsRival(c, winner) then c.(status := Rejected)
    else c
  }

  /** The claims table after approving `winner`. */
  function Approve(claims: seq<Claim>, winner: Claim): (r: seq<Claim>)
    ensures OnlyStatusesChanged(claims, r)
    ensures forall j :: 0 <= j < |claims| && claims[j].itemId != winner.itemId && claims[j].id != winner.id ==>
      r[j] == claims[j]
  {
    seq(|claims|, i requires 0 <= i < |claims| => AfterApproval(claims[i], winner))
  }

  /** The claims table after a reject or cancel of claim `id`. */
  function SetStatus(claims: seq<Claim>, id: Id, status: ClaimStatus): (r: seq<Claim>)
    ensures OnlyStatusesChanged(claims, r)
    ensures forall j :: 0 <= j < |claims| ==> claims[j].id == id ==> r[j].status == status
    ensures forall j :: 0 <= j < |claims| ==> claims[j].id != id ==> r[j] == claims[j]
  {
    seq(|claims|, i requires 0 <= i < |claims| =>
      if claims[i].id == id then claims[i].(status := status) else claims[i])
  }

  /** The items table after approval marks item `itemId` claimed. */
  function MarkClaimed(items: seq<Item>, itemId: Id): (r: seq<Item>)
    ensures OnlyClaimedFlagsChanged(items, r)
    ensures forall j :: 0 <= j < |items| ==> r[j].isClaimed == (items[j].isClaimed || items[j].id == itemId)
  {
    seq(|items|, i requires 0 <= i < |items| =>
      if items[i].id == itemId then items[i].(isClaimed := true) else items[i])
  }

  /** What approval does to the claims table: the winner becomes approved,
      every rival becomes rejected, and every other row (claims on other
      items, claims not requested) is untouched; no row changes anything
      but its status. */
  lemma ApprovalEffects(claims: seq<Claim>, winner: Claim, i: nat)
    requires i < |claims|
    ensures |Approve(claims, winner)| == |claims|
    ensures Approve(claims, winner)[i] == claims[i].(status := Approve(claims, winner)[i].status)
    ensures claims[i].id == winner.id ==> Approve(claims, winner)[i].status == Approved
    ensures claims[i].id != winner.id && claims[i].itemId == winner.itemId && claims[i].status == Requested ==>
      Approve(claims, winner)[i].status == Rejected
    ensures claims[i].id != winner.id && (claims[i].itemId != winner.itemId || claims[i].status != Requested) ==>
      Approve(claims, winner)[i] == claims[i]
  {
  }

  /** Approving a requested claim keeps at most one active claim per item,
      and afterwards the winner is the only active claim on its item. */
  lemma ApprovalKeepsSingleActive(claims: seq<Claim>, winner: Claim)
    requires SingleActivePerItem(claims) && DistinctClaimIds(claims)
    requires winner in claims && winner.status == Requested
    ensures SingleActivePerItem(Approve(claims, winner))
    ensures forall c :: c in Approve(claims, winner) && c.itemId == winner.itemId && IsActive(c.status) ==>
      c == winner.(status := Approved)
  {
    var r := Approve(claims, winner);
    var w :| 0 <= w < |claims| && claims[w] == winner;
    assert forall i :: 0 <= i < |claims| && claims[i].id == winner.id ==> i == w;
    // A claim on the winner's item other than the winner is not active afterwards.
    assert forall i :: 0 <= i < |r| && i != w && r[i].itemId == winner.itemId ==> !IsActive(r[i].status) by {
      forall i | 0 <= i < |r| && i != w && r[i].itemId == winner.itemId
        ensures !IsActive(r[i].status)
      {
        if claims[i].status != Requested {
          assert r[i] == claims[i] && IsActive(claims[w].status);
        }
      }
    }
    forall i, j | 0 <= i < j < |r| && r[i].itemId == r[j].itemId
      ensures !(IsActive(r[i].status) && IsActive(r[j].status))
    {
      if r[i].itemId != winner.itemId {
        assert r[i] == claims[i] && r[j] == claims[j];
      }
    }
    forall c | c in r && c.itemId == winner.itemId && IsActive(c.status)
      ensures c == winner.(status := Approved)
    {
      var i :| 0 <= i < |r| && r[i] == c;
    }
  }

  /** Approval (the winner's item marked claimed) keeps every approved claim's
      item claimed. */
  lemma ApprovalKeepsClaimedFlag(items: seq<Item>, claims: seq<Claim>, winner: Claim)
    requires ApprovedMeansClaimed(items, claims)
    requires DistinctClaimIds(claims) && winner in claims
    ensures ApprovedMeansClaimed(MarkClaimed(items, winner.itemId), Approve(claims, winner))
  {
    var items', claims' := MarkClaimed(items, winner.itemId), Approve(claims, winner);
    forall c, it | c in claims' && it in items' && c.status == Approved && it.id == c.itemId
      ensures it.isClaimed
    {
      var i :| 0 <= i < |claims'| && claims'[i] == c;
      var k :| 0 <= k < |items'| && items'[k] == it;
      if claims[i].id != winner.id {
        assert claims[i] == c && items[k] in items;
        assert items[k].id == it.id;
      } else {
        var w :| 0 <= w < |claims| && claims[w] == winner;
        assert i == w;
      }
    }
  }

  /** A reject or cancel moves no claim into an active status, so both claim
      invariants survive it. */
  lemma ResolutionKeepsInvariants(items: seq<Item>, claims: seq<Claim>, id: Id, status: ClaimStatus)
    requires !IsActive(status)
    requires SingleActivePerItem(claims) && ApprovedMeansClaimed(items, claims)
    ensures SingleActivePerItem(SetStatus(claims, id, status))
    ensures ApprovedMeansClaimed(items, SetStatus(claims, id, status))
  {
    var r := SetStatus(claims, id, status);
    forall c, it | c in r && it in items && c.status == Approved && it.id == c.itemId
      ensures it.isClaimed
    {
      var i :| 0 <= i < |r| && r[i] == c;
      assert claims[i] == c;
    }
  }

  /** Once a claim is approved, no other claim on its item can be approved:
      every other claim there is no longer requested, so the owner's
      approval is refused with 400. */
  lemma SecondApprovalRefused(claims: seq<Claim>, winner: Claim, other: Claim, ownerId: Id)
    requires SingleActivePerItem(claims) && DistinctClaimIds(claims)
    requires winner in claims && winner.status == Requested
    requires other in Approve(claims, winner) && other.itemId == winner.itemId && other.id != winner.id
    ensures other.status != Requested
    ensures Authorize(ownerId, other.claimantId, ownerId, Approved, other.status) == Some(BadRequest)
  {
    ApprovalKeepsSingleActive(claims, winner);
  }

  /** An approved claim can still be cancelled by its claimant or rejected by
      the owner, since neither checks the current status. Afterwards the item
      has no active claim but stays marked claimed, so every new request on
      it is refused: the item does not become claimable again. */
  lemma WithdrawnApprovalKeepsItemClaimed(items: seq<Item>, claims: seq<Claim>, c: Claim, it: Item, status: ClaimStatus, u: Id)
    requires SingleActivePerItem(claims) && DistinctClaimIds(claims) && ApprovedMeansClaimed(items, claims)
    requires c in claims && c.status == Approved && it in items && it.id == c.itemId
    requires status == Cancelled || status == Rejected
    ensures Authorize(it.ownerId, c.claimantId, c.claimantId, Cancelled, c.status).None?
    ensures Authorize(it.ownerId, c.claimantId, it.ownerId, Rejected, c.status).None?
    ensures it.isClaimed
    ensures !HasActiveClaim(SetStatus(claims, c.id, status), it.id)
    ensures RequestGuard(it, SetStatus(claims, c.id, status), u) == Some(BadRequest)
  {
    var r := SetStatus(claims, c.id, status);
    var w :| 0 <= w < |claims| && claims[w] == c;
    forall d | d in r && d.itemId == it.id ensures !IsActive(d.status) {
      var i :| 0 <= i < |r| && r[i] == d;
      if i != w {
        assert claims[i].id != c.id;
        assert r[i] == claims[i];
      }
    }
  }

  /** The bulk update of an approval: every rival of `winner` becomes
      rejected and every other row stays as it was. */
  method RejectRivals(db: Db, winner: Claim)
    modifies db`claims
    ensures |db.claims| == |old(db.claims)|
    ensures forall j :: 0 <= j < |db.claims| ==>
      db.claims[j] == if IsRival(old(db.claims)[j], winner) then old(db.claims)[j].(status := Rejected) else old(db.claims)[j]
  {
    var i := 0;
    while i < |db.claims|
      invariant |db.claims| == |old(db.claims)|
      invariant 0 <= i <= |db.claims|
      invariant forall j :: 0 <= j < i ==>
        db.claims[j] == if IsRival(old(db.claims)[j], winner) then old(db.claims)[j].(status := Rejected) else old(db.claims)[j]
      invariant forall j :: i <= j < |db.claims| ==> db.claims[j] == old(db.claims)[j]
    {
      var c := db.claims[i];
      if IsRival(c, winner) {
        db.claims := db.claims[i := c.(status := Rejected)];
      }
      i := i + 1;
    }
  }

  /** The writes of an approval of claim row `k`, whose item is row `ik`:
      the rivals are rejected, then the claim is approved and its item marked
      claimed. */
  method ApplyApproval(db: Db, k: nat, ik: nat)
    requires db.Valid()
    requires k < |db.claims| && db.claims[k].status == Requested
    requires ik < |db.items| && db.items[ik].id == db.claims[k].itemId
    modifies db`claims, db`items
    ensures db.Valid()
    ensures db.claims == Approve(old(db.claims), old(db.claims)[k])
    ensures db.items == MarkClaimed(old(db.items), old(db.claims)[k].itemId)
    ensures OnlyStatusesChanged(old(db.claims), db.claims) && OnlyClaimedFlagsChanged(old(db.items), db.items)
  {
    var claim, item := db.claims[k], db.items[ik];
    ghost var claims0, items0 := db.claims, db.items;
    ApprovalKeepsSingleActive(claims0, claim);
    ApprovalKeepsClaimedFlag(items0, claims0, claim);
    RejectRivals(db, claim);
    ApprovalRows(claims0, db.claims, k);
    db.claims := db.claims[k := claim.(status := Approved)];
    MarkClaimedRow(items0, ik);
    db.items := db.items[ik := item.(isClaimed := true)];
    RewritesKeepIds(items0, claims0, db.items, db.claims, db.nextId);
  }

  /** The rival rejection followed by the winner's update is `Approve`. */
  lemma ApprovalRows(claims: seq<Claim>, rejected: seq<Claim>, k: nat)
    requires DistinctClaimIds(claims) && k < |claims|
    requires |rejected| == |claims|
    requires forall j :: 0 <= j < |claims| ==>
      rejected[j] == if IsRival(claims[j], claims[k]) then claims[j].(status := Rejected) else claims[j]
    ensures rejected[k := claims[k].(status := Approved)] == Approve(claims, claims[k])
    ensures OnlyStatusesChanged(claims, Approve(claims, claims[k]))
  {
    assert forall j :: 0 <= j < |claims| && j != k ==> claims[j].id != claims[k].id;
  }

  /** Updating row `ik` is `MarkClaimed` of its id. */
  lemma MarkClaimedRow(items: seq<Item>, ik: nat)
    requires DistinctItemIds(items) && ik < |items|
    ensures items[ik := items[ik].(isClaimed := true)] == MarkClaimed(items, items[ik].id)
    ensures OnlyClaimedFlagsChanged(items, MarkClaimed(items, items[ik].id))
  {
    assert forall j :: 0 <= j < |items| && j != ik ==> items[j].id != items[ik].id;
  }

  /** The write of a reject or cancel of claim row `k`: its status only. */
  method ApplyResolution(db: Db, k: nat, status: ClaimStatus)
    requires db.Valid()
    requires k < |db.claims| && !IsActive(status)
    modifies db`claims
    ensures db.Valid()
    ensures db.claims == SetStatus(old(db.claims), old(db.claims)[k].id, status)
  {
    var claim := db.claims[k];
    ResolutionKeepsInvariants(db.items, db.claims, claim.id, status);
    assert forall j :: 0 <= j < |db.claims| && j != k ==> db.claims[j].id != claim.id;
    db.claims := db.claims[k := claim.(status := status)];
    assert db.claims == SetStatus(old(db.claims), claim.id, status);
    RewritesKeepIds(db.items, old(db.claims), db.items, db.claims, db.nextId);
  }

  /** PATCH /claims/:id. The status is validated before the claim is looked
      up; an approval rejects every rival and marks the item claimed; a
      reject or cancel rewrites only that claim's status. Any refusal leaves
      the store as it was. */
  method UpdateClaimStatus(db: Db, claimId: Id, userId: Id, status: string) returns (r: Result<Claim>)
    requires db.Valid()
    modifies db`claims, db`items
    ensures db.Valid()
    ensures ParseStatus(status).None? ==> r == Err(BadRequest)
    ensures ParseStatus(status).Some? && ClaimById(old(db.claims), claimId).None? ==> r == Err(NotFound)
    ensures ParseStatus(status).Some? && ClaimById(old(db.claims), claimId).Some? ==>
      var target := ParseStatus(status).value;
      var c := ClaimById(old(db.claims), claimId).value;
      var owner := ItemById(old(db.items), c.itemId);
      && owner.Some?
      && var e := Authorize(owner.value.ownerId, c.claimantId, userId, target, c.status);
      && (e.Some? ==> r == Err(e.value))
      && (e.None? ==> r == Ok(c.(status := target)))
      && (e.None? && target == Approved ==>
            db.claims == Approve(old(db.claims), c) && db.items == MarkClaimed(old(db.items), c.itemId))
      && (e.None? && target != Approved ==>
            db.claims == SetStatus(old(db.claims), claimId, target) && db.items == old(db.items))
    ensures r.Err? ==> db.claims == old(db.claims) && db.items == old(db.items)
  {
    var target := ParseStatus(status);
    if target.None? {
      return Err(BadRequest);
    }
    var k := FirstIndex(db.claims, (c: Claim) => c.id == claimId);
    if k.None? {
      return Err(NotFound);
    }
    var claim := db.claims[k.value];
    assert claim == ClaimById(db.claims, claimId).value;
    assert forall j :: 0 <= j < |db.claims| && j != k.value ==> db.claims[j].id != claimId;
    var ik := FirstIndex(db.items, (it: Item) => it.id == claim.itemId);
    if ik.None? {
      assert false;
    }
    var item := db.items[ik.value];
    assert item == ItemById(db.items, claim.itemId).value;
    var e := Authorize(item.ownerId, claim.claimantId, userId, target.value, claim.status);
    if e.Some? {
      return Err(e.value);
    }
    if target.value == Approved {
      ApplyApproval(db, k.value, ik.value);
    } else {
      ApplyResolution(db, k.value, target.value);
    }
    r := Ok(claim.(status := target.value));
  }

  // ---------------------------------------------------------------------
  // Claim lists, newest first

  /** Sort key putting the newest claim first. */
  function NewestFirst(c: Claim): int {
    -c.createdAt
  }

  /** The caller owns the item `itemId`. */
  predicate OwnsItem(items: seq<Item>, itemId: Id, userId: Id) {
    exists it :: it in items && it.id == itemId && it.ownerId == userId
  }

  /** GET /claims/incoming: the requested or approved claims on the caller's
      items, each as often as stored, newest first. */
  function Incoming(items: seq<Item>, claims: seq<Claim>, userId: Id): (r: seq<Claim>)
    ensures forall c :: c in r <==> c in claims && IsActive(c.status) && OwnsItem(items, c.itemId, userId)
    ensures forall c :: multiset(r)[c] ==
                        if IsActive(c.status) && OwnsItem(items, c.itemId, userId) then multiset(claims)[c] else 0
    ensures SortedBy(r, NewestFirst)
  {
    SortBy(Filter(claims, (c: Claim) => IsActive(c.status) && OwnsItem(items, c.itemId, userId)), NewestFirst)
  }

  /** GET /claims/mine: every claim the caller made, in any status, each as
      often as stored, newest first. */
  function Mine(claims: seq<Claim>, userId: Id): (r: seq<Claim>)
    ensures forall c :: c in r <==> c in claims && c.claimantId == userId
    ensures forall c :: multiset(r)[c] == if c.claimantId == userId then multiset(claims)[c] else 0
    ensures SortedBy(r, NewestFirst)
  {
    SortBy(Filter(claims, (c: Claim) => c.claimantId == userId), NewestFirst)
  }
}
