/** The claimable-items feed (server/src/routes/shared-items.js): other
    users' shareable, unclaimed items without an approved claim, optionally
    narrowed by category name and item name, each annotated with two
    claim flags, by ascending expiry date. The feed only reads the store. */
module SharedItems {
  import opened Base
  import opened Seqs
  import opened Store
  import opened Text
  import opened Items

  /** An item of the feed with its derived flags. */
  datatype SharedItem = SharedItem(item: Item, hasApprovedClaim: bool, isClaimable: bool)

  /** The ids of the items that carry an approved claim. */
  function ApprovedItemIds(claims: seq<Claim>): (ids: set<Id>)
    ensures forall id :: id in ids <==> exists c :: c in claims && c.status == Approved && c.itemId == id
  {
    set c | c in claims && c.status == Approved :: c.itemId
  }

  /** The item's category has a name containing `pattern`, ignoring case. */
  predicate CategoryMatches(categories: seq<Category>, it: Item, pattern: string) {
    exists cat :: cat in categories && cat.id == it.categoryId && ContainsIgnoreCase(cat.name, pattern)
  }

  /** The feed's selection; an absent or empty filter restricts nothing. */
  predicate Visible(it: Item, approved: set<Id>, categories: seq<Category>, viewer: Id,
                    category: Option<string>, q: Option<string>) {
    && it.isShareable
    && !it.isClaimed
    && it.id !in approved
    && it.ownerId != viewer
    && (Truthy(category) ==> CategoryMatches(categories, it, category.value))
    && (Truthy(q) ==> ContainsIgnoreCase(it.name, q.value))
  }

  /** Skipping an empty name filter, as the handler's truthiness test does,
      selects the same items as applying it: the empty pattern matches every
      name. */
  lemma EmptyNameFilterIsNoFilter(it: Item, q: Option<string>)
    ensures (Truthy(q) ==> ContainsIgnoreCase(it.name, q.value)) <==>
            (q.Some? ==> ContainsIgnoreCase(it.name, q.value))
  {
    if q == Some("") {
      EmptyPatternMatches(it.name);
    }
  }

  /** The approved claims on an item, as the feed's included relation. */
  function ApprovedClaimsOn(claims: seq<Claim>, itemId: Id): seq<Claim> {
    Filter(claims, (c: Claim) => c.itemId == itemId && c.status == Approved)
  }

  /** The flags of one feed entry: an approved claim exists exactly when the
      item's id is among the approved ones, and claimable is its negation. */
  function Annotate(it: Item, claims: seq<Claim>): (e: SharedItem)
    ensures e.item == it
    ensures e.hasApprovedClaim <==> it.id in ApprovedItemIds(claims)
    ensures e.isClaimable == !e.hasApprovedClaim
  {
    var n := |ApprovedClaimsOn(claims, it.id)|;
    SharedItem(it, n > 0, n == 0)
  }

  /** An item with no approved claim is annotated as claimable. */
  lemma AnnotateUnapproved(it: Item, claims: seq<Claim>)
    requires it.id !in ApprovedItemIds(claims)
    ensures Annotate(it, claims) == SharedItem(it, false, true)
  {
  }

  /** The items of a feed, without their flags. */
  function ItemsOf(r: seq<SharedItem>): (s: seq<Item>)
    ensures |s| == |r| && forall i :: 0 <= i < |r| ==> s[i] == r[i].item
  {
    seq(|r|, i requires 0 <= i < |r| => r[i].item)
  }

  /** The selected items of the feed, by ascending expiry date. */
  function Selection(items: seq<Item>, claims: seq<Claim>, categories: seq<Category>, viewer: Id,
                     category: Option<string>, q: Option<string>): (sel: seq<Item>)
    ensures forall it :: multiset(sel)[it] ==
                         if Visible(it, ApprovedItemIds(claims), categories, viewer, category, q)
                         then multiset(items)[it] else 0
    ensures forall it :: it in sel <==> it in items && Visible(it, ApprovedItemIds(claims), categories, viewer, category, q)
    ensures SortedBy(sel, Expiry)
  {
    var approved := ApprovedItemIds(claims);
    SortBy(Filter(items, (it: Item) => Visible(it, approved, categories, viewer, category, q)), Expiry)
  }

  /** GET /shared-items. Every entry is another user's shareable unclaimed
      item without an approved claim that passes the filters (soundness);
      every such item of the store is in the feed as often as it is stored
      (completeness); the flags always read "no approved claim, claimable";
      entries come by ascending expiry date. */
  function ClaimableFeed(items: seq<Item>, claims: seq<Claim>, categories: seq<Category>, viewer: Id,
                         category: Option<string>, q: Option<string>): (r: seq<SharedItem>)
    ensures forall i :: 0 <= i < |r| ==>
      && r[i].item in items
      && r[i].item.isShareable && !r[i].item.isClaimed && r[i].item.ownerId != viewer
      && (forall c :: c in claims && c.itemId == r[i].item.id ==> c.status != Approved)
      && (Truthy(category) ==> CategoryMatches(categories, r[i].item, category.value))
      && (Truthy(q) ==> ContainsIgnoreCase(r[i].item.name, q.value))
    ensures forall it :: multiset(ItemsOf(r))[it] ==
                         if Visible(it, ApprovedItemIds(claims), categories, viewer, category, q)
                         then multiset(items)[it] else 0
    ensures forall it :: it in ItemsOf(r) <==>
                         it in items && Visible(it, ApprovedItemIds(claims), categories, viewer, category, q)
    ensures forall i :: 0 <= i < |r| ==> !r[i].hasApprovedClaim && r[i].isClaimable
    ensures forall i, j :: 0 <= i < j < |r| ==> r[i].item.expiry <= r[j].item.expiry
  {
    var sel := Selection(items, claims, categories, viewer, category, q);
    var r := AnnotateAll(sel, claims);
    FeedMeaning(items, claims, categories, viewer, category, q, sel, r);
    r
  }

  function AnnotateAll(sel: seq<Item>, claims: seq<Claim>): (r: seq<SharedItem>)
    ensures |r| == |sel| && forall i :: 0 <= i < |sel| ==> r[i] == Annotate(sel[i], claims)
  {
    seq(|sel|, i requires 0 <= i < |sel| => Annotate(sel[i], claims))
  }

  lemma FeedIsAnnotatedSelection(items: seq<Item>, claims: seq<Claim>, categories: seq<Category>, viewer: Id,
                                 category: Option<string>, q: Option<string>)
    ensures ClaimableFeed(items, claims, categories, viewer, category, q) ==
            AnnotateAll(Selection(items, claims, categories, viewer, category, q), claims)
  {
  }

  /** The annotated selection has the feed's properties. */
  lemma FeedMeaning(items: seq<Item>, claims: seq<Claim>, categories: seq<Category>, viewer: Id,
                    category: Option<string>, q: Option<string>, sel: seq<Item>, r: seq<SharedItem>)
    requires sel == Selection(items, claims, categories, viewer, category, q)
    requires |r| == |sel| && forall i :: 0 <= i < |sel| ==> r[i] == Annotate(sel[i], claims)
    ensures forall i :: 0 <= i < |r| ==>
      && r[i].item in items
      && r[i].item.isShareable && !r[i].item.isClaimed && r[i].item.ownerId != viewer
      && (forall c :: c in claims && c.itemId == r[i].item.id ==> c.status != Approved)
      && (Truthy(category) ==> CategoryMatches(categories, r[i].item, category.value))
      && (Truthy(q) ==> ContainsIgnoreCase(r[i].item.name, q.value))
    ensures ItemsOf(r) == sel
    ensures forall i :: 0 <= i < |r| ==> !r[i].hasApprovedClaim && r[i].isClaimable
    ensures forall i, j :: 0 <= i < j < |r| ==> r[i].item.expiry <= r[j].item.expiry
  {
    assert ItemsOf(r) == sel;
    forall i | 0 <= i < |r|
      ensures r[i].item == sel[i] && sel[i] in items
      ensures Visible(sel[i], ApprovedItemIds(claims), categories, viewer, category, q)
      ensures !r[i].hasApprovedClaim && r[i].isClaimable
    {
      assert sel[i] in sel;
      AnnotateUnapproved(sel[i], claims);
    }
    assert forall i, j :: 0 <= i < j < |r| ==> Expiry(sel[i]) <= Expiry(sel[j]);
  }

  /** A claim that is not approved adds no id to the approved ones. */
  lemma ApprovedIdsIgnoreUnapproved(claims: seq<Claim>, c: Claim)
    requires c.status != Approved
    ensures ApprovedItemIds(claims + [c]) == ApprovedItemIds(claims)
  {
    forall id | id in ApprovedItemIds(claims + [c]) ensures id in ApprovedItemIds(claims) {
      var d :| d in claims + [c] && d.status == Approved && d.itemId == id;
      assert d in claims;
    }
  }

  lemma SelectionIgnoresUnapproved(items: seq<Item>, claims: seq<Claim>, categories: seq<Category>, viewer: Id,
                                   category: Option<string>, q: Option<string>, c: Claim)
    requires c.status != Approved
    ensures Selection(items, claims + [c], categories, viewer, category, q) ==
            Selection(items, claims, categories, viewer, category, q)
  {
    ApprovedIdsIgnoreUnapproved(claims, c);
  }

  /** Requests, rejections and cancellations do not move the feed: adding a
      claim that is not approved leaves it exactly as it was. */
  lemma UnapprovedClaimKeepsFeed(items: seq<Item>, claims: seq<Claim>, categories: seq<Category>, viewer: Id,
                                 category: Option<string>, q: Option<string>, c: Claim)
    requires c.status != Approved
    ensures ClaimableFeed(items, claims + [c], categories, viewer, category, q) ==
            ClaimableFeed(items, claims, categories, viewer, category, q)
  {
    var sel := Selection(items, claims, categories, viewer, category, q);
    SelectionIgnoresUnapproved(items, claims, categories, viewer, category, q, c);
    FeedIsAnnotatedSelection(items, claims + [c], categories, viewer, category, q);
    FeedIsAnnotatedSelection(items, claims, categories, viewer, category, q);
    ApprovedIdsIgnoreUnapproved(claims, c);
    AnnotationIgnoresUnapproved(sel, claims, c);
  }

  lemma AnnotationIgnoresUnapproved(sel: seq<Item>, claims: seq<Claim>, c: Claim)
    requires ApprovedItemIds(claims + [c]) == ApprovedItemIds(claims)
    requires forall it :: it in sel ==> it.id !in ApprovedItemIds(claims)
    ensures AnnotateAll(sel, claims + [c]) == AnnotateAll(sel, claims)
  {
    var r1, r2 := AnnotateAll(sel, claims + [c]), AnnotateAll(sel, claims);
    forall i | 0 <= i < |sel| ensures r1[i] == r2[i] {
      assert sel[i] in sel;
      AnnotateUnapproved(sel[i], claims + [c]);
      AnnotateUnapproved(sel[i], claims);
    }
  }
}
