/** An owner's pantry items (server/src/routes/items.js): the listing, the
    expiring/expired split, creation, partial update, the shareable toggle
    and deletion. */
module Items {
  import opened Base
  import opened Seqs
  import opened Store
  import opened Text

  function Expiry(it: Item): int {
    it.expiry
  }

  // ---------------------------------------------------------------------
  // Queries

  /** The listing's filter: the caller's items, restricted to one category
      when a category is given. */
  predicate Listed(it: Item, userId: Id, categoryId: Option<Id>) {
    it.ownerId == userId && (categoryId.None? || it.categoryId == categoryId.value)
  }

  /** GET /items: the caller's items (of one category, if given) by
      ascending expiry date. */
  function ListItems(items: seq<Item>, userId: Id, categoryId: Option<Id>): (r: seq<Item>)
    ensures forall it :: it in r <==>
      it in items && it.ownerId == userId && (categoryId.None? || it.categoryId == categoryId.value)
    ensures forall it :: multiset(r)[it] == if Listed(it, userId, categoryId) then multiset(items)[it] else 0
    ensures SortedBy(r, Expiry)
  {
    SortBy(Filter(items, (it: Item) => Listed(it, userId, categoryId)), Expiry)
  }

  const DEFAULT_DAYS: int := 3

  /** `parseInt(days) || 3`: the look-ahead in days, falling back to three
      when the parameter is absent, not a number, or zero. */
  function DaysWindow(days: Option<string>): (d: int)
    ensures d != 0
    ensures days.None? ==> d == DEFAULT_DAYS
  {
    match days
    case None => DEFAULT_DAYS
    case Some(s) =>
      match ParseInt(s)
      case None => DEFAULT_DAYS
      case Some(n) => if n == 0 then DEFAULT_DAYS else n
  }

  /** Any non-zero count written in decimal is taken as given, and zero falls
      back to the default. */
  lemma DaysWindowOfNumber(n: int)
    ensures DaysWindow(Some(Show(n))) == if n == 0 then DEFAULT_DAYS else n
  {
    ParseIntShow(n);
  }

  /** Like parseInt, the window skips leading white space, reads a leading
      number, negative ones included, and ignores whatever follows it that
      does not continue the number. */
  lemma DaysWindowOfText(ws: string, n: int, rest: string)
    requires forall i :: 0 <= i < |ws| ==> IsSpace(ws[i])
    requires |rest| == 0 || DigitValue(rest[0], 10).None?
    requires n != 0
    ensures DaysWindow(Some(ws + Show(n) + rest)) == n
  {
    ParseIntOfText(ws, n, rest);
  }

  /** A `0x` or `0X` prefix reads the digits after it in base 16, up to the
      first character that is not a hexadecimal digit. */
  lemma DaysWindowHex(ws: string, prefix: string, digits: string, rest: string)
    requires forall i :: 0 <= i < |ws| ==> IsSpace(ws[i])
    requires prefix == "0x" || prefix == "0X"
    requires |digits| > 0 && forall i :: 0 <= i < |digits| ==> DigitValue(digits[i], 16).Some?
    requires |rest| == 0 || DigitValue(rest[0], 16).None?
    requires DigitsValue(digits, 16) != 0
    ensures DaysWindow(Some(ws + (prefix + (digits + rest)))) == DigitsValue(digits, 16)
  {
    var t := prefix + (digits + rest);
    assert t[0] == '0';
    SkipBlanks(ws, t);
    ParseMagnitudeHex(prefix, digits, rest);
    ParseIntUnsigned(ws + t, t, DigitsValue(digits, 16));
  }

  /** Text whose first character after the blanks and an optional sign is not
      a decimal digit is not a number, and the window falls back to three
      days; the empty text is one such. */
  lemma DaysWindowNotANumber(s: string)
    requires !StartsWithDigit(Unsigned(SkipSpaces(s)))
    ensures DaysWindow(Some(s)) == DEFAULT_DAYS
  {
    var u := Unsigned(SkipSpaces(s));
    assert DigitRun(u, 10) == 0;
  }

  /** The two lists of GET /items/expiring. */
  datatype Split = Split(expiring: seq<Item>, expired: seq<Item>)

  predicate ExpiresWithin(it: Item, userId: Id, now: int, d: int) {
    it.ownerId == userId && now <= it.expiry <= now + d * DAY
  }

  predicate HasExpired(it: Item, userId: Id, now: int) {
    it.ownerId == userId && it.expiry < now
  }

  /** GET /items/expiring: the caller's items expiring between now and the
      end of the window, and those already past their date, each by
      ascending expiry. */
  function ExpiringSplit(items: seq<Item>, userId: Id, now: int, days: Option<string>): (r: Split)
    ensures forall it :: it in r.expiring <==>
      it in items && it.ownerId == userId && now <= it.expiry <= now + DaysWindow(days) * DAY
    ensures forall it :: it in r.expired <==> it in items && it.ownerId == userId && it.expiry < now
    ensures forall it :: !(it in r.expiring && it in r.expired)
    ensures forall it :: multiset(r.expiring)[it] == if ExpiresWithin(it, userId, now, DaysWindow(days)) then multiset(items)[it] else 0
    ensures forall it :: multiset(r.expired)[it] == if HasExpired(it, userId, now) then multiset(items)[it] else 0
    ensures SortedBy(r.expiring, Expiry) && SortedBy(r.expired, Expiry)
  {
    var d := DaysWindow(days);
    Split(SortBy(Filter(items, (it: Item) => ExpiresWithin(it, userId, now, d)), Expiry),
          SortBy(Filter(items, (it: Item) => HasExpired(it, userId, now)), Expiry))
  }

  /** GET /items/expiring as answered. An end of the window beyond the Date
      range is an invalid Date, the query on it fails and the route answers
      500; otherwise the answer is the split. */
  function Expiring(items: seq<Item>, userId: Id, now: int, days: Option<string>): (r: Result<Split>)
    ensures r.Err? <==> !(-MAX_TIME <= now + DaysWindow(days) * DAY <= MAX_TIME)
    ensures r.Err? ==> r.error == ServerError
    ensures r.Ok? ==> r.value == ExpiringSplit(items, userId, now, days)
  {
    var end := now + DaysWindow(days) * DAY;
    if -MAX_TIME <= end <= MAX_TIME then Ok(ExpiringSplit(items, userId, now, days))
    else Err(ServerError)
  }

  /** From any clock between the epoch and the end of the Date range, a
      decimal window of more than 10^8 days ahead, or more than 2 * 10^8
      days back, fails with 500. */
  lemma HugeWindowFails(items: seq<Item>, userId: Id, now: int, n: int)
    requires 0 <= now <= MAX_TIME
    requires n > 100_000_000 || n < -200_000_000
    ensures Expiring(items, userId, now, Some(Show(n))) == Err(ServerError)
  {
    DaysWindowOfNumber(n);
  }

  /** From any clock between the epoch and half the Date range, every
      window of at most 5 * 10^7 days either way — the default
      included — is answered with the split. */
  lemma ModestWindowAnswers(items: seq<Item>, userId: Id, now: int, days: Option<string>)
    requires 0 <= now <= MAX_TIME / 2
    requires -50_000_000 <= DaysWindow(days) <= 50_000_000
    ensures Expiring(items, userId, now, days) == Ok(ExpiringSplit(items, userId, now, days))
  {
  }

  /** With a forward window the two lists together are exactly the caller's
      items dated no later than the end of the window. */
  lemma SplitCoversWindow(items: seq<Item>, userId: Id, now: int, days: Option<string>)
    requires DaysWindow(days) > 0
    ensures var r := ExpiringSplit(items, userId, now, days);
      forall it :: it in r.expiring || it in r.expired <==>
        it in items && it.ownerId == userId && it.expiry <= now + DaysWindow(days) * DAY
  {
  }

  /** A negative window ends before it starts: nothing is expiring. */
  lemma NegativeWindowIsEmpty(items: seq<Item>, userId: Id, now: int, days: Option<string>)
    requires DaysWindow(days) < 0
    ensures ExpiringSplit(items, userId, now, days).expiring == []
  {
  }

  // ---------------------------------------------------------------------
  // Writes

  /** The request body of a create or an update; `None` is a field the body
      leaves undefined. The expiry date arrives already converted. */
  datatype ItemFields = ItemFields(
    name: Option<string>, categoryId: Option<Id>, quantity: Option<string>,
    expiry: Option<int>, isShareable: Option<bool>)

  predicate HasRequiredFields(f: ItemFields) {
    Truthy(f.name) && f.categoryId.Some? && Truthy(f.quantity) && f.expiry.Some?
  }

  predicate OwnsCategory(categories: seq<Category>, categoryId: Id, userId: Id) {
    exists c :: c in categories && c.id == categoryId && c.ownerId == userId
  }

  /** POST /items. Name, category, quantity and expiry date are required
      (400), the category must be the caller's (404); the new item belongs
      to the caller, is shareable only when asked and is not claimed. */
  method CreateItem(db: Db, userId: Id, f: ItemFields) returns (r: Result<Item>)
    requires db.Valid()
    modifies db`items, db`nextId
    ensures db.Valid()
    ensures !HasRequiredFields(f) ==> r == Err(BadRequest)
    ensures HasRequiredFields(f) && !OwnsCategory(db.categories, f.categoryId.value, userId) ==> r == Err(NotFound)
    ensures r.Ok? <==> HasRequiredFields(f) && OwnsCategory(db.categories, f.categoryId.value, userId)
    ensures r.Ok? ==>
      && r.value == Item(old(db.nextId), userId, f.name.value, f.categoryId.value, f.quantity.value,
                         f.expiry.value, f.isShareable == Some(true), false)
      && db.items == old(db.items) + [r.value]
      && db.nextId == old(db.nextId) + 1
    ensures r.Err? ==> db.items == old(db.items) && db.nextId == old(db.nextId)
  {
    if !HasRequiredFields(f) {
      return Err(BadRequest);
    }
    if !OwnsCategory(db.categories, f.categoryId.value, userId) {
      return Err(NotFound);
    }
    var item := Item(db.nextId, userId, f.name.value, f.categoryId.value, f.quantity.value,
                     f.expiry.value, f.isShareable.GetOr(false), false);
    ghost var items0 := db.items;
    db.items := db.items + [item];
    db.nextId := db.nextId + 1;
    assert forall j :: 0 <= j < |items0| ==> items0[j] in items0;
    forall c | c in db.claims ensures exists it :: it in db.items && it.id == c.itemId {
      var it :| it in items0 && it.id == c.itemId;
      assert it in db.items;
    }
    forall c, it | c in db.claims && it in db.items && c.status == Approved && it.id == c.itemId
      ensures it.isClaimed
    {
      var it0 :| it0 in items0 && it0.id == c.itemId;
      assert it0.id < old(db.nextId);
    }
    r := Ok(item);
  }

  /** PATCH /items/:id's partial update: a field the body defines replaces
      the stored one. The body cannot reach the id, the owner or the claimed
      flag. */
  function ApplyPatch(it: Item, f: ItemFields): (p: Item)
    ensures p.id == it.id && p.ownerId == it.ownerId && p.isClaimed == it.isClaimed
  {
    it.(name := f.name.GetOr(it.name),
        categoryId := f.categoryId.GetOr(it.categoryId),
        quantity := f.quantity.GetOr(it.quantity),
        expiry := f.expiry.GetOr(it.expiry),
        isShareable := f.isShareable.GetOr(it.isShareable))
  }

  /** A body with no fields defined. */
  const NoFields: ItemFields := ItemFields(None, None, None, None, None)

  /** Exactly the defined fields change: each defined field takes the body's
      value, every other field (and the id, owner and claimed flag) keeps
      the stored one. */
  lemma PatchChangesOnlyDefinedFields(it: Item, f: ItemFields)
    ensures var p := ApplyPatch(it, f);
      && p.id == it.id && p.ownerId == it.ownerId && p.isClaimed == it.isClaimed
      && (if f.name.Some? then p.name == f.name.value else p.name == it.name)
      && (if f.categoryId.Some? then p.categoryId == f.categoryId.value else p.categoryId == it.categoryId)
      && (if f.quantity.Some? then p.quantity == f.quantity.value else p.quantity == it.quantity)
      && (if f.expiry.Some? then p.expiry == f.expiry.value else p.expiry == it.expiry)
      && (if f.isShareable.Some? then p.isShareable == f.isShareable.value else p.isShareable == it.isShareable)
  {
  }

  /** An empty body changes nothing, and sending the same body twice is the
      same as sending it once. */
  lemma PatchIdentityAndIdempotence(it: Item, f: ItemFields)
    ensures ApplyPatch(it, NoFields) == it
    ensures ApplyPatch(ApplyPatch(it, f), f) == ApplyPatch(it, f)
  {
  }

  /** Position of item `id` if the caller owns it. */
  function OwnedIndex(items: seq<Item>, id: Id, userId: Id): (k: Option<nat>)
    ensures k.Some? ==> k.value < |items| && items[k.value].id == id && items[k.value].ownerId == userId
    ensures k.None? <==> forall it :: it in items ==> !(it.id == id && it.ownerId == userId)
  {
    FirstIndex(items, (it: Item) => it.id == id && it.ownerId == userId)
  }

  /** Rewrites row `k` of the items table keeping its id and claimed flag. */
  method WriteItem(db: Db, k: nat, item: Item)
    requires db.Valid()
    requires k < |db.items| && item.id == db.items[k].id && item.isClaimed == db.items[k].isClaimed
    modifies db`items
    ensures db.Valid()
    ensures db.items == old(db.items)[k := item]
  {
    ghost var items0 := db.items;
    db.items := db.items[k := item];
    assert SameItemIds(items0, db.items);
    assert OnlyStatusesChanged(db.claims, db.claims);
    RewritesKeepIds(items0, db.claims, db.items, db.claims, db.nextId);
    ClaimedFlagsKept(items0, db.items, db.claims);
  }

  /** PATCH /items/:id. An item the caller does not own is 404 with nothing
      written; otherwise the defined fields of the body replace the stored
      ones. The new category is not checked against the caller. */
  method UpdateItem(db: Db, id: Id, userId: Id, f: ItemFields) returns (r: Result<Item>)
    requires db.Valid()
    modifies db`items
    ensures db.Valid()
    ensures OwnedIndex(old(db.items), id, userId).None? ==> r == Err(NotFound) && db.items == old(db.items)
    ensures OwnedIndex(old(db.items), id, userId).Some? ==>
      var k := OwnedIndex(old(db.items), id, userId).value;
      r == Ok(ApplyPatch(old(db.items)[k], f)) && db.items == old(db.items)[k := r.value]
  {
    var found := OwnedIndex(db.items, id, userId);
    if found.None? {
      return Err(NotFound);
    }
    var k := found.value;
    var updated := ApplyPatch(db.items[k], f);
    WriteItem(db, k, updated);
    r := Ok(updated);
  }

  /** The shareable toggle: flips the flag and nothing else. */
  function Toggle(it: Item): (t: Item)
    ensures t.isShareable != it.isShareable
    ensures t.(isShareable := it.isShareable) == it
  {
    it.(isShareable := !it.isShareable)
  }

  /** Toggling twice restores the item. */
  lemma ToggleTwice(it: Item)
    ensures Toggle(Toggle(it)) == it
  {
  }

  /** PATCH /items/:id/shareable. An item the caller does not own is 404 with
      nothing written; otherwise its shareable flag is flipped. */
  method ToggleShareable(db: Db, id: Id, userId: Id) returns (r: Result<Item>)
    requires db.Valid()
    modifies db`items
    ensures db.Valid()
    ensures OwnedIndex(old(db.items), id, userId).None? ==> r == Err(NotFound) && db.items == old(db.items)
    ensures OwnedIndex(old(db.items), id, userId).Some? ==>
      var k := OwnedIndex(old(db.items), id, userId).value;
      r == Ok(Toggle(old(db.items)[k])) && db.items == old(db.items)[k := r.value]
  {
    var found := OwnedIndex(db.items, id, userId);
    if found.None? {
      return Err(NotFound);
    }
    var k := found.value;
    var updated := Toggle(db.items[k]);
    WriteItem(db, k, updated);
    r := Ok(updated);
  }

  /** Putting a claim in front of a ledger it agrees with keeps claim ids
      distinct and at most one active claim per item. */
  lemma ConsKeepsClaimInvariants(c: Claim, t: seq<Claim>)
    requires DistinctClaimIds(t) && SingleActivePerItem(t)
    requires forall d :: d in t ==> d.id != c.id && (d.itemId == c.itemId ==> !(IsActive(c.status) && IsActive(d.status)))
    ensures DistinctClaimIds([c] + t) && SingleActivePerItem([c] + t)
  {
    var r := [c] + t;
    assert forall j :: 0 < j < |r| ==> r[j] == t[j - 1] && r[j] in t;
  }

  /** The tail of a ledger keeps its invariants. */
  lemma TailKeepsClaimInvariants(claims: seq<Claim>)
    requires |claims| > 0 && DistinctClaimIds(claims) && SingleActivePerItem(claims)
    ensures DistinctClaimIds(claims[1..]) && SingleActivePerItem(claims[1..])
  {
    assert forall j :: 0 <= j < |claims| - 1 ==> claims[1..][j] == claims[j + 1];
  }

  /** The first claim of a ledger agrees with every later claim it keeps. */
  lemma HeadAgreesWithRest(claims: seq<Claim>, t: seq<Claim>)
    requires |claims| > 0 && DistinctClaimIds(claims) && SingleActivePerItem(claims)
    requires forall d :: d in t ==> d in claims[1..]
    ensures forall d :: d in t ==> d.id != claims[0].id
    ensures forall d :: d in t && d.itemId == claims[0].itemId ==> !(IsActive(claims[0].status) && IsActive(d.status))
  {
    forall d | d in t
      ensures d.id != claims[0].id
      ensures d.itemId == claims[0].itemId ==> !(IsActive(claims[0].status) && IsActive(d.status))
    {
      var m :| 0 <= m < |claims| - 1 && claims[1..][m] == d;
      assert d == claims[m + 1];
    }
  }

  /** Removing claims keeps claim ids distinct and at most one active claim
      per item. */
  lemma {:induction false} FilterKeepsClaimInvariants(claims: seq<Claim>, p: Claim -> bool)
    requires DistinctClaimIds(claims) && SingleActivePerItem(claims)
    ensures DistinctClaimIds(Filter(claims, p)) && SingleActivePerItem(Filter(claims, p))
  {
    if |claims| > 0 {
      TailKeepsClaimInvariants(claims);
      FilterKeepsClaimInvariants(claims[1..], p);
      var t := Filter(claims[1..], p);
      if p(claims[0]) {
        HeadAgreesWithRest(claims, t);
        ConsKeepsClaimInvariants(claims[0], t);
        assert Filter(claims, p) == [claims[0]] + t;
      } else {
        assert Filter(claims, p) == t;
      }
    }
  }

  /** DELETE /items/:id. An item the caller does not own is 404 with nothing
      written; otherwise exactly that item is removed, together with the
      claims on it. */
  method DeleteItem(db: Db, id: Id, userId: Id) returns (r: Result<()>)
    requires db.Valid()
    modifies db`items, db`claims
    ensures db.Valid()
    ensures OwnedIndex(old(db.items), id, userId).None? ==>
      r == Err(NotFound) && db.items == old(db.items) && db.claims == old(db.claims)
    ensures OwnedIndex(old(db.items), id, userId).Some? ==>
      var k := OwnedIndex(old(db.items), id, userId).value;
      && r == Ok(())
      && db.items == old(db.items)[..k] + old(db.items)[k + 1..]
      && (forall it :: it in db.items <==> it in old(db.items) && it.id != id)
      && (forall c :: c in db.claims <==> c in old(db.claims) && c.itemId != id)
  {
    var found := OwnedIndex(db.items, id, userId);
    if found.None? {
      return Err(NotFound);
    }
    var k := found.value;
    RemoveItemRow(db, k);
    r := Ok(());
  }

  /** Removes item row `k` and the claims referring to it. */
  method RemoveItemRow(db: Db, k: nat)
    requires db.Valid() && k < |db.items|
    modifies db`items, db`claims
    ensures db.Valid()
    ensures db.items == old(db.items)[..k] + old(db.items)[k + 1..]
    ensures forall it :: it in db.items <==> it in old(db.items) && it.id != old(db.items)[k].id
    ensures forall c :: c in db.claims <==> c in old(db.claims) && c.itemId != old(db.items)[k].id
  {
    ghost var items0, claims0 := db.items, db.claims;
    var id := db.items[k].id;
    db.items := db.items[..k] + db.items[k + 1..];
    db.claims := Filter(db.claims, (c: Claim) => c.itemId != id);
    RemovalKeepsInvariants(items0, claims0, k, id, db.nextId);
  }

  /** Removing item row `k` with the claims on it keeps the store's item and
      claim invariants. */
  lemma RemovalKeepsInvariants(items: seq<Item>, claims: seq<Claim>, k: nat, id: Id, n: nat)
    requires k < |items| && id == items[k].id
    requires DistinctItemIds(items) && DistinctClaimIds(claims) && SingleActivePerItem(claims)
    requires ApprovedMeansClaimed(items, claims) && ReferToItems(claims, items)
    requires ItemIdsBelow(items, n) && ClaimIdsBelow(claims, n)
    ensures var items', claims' := items[..k] + items[k + 1..], Filter(claims, (c: Claim) => c.itemId != id);
      && DistinctItemIds(items') && DistinctClaimIds(claims') && SingleActivePerItem(claims')
      && ApprovedMeansClaimed(items', claims') && ReferToItems(claims', items')
      && ItemIdsBelow(items', n) && ClaimIdsBelow(claims', n)
      && (forall it :: it in items' <==> it in items && it.id != id)
      && (forall c :: c in claims' <==> c in claims && c.itemId != id)
  {
    var items', claims' := items[..k] + items[k + 1..], Filter(claims, (c: Claim) => c.itemId != id);
    RemovalRows(items, k);
    FilterKeepsClaimInvariants(claims, (c: Claim) => c.itemId != id);
    forall c | c in claims' ensures exists it :: it in items' && it.id == c.itemId {
      var it :| it in items && it.id == c.itemId;
      assert it in items';
    }
  }

  /** Row-level facts about removing row `k` from a table with distinct ids. */
  lemma RemovalRows(items: seq<Item>, k: nat)
    requires k < |items| && DistinctItemIds(items)
    ensures var r := items[..k] + items[k + 1..];
      && DistinctItemIds(r)
      && (forall it :: it in r <==> it in items && it.id != items[k].id)
  {
    var r := items[..k] + items[k + 1..];
    assert forall j :: 0 <= j < |r| ==> r[j] == items[if j < k then j else j + 1];
    forall it | it in items && it.id != items[k].id ensures it in r {
      var m :| 0 <= m < |items| && items[m] == it;
      assert r[if m < k then m else m - 1] == it;
    }
  }
}
