# Claims, invitations and shared items, modelled in Dafny

This project models the server-side rules of an anti-food-waste application:
- owners track pantry items and mark some of them shareable;
- other users request a claim on a shared item, which the owner approves or
  rejects and the claimant may cancel;
- owners gather friends into groups through time-limited email invitations.

Every route handler of the five route files becomes one Dafny method or
function over an in-memory store:
- it takes the caller's identity (user id, and email where the handler reads
  it) and, where time matters, the current time `now` as an integer number
  of milliseconds;
- it answers either a success value or an error kind that mirrors the HTTP
  status: `BadRequest` (400), `Forbidden` (403) or `NotFound` (404), and
  for the one failure the rules themselves cause, `ServerError` (500).

Layout:
- `base.dfy`: `Option`, `Result` and JavaScript truthiness of optional
  strings.
- `seqs.dfy`: the store's queries over a table held as a sequence: first
  match, all matches, sort by key.
- `text.dfy`: the case-insensitive substring match of the database filter,
  and JavaScript's `parseInt` with its decimal rendering as partner.
- `store.dfy`: the records and the `Db` class. It has one `seq` field per
  table, a read-only `users` map (id to verified email) and an id counter.
  `Db.Valid()` is the store invariant that every handler keeps:
  - ids are unique and fresh;
  - (group, user) memberships are unique, and so are invitation tokens;
  - every claim refers to a stored item;
  - at most one claim per item is requested or approved;
  - every item with an approved claim is marked claimed.
- `claims.dfy`, `invitations.dfy`, `groups.dfy`, `items.dfy`,
  `shared_items.dfy`: one module per route file.

Each handler that writes is a method with a `modifies` clause on the tables
it touches. Its `ensures` gives the new state in terms of the old one and of
a pure function (a guard chain, a redemption step, a patch). Lemmas prove
what the source promises about those functions.

## Model

| member | source | states |
|---|---|---|
| Seqs.FirstIndex | server/src/routes/items.js:124-129 | the first row satisfying the query: it matches, no earlier row matches, and none is found exactly when no row matches |
| Seqs.Filter | server/src/routes/items.js:17-25 | the rows satisfying the query, each with its multiplicity in the table; no others |
| Seqs.InsertBy | server/src/routes/items.js:22-24 | inserting into an ascending sequence keeps it ascending and adds exactly the new element |
| Seqs.SortBy | server/src/routes/items.js:22-24 | ascending order of the key, and a permutation of the input |
| Store.ItemById | server/src/routes/claims.js:12-13 | a found item is stored with that id; none is found only when no stored item has it |
| Store.ClaimById | server/src/routes/claims.js:159-160 | a found claim is stored with that id; none is found only when no stored claim has it |
| Text.LowerChar | server/src/routes/shared-items.js:34-48 | the result is never an upper-case letter; an upper-case letter maps to its lower-case letter and every other character to itself |
| Text.LowerIdempotent | server/src/routes/shared-items.js:34-48 | lower-casing twice is lower-casing once |
| Text.EmptyPatternMatches | server/src/routes/shared-items.js:34-48 | the empty pattern is contained in every text |
| Text.ContainsItself | server/src/routes/shared-items.js:34-48 | a text contains every string equal to it up to case |
| Text.ContainsInLongerText | server/src/routes/shared-items.js:34-48 | a match survives any text added before or after it |
| Text.ContainsIgnoreCase | server/src/routes/shared-items.js:34-48 | side bound only: a pattern longer than the text never matches (what a match means is stated by the lemmas above) |
| Text.SkipSpaces | server/src/routes/items.js:36 | the result is a suffix of the text, everything cut off is white space, and the result does not start with white space |
| Text.DigitRun | server/src/routes/items.js:36 | the run lies inside the text, every character in it is a digit of the base, and the character after it is not |
| Text.ParseInt | server/src/routes/items.js:36 | a number is read only when the text after the blanks and an optional sign starts with a decimal digit |
| Text.SkipBlanks | server/src/routes/items.js:36 | parseInt's trimming skips exactly the leading white space |
| Text.DigitRunStops | server/src/routes/items.js:36 | the digit run ends where the digits of the base end |
| Text.ParseMagnitudeShowNat | server/src/routes/items.js:36 | a decimal rendering reads back whatever follows it that does not continue the number |
| Text.ParseMagnitudeHex | server/src/routes/items.js:36 | after a `0x` or `0X` prefix the hexadecimal digits are read in base 16, up to the first other character |
| Text.ParseIntUnsigned | server/src/routes/items.js:36 | once the blanks are skipped, a text with no sign reads as its magnitude |
| Text.ParseIntNegative | server/src/routes/items.js:36 | once the blanks are skipped, a text with a minus sign reads as the negated magnitude |
| Text.ParseIntOfText | server/src/routes/items.js:36 | for all leading white space, every integer and every following text that does not continue the number, parseInt reads that integer |
| Text.ParseIntShow | server/src/routes/items.js:36 | parseInt reads every integer back from its decimal rendering |
| Claims.RequestGuard | server/src/routes/claims.js:29-53 | a claim request is admitted exactly when the caller is not the owner, the item is shareable, not claimed and has no requested or approved claim; claiming one's own item is 400 even if it is not shareable; every refusal is 400 |
| Claims.HoldsActiveClaim | server/src/routes/claims.js:41-53 | a requested or approved claim held by the caller is an active claim of the item, so this check refuses nothing that the check at claims.js:37 let through |
| Claims.RequestClaim | server/src/routes/claims.js:8-76 | a missing item is 404; otherwise the guard's refusal is answered with nothing written; on success exactly one `requested` claim by the caller, on that item, is appended and the items are not touched; the store invariant is kept |
| Claims.RequestKeepsSingleActive | server/src/routes/claims.js:37-39 | a new request on an item without an active claim keeps at most one active claim per item |
| Claims.ParseStatus | server/src/routes/claims.js:155-157 | only `approved`, `rejected` and `cancelled` are accepted, and `requested` is never the result |
| Claims.ParseStatusName | server/src/routes/claims.js:155-157 | every resolution is read back from its name and `requested` is refused |
| Claims.Authorize | server/src/routes/claims.js:170-188 | a caller who is neither party is refused 403; a cancel passes exactly for the claimant; a reject exactly for the owner; an approval exactly for the owner of a requested claim; the only 400 is the owner's approval of a claim that is not requested, and every other refusal, including an approval by anyone but the owner, is 403 |
| Claims.Approve | server/src/routes/claims.js:192-208 | approval rewrites nothing but statuses, and leaves untouched every claim on another item |
| Claims.SetStatus | server/src/routes/claims.js:211-213 | a resolution rewrites nothing but statuses: the claim with that id takes the new status and every other claim is untouched |
| Claims.MarkClaimed | server/src/routes/claims.js:192-197 | only claimed flags change, and a row is claimed afterwards exactly when it was before or it is the approved claim's item |
| Claims.ApprovalEffects | server/src/routes/claims.js:190-213 | approval sets the winner to approved and every other requested claim on its item to rejected; claims on other items and non-requested claims are unchanged; only statuses change |
| Claims.ApprovalKeepsSingleActive | server/src/routes/claims.js:192-208 | approving a requested claim keeps at most one active claim per item, and the winner is then the only active claim on its item |
| Claims.ApprovalKeepsClaimedFlag | server/src/routes/claims.js:192-197 | after approval every approved claim's item is marked claimed |
| Claims.ResolutionKeepsInvariants | server/src/routes/claims.js:211-213 | a reject or cancel keeps both claim invariants |
| Claims.SecondApprovalRefused | server/src/routes/claims.js:186-188 | after an approval, every other claim on the item is no longer requested, so approving it is 400 |
| Claims.WithdrawnApprovalKeepsItemClaimed | server/src/routes/claims.js:170-188 | an approved claim may still be cancelled by the claimant or rejected by the owner; the item then has no active claim but stays claimed, and every new request on it is refused |
| Claims.RejectRivals | server/src/routes/claims.js:199-208 | the bulk update: every requested claim on the item other than the winner becomes rejected, every other row is unchanged |
| Claims.ApplyApproval | server/src/routes/claims.js:190-213 | the approval's writes leave the claims as `Approve` and the items as `MarkClaimed` of the old tables, keeping the store invariant |
| Claims.ApplyResolution | server/src/routes/claims.js:211-213 | a reject or cancel writes only that claim's status, keeping the store invariant |
| Claims.UpdateClaimStatus | server/src/routes/claims.js:150-229 | an invalid status is 400 before the lookup, and a missing claim is 404; otherwise the authorisation decides; approval rejects rivals and marks the item claimed; reject and cancel change only the claim's status and never check its current status; any refusal writes nothing |
| Claims.Incoming | server/src/routes/claims.js:83-110 | exactly the requested or approved claims on the caller's items, each as often as stored, newest first |
| Claims.Mine | server/src/routes/claims.js:119-141 | exactly the caller's claims in any status, each as often as stored, newest first |
| Invitations.RedeemStep | server/src/routes/invitations.js:27-58 | checks run in order: not pending is 400 with no write; past the deadline writes `expired` and is 400; the wrong email is 403 with no write; an existing member gets `accepted` without the user and 400; only otherwise does the caller join, with `accepted` and the user recorded; only status and user are written, and any write leaves the invitation non-pending |
| Invitations.RedemptionIsOneShot | server/src/routes/invitations.js:27-29 | after any redemption that wrote, every later redemption of the token is 400 and writes nothing |
| Invitations.ExpiryIsSticky | server/src/routes/invitations.js:27-37 | a late redemption leaves the invitation expired, and a second attempt fails at the not-pending check whatever the time |
| Invitations.DeadlineIsInclusive | server/src/routes/invitations.js:31 | at exactly the deadline a matching non-member still joins |
| Invitations.TokenIndex | server/src/routes/invitations.js:16-21 | the found invitation carries the token, and none is found exactly when no invitation carries it |
| Invitations.AcceptInvitation | server/src/routes/invitations.js:8-89 | a missing token is 400 and an unknown one 404, both with nothing written; otherwise the invitation is written as the step says; a membership with no tags is inserted exactly when the caller joins, together with the acceptance; memberships and tokens stay unique |
| Invitations.WriteInvitation | server/src/routes/invitations.js:32-35 | rewriting an invitation's status or user keeps the store invariant |
| Invitations.AddMember | server/src/routes/invitations.js:60-81 | inserting a new (group, user) membership keeps memberships unique |
| Groups.CreateGroup | server/src/routes/groups.js:9-36 | a missing or empty name is 400 with nothing written; otherwise one group owned by the caller is appended |
| Groups.BaseUrl | server/src/routes/groups.js:127 | the client URL, else the front-end URL, else the local default; never empty |
| Groups.InviteLink | server/src/routes/groups.js:127 | the link is the base URL, then exactly `/invitations/accept?token=`, then the token |
| Groups.InviteLinkRoundTrip | server/src/routes/groups.js:127 | reading the token back from a link gives the token exactly when the link is the one built from it |
| Groups.InviteLinkInjective | server/src/routes/groups.js:127 | different tokens give different links |
| Groups.HasMemberWithEmail | server/src/routes/groups.js:99-106 | side bound only: an email that is no user's never belongs to a member |
| Groups.MemberIndex | server/src/routes/groups.js:196-201 | a found index holds a membership with that id in that group, and nothing is found exactly when no such membership exists |
| Groups.InviteMember | server/src/routes/groups.js:79-128 | a missing email is 400; a group the caller does not own is 404; an email of a current member is 400, and none of these writes; otherwise a pending invitation with the token, expiring seven days from now, is stored, even if the email was invited before, and the answered link is built on the base URL chosen from the two client URL settings |
| Groups.AddInvitation | server/src/routes/groups.js:116-123 | inserting an invitation with a fresh id and an unused token keeps the store invariant and appends exactly that row |
| Groups.ListMembers | server/src/routes/groups.js:135-173 | the owner or a member of an existing group sees exactly the group's memberships, each as often as stored; anyone else gets 404 |
| Groups.UpdatePreferences | server/src/routes/groups.js:180-226 | a group the caller does not own, or a membership outside it, is 404 with nothing written; otherwise only that membership's tags change, to the given list or to the empty list |
| Items.ListItems | server/src/routes/items.js:8-27 | exactly the caller's items, of the given category if one is given, each as often as stored, by ascending expiry |
| Items.DaysWindow | server/src/routes/items.js:36 | the window is never zero, and is three days when the parameter is absent |
| Items.DaysWindowOfNumber | server/src/routes/items.js:36 | every integer written in decimal, negative ones included, is taken as written, except zero, which gives three |
| Items.DaysWindowOfText | server/src/routes/items.js:36 | for all leading white space and all following text that does not continue the number, a non-zero count is taken as written |
| Items.DaysWindowHex | server/src/routes/items.js:36 | after leading white space, a `0x` or `0X` prefix reads the hexadecimal digits after it, up to the first other character, as the count |
| Items.DaysWindowNotANumber | server/src/routes/items.js:36 | every text whose first character after the blanks and an optional sign is not a decimal digit, the empty text included, gives three |
| Items.ExpiringSplit | server/src/routes/items.js:34-72 | "expiring" holds exactly the caller's items dated from now to the end of the window, and "expired" exactly those dated before now; the lists are disjoint, keep multiplicities and are ordered by expiry |
| Items.Expiring | server/src/routes/items.js:34-76 | the route fails with 500 exactly when the end of the window lies outside the JavaScript Date range, and otherwise answers the split |
| Items.HugeWindowFails | server/src/routes/items.js:36-75 | from a clock after the epoch, a decimal window of more than 10^8 days ahead or 2 * 10^8 days back is answered 500 |
| Items.ModestWindowAnswers | server/src/routes/items.js:36-72 | from a clock between the epoch and half the Date range, every window of at most 5 * 10^7 days either way, the default included, is answered with the split |
| Items.SplitCoversWindow | server/src/routes/items.js:41-70 | with a forward window, the two lists together are exactly the caller's items dated up to the end of the window |
| Items.NegativeWindowIsEmpty | server/src/routes/items.js:36-48 | a negative window lists nothing as expiring |
| Items.CreateItem | server/src/routes/items.js:79-112 | a missing name, category, quantity or date is 400, and a category not owned by the caller is 404, both with nothing written; otherwise one item owned by the caller is appended, shareable only when the body says true, and not claimed |
| Items.ApplyPatch | server/src/routes/items.js:135-140 | the partial update never changes the id, the owner or the claimed flag |
| Items.PatchChangesOnlyDefinedFields | server/src/routes/items.js:135-140 | each defined field takes the body's value; every other field keeps its old value, and id, owner and claimed flag never change |
| Items.PatchIdentityAndIdempotence | server/src/routes/items.js:135-148 | an empty body changes nothing, and the same body applied twice equals once |
| Items.OwnedIndex | server/src/routes/items.js:124-129 | finds the row of the item with that id and the caller as owner; none is found only when no such item exists |
| Items.UpdateItem | server/src/routes/items.js:119-150 | an item the caller does not own is 404 with nothing written; otherwise only its row changes, to the patched item |
| Items.WriteItem | server/src/routes/items.js:142-148 | rewriting one item row with its id and claimed flag kept keeps the store invariant and changes only that row |
| Items.Toggle | server/src/routes/items.js:172-176 | the shareable flag flips and nothing else changes |
| Items.ToggleTwice | server/src/routes/items.js:172-176 | toggling twice restores the item |
| Items.ToggleShareable | server/src/routes/items.js:157-182 | an item the caller does not own is 404 with nothing written; otherwise only its row changes, to the toggled item |
| Items.FilterKeepsClaimInvariants | server/src/routes/items.js:204-206 | removing claims keeps claim ids distinct and at most one active claim per item |
| Items.DeleteItem | server/src/routes/items.js:189-208 | an item the caller does not own is 404 with nothing written; otherwise exactly that item is removed, with the claims on it, and the store invariant is kept |
| Items.RemoveItemRow | server/src/routes/items.js:204-206 | removing one item row and the claims on it keeps the store invariant, leaving exactly the other items and the claims on them |
| Items.RemovalKeepsInvariants | server/src/routes/items.js:204-206 | removing an item with the claims on it keeps ids distinct and fresh, at most one active claim per item, approved claims on claimed items, and every claim on a stored item; it leaves exactly the items with another id and the claims on other items |
| Items.RemovalRows | server/src/routes/items.js:204-206 | removing one row keeps ids distinct and leaves exactly the rows with another id |
| SharedItems.ApprovedItemIds | server/src/routes/shared-items.js:12-21 | exactly the ids of items with an approved claim |
| SharedItems.EmptyNameFilterIsNoFilter | server/src/routes/shared-items.js:43-48 | skipping an empty name filter selects the same items as applying it, since the empty pattern matches every name |
| SharedItems.Annotate | server/src/routes/shared-items.js:74-78 | an entry has an approved claim exactly when its item's id is among the approved ones, and is claimable exactly when it has none |
| SharedItems.AnnotateUnapproved | server/src/routes/shared-items.js:74-78 | an item without an approved claim is flagged as having none and claimable |
| SharedItems.Selection | server/src/routes/shared-items.js:23-72 | the selected items are exactly the stored items passing the feed's filters, each as often as stored, by ascending expiry |
| SharedItems.ClaimableFeed | server/src/routes/shared-items.js:8-80 | every entry is another user's shareable, unclaimed item without an approved claim that passes the case-insensitive category and name filters; every such stored item appears as often as stored; the flags always say no approved claim and claimable; entries are by ascending expiry |
| SharedItems.ApprovedIdsIgnoreUnapproved | server/src/routes/shared-items.js:12-21 | a claim that is not approved adds no id to the excluded ones |
| SharedItems.AnnotationIgnoresUnapproved | server/src/routes/shared-items.js:60-78 | for items without an approved claim, a further unapproved claim changes no flag |
| SharedItems.UnapprovedClaimKeepsFeed | server/src/routes/shared-items.js:12-32 | adding a requested, rejected or cancelled claim leaves the feed exactly as it was |

## Code and specification

The system's design documents state rules that the route code does not
follow. The model follows the code. Each bullet below quotes the rule and
names the lines that depart from it.
- Rule: "terminal states are `approved`, `rejected`, `cancelled` — no
  transitions leave a terminal state", and a transition of a claim that is
  not `requested` fails "applies to all three target statuses". In
  server/src/routes/claims.js:174-188 only approval checks the current
  status (186-188). A reject or cancel is written whatever the status is
  (211-213). So an approved claim can be cancelled or rejected, and a
  rejected or cancelled claim can move between those two states
  (`Claims.Authorize`, `Claims.UpdateClaimStatus`).
- Rule: "`isClaimed == true` implies exactly one claim on that item has
  status `approved`". After an approved claim is withdrawn as above, its
  item stays claimed, because no code path clears `isClaimed`, while the
  item has no approved claim. It can then never be claimed again
  (server/src/routes/claims.js:37-39 refuses every request on a claimed
  item; `Claims.WithdrawnApprovalKeepsItemClaimed`). The model keeps only
  the direction the code maintains: approved implies claimed.
- Rule: a request on an item that is claimed or has a live claim "fails
  `Conflict`". The code answers 400
  (server/src/routes/claims.js:37-53), and the model's error is
  `BadRequest`.
- Rule: `isClaimable` is "true when the item has zero claims in any active
  state". The code counts only approved claims
  (server/src/routes/shared-items.js:60-67, 77), and the filter already
  excludes items with one. So a requested claim does not affect it, and
  it is always true (`SharedItems.ClaimableFeed`).

## Left out

- Express routing, the database client and its `include`/`select` shapes,
  logging and every 500 response from a failing database. These are HTTP
  and persistence plumbing. The only 500 modelled is the invalid end date
  of `Items.Expiring`.
- The authentication middleware. The caller's id and email are trusted
  inputs.
- The random token of an invitation. `Groups.InviteMember` takes it as a
  parameter and requires it to be unused, standing for 32 random bytes.
- The environment settings of the invite link's base URL.
  `Groups.InviteMember` takes both as parameters.
- Calendar arithmetic: dates are integer milliseconds and a day is
  86 400 000 ms. Time zones, daylight-saving shifts and `setDate` month
  rollover are not modelled.
- Concurrency: the invitation transaction is modelled only as both writes
  or neither. The approval's bulk update and the claim update are not
  transactional in the source. They are modelled as one sequential method,
  without interleavings. A race between two requests is not modelled.
- Claims.RequestClaim: the creation time is the `now` parameter, where the
  database stamps it.
- Claims.Incoming: the order among claims with the same creation time is
  not fixed, in the source or in the model. The same holds for
  `Claims.Mine`, `Items.ListItems`, `Items.ExpiringSplit` and
  `SharedItems.ClaimableFeed` with equal dates.
- Items.CreateItem: the expiry date arrives already converted to a number.
  A date string the runtime cannot convert would be a database error (500)
  and is not modelled. `isShareable` is a boolean; other truthy JSON values
  are not modelled.
- Items.UpdateItem: the new category is not checked to belong to the
  caller, as in the source. A category id that does not exist would be a
  database error (500) and is not modelled.
- Items.DeleteItem: removes the item's claims too. The database schema is
  not part of this model, so a cascading delete is assumed. Without it the
  source would answer 500 for an item with claims.
- Groups.UpdatePreferences: the source's 403 check at
  server/src/routes/groups.js:207-209 cannot fire, because the group was
  found with the caller as owner. It has no branch in the model.
- Groups.ListMembers: answers the membership rows without the attached user
  display fields.
- GET /groups (server/src/routes/groups.js:43-77), the owner's group list
  with counts: a display query outside the modelled rules.
- Text.ContainsIgnoreCase: case folding covers ASCII letters only. Unicode
  case folding and database collation are not modelled.
- Items.DaysWindow: parseInt's handling of Unicode white space is not
  modelled. Numbers of more than about 15 digits lose precision in the
  source, but any such window already ends outside the Date range and is
  answered 500 by `Items.Expiring`.
- Items.Expiring: the end of the window is taken as `now + days * DAY`.
  The source's `setDate` counts local calendar days, so a daylight-saving
  change inside the window moves that end by the offset change. The second
  `new Date()`, taken a moment after the first, is not modelled either.
  Near the edge of the Date range, the 500 threshold can therefore differ
  from the source's by that offset change and those milliseconds.
- server/src/routes/categories.js, server/src/routes/external.js,
  server/src/index.js and server/src/seed.js are not part of this model.
  They hold category CRUD, an external product lookup, the server wiring
  and seeding. Categories appear only as an owner-tagged table.
- The React client under client/src is not part of this model.
