# GameHub business rules in Dafny

A model of the business-rule layer of the GameHub store backend: the
`GameHubService` operations (checkout of a cart, posting a review, adding a
friend), the lookup and write semantics of the repositories they use, the
mutators of the domain entities (`Usuario`, `Jogo`, `Analise`, `Biblioteca`,
`Amizades`), and the route handlers of the server that carry rules of their
own (cart and wishlist de-duplication, review POST/PUT, library PUT,
friendship accept/reject/delete).

The database is one immutable `Store` value: maps keyed by the tables'
primary keys (users, titles, transactions, library rows keyed by
(title, user), reviews keyed by (title, user), friendships keyed by
(initiator, target)), a set for the wishlist and the line items, and a
sequence for the cart so that the order in which the checkout visits the
cart rows is fixed. Every operation is a pure function from a store to a
`Step(store, result)`: the result is the record the source returns or a
typed `Error` standing for the thrown error or the early 4xx response, and
on every failure the returned store is the input store.

Money, ratings and played time are JavaScript numbers in the source; they
are `real` here (exact arithmetic, no rounding). Ids are integers.

Files, one module each:

- `basics.dfy` — `Id`, `Option`, `Error`, `Result`.
- `domain.dfy` — entities and their mutators (`domain.ts`).
- `repository.dfy` — the `Store`, cart and friendship lookups/updates (`repository.ts`).
- `service.dfy` — `Checkout`, `PostReview`, `AddFriend` (`GameHubService`).
- `handlers.dfy` — the rule-bearing route handlers (`server.ts`).
- `invariants.dfy` — the store invariant `Valid`, its preservation by every
  operation and by any sequence of operations, and multi-call properties.

Three behaviours of the code worth noting:

- The library PUT route replaces the played time with any non-negative
  value, so played time is not monotonic (`Invariants.SetPlaytimeMayDecrease`);
  only `Biblioteca.adicionarTempoJogado` is monotonic, and no route calls it.
- The friendship DELETE route removes only the row stored in the given
  orientation, although lookups match both orientations
  (`Invariants.RemoveIsOriented`).
- The checkout ignores the result of `debitarSaldo`; the balance drops by
  exactly the total because the total is checked against the balance first
  and a total of 0 leaves the balance unchanged (`Invariants.CheckoutDebitsExactly`).
  With a negative price in the catalogue the total could be negative, in
  which case the debit is refused and the balance stays as it was
  (`Service.Checkout`).

## Model

| member | source | states |
|---|---|---|
| Domain.NewUser | domain.ts:13-25 | A user created without a balance starts at 0; a given balance is kept. |
| Domain.AddBalance | domain.ts:27-31 | A positive amount raises the balance by exactly that amount; zero or negative amounts change nothing; nothing but the balance changes. |
| Domain.DebitBalance | domain.ts:33-39 | Succeeds iff the amount is positive and covered by the balance; then the balance drops by exactly the amount; otherwise the user is unchanged and false is returned; a non-negative balance never goes negative. |
| Domain.DebitUndoesAdd | domain.ts:27-39 | On a non-negative balance, crediting then debiting the same positive amount succeeds and restores the user exactly. |
| Domain.DebitExact | domain.ts:33-39 | For an amount in [0, balance] the balance after the debit is exactly balance − amount, the amount 0 included, and only a positive amount reports success. |
| Domain.ApplyDiscount | domain.ts:119-123 | A percentage in (0, 100] takes that percentage off the price, giving a price in [0, old price] (strictly lower for a positive price) and 0 at 100%; any other percentage leaves the title unchanged. |
| Domain.DiscountBounds | domain.ts:121 | The discounted price plus the discount equals the old price, and lies between 0 and the old price for a non-negative price. |
| Domain.NewReview | domain.ts:182-194 | A review created without text has no text; a given text is kept, as is the rating. |
| Domain.UpdateRating | domain.ts:196-200 | A rating in [0, 10] replaces the old one, any other leaves the review unchanged; the text is untouched, so a rating in range stays in range. |
| Domain.UpdateText | domain.ts:202-204 | The text is replaced by the given string, the empty string included; the rating is untouched. |
| Domain.NewLibraryEntry | domain.ts:213-223 | A library row created without played time starts at 0. |
| Domain.AddPlaytime | domain.ts:225-229 | Positive hours are added, other values ignored; played time never decreases. |
| Domain.Accept | domain.ts:282-284 | Sets the status to accepted and keeps both members. |
| Domain.Reject | domain.ts:286-288 | Sets the status to rejected and keeps both members. |
| Domain.MarkPending | domain.ts:290-292 | Sets the status to pending and keeps both members. |
| Domain.StatusSettersIdempotent | domain.ts:282-292 | Each status setter is idempotent and the last setter applied decides the status whatever it was. |
| Repository.CartOf | repository.ts:912-933 | A title is listed for a user iff the cart holds the (title, user) row, and on a cart with no repeated row, as the table's primary key guarantees, no title is listed twice: each cart row contributes exactly one price to the checkout total. |
| Repository.DeleteAllByUser | repository.ts:980-986 | Exactly the rows of the user are removed: that user's cart becomes empty and every other user's cart is the same sequence as before. |
| Repository.FindBetween | repository.ts:1089-1115 | Finds a row iff one is stored as (a, b) or (b, a); the row returned is stored, carries its stored status and joins exactly a and b. |
| Repository.FindBetweenSymmetric | repository.ts:1089-1105 | Looking up (a, b) finds a row iff looking up (b, a) does, and on a table with one row per pair both return the same row. |
| Repository.FindAccepted | repository.ts:1117-1140 | Lists exactly the stored rows with status accepted in which the user is initiator or target. |
| Repository.UpdateFriendship | repository.ts:1155-1169 | Writes the status to the row under the record's own orientation and changes no other row; a missing row is an error. |
| Repository.DeleteFriendship | repository.ts:1171-1182 | Removes exactly the row stored as (initiator, target) and keeps the rest; a missing row is an error. |
| Repository.AcceptedOtherParty | frontend/main.js:632 | For each accepted row listed for a user, the other party is not the user and the two together are the row's members, whoever initiated. |
| Service.FirstBadItem | repository.ts:1267-1282 | Every cart title before the returned position exists and is not owned; the title at it, if any, is missing or owned. |
| Service.GrantTitles | repository.ts:1294-1301 | Adds one row with played time 0 for every bought title and keeps every other library row. |
| Service.Checkout | repository.ts:1249-1311 | Empty cart fails first, a missing user next, then the first missing or owned cart title (existence before ownership), then a balance below the sum of current prices; every failure leaves the store as it was. Success (iff all checks pass, balance equal to the total included) records one transaction of that total, one line item and one played-time-0 library row per cart title, debits the user and changes no other field of that user's record, empties only that user's cart, and touches nothing else. |
| Service.PostReview | repository.ts:1332-1364 | A rating outside [0, 10] fails before ownership is checked; a non-owner fails next; neither changes the store. On success the single review for (title, user) gets the new rating, and the new text when one is given, otherwise keeps its old text (or has none if it is new); no other review changes. |
| Service.AddFriend | repository.ts:1215-1237 | Self-friendship fails first, an existing row in either orientation next, a missing user last; failures change nothing. Success stores exactly (user, friend, pending) and keeps the table at one row per unordered pair with no self rows. |
| Handlers.AddToCart | server.ts:1402-1426 | Fails iff the (title, user) row is already in the cart, without checking the title or ownership; otherwise appends it, so a cart without duplicates stays without duplicates. |
| Handlers.AddToWishlist | server.ts:1491-1515 | Fails iff the (title, user) pair is already wished for; otherwise adds it, growing the wishlist by one, and returns that pair. |
| Handlers.TextOrNull | server.ts:1215 | Absent and empty texts both become absent; any other text is passed on. |
| Handlers.SubmitReview | server.ts:1199-1220 | A missing or out-of-range rating is rejected before the service runs; otherwise the service runs with the text as `texto \|\| null`, so an empty text keeps a stored one. |
| Handlers.EditReview | server.ts:1227-1257 | The review must exist and a supplied rating must be in [0, 10], else nothing is written; only supplied fields change, and a supplied empty text replaces the stored text. |
| Handlers.SetPlaytime | server.ts:1328-1355 | The library row must exist and a supplied played time must be non-negative, else nothing is written; any other supplied value replaces the stored one. |
| Handlers.AcceptFriendship | server.ts:1603-1623 | Fails iff no row joins the two users in either orientation; otherwise that row, in its stored orientation, becomes accepted whatever its status and whichever user calls, and nothing else changes. |
| Handlers.RejectFriendship | server.ts:1629-1649 | As accepting, with the status rejected. |
| Handlers.RemoveFriendship | server.ts:1655-1669 | Deletes only the row stored exactly as (user, friend); fails when that orientation is not stored; every remaining row keeps its status and nothing else changes. |
| Invariants.PriceSumNonNegative | repository.ts:1264-1282 | With non-negative prices the accumulated checkout total is non-negative. |
| Invariants.DeleteAllKeepsNoDuplicates | repository.ts:980-986 | Clearing a user's cart keeps a duplicate-free cart duplicate-free. |
| Invariants.CheckoutDebitsExactly | repository.ts:1285-1305 | With non-negative prices, a checkout whose checks pass succeeds even when the balance equals the total, charges a non-negative total and lowers the balance by exactly that total. |
| Invariants.CheckoutAllOrNothing | repository.ts:1267-1278 | One missing or already owned title in the cart fails the whole checkout with TitleNotFound or AlreadyOwned and buys nothing, whatever the other titles. |
| Invariants.NoRepurchase | repository.ts:1274-1278 | After a successful checkout, a bought title put back in the cart is accepted by the cart but the next checkout fails with AlreadyOwned and changes nothing. |
| Invariants.CartOfAppendSelf | server.ts:1420-1421 | Appending a user's row to a cart with none of that user's rows leaves exactly that title in the user's cart. |
| Invariants.PurchasePreservesValid | repository.ts:1289-1308 | The writes of a checkout whose checks passed keep every store invariant. |
| Invariants.CheckoutPreservesValid | repository.ts:1249-1311 | Checkout keeps every store invariant: non-negative balances, fresh transaction ids, line items pointing at transactions, a duplicate-free cart, non-negative played time. |
| Invariants.PostReviewPreservesValid | repository.ts:1332-1364 | Posting a review keeps ratings in [0, 10] and every review backed by a library row. |
| Invariants.ReviewKeepsTextWhenOmitted | repository.ts:1350-1357 | A review posted with a text and then re-posted without text has the second rating and the first text. |
| Invariants.EmptyTextRoutesDiffer | server.ts:1215 | For any stored text, through POST an empty text keeps it; through PUT it replaces it with the empty string. |
| Invariants.EditReviewPreservesValid | server.ts:1227-1257 | Editing a review keeps every store invariant, ratings in [0, 10] included. |
| Invariants.SetPlaytimePreservesValid | server.ts:1328-1355 | Setting played time keeps it non-negative. |
| Invariants.SetPlaytimeMayDecrease | server.ts:1342-1348 | The library route accepts a smaller played time than the stored one. |
| Invariants.AddToCartPreservesValid | server.ts:1402-1426 | Adding to the cart keeps it duplicate-free. |
| Invariants.AddToCartUnchecked | server.ts:1414-1421 | Any pair not yet in the cart is accepted, whether or not the title exists or is owned. |
| Invariants.AddFriendPreservesValid | repository.ts:1215-1237 | Adding a friend keeps one row per unordered pair and no self rows. |
| Invariants.NoReverseRequest | repository.ts:1220-1224 | After a request from a to b, a request from b to a fails with DuplicateFriendship. |
| Invariants.AcceptedListedForBoth | repository.ts:1117-1140 | After a request from a to b is accepted by either of them, the accepted row is listed for both users and each resolves the other as the other party. |
| Invariants.AcceptPreservesValid | server.ts:1603-1623 | Accepting changes no key of the friendship table, so the table stays well formed. |
| Invariants.RejectPreservesValid | server.ts:1629-1649 | Rejecting changes no key of the friendship table, so the table stays well formed. |
| Invariants.RemovePreservesValid | server.ts:1655-1669 | Deleting a friendship keeps every store invariant. |
| Invariants.RemoveIsOriented | repository.ts:1171-1182 | With a row stored as (a, b), the lookup from b finds it but deleting (b, a) fails and the row remains. |
| Invariants.ApplyPreservesValid | repository.ts:1187-1365 | Each modelled operation keeps a valid store valid. |
| Invariants.RunPreservesValid | repository.ts:1187-1365 | Any sequence of modelled operations keeps a valid store valid; in particular friendships stay one row per unordered pair with no self rows, and every review stays backed by ownership. |

## Left out

- HTTP plumbing of `server.ts`: routing, id parsing (`parseInt`/`isNaN`),
  the truthiness checks on body ids, status codes and JSON bodies. Handlers
  receive parsed values; an absent body field is `None`.
- JSON values of the wrong type in request bodies (a `null` or string
  rating, a non-string text): the model types the fields.
- Persistence: Prisma calls and row-to-object mapping are replaced by maps,
  sets and a sequence. Foreign-key and other constraints of the database
  schema are not modelled (the schema is not part of this model), so adding a
  cart row for an unknown title or user succeeds here.
- Repository.FindBetween: when both orientations of a pair are stored, the
  source returns whichever row the database yields first; the model returns
  the (a, b) row. No modelled operation creates both orientations.
- Repository.CartOf: the source's query has no ordering; the model uses the
  order in which rows were added, which only decides which failing title a
  checkout names first. Its contract states one title per row only for a
  cart without repeated rows, which the table's primary key and `Valid`
  guarantee; a cart with repeated rows cannot arise.
- Timestamps (`new Date().toISOString()`) and the creation dates of all
  records; database-generated transaction ids are a counter in the store.
- Floating-point money and ratings: `real` arithmetic, no rounding.
- Concurrency and atomicity: each call is one atomic transition; races
  between checkouts and failures in the middle of the write sequence are
  not modelled.
- Users' names, e-mails and passwords beyond being carried along; titles'
  descriptions, release dates, developers and publishers.
- The plain CRUD repositories and routes (developers, publishers, genres,
  tags, titles, transactions, line items, title tags and genres), wishlist
  and cart removal, library deletion, `getLibrary`, the seeding and
  clearing scripts and the browser client except its other-party rule.
