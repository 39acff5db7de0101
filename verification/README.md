# Auction lifecycle model

A Dafny model of the auction logic of a small Django marketplace
(`commerce/auctions/views.py`). A listing has a starting price, a creator, an
active flag, an optional winner, an append-only ledger of bids and a set of
watchers. The model covers the handlers below, with HTTP and the ORM
stripped away, as pure functions over an immutable `Listing`. Bidding and
closing return a tagged outcome together with the new listing. The
watchlist toggle returns only the new listing. The two page queries filter
a table of listings and change nothing:

- `Bidding.PlaceBid`: the POST branch of `listing_page`. It computes the
  effective price (the highest recorded bid, or the starting price when
  there are none) and classifies the posted amount as missing, not a number,
  below the current price, below the starting price, or placed. A placed bid
  is appended to the ledger. The page does not require a login, so the
  visitor is an optional user. A bid cannot name an anonymous visitor as its
  bidder. For an acceptable amount from an anonymous visitor, that failure
  is caught by the same handler as a non-numeric field. The visitor gets
  the "invalid number" outcome and nothing is recorded.
- `Closing.Close`: `close_auction`. The caller must be the creator, and the
  listing must be open. On success the listing is closed and, when there are
  bids, the bidder of a highest bid becomes the winner.
- `Watchlist.ToggleWatch`: `watchlist`. It flips the requesting user's
  membership among the watchers.
- `Queries.ActiveListings` and `Queries.WonBy`: the `index` and
  `won_auctions` filters.

Modules: `Wrappers` (Option), `Ledger` (users, bids, the two ledger queries),
`Listings` (the listing record, its effective price, the reachability
invariant `WellFormed`), `Bidding`, `Closing`, `Watchlist`, `Queries`, and
`Lifecycle` (invariant preservation across all operations, finality of
closing, and a worked scenario).

Amounts are exact whole cents. The starting price is a decimal of eight
digits with two after the point, so `NewListing` asks for a magnitude below
10^8 cents.

The model follows the handlers' actual rules, including where they differ
from the usual auction policy of strictly increasing bids on open listings
only:

- The handler refuses only amounts strictly below the current price
  (views.py:117). With amounts as exact cents, a bid equal to the current
  highest bid is therefore accepted (`EqualBidAccepted`,
  `ShortAuctionScenario`). In the handler itself this holds only when the
  amount's binary float is not below its decimal value. See "Left out".
- The handler does not look at the listing's active flag. Which signed-in
  user bids does not matter either. A closed listing still records bids
  (`ClosedListingStillTakesBids`); its winner does not change.
- The "below the starting price" branch (views.py:119-120) is kept in the
  model and proved unreachable (`BelowStartingUnreachable`).
- The database does not fix which of several equal-amount bids
  `order_by('-amount').first()` returns. The model picks the earliest one,
  but every contract promises only "some bid of maximal amount".

## Model

| member | source | states |
|---|---|---|
| Ledger.HighestBid | commerce/auctions/views.py:99-100 | the aggregate maximum is absent exactly when there are no bids, and otherwise is the amount of some bid that no bid exceeds |
| Ledger.TopBid | commerce/auctions/views.py:166 | the highest-amount bid is absent exactly when there are no bids, and otherwise is a recorded bid whose amount no bid exceeds |
| Ledger.TopBidCarriesHighest | commerce/auctions/views.py:166-170 | the bid that closing picks carries the same amount as the aggregate maximum the bid handler uses |
| Ledger.HighestBidAppend | commerce/auctions/views.py:128-131 | recording a bid moves the maximum to the larger of the old maximum and the new amount (to the new amount on an empty ledger) |
| Listings.EffectivePrice | commerce/auctions/views.py:99-105 | the current price is the starting price when there are no bids, and otherwise the largest recorded amount |
| Listings.NewListing | commerce/auctions/models.py:8-13 | a new listing is open, has no winner, satisfies the lifecycle invariant, and is priced at its starting price |
| Listings.LatestBidIsPrice | commerce/auctions/views.py:117-131 | in a reachable listing the effective price equals the latest bid, so tracking it incrementally agrees with the aggregate |
| Listings.PriceAtLeastStarting | commerce/auctions/views.py:102-105 | in a reachable listing the current price never falls below the starting price |
| Bidding.PlaceBid | commerce/auctions/views.py:107-136 | a rejection leaves the listing unchanged; an acceptance needs a signed-in visitor and a number, appends exactly the bid (visitor, amount) and makes that amount the new current price |
| Bidding.PlaceBidAcceptedIff | commerce/auctions/views.py:117-131 | a bid is placed if and only if a signed-in visitor offers a number at least the current price |
| Bidding.PlaceBidRejectionReasons | commerce/auctions/views.py:108-134 | in both directions: a missing field gives its own reason; an amount below the current price gives another, with that price; "invalid number" covers exactly a non-number and an anonymous visitor's acceptable amount |
| Bidding.AnonymousBidRefused | commerce/auctions/views.py:123-134 | an anonymous visitor's amount at or above the price is refused as an invalid number and nothing is recorded |
| Bidding.BelowStartingUnreachable | commerce/auctions/views.py:117-120 | the "below the starting price" rejection never occurs |
| Bidding.PlaceBidIgnoresBidderAndState | commerce/auctions/views.py:107-131 | the verdict depends only on the starting price, the ledger, the input and whether someone is signed in, not on which user, the active flag, the winner or the watchers |
| Bidding.EqualBidAccepted | commerce/auctions/views.py:117 | right after an accepted bid the same amount is accepted again from any signed-in user |
| Bidding.PriceNeverDecreases | commerce/auctions/views.py:99-131 | handling a bid never lowers the current price |
| Closing.Close | commerce/auctions/views.py:154-178 | a refused close leaves the listing unchanged; a successful one closes it and keeps the ledger and every other field except the winner |
| Closing.CloseGuards | commerce/auctions/views.py:158-164 | a non-creator is always refused, the creator is refused exactly on a closed listing, and the close succeeds exactly for the creator on an open listing |
| Closing.CloseSelectsTopBidder | commerce/auctions/views.py:166-176 | with bids, the winner is the bidder of a bid at the maximal amount; without bids, the listing is closed and the winner is untouched |
| Closing.SecondCloseRejected | commerce/auctions/views.py:162-164 | after a successful close, any further close is refused and changes nothing |
| Watchlist.ToggleWatch | commerce/auctions/views.py:147-150 | the user's membership flips, every other user's membership and every other field is unchanged |
| Watchlist.ToggleTwiceRestores | commerce/auctions/views.py:147-150 | toggling twice restores the original listing |
| Queries.ActiveListings | commerce/auctions/views.py:14 | the index holds exactly the open rows, each as many times as in the table |
| Queries.WonBy | commerce/auctions/views.py:182 | the won page holds exactly the rows whose winner is the user, each as many times as in the table |
| Queries.IndexAndWonDisjoint | commerce/auctions/views.py:168-170 | over reachable listings nothing a user has won appears on the index |
| Lifecycle.PlaceBidPreservesWellFormed | commerce/auctions/views.py:117-128 | bid handling keeps the ledger non-decreasing and at or above the starting price, with any winner still among the bidders |
| Lifecycle.ClosePreservesWellFormed | commerce/auctions/views.py:166-175 | closing keeps the lifecycle invariant: a winner only on a closed listing, and only one of its bidders |
| Lifecycle.ToggleWatchPreservesWellFormed | commerce/auctions/views.py:147-150 | toggling a watcher keeps the lifecycle invariant |
| Lifecycle.ClosedIsFinal | commerce/auctions/views.py:162-164 | a closed listing stays closed and keeps its winner under every operation |
| Lifecycle.ClosedListingStillTakesBids | commerce/auctions/views.py:107-131 | an amount at or above the current price is recorded on a closed listing too, and the winner stays as it was |
| Lifecycle.ShortAuctionScenario | commerce/auctions/views.py:96-178 | starting at 100.00: 90.00 refused, 100.00 accepted twice, 150.00 accepted, and the creator's close names the 150.00 bidder |
| Lifecycle.CloseWithoutBidsLeavesNoWinner | commerce/auctions/views.py:173-176 | a new listing closed by its creator is closed with outcome "no bids" and no winner |

## Left out

- Listing lookup (`get_object_or_404`), HTTP requests and responses, redirects, rendering and the flash-message texts are framework I/O. An unknown listing is not modelled as an outcome.
- `login_view`, `logout_view` and `register` are session and authentication plumbing over Django's auth framework. `create`, `ListingForm` and the URL table are declarative framework code.
- The `float()` conversion of the form field is abstracted to a parsed input (`Missing`, `NotANumber`, `Num(cents)`). Binary floating point, amounts finer than a cent, and the special values `nan` and `inf` are not modelled.
- Bidding.PlaceBidAcceptedIff: the "equal amount is accepted" direction assumes exact cents. The handler compares `float(amount)` with a decimal price exactly. For a value like 100.10, whose binary float lies below the decimal, an amount equal to the price is refused as too low.
- Bidding.EqualBidAccepted: if bid amounts are stored as decimals like the starting price, this holds in the handler only when the repeated amount's binary float is not below its decimal value. Repeats of 100.10, 12.34 and 0.29 are refused; repeats of 100.00 and 150.00 are accepted.
- Bidding.PlaceBidRejectionReasons: "nan" parses as a float, but comparing it with a decimal price raises an error that is not a `ValueError`. That error escapes the handler with no outcome. The parsed input has no such case.
- The `Bid` model and the `winner` field are not part of the models file shown. Their shape (bidder, amount; an optional user) is taken from how the handlers use them. Bid timestamps, titles, descriptions, images and categories play no part in the handlers and are omitted.
- Two concurrent bids can read the same current price before either is saved. This is a concurrency matter and is outside a sequential model.
