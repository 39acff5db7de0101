/**
  An auction listing as the views see it: its starting price, creator,
  active flag, optional winner, bid ledger and watchers, together with the
  listing's effective price and the invariant every reachable listing keeps.
 */
module Listings {
  import opened Wrappers
  import opened Ledger

  /**
    The starting price is a decimal of at most eight digits, two of them after
    the point, so its magnitude in cents stays below 10^8.
   */
  const StartingLimit: int := 100_000_000

  predicate StartingInRange(c: Cents) {
    -StartingLimit < c < StartingLimit
  }

  datatype Listing = Listing(
    starting: Cents,
    creator: User,
    isActive: bool,
    winner: Option<User>,
    bids: seq<Bid>,
    watchers: set<User>)

  /**
    What the operations keep true of every listing reachable from a new one:
    an open listing has no winner yet, a winner is one of the bidders, every
    bid meets the starting price, and the ledger never goes down in amount.
   */
  ghost predicate WellFormed(l: Listing) {
    && (l.isActive ==> l.winner.None?)
    && (l.winner.Some? ==> exists i :: 0 <= i < |l.bids| && l.bids[i].bidder == l.winner.value)
    && (forall i :: 0 <= i < |l.bids| ==> l.starting <= l.bids[i].amount)
    && (forall i, j :: 0 <= i < j < |l.bids| ==> l.bids[i].amount <= l.bids[j].amount)
  }

  /**
    The price a new bid is measured against: the largest recorded bid, or the
    starting price when nobody has bid yet.
   */
  function EffectivePrice(l: Listing): (p: Cents)
    ensures |l.bids| == 0 ==> p == l.starting
    ensures |l.bids| > 0 ==> IsMaxAmount(l.bids, p)
  {
    match HighestBid(l.bids)
    case None => l.starting
    case Some(m) => m
  }

  /** A freshly created listing: open, no winner, no bids, no watchers. */
  function NewListing(creator: User, starting: Cents): (l: Listing)
    requires StartingInRange(starting)
    ensures WellFormed(l) && l.isActive && l.creator == creator
    ensures EffectivePrice(l) == starting
  {
    Listing(starting, creator, true, None, [], {})
  }

  /**
    Because accepted bids never go down, the effective price of a reachable
    listing with bids is simply its latest bid, so tracking the price
    incrementally agrees with the aggregate query.
   */
  lemma LatestBidIsPrice(l: Listing)
    requires WellFormed(l) && |l.bids| > 0
    ensures EffectivePrice(l) == l.bids[|l.bids| - 1].amount
  {
  }

  /** In a reachable listing the effective price never falls below the starting price. */
  lemma PriceAtLeastStarting(l: Listing)
    requires WellFormed(l)
    ensures l.starting <= EffectivePrice(l)
  {
  }
}
