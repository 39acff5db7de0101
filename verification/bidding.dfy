/**
  Bid placement on a listing's page: the amount typed into the form is
  checked against the listing's effective price and, when accepted, appended
  to the bid ledger.
 */
module Bidding {
  import opened Wrappers
  import opened Ledger
  import opened Listings

  /** The bid-amount form field after parsing: absent or empty, not a number, or an amount. */
  datatype BidInput = Missing | NotANumber | Num(cents: Cents)

  /** One outcome per path through the bid handler; a rejection carries the amount it asks for. */
  datatype BidOutcome =
    | MissingAmount
    | InvalidNumber
    | BelowCurrent(required: Cents)
    | BelowStarting(required: Cents)
    | Placed

  datatype BidResult = BidResult(outcome: BidOutcome, listing: Listing)

  /**
    Handles a bid posted by `visitor`, who is `None` when nobody is signed in
    (the page does not demand a login). The checks run in the handler's
    order: an empty field, a non-numeric field, an amount strictly below the
    current price, then an amount below the starting price when there are no
    bids. Only then is the bid built; a bid cannot name an anonymous visitor
    as its bidder, and that failure lands in the same handler as a
    non-numeric field. The listing's active flag is never consulted, and
    which signed-in user bids makes no difference to the verdict.
   */
  function PlaceBid(l: Listing, visitor: Option<User>, input: BidInput): (r: BidResult)
    ensures !r.outcome.Placed? ==> r.listing == l
    ensures r.outcome.Placed? ==>
      && input.Num? && visitor.Some?
      && r.listing == l.(bids := l.bids + [Bid(visitor.value, input.cents)])
      && EffectivePrice(r.listing) == input.cents
  {
    match input
    case Missing => BidResult(MissingAmount, l)
    case NotANumber => BidResult(InvalidNumber, l)
    case Num(amount) =>
      var current := EffectivePrice(l);
      if amount < current then
        BidResult(BelowCurrent(current), l)
      else if HighestBid(l.bids).None? && amount < l.starting then
        BidResult(BelowStarting(l.starting), l)
      else
        match visitor
        case None => BidResult(InvalidNumber, l)
        case Some(bidder) =>
          HighestBidAppend(l.bids, Bid(bidder, amount));
          BidResult(Placed, l.(bids := l.bids + [Bid(bidder, amount)]))
  }

  /**
    An amount is accepted exactly when a signed-in user offers a number at
    least the effective price, equal included.
   */
  lemma PlaceBidAcceptedIff(l: Listing, visitor: Option<User>, input: BidInput)
    ensures PlaceBid(l, visitor, input).outcome.Placed? <==>
      visitor.Some? && input.Num? && EffectivePrice(l) <= input.cents
  {
  }

  /**
    Each rejection has its own cause: a missing field, an amount under the
    effective price (reported with that price), and "invalid number", which
    covers a non-numeric field and an anonymous visitor's otherwise
    acceptable amount.
   */
  lemma PlaceBidRejectionReasons(l: Listing, visitor: Option<User>, input: BidInput)
    ensures PlaceBid(l, visitor, input).outcome == MissingAmount <==> input.Missing?
    ensures PlaceBid(l, visitor, input).outcome == InvalidNumber <==>
      input.NotANumber? || (input.Num? && visitor.None? && EffectivePrice(l) <= input.cents)
    ensures PlaceBid(l, visitor, input).outcome == BelowCurrent(EffectivePrice(l)) <==>
      input.Num? && input.cents < EffectivePrice(l)
  {
  }

  /**
    An anonymous visitor never adds a bid: an acceptable amount is refused as
    an invalid number and the listing is left as it was.
   */
  lemma AnonymousBidRefused(l: Listing, amount: Cents)
    requires EffectivePrice(l) <= amount
    ensures PlaceBid(l, None, Num(amount)) == BidResult(InvalidNumber, l)
  {
  }

  /**
    The "below the starting price" branch can never be taken: with no bids the
    effective price is the starting price, so the first check already caught it.
   */
  lemma BelowStartingUnreachable(l: Listing, visitor: Option<User>, input: BidInput)
    ensures !PlaceBid(l, visitor, input).outcome.BelowStarting?
  {
  }

  /**
    The verdict depends only on the starting price, the ledger, the input and
    whether someone is signed in: which user bids, whether the listing is
    still open, its winner and its watchers make no difference.
   */
  lemma PlaceBidIgnoresBidderAndState(l: Listing, m: Listing, u: Option<User>, v: Option<User>, input: BidInput)
    requires m.starting == l.starting && m.bids == l.bids
    requires u.Some? <==> v.Some?
    ensures PlaceBid(l, u, input).outcome == PlaceBid(m, v, input).outcome
  {
  }

  /**
    Right after an accepted bid, the very same amount is accepted again from
    any signed-in user: the handler only rejects amounts strictly below the
    current price.
   */
  lemma EqualBidAccepted(l: Listing, u: User, v: User, amount: Cents)
    requires PlaceBid(l, Some(u), Num(amount)).outcome.Placed?
    ensures PlaceBid(PlaceBid(l, Some(u), Num(amount)).listing, Some(v), Num(amount)).outcome.Placed?
  {
  }

  /** Handling a bid never lowers the effective price. */
  lemma PriceNeverDecreases(l: Listing, visitor: Option<User>, input: BidInput)
    ensures EffectivePrice(l) <= EffectivePrice(PlaceBid(l, visitor, input).listing)
  {
  }
}
