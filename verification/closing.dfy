/**
  Closing an auction: a two-guard state machine that moves a listing from
  active to closed and names the bidder of a highest bid as the winner.
 */
module Closing {
  import opened Wrappers
  import opened Ledger
  import opened Listings

  /** Why a close was refused, or what it decided. */
  datatype CloseOutcome =
    | NotCreator
    | NotActive
    | Won(winner: User)
    | NoBids

  datatype CloseResult = CloseResult(outcome: CloseOutcome, listing: Listing)

  predicate Rejected(o: CloseOutcome) {
    o.NotCreator? || o.NotActive?
  }

  /**
    Closes `l` on behalf of `caller`. Only the creator may close, and only an
    open listing; the creator check comes first. A close with bids names the
    bidder of a highest bid; a close without bids leaves the winner as it was.
   */
  function Close(l: Listing, caller: User): (r: CloseResult)
    ensures Rejected(r.outcome) ==> r.listing == l
    ensures !Rejected(r.outcome) ==>
      && !r.listing.isActive
      && r.listing.bids == l.bids
      && r.listing.(isActive := l.isActive, winner := l.winner) == l
  {
    if caller != l.creator then
      CloseResult(NotCreator, l)
    else if !l.isActive then
      CloseResult(NotActive, l)
    else
      match TopBid(l.bids)
      case Some(top) => CloseResult(Won(top.bidder), l.(isActive := false, winner := Some(top.bidder)))
      case None => CloseResult(NoBids, l.(isActive := false))
  }

  /**
    The guards, both directions: a non-creator is always refused (even on a
    closed listing, since that check comes first), and the creator is refused
    exactly when the listing is already closed.
   */
  lemma CloseGuards(l: Listing, caller: User)
    ensures Close(l, caller).outcome == NotCreator <==> caller != l.creator
    ensures Close(l, caller).outcome == NotActive <==> caller == l.creator && !l.isActive
    ensures !Rejected(Close(l, caller).outcome) <==> caller == l.creator && l.isActive
  {
  }

  /**
    A successful close with bids names the bidder of a bid of maximal amount,
    that is, of a bid at the effective price; one without bids leaves the
    winner untouched.
   */
  lemma CloseSelectsTopBidder(l: Listing)
    requires l.isActive
    ensures |l.bids| > 0 ==>
      && Close(l, l.creator).outcome.Won?
      && Close(l, l.creator).listing.winner == Some(Close(l, l.creator).outcome.winner)
      && exists i :: 0 <= i < |l.bids| && l.bids[i].bidder == Close(l, l.creator).outcome.winner
                                       && l.bids[i].amount == EffectivePrice(l)
    ensures |l.bids| == 0 ==>
      Close(l, l.creator) == CloseResult(NoBids, l.(isActive := false))
  {
    if |l.bids| > 0 {
      var top := TopBid(l.bids).value;
      TopBidCarriesHighest(l.bids);
      var i :| 0 <= i < |l.bids| && l.bids[i] == top;
      assert l.bids[i].amount == EffectivePrice(l);
    }
  }

  /** Closing is not repeatable: whoever tries again is refused and nothing changes. */
  lemma SecondCloseRejected(l: Listing, first: User, second: User)
    requires !Rejected(Close(l, first).outcome)
    ensures Rejected(Close(Close(l, first).listing, second).outcome)
    ensures Close(Close(l, first).listing, second).listing == Close(l, first).listing
  {
  }
}
