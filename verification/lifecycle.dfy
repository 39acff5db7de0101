/**
  Properties of the listing lifecycle as a whole: every operation keeps a
  reachable listing well formed, closing is final, and the scenario of a
  short auction plays out as the handlers dictate.
 */
module Lifecycle {
  import opened Wrappers
  import opened Ledger
  import opened Listings
  import opened Bidding
  import opened Closing
  import opened Watchlist

  /** An accepted bid meets the effective price, so the ledger stays ordered and above the start. */
  lemma PlaceBidPreservesWellFormed(l: Listing, visitor: Option<User>, input: BidInput)
    requires WellFormed(l)
    ensures WellFormed(PlaceBid(l, visitor, input).listing)
  {
    var r := PlaceBid(l, visitor, input);
    if r.outcome.Placed? {
      var n := |l.bids|;
      var s := r.listing.bids;
      PriceAtLeastStarting(l);
      assert s[n].amount == input.cents;
      assert forall i :: 0 <= i < n ==> s[i] == l.bids[i];
      assert forall i :: 0 <= i < n ==> s[i].amount <= s[n].amount;
      if l.winner.Some? {
        var k :| 0 <= k < n && l.bids[k].bidder == l.winner.value;
        assert s[k].bidder == l.winner.value;
      }
    }
  }

  /** Closing names a winner only among the bidders, and only while closing the listing. */
  lemma ClosePreservesWellFormed(l: Listing, caller: User)
    requires WellFormed(l)
    ensures WellFormed(Close(l, caller).listing)
  {
  }

  /** The watchers play no part in the invariant. */
  lemma ToggleWatchPreservesWellFormed(l: Listing, u: User)
    requires WellFormed(l)
    ensures WellFormed(ToggleWatch(l, u))
  {
  }

  /**
    Once closed, a listing stays closed and its winner never changes, whatever
    is done to it afterwards.
   */
  lemma ClosedIsFinal(l: Listing, u: User, visitor: Option<User>, input: BidInput)
    requires !l.isActive
    ensures !PlaceBid(l, visitor, input).listing.isActive && PlaceBid(l, visitor, input).listing.winner == l.winner
    ensures Close(l, u).listing == l
    ensures !ToggleWatch(l, u).isActive && ToggleWatch(l, u).winner == l.winner
  {
  }

  /**
    The bid handler does not look at the active flag: an amount at or above the
    effective price is recorded on a closed listing too, while the winner
    chosen at closing stays as it was.
   */
  lemma ClosedListingStillTakesBids(l: Listing, u: User, amount: Cents)
    requires !l.isActive && EffectivePrice(l) <= amount
    ensures PlaceBid(l, Some(u), Num(amount)).outcome.Placed?
    ensures PlaceBid(l, Some(u), Num(amount)).listing.winner == l.winner
    ensures EffectivePrice(PlaceBid(l, Some(u), Num(amount)).listing) == amount
  {
  }

  /**
    A listing starting at 100.00: 90.00 is refused, 100.00 is accepted, a
    second 100.00 is accepted too (the handler only refuses amounts strictly
    below the price), 150.00 is accepted, and the creator's close names the
    150.00 bidder.
   */
  lemma ShortAuctionScenario(seller: User, a: User, b: User, c: User)
    ensures
      var l0 := NewListing(seller, 10000);
      var r1 := PlaceBid(l0, Some(a), Num(9000));
      var r2 := PlaceBid(r1.listing, Some(a), Num(10000));
      var r3 := PlaceBid(r2.listing, Some(b), Num(10000));
      var r4 := PlaceBid(r3.listing, Some(c), Num(15000));
      var r5 := Close(r4.listing, seller);
      && r1 == BidResult(BelowCurrent(10000), l0)
      && r2.outcome.Placed? && r3.outcome.Placed? && r4.outcome.Placed?
      && r5.outcome == Won(c)
      && !r5.listing.isActive && r5.listing.winner == Some(c)
  {
    var l0 := NewListing(seller, 10000);
    var l4 := l0.(bids := [Bid(a, 10000), Bid(b, 10000), Bid(c, 15000)]);
    assert PlaceBid(PlaceBid(PlaceBid(PlaceBid(l0, Some(a), Num(9000)).listing, Some(a), Num(10000)).listing, Some(b), Num(10000)).listing, Some(c), Num(15000)).listing == l4;
    assert l4.bids[1..] == [Bid(b, 10000), Bid(c, 15000)];
    assert l4.bids[1..][1..] == [Bid(c, 15000)];
  }

  /** A listing closed with no bids is closed with no winner. */
  lemma CloseWithoutBidsLeavesNoWinner(seller: User, starting: Cents)
    requires StartingInRange(starting)
    ensures Close(NewListing(seller, starting), seller).outcome == NoBids
    ensures !Close(NewListing(seller, starting), seller).listing.isActive
    ensures Close(NewListing(seller, starting), seller).listing.winner.None?
  {
  }
}
