/**
  The bid ledger of one listing: an append-only sequence of bids, in the order
  they were recorded, and the two queries the views run over it (the aggregate
  maximum amount and the highest-amount bid).
 */
module Ledger {
  import opened Wrappers

  /** A registered account. The views compare users by identity, so a user is its primary key. */
  datatype User = User(id: nat)

  /** Money as an exact whole number of cents (the models use two decimal places). */
  type Cents = int

  /** One recorded offer: who bid and how much. */
  datatype Bid = Bid(bidder: User, amount: Cents)

  /** `amount` is the amount of some bid in `bids` and no bid in `bids` is larger. */
  ghost predicate IsMaxAmount(bids: seq<Bid>, amount: Cents) {
    && (exists i :: 0 <= i < |bids| && bids[i].amount == amount)
    && (forall i :: 0 <= i < |bids| ==> bids[i].amount <= amount)
  }

  /**
    The aggregate maximum of the bid amounts; `None` when the ledger is empty,
    as an SQL MAX over no rows.
   */
  function HighestBid(bids: seq<Bid>): (r: Option<Cents>)
    ensures r.None? <==> |bids| == 0
    ensures r.Some? ==> IsMaxAmount(bids, r.value)
  {
    if |bids| == 0 then None
    else
      match HighestBid(bids[1..])
      case None => Some(bids[0].amount)
      case Some(m) =>
        assert forall i :: 1 <= i < |bids| ==> bids[i] == bids[1..][i - 1];
        Some(if bids[0].amount > m then bids[0].amount else m)
  }

  /**
    The first bid of a listing's bids when ordered by decreasing amount. The
    database leaves the order among equal amounts open; this model picks the
    earliest recorded one, and its contract promises only "some bid of maximal
    amount".
   */
  function TopBid(bids: seq<Bid>): (r: Option<Bid>)
    ensures r.None? <==> |bids| == 0
    ensures r.Some? ==> r.value in bids
    ensures r.Some? ==> forall i :: 0 <= i < |bids| ==> bids[i].amount <= r.value.amount
  {
    if |bids| == 0 then None
    else
      match TopBid(bids[1..])
      case None => Some(bids[0])
      case Some(t) =>
        assert forall i :: 1 <= i < |bids| ==> bids[i] == bids[1..][i - 1];
        if bids[0].amount >= t.amount then Some(bids[0]) else Some(t)
  }

  /** The two queries agree: the highest-amount bid carries the aggregate maximum. */
  lemma TopBidCarriesHighest(bids: seq<Bid>)
    ensures TopBid(bids).None? <==> HighestBid(bids).None?
    ensures TopBid(bids).Some? ==> HighestBid(bids) == Some(TopBid(bids).value.amount)
  {
  }

  /**
    Recording one more bid moves the aggregate maximum to the larger of the old
    maximum and the new amount; into an empty ledger, to the new amount.
   */
  lemma HighestBidAppend(bids: seq<Bid>, b: Bid)
    ensures HighestBid(bids + [b]) ==
      Some(match HighestBid(bids)
           case None => b.amount
           case Some(m) => if b.amount > m then b.amount else m)
  {
    var s := bids + [b];
    var m' := HighestBid(s).value;
    assert s[|bids|] == b;
    assert forall i :: 0 <= i < |bids| ==> s[i] == bids[i];
    var k :| 0 <= k < |s| && s[k].amount == m';
    match HighestBid(bids)
    case None =>
      assert |bids| == 0;
    case Some(m) =>
      var j :| 0 <= j < |bids| && bids[j].amount == m;
      assert s[j].amount <= m';
      if k < |bids| {
        assert s[k] == bids[k];
      }
  }
}
