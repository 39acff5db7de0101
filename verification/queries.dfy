/**
  The two listing queries of the site: the index page shows the open
  listings, and a user's "won auctions" page shows the listings that user won.
  A table is a sequence of listing rows in table order; a query keeps the
  rows it selects, in that order.
 */
module Queries {
  import opened Wrappers
  import opened Ledger
  import opened Listings

  /** The open listings, each row kept as often as it occurs. */
  function ActiveListings(rows: seq<Listing>): (r: seq<Listing>)
    ensures forall l :: multiset(r)[l] == if l.isActive then multiset(rows)[l] else 0
    ensures forall l :: l in r <==> l in rows && l.isActive
  {
    if |rows| == 0 then []
    else
      assert rows == [rows[0]] + rows[1..];
      if rows[0].isActive then [rows[0]] + ActiveListings(rows[1..])
      else ActiveListings(rows[1..])
  }

  /** The listings whose winner is `u`, each row kept as often as it occurs. */
  function WonBy(rows: seq<Listing>, u: User): (r: seq<Listing>)
    ensures forall l :: multiset(r)[l] == if l.winner == Some(u) then multiset(rows)[l] else 0
    ensures forall l :: l in r <==> l in rows && l.winner == Some(u)
  {
    if |rows| == 0 then []
    else
      assert rows == [rows[0]] + rows[1..];
      if rows[0].winner == Some(u) then [rows[0]] + WonBy(rows[1..], u)
      else WonBy(rows[1..], u)
  }

  /**
    Over reachable listings the two pages never share a row: a listing gets a
    winner only when it is closed, so nothing a user has won is on the index.
   */
  lemma IndexAndWonDisjoint(rows: seq<Listing>, u: User, l: Listing)
    requires forall m :: m in rows ==> WellFormed(m)
    ensures l in ActiveListings(rows) ==> l !in WonBy(rows, u)
  {
  }
}
