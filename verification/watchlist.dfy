/** The watchlist button: flips the requesting user's membership among a listing's watchers. */
module Watchlist {
  import opened Ledger
  import opened Listings

  /**
    Removes `u` from the watchers when present, adds `u` when absent, and
    touches nothing else.
   */
  function ToggleWatch(l: Listing, u: User): (r: Listing)
    ensures u in r.watchers <==> u !in l.watchers
    ensures forall v :: v != u ==> (v in r.watchers <==> v in l.watchers)
    ensures r.(watchers := l.watchers) == l
  {
    if u in l.watchers then l.(watchers := l.watchers - {u})
    else l.(watchers := l.watchers + {u})
  }

  /** Toggling twice restores the original listing. */
  lemma ToggleTwiceRestores(l: Listing, u: User)
    ensures ToggleWatch(ToggleWatch(l, u), u) == l
  {
  }
}
