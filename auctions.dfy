/** A single auction: its bid history, its high-water mark and its
    open/closed state. */
module Auctions {
  import opened Users

  /** An accepted bid. The bidder is a reference to a registered user. */
  datatype Bid = Bid(bidder: User, amount: real)

  /** The current high bid of an auction that started at `start` and has
      accepted `bids`: the last accepted amount, or `start` before any bid. */
  function HighBid(start: real, bids: seq<Bid>): real
  {
    if bids == [] then start else bids[|bids| - 1].amount
  }

  /** Every bid in the history was strictly greater than the high bid at the
      moment it was placed. */
  ghost predicate Ascending(start: real, bids: seq<Bid>)
  {
    forall i :: 0 <= i < |bids| ==> bids[i].amount > HighBid(start, bids[..i])
  }

  /** The history of an auction is a strictly increasing ladder above the
      starting bid, and its high bid is the largest amount in it. */
  lemma {:induction false} AscendingOrdered(start: real, bids: seq<Bid>)
    requires Ascending(start, bids)
    ensures forall i, j :: 0 <= i < j < |bids| ==> bids[i].amount < bids[j].amount
    ensures forall i :: 0 <= i < |bids| ==> start < bids[i].amount <= HighBid(start, bids)
    ensures start <= HighBid(start, bids)
  {
    if bids != [] {
      var n := |bids| - 1;
      var init := bids[..n];
      forall i | 0 <= i < |init|
        ensures init[i].amount > HighBid(start, init[..i])
      {
        assert init[..i] == bids[..i];
      }
      AscendingOrdered(start, init);
      assert bids[..n] == init;
      assert bids == init + [bids[n]];
    }
  }

  /** Accepting a bid above the high bid extends the ladder and makes that bid
      the new high bid. */
  lemma AscendingExtend(start: real, bids: seq<Bid>, b: Bid)
    requires Ascending(start, bids)
    requires b.amount > HighBid(start, bids)
    ensures Ascending(start, bids + [b])
    ensures HighBid(start, bids + [b]) == b.amount
  {
  }

  /** An auction of one item. Open on creation; `EndAuction` closes it for
      good. `item` and `startingBid` never change after construction. */
  class Auction {
    const item: string
    const startingBid: real
    var currentBid: real
    var bids: seq<Bid>
    var isActive: bool

    /** The auction's invariant: the bid history is an ascending ladder above
        the starting bid and `currentBid` is its top. */
    ghost predicate Valid()
      reads this
    {
      Ascending(startingBid, bids) && currentBid == HighBid(startingBid, bids)
    }

    constructor (item: string, startingBid: real)
      ensures Valid()
      ensures this.item == item && this.startingBid == startingBid
      ensures currentBid == startingBid && bids == [] && isActive
    {
      this.item := item;
      this.startingBid := startingBid;
      currentBid := startingBid;
      bids := [];
      isActive := true;
    }

    /** Offers `amount` on behalf of `bidder`. The bid is accepted exactly
        when the auction is open and the amount is strictly above the current
        bid; an accepted bid is appended and becomes the current bid, a
        rejected one changes nothing. The open/closed state never changes here. */
    method PlaceBid(bidder: User, amount: real) returns (accepted: bool)
      requires Valid()
      modifies this
      ensures Valid()
      ensures accepted <==> old(isActive) && amount > old(currentBid)
      ensures accepted ==> bids == old(bids) + [Bid(bidder, amount)] && currentBid == amount
      ensures !accepted ==> bids == old(bids) && currentBid == old(currentBid)
      ensures currentBid >= old(currentBid)
      ensures isActive == old(isActive)
    {
      if isActive && amount > currentBid {
        AscendingExtend(startingBid, bids, Bid(bidder, amount));
        bids := bids + [Bid(bidder, amount)];
        currentBid := amount;
        return true;
      }
      return false;
    }

    /** Closes the auction. Nothing reopens it, so every later `PlaceBid`
        is rejected; closing a closed auction changes nothing. */
    method EndAuction()
      requires Valid()
      modifies this`isActive
      ensures Valid()
      ensures !isActive
      ensures bids == old(bids) && currentBid == old(currentBid)
    {
      isActive := false;
    }
  }
}
