/** The auction system: a registry of users and a catalog of auctions, both
    kept in insertion order, and the view of the auctions still open. */
module Catalog {
  import opened Users
  import opened Auctions

  /** The auctions of `s` that are currently open, in their order in `s`.
      It reads the auctions' current state, so it is a live view. */
  function ActiveOf(s: seq<Auction>): seq<Auction>
    reads s
  {
    if s == [] then []
    else ActiveOf(s[..|s| - 1]) + (if s[|s| - 1].isActive then [s[|s| - 1]] else [])
  }

  /** The positions in `s` of the open auctions, in increasing order: an
      independent description of which auctions the view selects. */
  function ActivePositions(s: seq<Auction>): (idx: seq<nat>)
    reads s
    ensures forall k :: 0 <= k < |idx| ==> idx[k] < |s| && s[idx[k]].isActive
    ensures forall k, l :: 0 <= k < l < |idx| ==> idx[k] < idx[l]
    ensures forall i :: 0 <= i < |s| && s[i].isActive ==> i in idx
  {
    if s == [] then []
    else
      var n := |s| - 1;
      ActivePositions(s[..n]) + (if s[n].isActive then [n] else [])
  }

  /** The view takes exactly the auctions at the open positions, in order. */
  lemma {:induction false} ActiveOfSelects(s: seq<Auction>)
    ensures |ActiveOf(s)| == |ActivePositions(s)|
    ensures forall k :: 0 <= k < |ActiveOf(s)| ==> ActiveOf(s)[k] == s[ActivePositions(s)[k]]
  {
    if s != [] {
      var n := |s| - 1;
      ActiveOfSelects(s[..n]);
      forall k | 0 <= k < |ActivePositions(s[..n])|
        ensures s[..n][ActivePositions(s[..n])[k]] == s[ActivePositions(s[..n])[k]]
      {
      }
    }
  }

  /** An auction appears in the view exactly when it is in the catalog and open. */
  lemma {:induction false} ActiveOfMembers(s: seq<Auction>, a: Auction)
    ensures a in ActiveOf(s) <==> a in s && a.isActive
  {
    if s != [] {
      var n := |s| - 1;
      ActiveOfMembers(s[..n], a);
      assert s == s[..n] + [s[n]];
    }
  }

  /** The view of a concatenation is the concatenation of the views: the
      filter keeps the catalog's order. */
  lemma {:induction false} ActiveOfAppend(s: seq<Auction>, t: seq<Auction>)
    ensures ActiveOf(s + t) == ActiveOf(s) + ActiveOf(t)
  {
    if t != [] {
      var n := |t| - 1;
      ActiveOfAppend(s, t[..n]);
      assert (s + t)[..|s + t| - 1] == s + t[..n];
    } else {
      assert s + t == s;
    }
  }

  /** Starting bids and items of the auctions every new system starts with. */
  const DefaultAuctions: seq<(string, real)> :=
    [("Antique Vase", 100.0), ("Vintage Car", 5000.0), ("Rare Painting", 1500.0)]

  /** An auction as it is right after construction: open, no bids, current
      bid equal to the starting bid. */
  ghost predicate IsNew(a: Auction)
    reads a
  {
    a.Valid() && a.isActive && a.bids == [] && a.currentBid == a.startingBid
  }

  class AuctionSystem {
    var users: seq<User>
    var auctions: seq<Auction>

    /** A new system has no users and the three default auctions, all open. */
    constructor ()
      ensures users == []
      ensures |auctions| == |DefaultAuctions|
      ensures forall i :: 0 <= i < |auctions| ==>
                fresh(auctions[i]) && IsNew(auctions[i]) &&
                auctions[i].item == DefaultAuctions[i].0 &&
                auctions[i].startingBid == DefaultAuctions[i].1
      ensures ActiveOf(auctions) == auctions
    {
      users := [];
      auctions := [];
      new;
      CreateDefaultAuctions();
      assert auctions == auctions[0..];
    }

    /** Registers a new user under `username`. Always appends, even when the
        name is already taken. */
    method RegisterUser(username: string)
      modifies this
      ensures auctions == old(auctions)
      ensures |users| == |old(users)| + 1 && users[..|old(users)|] == old(users)
      ensures fresh(users[|old(users)|]) && users[|old(users)|].username == username
    {
      var u := new User(username);
      users := users + [u];
    }

    /** The first registered user named `name`, or null when there is none. */
    method FindUser(name: string) returns (u: User?)
      ensures u == null <==> forall i :: 0 <= i < |users| ==> users[i].username != name
      ensures var k := FirstMatch(users, name); u == (if k < |users| then users[k] else null)
    {
      var i := 0;
      while i < |users|
        invariant 0 <= i <= |users|
        invariant forall j :: 0 <= j < i ==> users[j].username != name
      {
        if users[i].username == name {
          return users[i];
        }
        i := i + 1;
      }
      return null;
    }

    /** Lists a new, open auction of `item` at `startingBid`; the auctions
        already in the catalog are untouched and the new one joins the end of
        the open view. */
    method CreateAuction(item: string, startingBid: real)
      modifies this
      ensures users == old(users)
      ensures |auctions| == |old(auctions)| + 1 && auctions[..|old(auctions)|] == old(auctions)
      ensures var a := auctions[|old(auctions)|];
                fresh(a) && IsNew(a) && a.item == item && a.startingBid == startingBid
      ensures ActiveOf(auctions) == old(ActiveOf(auctions)) + [auctions[|old(auctions)|]]
    {
      var a := new Auction(item, startingBid);
      ActiveOfAppend(auctions, [a]);
      auctions := auctions + [a];
    }

    /** The open auctions, in catalog order, computed afresh on every call. */
    method GetActiveAuctions() returns (active: seq<Auction>)
      ensures active == ActiveOf(auctions)
    {
      active := [];
      var i := 0;
      while i < |auctions|
        invariant 0 <= i <= |auctions|
        invariant active == ActiveOf(auctions[..i])
      {
        assert auctions[..i + 1][..i] == auctions[..i];
        if auctions[i].isActive {
          active := active + [auctions[i]];
        }
        i := i + 1;
      }
      assert auctions[..i] == auctions;
    }

    /** Appends the default auctions, in order, to the catalog. */
    method CreateDefaultAuctions()
      modifies this
      ensures users == old(users)
      ensures var n := |old(auctions)|;
                |auctions| == n + |DefaultAuctions| && auctions[..n] == old(auctions) &&
                forall i :: n <= i < |auctions| ==>
                  fresh(auctions[i]) && IsNew(auctions[i]) &&
                  auctions[i].item == DefaultAuctions[i - n].0 &&
                  auctions[i].startingBid == DefaultAuctions[i - n].1
      ensures ActiveOf(auctions) == old(ActiveOf(auctions)) + auctions[|old(auctions)|..]
    {
      ghost var n := |auctions|;
      CreateAuction("Antique Vase", 100.0);
      CreateAuction("Vintage Car", 5000.0);
      CreateAuction("Rare Painting", 1500.0);
      assert auctions[n..] == [auctions[n], auctions[n + 1], auctions[n + 2]];
    }
  }
}
