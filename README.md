# Online auction: a verified model of the auction core

This project models the in-memory core of a small console auction system
(`auction.java`): users who register by name, auctions of single items that
accept strictly increasing bids until they are closed, and the auction system
that keeps the user registry and the auction catalog in insertion order.

- `users.dfy` (module `Users`): `User`, a class so that users keep their
  reference identity (registering a name twice gives two distinct users), and
  `FirstMatch`, the position of the first user with a given name.
- `auctions.dfy` (module `Auctions`): `Bid`, an immutable record holding a
  reference to its bidder; `Auction`, a class with the fields the source
  updates in place (`currentBid`, `bids`, `isActive`) and the two it never
  reassigns (`item`, `startingBid`, as `const`). Its invariant `Valid()` says
  that every bid in the history was strictly greater than the high bid at the
  moment it was placed, and that `currentBid` is the last bid's amount, or the
  starting bid before any bid. `AscendingOrdered` derives from this that the
  amounts strictly increase, all lie above the starting bid and that
  `currentBid` is the largest of them.
- `catalog.dfy` (module `Catalog`): `ActiveOf`, the open view of a catalog (it
  reads the auctions' current state, so it is recomputed and never a snapshot);
  `ActivePositions`, an independent description of the positions it selects;
  and `AuctionSystem`, a class holding `users: seq<User>` and
  `auctions: seq<Auction>`.
- `scenarios.dfy` (module `Scenarios`): client methods that use only the
  contracts above: a bidding session on one auction (a bid equal to the current
  bid is rejected, a closed auction rejects every bid), a duplicate
  registration where the lookup returns the first user, and a closed auction
  leaving the open view.

Bid amounts are `real`: the source stores them as `double` and only ever
compares them with `>`. Java's `null` result of `findUser` is `User?`.

## Model

| member | source | states |
|---|---|---|
| `Users.User.constructor` | auction.java:8-10 | a new user carries exactly the given username |
| `Users.FirstMatch` | auction.java:94-101 | the result is the index of the first user whose username equals the name (no earlier user has it), or the length of the list when none has it |
| `Users.FirstMatchAfterAppend` | auction.java:90-101 | appending a user keeps an existing first match unchanged (the first registration of a duplicate name keeps winning); a name with no match before is found at the new user exactly when that user carries it |
| `Auctions.AscendingOrdered` | auction.java:40-47 | in a valid history the bid amounts strictly increase, every amount is above the starting bid and at most the current bid, and the current bid is at least the starting bid |
| `Auctions.AscendingExtend` | auction.java:41-43 | appending a bid strictly above the current high bid keeps the history valid and makes that bid's amount the new high bid |
| `Auctions.Auction.constructor` | auction.java:24-30 | a new auction is open, has no bids, its current bid equals its starting bid, and it satisfies the invariant |
| `Auctions.Auction.PlaceBid` | auction.java:40-47 | returns true exactly when the auction was open and the amount strictly exceeds the current bid; on acceptance exactly `Bid(bidder, amount)` is appended after the unchanged earlier bids and becomes the current bid; on rejection bids and current bid are unchanged; the open state never changes; the current bid never decreases; the invariant is kept |
| `Auctions.Auction.EndAuction` | auction.java:49-51 | the auction is closed afterwards (also when it was already closed), bids and current bid are unchanged, and only `isActive` is written; with `PlaceBid` never changing `isActive`, a closed auction stays closed and rejects every later bid |
| `Catalog.ActivePositions` | auction.java:107-115 | the selected positions are strictly increasing, each one holds an open auction, and every open auction's position is among them |
| `Catalog.ActiveOfSelects` | auction.java:107-115 | the open view holds exactly the auctions at the selected positions, in that order |
| `Catalog.ActiveOfMembers` | auction.java:107-115 | an auction is in the open view exactly when it is in the catalog and open |
| `Catalog.ActiveOfAppend` | auction.java:107-115 | the open view of a concatenation is the concatenation of the open views, so the filter keeps the catalog order |
| `Catalog.AuctionSystem.constructor` | auction.java:84-88 | a new system has no users and exactly the three default auctions, each fresh, open, without bids, at its default item and starting bid; all of them are in the open view |
| `Catalog.AuctionSystem.RegisterUser` | auction.java:90-92 | one fresh user with the given name is appended, the earlier users and the catalog are unchanged, and no check for a duplicate name is made |
| `Catalog.AuctionSystem.FindUser` | auction.java:94-101 | returns null exactly when no registered user has the name, and otherwise the first registered user that has it |
| `Catalog.AuctionSystem.CreateAuction` | auction.java:103-105 | one fresh open auction without bids for the given item and starting bid is appended, the earlier auctions and the users are unchanged, and the open view grows by exactly that auction at its end |
| `Catalog.AuctionSystem.GetActiveAuctions` | auction.java:107-115 | returns the open view of the catalog as it is at the time of the call |
| `Catalog.AuctionSystem.CreateDefaultAuctions` | auction.java:117-121 | appends the three default auctions in order, each fresh, open and without bids, leaves the earlier auctions and the users unchanged, and the open view grows by exactly these three |

## Left out

- `OnlineAuction.main` (auction.java:124-199): console prompts, `Scanner` parsing, the session and bidding-round loops and the `-1` sentinel that ends an auction are input/output orchestration and are not modelled; the scenario methods play the part of a caller.
- IEEE-754 `double` semantics (rounding, NaN, infinities): amounts are exact `real` numbers.
- The getters `getItem`, `getCurrentBid`, `isActive`, `getUsername`, `getBidder`, `getAmount` and `getBids` are plain reads of the fields and have no members of their own.
- `getBids` returns the internal mutable list, so a Java caller could change an auction's history through that alias; here `bids` is a sequence value and changes only through `PlaceBid`.
- Java's `null` as a username argument (which would make `equals` return false or throw) is not modelled: strings are values.
