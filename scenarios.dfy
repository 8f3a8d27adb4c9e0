/** Client code that uses only the contracts of the model: the bidding
    session on a single auction, a duplicate registration, and an auction
    leaving the open view once it is closed. */
module Scenarios {
  import opened Users
  import opened Auctions
  import opened Catalog

  method VaseSession()
  {
    var u1 := new User("u1");
    var u2 := new User("u2");
    var a := new Auction("Vase", 100.0);
    assert a.currentBid == 100.0 && a.isActive;

    var ok := a.PlaceBid(u1, 100.0);
    assert !ok;  // equal to the current bid: not strictly greater
    ok := a.PlaceBid(u1, 150.0);
    assert ok && a.currentBid == 150.0 && |a.bids| == 1;
    ok := a.PlaceBid(u2, 120.0);
    assert !ok;

    a.EndAuction();
    assert !a.isActive;
    ok := a.PlaceBid(u2, 500.0);
    assert !ok && a.currentBid == 150.0 && a.bids == [Bid(u1, 150.0)];
    a.EndAuction();
    assert !a.isActive && a.currentBid == 150.0;
  }

  method DuplicateRegistration()
  {
    var sys := new AuctionSystem();
    sys.RegisterUser("alice");
    ghost var first := sys.users[0];
    sys.RegisterUser("alice");
    assert |sys.users| == 2 && sys.users[0] == first && sys.users[0] != sys.users[1];
    var found := sys.FindUser("alice");
    assert found == first;
    var missing := sys.FindUser("bob");
    assert missing == null;
  }

  method ClosedAuctionLeavesView()
  {
    var sys := new AuctionSystem();
    var car := sys.auctions[1];
    car.EndAuction();
    var active := sys.GetActiveAuctions();
    ActiveOfMembers(sys.auctions, car);
    ActiveOfMembers(sys.auctions, sys.auctions[0]);
    assert car !in active && sys.auctions[0] in active;
  }
}
