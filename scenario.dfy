/**
 * A client of the canister: a user earns points from a token and spends
 * them on a prize until the stock runs out, using only the contracts of
 * the Ledger class.
 */
module Scenario {
  import opened Records
  import opened Canister

  /**
   * alice redeems a 100-point token, then exchanges a 50-point mug (two in
   * stock) twice; the third exchange is refused and changes nothing.
   */
  method AliceBuysMugs() returns (points: nat, stock: nat, third: Result<Prize>)
    ensures points == 0 && stock == 0
    ensures third == Err(NotEnoughPointsOrStock)
  {
    var ledger := new Ledger();
    var alice := ledger.CreateUser("u-alice", "alice", "pw", 1);
    assert alice.Ok? && alice.value.points == 0;
    var welcome := ledger.CreateToken("t-welcome", "welcome", 100, 2);
    var redeemed := ledger.RedeemToken("u-alice", "t-welcome");
    assert redeemed.Ok? && ledger.users["u-alice"].points == 100;
    var mug := ledger.CreatePrize("p-mug", PrizePayload("mug", 50, 2), 3);
    var first := ledger.ExchangePrize("u-alice", "p-mug");
    assert ledger.users["u-alice"].points == 50 && ledger.prizes["p-mug"].amount == 1;
    var second := ledger.ExchangePrize("u-alice", "p-mug");
    assert ledger.users["u-alice"].points == 0 && ledger.prizes["p-mug"].amount == 0;
    third := ledger.ExchangePrize("u-alice", "p-mug");
    points, stock := ledger.users["u-alice"].points, ledger.prizes["p-mug"].amount;
  }
}
