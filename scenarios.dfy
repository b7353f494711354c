/**
 * Client scenarios: short call sequences on a fresh contract, with what a
 * caller can conclude from the entry points' specifications alone.
 */
module Scenarios {
  import opened Types
  import opened Storage
  import opened Contract

  /** A registration is readable back and lists its tokens in registration order. */
  method RegisterThenQuery(issuer: Addr, tokenA: Addr, tokenB: Addr)
    requires tokenA != tokenB
  {
    var c := new RevoraRevenueShare();
    var o := c.RegisterOffering({issuer}, issuer, tokenA, 500);
    assert o == Ok;
    assert c.State().GetOffering(issuer, tokenA) == Some(Offering(issuer, tokenA, 500, Active));
    o := c.RegisterOffering({issuer}, issuer, tokenB, 200);
    assert o == Ok;
    assert c.State().ListOfferings(issuer) == [tokenA, tokenB];
  }

  /** A duplicate, an out-of-range share and a missing authorization are refused, in that order of checks. */
  method RegisterRefusals(issuer: Addr, token: Addr)
  {
    var c := new RevoraRevenueShare();
    var o := c.RegisterOffering({issuer}, issuer, token, 500);
    o := c.RegisterOffering({issuer}, issuer, token, 100);
    assert o == Err(AlreadyExists);
    o := c.RegisterOffering({issuer}, issuer, token, 10_001);
    assert o == Err(InvalidBps);
    o := c.RegisterOffering({}, issuer, token, 10_001);
    assert o == Err(Unauthorized);
    assert c.State().GetOffering(issuer, token).value.revenueShareBps == 500;
    assert c.State().ListOfferings(issuer) == [token];
  }

  /** Adding twice lists the investor once, for that token only. */
  method DoubleAddPerToken(admin: Addr, tokenA: Addr, tokenB: Addr, investor: Addr)
    requires tokenA != tokenB
  {
    var c := new RevoraRevenueShare();
    var o := c.BlacklistAdd({admin}, admin, tokenA, investor);
    assert c.State().GetBlacklist(tokenA) == {investor};
    o := c.BlacklistAdd({admin}, admin, tokenA, investor);
    assert c.State().GetBlacklist(tokenA) == {investor};
    assert !c.State().IsBlacklisted(tokenB, investor);
  }

  /** Removing from one token leaves the investor blacklisted under another. */
  method RemoveIsPerToken(admin: Addr, tokenA: Addr, tokenB: Addr, investor: Addr)
    requires tokenA != tokenB
  {
    var c := new RevoraRevenueShare();
    var o := c.BlacklistAdd({admin}, admin, tokenA, investor);
    o := c.BlacklistRemove({admin}, admin, tokenB, investor);
    assert o == Ok;
    assert c.State().IsBlacklisted(tokenA, investor) && !c.State().IsBlacklisted(tokenB, investor);
  }

  /** A report carries the blacklist as it stands when the report is made. */
  method ReportCarriesBlacklist(admin: Addr, issuer: Addr, token: Addr, investor: Addr)
  {
    var c := new RevoraRevenueShare();
    var o := c.BlacklistAdd({admin}, admin, token, investor);
    o := c.ReportRevenue({issuer}, issuer, token, 1_000_000, 1);
    assert c.events[1] == RevenueReported(issuer, token, 1_000_000, 1, {investor});
  }
}
