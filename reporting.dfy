/**
 * Revenue reporting: `report_revenue` writes nothing and publishes one event
 * carrying the token's blacklist as it stands at the moment of the call.
 */
module Reporting {
  import opened Types
  import opened Storage

  /**
   * `report_revenue(issuer, token, amount, period_id)`. Only the issuer's
   * authorization is checked: the call does not look for an offering of
   * `token`, and `amount` and `period_id` are passed through untouched.
   */
  function ReportRevenue(l: Ledger, signers: set<Addr>, issuer: Addr, token: Addr, amount: i128, periodId: u64): (r: Response)
    ensures r.ledger == l
    ensures r.outcome.Err? <==> issuer !in signers
    ensures r.outcome.Err? ==> r.outcome.error == Unauthorized && r.emitted == []
    ensures r.outcome.Ok? ==> |r.emitted| == 1 && r.emitted[0].RevenueReported?
    ensures forall e | e in r.emitted ::
      e == RevenueReported(issuer, token, amount, periodId, l.GetBlacklist(token))
  {
    if issuer !in signers then Abort(l, Unauthorized)
    else
      var blacklist := l.GetBlacklist(token);
      Response(Ok, l, [RevenueReported(issuer, token, amount, periodId, blacklist)])
  }

  /**
   * The snapshot in a report is exactly the set of investors `is_blacklisted`
   * answers true for, when the storage invariant holds.
   */
  lemma SnapshotIsBlacklist(l: Ledger, signers: set<Addr>, issuer: Addr, token: Addr, amount: i128, periodId: u64, x: Addr)
    requires l.Valid() && issuer in signers
    ensures var r := ReportRevenue(l, signers, issuer, token, amount, periodId);
            x in r.emitted[0].blacklist <==> l.IsBlacklisted(token, x)
  {
  }
}
