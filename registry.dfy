/**
 * The offering registry: `register_offering` as a function from the storage
 * before the call to its response, and what the registry promises about it.
 */
module Registry {
  import opened Types
  import opened Storage

  /**
   * `register_offering(issuer, token, bps)`. The checks run in a fixed order
   * (the issuer's authorization, then the bps range, then the duplicate key)
   * and any failure aborts with storage and event log untouched. On success
   * the record is stored Active, the token is appended to the issuer's list
   * and one registration event is published.
   */
  function RegisterOffering(l: Ledger, signers: set<Addr>, issuer: Addr, token: Addr, bps: u32): (r: Response)
    ensures r.outcome == Err(Unauthorized) <==> issuer !in signers
    ensures r.outcome == Err(InvalidBps) <==> issuer in signers && bps > MaxBps
    ensures r.outcome == Err(AlreadyExists) <==>
      issuer in signers && bps <= MaxBps && l.GetOffering(issuer, token).Some?
    ensures r.outcome.Err? ==> r.ledger == l && r.emitted == []
    ensures r.outcome.Ok? ==>
      && r.ledger.GetOffering(issuer, token) == Some(Offering(issuer, token, bps, Active))
      && r.ledger.ListOfferings(issuer) == l.ListOfferings(issuer) + [token]
      && r.emitted == [OfferRegistered(issuer, token, bps)]
    ensures forall i, t | (i, t) != (issuer, token) :: r.ledger.GetOffering(i, t) == l.GetOffering(i, t)
    ensures forall i | i != issuer :: r.ledger.ListOfferings(i) == l.ListOfferings(i)
    ensures r.ledger.blacklists == l.blacklists
    ensures l.Valid() ==> r.ledger.Valid()
  {
    if issuer !in signers then Abort(l, Unauthorized)
    else if bps > MaxBps then Abort(l, InvalidBps)
    else if (issuer, token) in l.offerings then Abort(l, AlreadyExists)
    else
      var offering := Offering(issuer, token, bps, Active);
      var tokens := l.ListOfferings(issuer) + [token];
      var l' := Ledger(l.offerings[(issuer, token) := offering],
                       l.issuerOfferings[issuer := tokens],
                       l.blacklists);
      AppendKeepsValid(l, issuer, token, bps);
      Response(Ok, l', [OfferRegistered(issuer, token, bps)])
  }

  /** Storing a fresh, in-range offering and appending its token keeps the storage invariant. */
  lemma AppendKeepsValid(l: Ledger, issuer: Addr, token: Addr, bps: u32)
    requires bps <= MaxBps && (issuer, token) !in l.offerings
    ensures l.Valid() ==>
      Ledger(l.offerings[(issuer, token) := Offering(issuer, token, bps, Active)],
             l.issuerOfferings[issuer := l.ListOfferings(issuer) + [token]],
             l.blacklists).Valid()
  {
  }
}
