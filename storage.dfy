/**
 * The contract's persistent storage and its read-only entry points.
 *
 * The contract keeps one key-value store addressed by `DataKey`; each of the
 * three key variants holds one kind of value, so the store is modelled as
 * three maps:
 *   DataKey::Offering(issuer, token)  -> `offerings[(issuer, token)]`
 *   DataKey::IssuerOfferings(issuer)  -> `issuerOfferings[issuer]`
 *   DataKey::Blacklist(token)         -> `blacklists[token]`
 * A key that has never been written is absent from its map.
 */
module Storage {
  import opened Types

  datatype Ledger = Ledger(
    offerings: map<(Addr, Addr), Offering>,
    issuerOfferings: map<Addr, seq<Addr>>,
    blacklists: map<Addr, map<Addr, bool>>)
  {
    /**
     * The storage invariant every entry point keeps: each offering sits under
     * its own (issuer, token) key, in range and Active; an issuer's token list
     * holds exactly the tokens it has an offering for, each once; and a
     * blacklist only ever stores the marker `true`.
     */
    ghost predicate Valid() {
      && (forall k | k in offerings ::
            && offerings[k].issuer == k.0
            && offerings[k].token == k.1
            && offerings[k].revenueShareBps <= MaxBps
            && offerings[k].status == Active)
      && (forall k | k in offerings :: k.0 in issuerOfferings && k.1 in issuerOfferings[k.0])
      && (forall i, n | i in issuerOfferings && 0 <= n < |issuerOfferings[i]| ::
            (i, issuerOfferings[i][n]) in offerings)
      && (forall i | i in issuerOfferings :: NoDuplicates(issuerOfferings[i]))
      && (forall t, x | t in blacklists && x in blacklists[t] :: blacklists[t][x])
    }

    /** `get_offering`: the stored record, or None when there is none. */
    function GetOffering(issuer: Addr, token: Addr): (r: Option<Offering>)
      ensures (issuer, token) !in offerings ==> r == None
      ensures Valid() && r.Some? ==>
        r.value == Offering(issuer, token, r.value.revenueShareBps, Active) && r.value.revenueShareBps <= MaxBps
      ensures Valid() ==> (r.Some? <==> token in ListOfferings(issuer))
    {
      if (issuer, token) in offerings then Some(offerings[(issuer, token)]) else None
    }

    /** `list_offerings`: the issuer's tokens in registration order; empty for an unknown issuer. */
    function ListOfferings(issuer: Addr): (r: seq<Addr>)
      ensures issuer !in issuerOfferings ==> r == []
      ensures Valid() ==> NoDuplicates(r)
    {
      if issuer in issuerOfferings then issuerOfferings[issuer] else []
    }

    /** The stored blacklist map of `token`; a token never written has the empty map. */
    function Blacklist(token: Addr): map<Addr, bool> {
      if token in blacklists then blacklists[token] else map[]
    }

    /** `is_blacklisted`: the stored marker, false when the token or the investor is unknown. */
    function IsBlacklisted(token: Addr, investor: Addr): (r: bool)
      ensures r ==> investor in GetBlacklist(token)
      ensures Valid() ==> (r <==> investor in GetBlacklist(token))
    {
      var m := Blacklist(token);
      if investor in m then m[investor] else false
    }

    /** `get_blacklist`: the keys of the token's map, in no meaningful order; empty for an unknown token. */
    function GetBlacklist(token: Addr): (r: set<Addr>)
      ensures token !in blacklists ==> r == {}
      ensures |r| == |Blacklist(token)|
    {
      Blacklist(token).Keys
    }
  }

  /** The storage of a freshly deployed contract: every key absent. */
  function Empty(): (l: Ledger)
    ensures l.Valid()
    ensures forall i, t :: l.GetOffering(i, t) == None
    ensures forall i :: l.ListOfferings(i) == []
    ensures forall t :: l.GetBlacklist(t) == {}
  {
    Ledger(map[], map[], map[])
  }

  /**
   * What one entry point does: how it ended, the storage afterwards and the
   * events it published, in publication order.
   */
  datatype Response = Response(outcome: Outcome, ledger: Ledger, emitted: seq<Event>)

  /** The response of an entry point that aborts: nothing written, nothing published. */
  function Abort(l: Ledger, e: Error): Response {
    Response(Err(e), l, [])
  }
}
