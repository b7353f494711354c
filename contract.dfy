/**
 * The deployed contract: its persistent storage and published event log as
 * the fields of one object, and its mutating entry points as methods that
 * read, modify and write those fields back. Each method is proved to do what
 * the function of the same name in Registry, BlacklistManager or Reporting
 * says, and to keep the storage invariant.
 */
module Contract {
  import opened Types
  import opened Storage
  import Registry
  import BlacklistManager
  import Reporting

  class RevoraRevenueShare {
    var offerings: map<(Addr, Addr), Offering>
    var issuerOfferings: map<Addr, seq<Addr>>
    var blacklists: map<Addr, map<Addr, bool>>
    /** Every event published so far, oldest first; entry points only append to it. */
    var events: seq<Event>

    /** The persistent storage as a value, for the queries and the specifications. */
    function State(): Ledger
      reads this
    {
      Ledger(offerings, issuerOfferings, blacklists)
    }

    ghost predicate Valid()
      reads this
    {
      State().Valid()
    }

    constructor ()
      ensures Valid() && State() == Empty() && events == []
    {
      offerings, issuerOfferings, blacklists := map[], map[], map[];
      events := [];
    }

    method RegisterOffering(signers: set<Addr>, issuer: Addr, token: Addr, bps: u32) returns (outcome: Outcome)
      requires Valid()
      modifies this
      ensures Valid()
      ensures var r := Registry.RegisterOffering(old(State()), signers, issuer, token, bps);
              outcome == r.outcome && State() == r.ledger && events == old(events) + r.emitted
    {
      if issuer !in signers {
        return Err(Unauthorized);
      }
      if bps > MaxBps {
        return Err(InvalidBps);
      }
      var key := (issuer, token);
      if key in offerings {
        return Err(AlreadyExists);
      }
      ghost var before := State();
      offerings := offerings[key := Offering(issuer, token, bps, Active)];
      var tokens := if issuer in issuerOfferings then issuerOfferings[issuer] else [];
      tokens := tokens + [token];
      issuerOfferings := issuerOfferings[issuer := tokens];
      events := events + [OfferRegistered(issuer, token, bps)];
      outcome := Ok;
      assert State() == Registry.RegisterOffering(before, signers, issuer, token, bps).ledger;
    }

    method ReportRevenue(signers: set<Addr>, issuer: Addr, token: Addr, amount: i128, periodId: u64) returns (outcome: Outcome)
      requires Valid()
      modifies this`events
      ensures Valid()
      ensures var r := Reporting.ReportRevenue(old(State()), signers, issuer, token, amount, periodId);
              outcome == r.outcome && State() == r.ledger && events == old(events) + r.emitted
    {
      if issuer !in signers {
        return Err(Unauthorized);
      }
      var blacklist := State().GetBlacklist(token);
      events := events + [RevenueReported(issuer, token, amount, periodId, blacklist)];
      outcome := Ok;
    }

    method BlacklistAdd(signers: set<Addr>, caller: Addr, token: Addr, investor: Addr) returns (outcome: Outcome)
      requires Valid()
      modifies this
      ensures Valid()
      ensures var r := BlacklistManager.BlacklistAdd(old(State()), signers, caller, token, investor);
              outcome == r.outcome && State() == r.ledger && events == old(events) + r.emitted
    {
      if caller !in signers {
        return Err(Unauthorized);
      }
      ghost var before := State();
      var m := if token in blacklists then blacklists[token] else map[];
      m := m[investor := true];
      blacklists := blacklists[token := m];
      events := events + [BlacklistAdded(token, caller, investor)];
      outcome := Ok;
      assert State() == BlacklistManager.BlacklistAdd(before, signers, caller, token, investor).ledger;
    }

    method BlacklistRemove(signers: set<Addr>, caller: Addr, token: Addr, investor: Addr) returns (outcome: Outcome)
      requires Valid()
      modifies this
      ensures Valid()
      ensures var r := BlacklistManager.BlacklistRemove(old(State()), signers, caller, token, investor);
              outcome == r.outcome && State() == r.ledger && events == old(events) + r.emitted
    {
      if caller !in signers {
        return Err(Unauthorized);
      }
      ghost var before := State();
      var m := if token in blacklists then blacklists[token] else map[];
      m := m - {investor};
      blacklists := blacklists[token := m];
      events := events + [BlacklistRemoved(token, caller, investor)];
      outcome := Ok;
      assert State() == BlacklistManager.BlacklistRemove(before, signers, caller, token, investor).ledger;
    }
  }
}
