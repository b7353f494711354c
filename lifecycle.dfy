/**
 * Sequences of entry-point calls. The host runs each call as one atomic
 * transaction, one after another; `Run` replays a sequence of calls from a
 * given storage. The lemmas state what holds over any such history: the
 * storage invariant, append-only issuer lists, offerings that never change
 * once created, and blacklists that only calls naming their token touch.
 */
module Lifecycle {
  import opened Types
  import opened Storage
  import Registry
  import BlacklistManager
  import Reporting

  /** One invocation of a mutating entry point, with the addresses that authorized it. */
  datatype Call =
    | RegisterOfferingCall(signers: set<Addr>, issuer: Addr, token: Addr, bps: u32)
    | ReportRevenueCall(signers: set<Addr>, issuer: Addr, token: Addr, amount: i128, periodId: u64)
    | BlacklistAddCall(signers: set<Addr>, caller: Addr, token: Addr, investor: Addr)
    | BlacklistRemoveCall(signers: set<Addr>, caller: Addr, token: Addr, investor: Addr)

  function Step(l: Ledger, c: Call): Response {
    match c
    case RegisterOfferingCall(s, i, t, b) => Registry.RegisterOffering(l, s, i, t, b)
    case ReportRevenueCall(s, i, t, a, p) => Reporting.ReportRevenue(l, s, i, t, a, p)
    case BlacklistAddCall(s, c, t, x) => BlacklistManager.BlacklistAdd(l, s, c, t, x)
    case BlacklistRemoveCall(s, c, t, x) => BlacklistManager.BlacklistRemove(l, s, c, t, x)
  }

  /** The storage after a history and the events it published, oldest first. */
  datatype Trace = Trace(ledger: Ledger, events: seq<Event>)

  function Run(l: Ledger, calls: seq<Call>): Trace
    decreases |calls|
  {
    if calls == [] then Trace(l, [])
    else
      var first := Step(l, calls[0]);
      var rest := Run(first.ledger, calls[1..]);
      Trace(rest.ledger, first.emitted + rest.events)
  }

  /** Does `c` write the blacklist of `token` when it succeeds? */
  predicate WritesBlacklist(c: Call, token: Addr) {
    (c.BlacklistAddCall? || c.BlacklistRemoveCall?) && c.token == token
  }

  /** Every history keeps the storage invariant. */
  lemma {:induction false} RunKeepsValid(l: Ledger, calls: seq<Call>)
    requires l.Valid()
    ensures Run(l, calls).ledger.Valid()
    decreases |calls|
  {
    if calls != [] {
      RunKeepsValid(Step(l, calls[0]).ledger, calls[1..]);
    }
  }

  /** An issuer's token list only ever grows at its end: what was listed before stays listed, in place. */
  lemma {:induction false} RunListsAppendOnly(l: Ledger, calls: seq<Call>, issuer: Addr)
    ensures l.ListOfferings(issuer) <= Run(l, calls).ledger.ListOfferings(issuer)
    decreases |calls|
  {
    if calls != [] {
      var next := Step(l, calls[0]).ledger;
      RunListsAppendOnly(next, calls[1..], issuer);
      assert l.ListOfferings(issuer) <= next.ListOfferings(issuer);
    }
  }

  /** An offering, once stored, is never changed or deleted by any later call. */
  lemma {:induction false} RunOfferingsPermanent(l: Ledger, calls: seq<Call>, issuer: Addr, token: Addr)
    requires l.GetOffering(issuer, token).Some?
    ensures Run(l, calls).ledger.GetOffering(issuer, token) == l.GetOffering(issuer, token)
    decreases |calls|
  {
    if calls != [] {
      var next := Step(l, calls[0]).ledger;
      assert next.GetOffering(issuer, token) == l.GetOffering(issuer, token);
      RunOfferingsPermanent(next, calls[1..], issuer, token);
    }
  }

  /** A token's blacklist changes only through add and remove calls that name that token. */
  lemma {:induction false} RunIsolatesBlacklist(l: Ledger, calls: seq<Call>, token: Addr)
    requires forall n | 0 <= n < |calls| :: !WritesBlacklist(calls[n], token)
    ensures Run(l, calls).ledger.Blacklist(token) == l.Blacklist(token)
    decreases |calls|
  {
    if calls != [] {
      assert !WritesBlacklist(calls[0], token);
      RunIsolatesBlacklist(Step(l, calls[0]).ledger, calls[1..], token);
    }
  }

  /** Each call publishes at most one event, and only when it succeeds. */
  lemma {:induction false} RunEventsPerCall(l: Ledger, calls: seq<Call>)
    ensures |Run(l, calls).events| <= |calls|
    decreases |calls|
  {
    if calls != [] {
      RunEventsPerCall(Step(l, calls[0]).ledger, calls[1..]);
    }
  }
}
