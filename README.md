# RevoraRevenueShare in Dafny

A model of the `RevoraRevenueShare` Soroban contract (`src/lib.rs`): a
registry of revenue-share offerings keyed by (issuer, token), a per-token
investor blacklist, and a revenue-report entry point that publishes the
token's current blacklist alongside the reported amount.

Layout:

- `types.dfy` (module `Types`): addresses, the `u32`/`u64`/`i128` widths of
  the entry points' arguments, `Offering`, `OfferingStatus`, the three abort
  reasons and the four published event payloads.
- `storage.dfy` (module `Storage`): the persistent store as a `Ledger` value
  (one map per `DataKey` variant), its invariant `Valid()`, and the four
  read-only entry points `get_offering`, `list_offerings`, `is_blacklisted`,
  `get_blacklist` as functions on it.
- `registry.dfy`, `blacklist.dfy`, `reporting.dfy`: each mutating entry point
  as a function from the storage before the call to a `Response` (how the
  call ended, the storage after it, the events it published), with the
  promises of the contract stated on it and in lemmas beside it.
- `contract.dfy` (module `Contract`): the contract as a class whose fields are
  the storage maps and the event log; its methods read, modify and write back
  those fields as the Rust code does, and each is proved to match its
  `Response` function and to keep `Valid()`.
- `lifecycle.dfy` (module `Lifecycle`): any sequence of calls, run one after
  another as the host's transactions are, and what holds over every such
  history.
- `scenarios.dfy` (module `Scenarios`): client call sequences on a fresh
  contract, checked against the methods' specifications only.

Authorization (`require_auth`) is a parameter: the set of addresses that
authorized the invocation. A check of an address outside that set aborts the
call with `Unauthorized`; like every other abort (a Rust `panic!`), it leaves
storage and the event log exactly as they were.

## Model

| member | source | states |
|---|---|---|
| `Storage.Ledger.GetOffering` | src/lib.rs:84-87 | None for a pair never registered; on valid storage a stored record carries the queried issuer and token, an in-range share and status Active, and exists exactly when the token is in the issuer's list |
| `Storage.Ledger.ListOfferings` | src/lib.rs:90-96 | empty for an unknown issuer; on valid storage no token appears twice |
| `Storage.Ledger.IsBlacklisted` | src/lib.rs:160-167 | true only for an address listed by `get_blacklist`; on valid storage true exactly for those addresses |
| `Storage.Ledger.GetBlacklist` | src/lib.rs:170-177 | empty for an unknown token; as many addresses as the token's stored map has entries |
| `Storage.Empty` | src/lib.rs:84-96 | storage with no key written satisfies the invariant, and every query on it returns None, an empty list or an empty blacklist |
| `Registry.RegisterOffering` | src/lib.rs:46-81 | fails with Unauthorized iff the issuer did not authorize; with InvalidBps iff authorized and bps > 10000 (even for a duplicate); with AlreadyExists iff authorized, in range and the pair exists; a failure writes and publishes nothing; success stores (issuer, token, bps, Active), appends the token to the issuer's list and publishes one registration event; every other offering, every other issuer's list and all blacklists are untouched; the storage invariant is kept |
| `Registry.AppendKeepsValid` | src/lib.rs:53-75 | storing a fresh in-range offering and appending its token keeps every list duplicate-free and in agreement with the stored offerings |
| `BlacklistManager.WithBlacklist` | src/lib.rs:127-135 | writing a map back under a token's `Blacklist` key sets that token's blacklist only: every other token's blacklist and the whole registry stay as they were, and the invariant survives when the map stores only `true` |
| `BlacklistManager.BlacklistAdd` | src/lib.rs:124-138 | fails (Unauthorized, nothing changed) iff the caller did not authorize; otherwise the investor is blacklisted, the token's blacklist is the old one plus the investor, one add event is published, other tokens' blacklists and the registry are untouched, and the invariant is kept |
| `BlacklistManager.BlacklistRemove` | src/lib.rs:143-157 | fails (Unauthorized, nothing changed) iff the caller did not authorize, so never for an absent investor; otherwise the investor is not blacklisted, the token's blacklist is the old one minus the investor, one remove event is published, other tokens' blacklists and the registry are untouched, and the invariant is kept |
| `BlacklistManager.AddIdempotent` | src/lib.rs:121-135 | adding the same investor a second time leaves the storage, hence the blacklist size, as after the first add |
| `BlacklistManager.RemoveIdempotent` | src/lib.rs:140-154 | removing the same investor a second time leaves the storage as after the first remove |
| `BlacklistManager.RemoveUndoesAdd` | src/lib.rs:124-157 | on a token with a stored blacklist, adding an unlisted investor and removing it restores the storage exactly |
| `Reporting.ReportRevenue` | src/lib.rs:102-117 | never changes storage; fails with Unauthorized (publishing nothing) iff the issuer did not authorize; otherwise publishes exactly one event carrying issuer, token, amount, period and the token's blacklist at call time, including an empty one |
| `Reporting.SnapshotIsBlacklist` | src/lib.rs:111-116 | on valid storage an address is in a report's blacklist payload iff `is_blacklisted` holds for it at call time |
| `Contract.RevoraRevenueShare.constructor` | src/lib.rs:38-39 | a fresh contract has empty storage, satisfies the invariant and has published nothing |
| `Contract.RevoraRevenueShare.RegisterOffering` | src/lib.rs:46-81 | the read-modify-write of the offering record and the issuer's token list yields exactly the outcome, storage and appended events of `Registry.RegisterOffering`, and keeps the invariant |
| `Contract.RevoraRevenueShare.ReportRevenue` | src/lib.rs:102-117 | modifies only the event log, and yields exactly the outcome and appended event of `Reporting.ReportRevenue` |
| `Contract.RevoraRevenueShare.BlacklistAdd` | src/lib.rs:124-138 | fetch-or-create, set and write back of the token's map yields exactly the outcome, storage and appended event of `BlacklistManager.BlacklistAdd`, and keeps the invariant |
| `Contract.RevoraRevenueShare.BlacklistRemove` | src/lib.rs:143-157 | fetch-or-create, remove and write back of the token's map yields exactly the outcome, storage and appended event of `BlacklistManager.BlacklistRemove`, and keeps the invariant |
| `Lifecycle.RunKeepsValid` | src/lib.rs:46-157 | every sequence of entry-point calls from valid storage ends in valid storage |
| `Lifecycle.RunListsAppendOnly` | src/lib.rs:67-75 | over any sequence of calls an issuer's token list is only extended at its end: the earlier list is a prefix of the later one |
| `Lifecycle.RunOfferingsPermanent` | src/lib.rs:53-65 | once stored, an offering record is never changed or removed by any later sequence of calls |
| `Lifecycle.RunIsolatesBlacklist` | src/lib.rs:124-157 | a token's stored blacklist is unchanged by any sequence of calls none of which is an add or remove naming that token |
| `Lifecycle.RunEventsPerCall` | src/lib.rs:77-80 | a sequence of calls publishes at most one event per call |

## Left out

- Soroban host machinery: `require_auth` becomes the set of authorizing addresses, persistent storage becomes the three maps of `Storage.Ledger`, `env.events().publish` becomes an append to the `events` field, and topic symbols become `Event` constructors. XDR encoding of keys and values is not modelled.
- `Storage.Ledger.GetBlacklist`: returns a `set` rather than the ordered `Vec` of `Map::keys()`, because the key order comes from the host's map implementation, which is not part of this model.
- Status transitions: `Suspended` and `Closed` are declared but no entry point sets them; the invariant records that every stored offering is `Active`.
- `amount` and `period_id` are only passed through into the report event; no arithmetic on them is modelled.
- Cursor pagination (`get_offering_count`, `get_offerings_page`, a page limit of 20) and a per-issuer counter index are described for this contract family but do not exist in `src/lib.rs`; they are not modelled.
- The error for an out-of-range share is named `InvalidBps` after the contract's panic message ("Invalid BPS: exceeds 10000"); descriptions of the contract call it an invalid-parameter error.
- `report_revenue` does not check that an offering exists for (issuer, token); the model keeps that behaviour.
- `blacklist_remove` on a token with no stored map writes back an empty map; the model does the same, which is why `BlacklistManager.RemoveUndoesAdd` asks for a token that already has a stored map.
- Panics abort the whole host transaction; the model returns `Err` with storage and events unchanged, which is the observable result. Concurrency is not modelled: calls run one after another.
- `src/test.rs` is a test harness; `scenarios.dfy` restates a few of its scenarios as call sequences on the class.
