/**
 * Value types of the RevoraRevenueShare contract: addresses, the fixed-width
 * integers of its entry points, offerings, the abort reasons of its entry
 * points and the events it publishes.
 */
module Types {

  /** A Soroban `Address`: an opaque identity compared only for equality. */
  datatype Addr = Addr(id: nat)

  /** Rust `u32`, the width of `revenue_share_bps`. */
  newtype u32 = x: int | 0 <= x < 0x1_0000_0000

  /** Rust `u64`, the width of a reporting `period_id`. */
  newtype u64 = x: int | 0 <= x < 0x1_0000_0000_0000_0000

  /** Rust `i128`, the width of a reported `amount`. */
  newtype i128 = x: int | -0x8000_0000_0000_0000_0000_0000_0000_0000 <= x < 0x8000_0000_0000_0000_0000_0000_0000_0000

  /** The largest revenue share an offering may claim: 100% in basis points. */
  const MaxBps: u32 := 10_000

  datatype Option<T> = None | Some(value: T)

  datatype OfferingStatus = Active | Suspended | Closed

  datatype Offering = Offering(issuer: Addr, token: Addr, revenueShareBps: u32, status: OfferingStatus)

  /** Why an entry point aborted; each one is a panic in the contract. */
  datatype Error =
    | Unauthorized   // `require_auth` of the acting address failed
    | InvalidBps     // "Invalid BPS: exceeds 10000"
    | AlreadyExists  // "Offering already exists"

  /** How an entry point ended: it returned `()` or it aborted. */
  datatype Outcome = Ok | Err(error: Error)

  /** The payloads the contract publishes, one constructor per topic symbol. */
  datatype Event =
    | OfferRegistered(issuer: Addr, token: Addr, bps: u32)                   // "offer_reg"
    | RevenueReported(issuer: Addr, token: Addr, amount: i128, periodId: u64,
                      blacklist: set<Addr>)                                  // "rev_rep"
    | BlacklistAdded(token: Addr, caller: Addr, investor: Addr)              // "bl_add"
    | BlacklistRemoved(token: Addr, caller: Addr, investor: Addr)            // "bl_rem"

  predicate NoDuplicates<T(==)>(s: seq<T>) {
    forall i, j | 0 <= i < j < |s| :: s[i] != s[j]
  }
}
