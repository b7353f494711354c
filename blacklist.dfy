/**
 * The blacklist manager: `blacklist_add` and `blacklist_remove` as functions
 * from the storage before the call to its response. Each token has its own
 * blacklist; any address that authorizes the call may change any token's
 * blacklist (the contract has no ownership check).
 */
module BlacklistManager {
  import opened Types
  import opened Storage

  /**
   * The storage after writing `m` back under `token`'s key: every other
   * token's blacklist and the whole registry stay as they were, and the
   * invariant survives when `m` stores only `true`.
   */
  function WithBlacklist(l: Ledger, token: Addr, m: map<Addr, bool>): (r: Ledger)
    ensures r.Blacklist(token) == m
    ensures forall t | t != token :: r.Blacklist(t) == l.Blacklist(t)
    ensures r.offerings == l.offerings && r.issuerOfferings == l.issuerOfferings
    ensures l.Valid() && (forall x | x in m :: m[x]) ==> r.Valid()
  {
    Ledger(l.offerings, l.issuerOfferings, l.blacklists[token := m])
  }

  /**
   * `blacklist_add(caller, token, investor)`: after the caller's authorization,
   * mark the investor in the token's map (creating the map when absent) and
   * publish one event. Marking an investor already marked is not an error.
   */
  function BlacklistAdd(l: Ledger, signers: set<Addr>, caller: Addr, token: Addr, investor: Addr): (r: Response)
    ensures r.outcome.Err? <==> caller !in signers
    ensures r.outcome.Err? ==> r.outcome.error == Unauthorized && r.ledger == l && r.emitted == []
    ensures r.outcome.Ok? ==>
      && r.ledger.IsBlacklisted(token, investor)
      && r.ledger.GetBlacklist(token) == l.GetBlacklist(token) + {investor}
      && r.emitted == [BlacklistAdded(token, caller, investor)]
    ensures forall t | t != token :: r.ledger.Blacklist(t) == l.Blacklist(t)
    ensures r.ledger.offerings == l.offerings && r.ledger.issuerOfferings == l.issuerOfferings
    ensures l.Valid() ==> r.ledger.Valid()
  {
    if caller !in signers then Abort(l, Unauthorized)
    else
      var m := l.Blacklist(token)[investor := true];
      assert m.Keys == l.GetBlacklist(token) + {investor};
      Response(Ok, WithBlacklist(l, token, m), [BlacklistAdded(token, caller, investor)])
  }

  /**
   * `blacklist_remove(caller, token, investor)`: after the caller's
   * authorization, drop the investor from the token's map and publish one
   * event. Removing an investor that is not there is not an error.
   */
  function BlacklistRemove(l: Ledger, signers: set<Addr>, caller: Addr, token: Addr, investor: Addr): (r: Response)
    ensures r.outcome.Err? <==> caller !in signers
    ensures r.outcome.Err? ==> r.outcome.error == Unauthorized && r.ledger == l && r.emitted == []
    ensures r.outcome.Ok? ==>
      && !r.ledger.IsBlacklisted(token, investor)
      && r.ledger.GetBlacklist(token) == l.GetBlacklist(token) - {investor}
      && r.emitted == [BlacklistRemoved(token, caller, investor)]
    ensures forall t | t != token :: r.ledger.Blacklist(t) == l.Blacklist(t)
    ensures r.ledger.offerings == l.offerings && r.ledger.issuerOfferings == l.issuerOfferings
    ensures l.Valid() ==> r.ledger.Valid()
  {
    if caller !in signers then Abort(l, Unauthorized)
    else
      var m := l.Blacklist(token) - {investor};
      assert m.Keys == l.GetBlacklist(token) - {investor};
      Response(Ok, WithBlacklist(l, token, m), [BlacklistRemoved(token, caller, investor)])
  }

  /** Inserting a fresh key and removing it again gives back the original map. */
  lemma InsertThenRemove<K, V>(m: map<K, V>, k: K, v: V)
    requires k !in m
    ensures m[k := v] - {k} == m
  {
    assert (m[k := v] - {k}).Keys == m.Keys;
  }

  /** Writing back the map a token already has leaves the storage as it was. */
  lemma WriteBackUnchanged(l: Ledger, token: Addr)
    requires token in l.blacklists
    ensures WithBlacklist(l, token, l.Blacklist(token)) == l
  {
    assert l.blacklists[token := l.blacklists[token]] == l.blacklists;
  }

  /** A second write-back under the same token replaces the first one entirely. */
  lemma OverwriteBlacklist(l: Ledger, token: Addr, first: map<Addr, bool>, second: map<Addr, bool>)
    ensures WithBlacklist(WithBlacklist(l, token, first), token, second) == WithBlacklist(l, token, second)
  {
    assert l.blacklists[token := first][token := second] == l.blacklists[token := second];
  }

  /** Adding the same investor twice leaves the same storage, so the same blacklist size, as adding once. */
  lemma AddIdempotent(l: Ledger, signers: set<Addr>, caller: Addr, token: Addr, investor: Addr)
    ensures var once := BlacklistAdd(l, signers, caller, token, investor).ledger;
            var twice := BlacklistAdd(once, signers, caller, token, investor).ledger;
            twice == once && |twice.GetBlacklist(token)| == |once.GetBlacklist(token)|
  {
    var once := BlacklistAdd(l, signers, caller, token, investor).ledger;
    if caller in signers {
      var m := once.Blacklist(token);
      assert m[investor := true] == m;
      WriteBackUnchanged(once, token);
    }
  }

  /** Removing the same investor twice leaves the same storage as removing once. */
  lemma RemoveIdempotent(l: Ledger, signers: set<Addr>, caller: Addr, token: Addr, investor: Addr)
    ensures var once := BlacklistRemove(l, signers, caller, token, investor).ledger;
            BlacklistRemove(once, signers, caller, token, investor).ledger == once
  {
    var once := BlacklistRemove(l, signers, caller, token, investor).ledger;
    if caller in signers {
      var m := once.Blacklist(token);
      assert m - {investor} == m;
      WriteBackUnchanged(once, token);
    }
  }

  /** An authorized remove undoes an authorized add of an investor that was not on the list. */
  lemma RemoveUndoesAdd(l: Ledger, signers: set<Addr>, caller: Addr, token: Addr, investor: Addr)
    requires caller in signers && token in l.blacklists && investor !in l.Blacklist(token)
    ensures var added := BlacklistAdd(l, signers, caller, token, investor).ledger;
            BlacklistRemove(added, signers, caller, token, investor).ledger == l
  {
    var m := l.Blacklist(token);
    var added := BlacklistAdd(l, signers, caller, token, investor).ledger;
    assert added == WithBlacklist(l, token, m[investor := true]);
    InsertThenRemove(m, investor, true);
    OverwriteBlacklist(l, token, m[investor := true], m);
    WriteBackUnchanged(l, token);
  }
}
