/** The start of monitoring: which address belongs to which wallet, per chain. */
module Monitoring {
  import opened Domain
  import opened WalletStore
  import opened Matching
  import opened Pipeline

  /** The wallet's account on a chain: the first one listed. */
  function AccountOn(accounts: seq<Account>, c: ChainId): Option<Account> {
    if accounts == [] then None
    else if accounts[0].chain == c then Some(accounts[0])
    else AccountOn(accounts[1..], c)
  }

  /** Exactly the addresses of that chain's accounts, each with the wallet whose account it is. */
  ghost predicate NamesOwners(db: Db, c: ChainId, owners: map<Address, WalletId>) {
    && (forall k | k in db.accounts && k.chain == c ::
          db.accounts[k].address in owners && owners[db.accounts[k].address] == k.wallet)
    && (forall a | a in owners ::
          AccountKey(owners[a], c) in db.accounts && db.accounts[AccountKey(owners[a], c)].address == a)
  }

  lemma {:induction false} AccountOnFinds(accounts: seq<Account>, c: ChainId)
    ensures AccountOn(accounts, c).Some? <==> HasChain(accounts, c)
    ensures AccountOn(accounts, c).Some? ==>
              AccountOn(accounts, c).value in accounts && AccountOn(accounts, c).value.chain == c
  {
    if accounts != [] {
      AccountOnFinds(accounts[1..], c);
      if HasChain(accounts, c) && accounts[0].chain != c {
        var i :| 0 <= i < |accounts| && accounts[i].chain == c;
        assert accounts[1..][i - 1].chain == c;
      }
      if HasChain(accounts[1..], c) {
        var i :| 0 <= i < |accounts[1..]| && accounts[1..][i].chain == c;
        assert accounts[i + 1].chain == c;
      }
    }
  }

  /** What a listed wallet's account on a chain is in the tables. */
  lemma ListedAccount(db: Db, w: Wallet, c: ChainId)
    requires Shows(db, w)
    ensures AccountOn(w.accounts, c).Some? <==> AccountKey(w.id, c) in db.accounts
    ensures AccountOn(w.accounts, c).Some? ==>
              AccountOn(w.accounts, c).value.address == db.accounts[AccountKey(w.id, c)].address
  {
    AccountOnFinds(w.accounts, c);
    if HasChain(w.accounts, c) {
      assert AccountOn(w.accounts, c).value in w.accounts;
    }
  }

  /** One chain's share of startMonitoring; unique (chain, address) makes every owner the only one. */
  method OwnersOn(ghost db: Db, wallets: seq<Wallet>, c: ChainId) returns (owners: map<Address, WalletId>)
    requires Constraints(db) && Listed(db, wallets)
    ensures NamesOwners(db, c, owners)
    ensures forall a | a in owners :: owners[a] in db.wallets
  {
    owners := map[];
    for i := 0 to |wallets|
      invariant NamesOwnersAmong(db, c, wallets[..i], owners)
    {
      var w := wallets[i];
      assert wallets[..i + 1] == wallets[..i] + [w] && w in wallets;
      OneMoreOwner(db, c, wallets[..i], w, owners);
      var account := AccountOn(w.accounts, c);
      if account.Some? {
        owners := owners[account.value.address := w.id];
      }
    }
    assert wallets[..|wallets|] == wallets;
    AllAreNamed(db, c, wallets, owners);
  }

  /** Of the wallets seen so far, those with an account on the chain are named, and nobody else. */
  ghost predicate NamesOwnersAmong(db: Db, c: ChainId, wallets: seq<Wallet>, owners: map<Address, WalletId>) {
    && (forall w | w in wallets && AccountKey(w.id, c) in db.accounts ::
          var a := db.accounts[AccountKey(w.id, c)].address;
          a in owners && owners[a] == w.id)
    && (forall a | a in owners ::
          AccountKey(owners[a], c) in db.accounts && db.accounts[AccountKey(owners[a], c)].address == a)
  }

  lemma OneMoreOwner(db: Db, c: ChainId, seen: seq<Wallet>, w: Wallet, owners: map<Address, WalletId>)
    requires Constraints(db) && Shows(db, w) && NamesOwnersAmong(db, c, seen, owners)
    ensures var account := AccountOn(w.accounts, c);
            NamesOwnersAmong(db, c, seen + [w], if account.Some? then owners[account.value.address := w.id] else owners)
  {
    ListedAccount(db, w, c);
  }

  lemma AllAreNamed(db: Db, c: ChainId, wallets: seq<Wallet>, owners: map<Address, WalletId>)
    requires Constraints(db) && Listed(db, wallets) && NamesOwnersAmong(db, c, wallets, owners)
    ensures NamesOwners(db, c, owners)
  {
    forall k | k in db.accounts && k.chain == c
      ensures db.accounts[k].address in owners && owners[db.accounts[k].address] == k.wallet
    {
      assert k.wallet in Ids(wallets);
      var i :| 0 <= i < |wallets| && Ids(wallets)[i] == k.wallet;
      assert AccountKey(wallets[i].id, c) == k && wallets[i] in wallets;
    }
  }

  /**
   * With the owners read from sound tables and the watch list built from their keys, every event is delivered for
   * the one wallet that owns its address: never for the empty id, and never refused by the wallet foreign key.
   */
  lemma EventsGoToTheirOwner(env: Env, db: Db, owners: map<Address, WalletId>, addrs: seq<Address>, cfg: Config,
                             n: nat, k: nat)
    requires Constraints(db) && NamesOwners(db, env.chain, owners)
    requires forall a :: a in addrs <==> a in owners
    requires cfg.owners == owners && WatchesExactly(env.codec, addrs, cfg.watched)
    requires k < |EventsAt(env, cfg, n)|
    ensures WellFormed(env, cfg)
    ensures var e := EventsAt(env, cfg, n)[k];
            var d := DeliveryOf(cfg, e);
            && e.address in owners
            && d.wallet in db.wallets
            && AccountKey(d.wallet, env.chain) in db.accounts
            && db.accounts[AccountKey(d.wallet, env.chain)].address == e.address
            && forall other | AccountKey(other, env.chain) in db.accounts
                              && db.accounts[AccountKey(other, env.chain)].address == e.address :: other == d.wallet
  {
    var scan := Scan(env.codec, env.chain, cfg.watched);
    var e := EventsAt(env, cfg, n)[k];
    MatchedExactly(scan, env.blocks(n).txs, n, env.blocks(n).time, e);
  }
}
