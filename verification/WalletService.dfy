/** Creating a wallet: row, sealed seed, one account per supported chain, whatever step fails. */
module WalletServices {
  import opened Domain
  import opened DerivationPaths
  import opened KeyDerivation
  import opened WalletStore

  type Seed = Bytes

  type Passphrase = seq<nat>

  /** What an adapter derives for its chain; None when derivation fails. */
  type Deriver = (Seed, DerivationPath) -> Option<Account>

  /** The adapters by their own chain, as the registry's map holds them. */
  type Registry = map<ChainId, Deriver>

  /** Every adapter labels what it derives with its own chain and the path it was given. */
  ghost predicate AdaptersLabel(r: Registry) {
    forall c, seed, path | c in r && r[c](seed, path).Some? ::
      r[c](seed, path).value.chain == c && r[c](seed, path).value.path == path
  }

  /** Opening a sealed seed, uninterpreted. */
  type Vault = (Envelope, Passphrase) -> Option<Seed>

  /** Ids are "w" and the creation instant in nanoseconds. */
  function IdAt(now: nat): WalletId {
    "w" + Decimal(now)
  }

  /** The id is the letter w and a decimal number, the instant. */
  lemma IdReadsBack(now: nat)
    ensures IdAt(now)[0] == 'w' && AllDigits(IdAt(now)[1..]) && Value(IdAt(now)[1..]) == now
  {
    assert IdAt(now)[1..] == Decimal(now);
    ValueOfDecimal(now);
  }

  /** Two creations get the same id exactly when they happen at the same instant. */
  lemma IdsDifferExactlyWithInstants(a: nat, b: nat)
    ensures IdAt(a) == IdAt(b) <==> a == b
  {
    if IdAt(a) == IdAt(b) {
      assert IdAt(a)[1..] == Decimal(a) && IdAt(b)[1..] == Decimal(b);
      ValueOfDecimal(a);
      ValueOfDecimal(b);
    }
  }

  // ----- One attempt at creating a wallet ----------------------------------------------------

  /** How far an attempt got in the database. */
  datatype Stage = Untouched | WalletSaved | SeedStored | AccountsSaved

  /**
   * What an attempt used and how far it got. `now` and `createdAt` are two readings of the clock, the first in
   * nanoseconds; `accounts` are those it derived.
   */
  datatype Attempt = Attempt(
    id: WalletId, name: string, now: nat, createdAt: int, passphrase: Passphrase, seed: Seed, envelope: Envelope,
    accounts: seq<Account>, stage: Stage)

  function Bare(a: Attempt): Wallet {
    Wallet(a.id, a.name, a.createdAt, [])
  }

  function Full(a: Attempt): Wallet {
    Wallet(a.id, a.name, a.createdAt, a.accounts)
  }

  /** One account for each chain whose adapter derives one, in any order. */
  ghost predicate DerivesAll(r: Registry, seed: Seed, accounts: seq<Account>) {
    && DistinctChains(accounts)
    && (forall a | a in accounts :: a.chain in r && r[a.chain](seed, Bip44Path(a.chain)) == Some(a))
    && (forall c | c in r && r[c](seed, Bip44Path(c)).Some? :: HasChain(accounts, c))
  }

  /** The attempt is one the code can make: its envelope seals its seed and its accounts come from it. */
  ghost predicate Possible(v: Vault, r: Registry, db: Db, a: Attempt) {
    && a.id == IdAt(a.now)
    && v(a.envelope, a.passphrase) == Some(a.seed)
    && (a.stage == AccountsSaved ==> DerivesAll(r, a.seed, a.accounts) && SaveWallet(WithSeed(db, a), Full(a)).Some?)
  }

  function WithWallet(db: Db, a: Attempt): Db {
    SaveWallet(db, Bare(a)).value
  }

  function WithSeed(db: Db, a: Attempt): Db {
    WithWallet(db, a).(keystore := db.keystore[a.id := a.envelope])
  }

  /** The database after an attempt, by the stage it reached. */
  function After(db: Db, a: Attempt): Db
    requires a.stage == AccountsSaved ==> SaveWallet(WithSeed(db, a), Full(a)).Some?
  {
    match a.stage
    case Untouched => db
    case WalletSaved => WithWallet(db, a)
    case SeedStored => WithSeed(db, a)
    case AccountsSaved => SaveWallet(WithSeed(db, a), Full(a)).value
  }

  /** The tables after an attempt, row by row. */
  ghost predicate RowsAfter(db: Db, a: Attempt, after: Db) {
    if a.stage == Untouched then after == db
    else
      && after.wallets == db.wallets[a.id := WalletRow(a.name, if a.id in db.wallets then db.wallets[a.id].createdAt
                                                               else a.createdAt)]
      && after.keystore == (if a.stage == WalletSaved then db.keystore else db.keystore[a.id := a.envelope])
      && if a.stage == AccountsSaved then IsUpserted(db.accounts, a.id, a.accounts, after.accounts)
         else after.accounts == db.accounts
  }

  lemma AfterInRows(db: Db, a: Attempt)
    requires a.stage == AccountsSaved ==> DistinctChains(a.accounts) && SaveWallet(WithSeed(db, a), Full(a)).Some?
    ensures RowsAfter(db, a, After(db, a))
  {
    assert WithWallet(db, a).accounts == db.accounts;
    if a.stage == AccountsSaved {
      UpsertedIs(db.accounts, a.id, a.accounts);
      var after := After(db, a);
      assert after.wallets == db.wallets[a.id := after.wallets[a.id]];
    }
  }

  /** None of the addresses that the adapters derive from the seed belongs to another wallet. */
  ghost predicate AddressesFree(r: Registry, seed: Seed, accounts: Accounts, id: WalletId) {
    forall c | c in r && r[c](seed, Bip44Path(c)).Some? ::
      var address := r[c](seed, Bip44Path(c)).value.address;
      forall k | k in accounts && k.chain == c && accounts[k].address == address :: k.wallet == id
  }

  /** The second save succeeds exactly when they do not. */
  lemma SecondSaveSucceedsExactlyWhenFree(r: Registry, db: Db, a: Attempt)
    requires AdaptersLabel(r) && DerivesAll(r, a.seed, a.accounts)
    ensures SaveWallet(WithSeed(db, a), Full(a)).Some? <==> AddressesFree(r, a.seed, db.accounts, a.id)
  {
    UpsertsSucceedExactlyWhenFree(db.accounts, a.id, a.accounts);
    assert WithSeed(db, a).accounts == db.accounts;
    DerivedAreFree(r, db.accounts, a);
  }

  lemma DerivedAreFree(r: Registry, accounts: Accounts, a: Attempt)
    requires AdaptersLabel(r) && DerivesAll(r, a.seed, a.accounts)
    ensures AllFree(accounts, a.id, a.accounts) <==> AddressesFree(r, a.seed, accounts, a.id)
  {
    if AllFree(accounts, a.id, a.accounts) {
      forall c | c in r && r[c](a.seed, Bip44Path(c)).Some?
        ensures var address := r[c](a.seed, Bip44Path(c)).value.address;
                forall k | k in accounts && k.chain == c && accounts[k].address == address :: k.wallet == a.id
      {
        var i :| 0 <= i < |a.accounts| && a.accounts[i].chain == c;
        assert a.accounts[i] in a.accounts;
        assert Free(accounts, a.id, a.accounts[i]);
      }
    }
    if AddressesFree(r, a.seed, accounts, a.id) {
      forall acc | acc in a.accounts
        ensures Free(accounts, a.id, acc)
      {
        assert acc.chain in r && r[acc.chain](a.seed, Bip44Path(acc.chain)) == Some(acc);
      }
    }
  }

  // ----- What attempts keep ------------------------------------------------------------------

  /** The account's wallet has a sealed seed that opens, and from it the account's path derives its address. */
  ghost predicate Recoverable(v: Vault, r: Registry, db: Db, k: AccountKey)
    requires k in db.accounts
  {
    && k.wallet in db.keystore
    && k.chain in r
    && exists passphrase :: OpensTo(v, r, db.keystore[k.wallet], passphrase, k.chain, db.accounts[k])
  }

  ghost predicate OpensTo(v: Vault, r: Registry, e: Envelope, passphrase: Passphrase, c: ChainId, row: AccountRow)
    requires c in r
  {
    && v(e, passphrase).Some?
    && r[c](v(e, passphrase).value, row.path) == Some(Account(c, row.address, row.path))
  }

  ghost predicate Sound(v: Vault, r: Registry, db: Db) {
    Constraints(db) && forall k | k in db.accounts :: Recoverable(v, r, db, k)
  }

  /** The attempt's own passphrase opens what is stored to its seed, and each of its accounts comes from that seed. */
  ghost predicate OwnKeysWork(v: Vault, r: Registry, db: Db, a: Attempt) {
    && a.id in db.keystore && v(db.keystore[a.id], a.passphrase) == Some(a.seed)
    && forall k | k in db.accounts && k.wallet == a.id ::
         && k.chain in r
         && var row := db.accounts[k];
            r[k.chain](a.seed, row.path) == Some(Account(k.chain, row.address, row.path))
  }

  predicate Sealed(a: Attempt) {
    a.stage == SeedStored || a.stage == AccountsSaved
  }

  /** After a fresh attempt that stored its seed its own keys work, and they keep working under fresh attempts. */
  lemma FreshAttemptHasItsKeys(v: Vault, r: Registry, db: Db, a: Attempt)
    requires Constraints(db) && AdaptersLabel(r) && Possible(v, r, db, a) && a.id !in db.wallets && Sealed(a)
    ensures OwnKeysWork(v, r, After(db, a), a)
  {
    UpsertedRows(db.accounts, a.id, []);
    var seeded := WithSeed(db, a);
    assert seeded.accounts == db.accounts && forall k | k in seeded.accounts :: k.wallet != a.id;
    if a.stage == AccountsSaved {
      SavedAccountsAreDerived(v, r, seeded, a);
    }
  }

  lemma SavedAccountsAreDerived(v: Vault, r: Registry, db: Db, a: Attempt)
    requires AdaptersLabel(r) && SaveWallet(db, Full(a)).Some? && DerivesAll(r, a.seed, a.accounts)
    requires a.id in db.keystore && v(db.keystore[a.id], a.passphrase) == Some(a.seed)
    requires forall k | k in db.accounts :: k.wallet != a.id
    ensures OwnKeysWork(v, r, SaveWallet(db, Full(a)).value, a)
  {
    var after := SaveWallet(db, Full(a)).value;
    UpsertedRows(db.accounts, a.id, a.accounts);
    forall k | k in after.accounts && k.wallet == a.id
      ensures k.chain in r
      ensures r[k.chain](a.seed, after.accounts[k].path)
           == Some(Account(k.chain, after.accounts[k].address, after.accounts[k].path))
    {
      var i :| 0 <= i < |a.accounts| && a.accounts[i].chain == k.chain;
      assert LastOnChain(a.accounts, i) && a.accounts[i] in a.accounts;
    }
  }

  lemma OthersKeepTheirKeys(v: Vault, r: Registry, db: Db, a: Attempt, b: Attempt)
    requires Possible(v, r, db, b) && OwnKeysWork(v, r, db, a) && a.id != b.id
    ensures OwnKeysWork(v, r, After(db, b), a)
  {
    UpsertedRows(db.accounts, b.id, []);
    if b.stage == AccountsSaved {
      UpsertedRows(WithSeed(db, b).accounts, b.id, b.accounts);
    }
  }

  /** An attempt under an id not used before keeps the database sound, whatever stage it reached. */
  lemma FreshAttemptKeepsSound(v: Vault, r: Registry, db: Db, a: Attempt)
    requires Sound(v, r, db) && AdaptersLabel(r) && Possible(v, r, db, a) && a.id !in db.wallets
    ensures Sound(v, r, After(db, a))
  {
    if a.stage != Untouched {
      BareWalletKeepsSound(v, r, db, a);
      if a.stage == AccountsSaved {
        FinishedAttemptKeepsSound(v, r, WithSeed(db, a), a);
      }
    }
  }

  /** A new wallet without accounts, with or without its seed, disturbs no account of another. */
  lemma BareWalletKeepsSound(v: Vault, r: Registry, db: Db, a: Attempt)
    requires Sound(v, r, db) && a.id !in db.wallets
    ensures Sound(v, r, WithWallet(db, a)) && Sound(v, r, WithSeed(db, a))
  {
    SaveKeepsConstraints(db, Bare(a));
    var saved, seeded := WithWallet(db, a), WithSeed(db, a);
    assert saved.accounts == db.accounts == seeded.accounts;
    forall k | k in db.accounts
      ensures Recoverable(v, r, saved, k) && Recoverable(v, r, seeded, k)
    {
      assert Recoverable(v, r, db, k) && k.wallet != a.id;
      assert saved.keystore[k.wallet] == db.keystore[k.wallet] == seeded.keystore[k.wallet];
    }
  }

  lemma FinishedAttemptKeepsSound(v: Vault, r: Registry, db: Db, a: Attempt)
    requires Sound(v, r, db) && AdaptersLabel(r) && SaveWallet(db, Full(a)).Some?
    requires a.id in db.keystore && db.keystore[a.id] == a.envelope
    requires v(a.envelope, a.passphrase) == Some(a.seed) && DerivesAll(r, a.seed, a.accounts)
    ensures Sound(v, r, SaveWallet(db, Full(a)).value)
  {
    var after := SaveWallet(db, Full(a)).value;
    SaveKeepsConstraints(db, Full(a));
    UpsertedRows(db.accounts, a.id, a.accounts);
    forall k | k in after.accounts
      ensures Recoverable(v, r, after, k)
    {
      if k.wallet == a.id && HasChain(a.accounts, k.chain) {
        var i :| 0 <= i < |a.accounts| && a.accounts[i].chain == k.chain;
        assert LastOnChain(a.accounts, i) && a.accounts[i] in a.accounts;
        assert OpensTo(v, r, after.keystore[a.id], a.passphrase, k.chain, after.accounts[k]);
      } else {
        assert Recoverable(v, r, db, k);
      }
    }
  }

  // ----- Histories ---------------------------------------------------------------------------

  /** The attempts are made one after the other, each on the database the others left. */
  ghost predicate History(v: Vault, r: Registry, attempts: seq<Attempt>)
    decreases |attempts|, 0
  {
    attempts == []
    || (&& History(v, r, attempts[..|attempts| - 1])
        && Possible(v, r, DbAfterAttempts(v, r, attempts[..|attempts| - 1]), attempts[|attempts| - 1]))
  }

  ghost function DbAfterAttempts(v: Vault, r: Registry, attempts: seq<Attempt>): Db
    requires History(v, r, attempts)
    decreases |attempts|, 1
  {
    if attempts == [] then Db(map[], map[], map[])
    else After(DbAfterAttempts(v, r, attempts[..|attempts| - 1]), attempts[|attempts| - 1])
  }

  ghost predicate DistinctInstants(attempts: seq<Attempt>) {
    forall i, j | 0 <= i < j < |attempts| :: attempts[i].now != attempts[j].now
  }

  /** Over any history of attempts at distinct instants, failing where they may, the database stays sound. */
  lemma {:induction false} HistoriesStaySound(v: Vault, r: Registry, attempts: seq<Attempt>)
    requires AdaptersLabel(r) && History(v, r, attempts) && DistinctInstants(attempts)
    ensures Sound(v, r, DbAfterAttempts(v, r, attempts))
    ensures forall id | id in DbAfterAttempts(v, r, attempts).wallets ::
              exists i :: 0 <= i < |attempts| && attempts[i].id == id
  {
    if attempts != [] {
      var n := |attempts| - 1;
      var init, a := attempts[..n], attempts[n];
      HistoriesStaySound(v, r, init);
      var db := DbAfterAttempts(v, r, init);
      assert a.id !in db.wallets by {
        if a.id in db.wallets {
          var i :| 0 <= i < n && init[i].id == a.id;
          AttemptIds(v, r, attempts, i);
          IdsDifferExactlyWithInstants(attempts[i].now, a.now);
        }
      }
      FreshAttemptKeepsSound(v, r, db, a);
      forall id | id in DbAfterAttempts(v, r, attempts).wallets
        ensures exists i :: 0 <= i < |attempts| && attempts[i].id == id
      {
        if id == a.id {
          assert attempts[n].id == id;
        } else {
          OnlyItsOwnWallet(db, a, id);
          var i :| 0 <= i < n && init[i].id == id;
          assert attempts[i].id == id;
        }
      }
    }
  }

  /**
   * Over any such history, every attempt that stored its seed can be recovered for good: its own passphrase opens what
   * is stored to its own seed, from which every account of its wallet derives.
   */
  lemma {:induction false} EverySealedWalletIsRecoverable(v: Vault, r: Registry, attempts: seq<Attempt>, i: nat)
    requires AdaptersLabel(r) && History(v, r, attempts) && DistinctInstants(attempts)
    requires i < |attempts| && Sealed(attempts[i])
    ensures OwnKeysWork(v, r, DbAfterAttempts(v, r, attempts), attempts[i])
    decreases |attempts|
  {
    var n := |attempts| - 1;
    var init, last := attempts[..n], attempts[n];
    HistoriesStaySound(v, r, init);
    var db := DbAfterAttempts(v, r, init);
    if i < n {
      EverySealedWalletIsRecoverable(v, r, init, i);
      AttemptIds(v, r, attempts, i);
      IdsDifferExactlyWithInstants(attempts[i].now, last.now);
      OthersKeepTheirKeys(v, r, db, attempts[i], last);
    } else {
      assert last.id !in db.wallets by {
        LastIdIsFresh(v, r, attempts);
      }
      FreshAttemptHasItsKeys(v, r, db, last);
    }
  }

  lemma LastIdIsFresh(v: Vault, r: Registry, attempts: seq<Attempt>)
    requires AdaptersLabel(r) && attempts != [] && History(v, r, attempts) && DistinctInstants(attempts)
    ensures attempts[|attempts| - 1].id !in DbAfterAttempts(v, r, attempts[..|attempts| - 1]).wallets
    decreases |attempts|, 0
  {
    var n := |attempts| - 1;
    HistoriesStaySound(v, r, attempts[..n]);
    if attempts[n].id in DbAfterAttempts(v, r, attempts[..n]).wallets {
      var j :| 0 <= j < n && attempts[..n][j].id == attempts[n].id;
      AttemptIds(v, r, attempts, j);
      IdsDifferExactlyWithInstants(attempts[j].now, attempts[n].now);
    }
  }

  lemma {:induction false} AttemptIds(v: Vault, r: Registry, attempts: seq<Attempt>, i: nat)
    requires History(v, r, attempts) && i < |attempts|
    ensures attempts[i].id == IdAt(attempts[i].now)
  {
    if i < |attempts| - 1 {
      AttemptIds(v, r, attempts[..|attempts| - 1], i);
    }
  }

  lemma OnlyItsOwnWallet(db: Db, a: Attempt, id: WalletId)
    requires a.stage == AccountsSaved ==> SaveWallet(WithSeed(db, a), Full(a)).Some?
    ensures id in After(db, a).wallets && id != a.id ==> id in db.wallets
  {
  }

  /**
   * Distinct instants are needed: after two attempts at one instant, the first finished, the second stopping once its
   * seed is stored, the first one's accounts can be recovered exactly when the second envelope, too, opens to a seed
   * that derives each of them.
   */
  lemma ReusedIdStrandsAccountsExactlyUnlessSeedsAgree(v: Vault, r: Registry, a: Attempt, b: Attempt)
    requires AdaptersLabel(r) && History(v, r, [a, b]) && a.now == b.now
    requires a.stage == AccountsSaved && b.stage == SeedStored
    ensures Sound(v, r, DbAfterAttempts(v, r, [a, b]))
            <==> forall acc | acc in a.accounts :: Rederives(v, r, b.envelope, acc)
  {
    assert [a, b][..1] == [a] && [a][..0] == [];
    var db := DbAfterAttempts(v, r, [a]);
    var after := DbAfterAttempts(v, r, [a, b]);
    FinishedFirst(v, r, a);
    UpsertedRows(db.accounts, b.id, []);
    assert after.accounts == db.accounts && after.keystore[a.id] == b.envelope && after.wallets.Keys == db.wallets.Keys;
    forall acc | acc in a.accounts
      ensures var k := AccountKey(a.id, acc.chain);
              k in after.accounts && (Recoverable(v, r, after, k) <==> Rederives(v, r, b.envelope, acc))
    {
      OneRow(v, r, after, a, b.envelope, acc);
    }
    if forall acc | acc in a.accounts :: Rederives(v, r, b.envelope, acc) {
      forall k | k in after.accounts
        ensures Recoverable(v, r, after, k)
      {
        var acc :| acc in a.accounts && k == AccountKey(a.id, acc.chain);
      }
    }
  }

  /** Some passphrase opens the envelope to a seed from which the account's path derives the account. */
  ghost predicate Rederives(v: Vault, r: Registry, e: Envelope, acc: Account) {
    acc.chain in r
    && exists passphrase :: v(e, passphrase).Some? && r[acc.chain](v(e, passphrase).value, acc.path) == Some(acc)
  }

  lemma OneRow(v: Vault, r: Registry, db: Db, a: Attempt, e: Envelope, acc: Account)
    requires AccountKey(a.id, acc.chain) in db.accounts && acc.chain in r
    requires db.accounts[AccountKey(a.id, acc.chain)] == AccountRow(acc.address, acc.path)
    requires a.id in db.keystore && db.keystore[a.id] == e
    ensures Recoverable(v, r, db, AccountKey(a.id, acc.chain)) <==> Rederives(v, r, e, acc)
  {
    var row := db.accounts[AccountKey(a.id, acc.chain)];
    assert forall passphrase ::
        (OpensTo(v, r, e, passphrase, acc.chain, row)
         <==> v(e, passphrase).Some? && r[acc.chain](v(e, passphrase).value, acc.path) == Some(acc));
  }

  /** After a first finished attempt the tables hold its wallet and exactly its accounts. */
  lemma FinishedFirst(v: Vault, r: Registry, a: Attempt)
    requires History(v, r, [a]) && a.stage == AccountsSaved && AdaptersLabel(r)
    ensures Constraints(DbAfterAttempts(v, r, [a])) && HoldsExactly(r, DbAfterAttempts(v, r, [a]), a)
  {
    HistoriesStaySound(v, r, [a]);
    assert [a][..0] == [];
    var empty := Db(map[], map[], map[]);
    UpsertedRows(empty.accounts, a.id, []);
    SavedOnEmpty(r, WithSeed(empty, a), a);
  }

  ghost predicate HoldsExactly(r: Registry, db: Db, a: Attempt) {
    && a.id in db.wallets
    && (forall k | k in db.accounts :: exists acc :: acc in a.accounts && k == AccountKey(a.id, acc.chain))
    && (forall acc | acc in a.accounts ::
          && acc.chain in r
          && AccountKey(a.id, acc.chain) in db.accounts
          && db.accounts[AccountKey(a.id, acc.chain)] == AccountRow(acc.address, acc.path))
  }

  lemma SavedOnEmpty(r: Registry, db: Db, a: Attempt)
    requires db.accounts == map[] && SaveWallet(db, Full(a)).Some? && DerivesAll(r, a.seed, a.accounts)
    ensures HoldsExactly(r, SaveWallet(db, Full(a)).value, a)
  {
    var after := SaveWallet(db, Full(a)).value;
    UpsertedRows(db.accounts, a.id, a.accounts);
    forall k | k in after.accounts
      ensures exists acc :: acc in a.accounts && k == AccountKey(a.id, acc.chain)
    {
      var i :| 0 <= i < |a.accounts| && a.accounts[i].chain == k.chain;
      assert a.accounts[i] in a.accounts;
    }
    forall acc | acc in a.accounts
      ensures AccountKey(a.id, acc.chain) in after.accounts
      ensures after.accounts[AccountKey(a.id, acc.chain)] == AccountRow(acc.address, acc.path)
    {
      var i :| 0 <= i < |a.accounts| && a.accounts[i] == acc;
      assert LastOnChain(a.accounts, i);
    }
  }

  // ----- The service -------------------------------------------------------------------------

  class WalletService {
    const registry: Registry
    const database: Database
    const repo: PostgresWallet

    ghost predicate Valid() {
      repo.database == database
    }

    constructor (registry: Registry, database: Database)
      ensures Valid() && this.registry == registry && this.database == database
    {
      this.registry := registry;
      this.database := database;
      this.repo := new PostgresWallet(database);
    }

    /** One account per supported chain whose adapter derives one; the others are skipped. */
    method DeriveAccounts(seed: Seed) returns (accounts: seq<Account>)
      requires AdaptersLabel(registry)
      ensures DerivesAll(registry, seed, accounts)
    {
      accounts := [];
      var left := registry.Keys;
      while left != {}
        invariant left <= registry.Keys
        invariant DistinctChains(accounts)
        invariant forall a | a in accounts ::
                    && a.chain in registry && a.chain !in left
                    && registry[a.chain](seed, Bip44Path(a.chain)) == Some(a)
        invariant forall c | c in registry && c !in left && registry[c](seed, Bip44Path(c)).Some? ::
                    HasChain(accounts, c)
        decreases left
      {
        var c :| c in left;
        var account := registry[c](seed, Bip44Path(c));
        left := left - {c};
        if account.Some? {
          forall i | 0 <= i < |accounts|
            ensures accounts[i].chain != c
          {
            assert accounts[i] in accounts;
          }
          ghost var before := accounts;
          accounts := accounts + [account.value];
          assert accounts[..|accounts| - 1] == before;
          forall d
            ensures HasChain(accounts, d) <==> HasChain(before, d) || d == c
          {
            HasChainSnoc(accounts, d);
          }
        }
      }
    }

    /**
     * Saves the bare wallet, stores the sealed seed, derives the accounts, saves again. `seed` is the fresh seed
     * and `envelope` its sealed form. How far it gets is decided by the three outcomes and by whether a derived
     * address already belongs to another wallet; the tables end row by row as that stage says. If nothing fails, the
     * wallet is returned, and stored.
     */
    method Create(v: Vault, name: string, passphrase: Passphrase, now: nat, createdAt: int, seed: Seed,
                  envelope: Envelope, save: Outcome, store: Outcome, saveAgain: Outcome)
      returns (w: Option<Wallet>, ghost attempt: Attempt)
      requires Valid() && AdaptersLabel(registry) && v(envelope, passphrase) == Some(seed)
      modifies database
      ensures attempt == Attempt(IdAt(now), name, now, createdAt, passphrase, seed, envelope, attempt.accounts,
                                 attempt.stage)
      ensures Possible(v, registry, old(database.db), attempt)
      ensures database.db == After(old(database.db), attempt)
      ensures RowsAfter(old(database.db), attempt, database.db)
      ensures attempt.stage == Untouched <==> save == Fails
      ensures attempt.stage == WalletSaved <==> save == ReplyLost || (save == Fine && store == Fails)
      ensures attempt.stage == AccountsSaved <==>
                && save == Fine && store == Fine && saveAgain != Fails
                && AddressesFree(registry, seed, old(database.db.accounts), IdAt(now))
      ensures w.Some? <==>
                && save == Fine && store == Fine && saveAgain == Fine
                && AddressesFree(registry, seed, old(database.db.accounts), IdAt(now))
      ensures w.Some? ==>
                && w.value == Wallet(IdAt(now), name, createdAt, attempt.accounts)
                && DerivesAll(registry, seed, w.value.accounts)
                && attempt.stage == AccountsSaved
    {
      var id := IdAt(now);
      ghost var before := database.db;
      attempt := Attempt(id, name, now, createdAt, passphrase, seed, envelope, [], Untouched);
      var saved := repo.Save(Wallet(id, name, createdAt, []), save);
      if TakesEffect(save) {
        attempt := attempt.(stage := WalletSaved);
      }
      AfterInRows(before, attempt);
      if !saved {
        return None, attempt;
      }
      if TakesEffect(store) {
        database.db := database.db.(keystore := database.db.keystore[id := envelope]);
        attempt := attempt.(stage := SeedStored);
        AfterInRows(before, attempt);
      }
      if store != Fine {
        return None, attempt;
      }
      var accounts := DeriveAccounts(seed);
      attempt := attempt.(accounts := accounts);
      var full := Wallet(id, name, createdAt, accounts);
      SecondSaveSucceedsExactlyWhenFree(registry, before, attempt);
      if TakesEffect(saveAgain) && SaveWallet(database.db, full).Some? {
        attempt := attempt.(stage := AccountsSaved);
      }
      AfterInRows(before, attempt);
      var savedAgain := repo.Save(full, saveAgain);
      if !savedAgain {
        return None, attempt;
      }
      return Some(full), attempt;
    }
  }

  // ----- Solana ------------------------------------------------------------------------------

  /** An adapter on ed25519: accounts only on paths whose indices are all hardened, as `DeriveKeyEd25519` ensures. */
  ghost predicate DerivesByEd25519(d: Deriver) {
    forall seed, path ::
      d(seed, path).Some? ==> ParsedPath(path).Some? && AllHardened(ParsedPath(path).value)
  }

  /** The path `Create` uses has an unhardened tail, so a chain on ed25519 never gets an account. */
  lemma Ed25519ChainsAreSkipped(r: Registry, seed: Seed, accounts: seq<Account>, c: ChainId)
    requires DerivesAll(r, seed, accounts) && c in r && DerivesByEd25519(r[c])
    ensures !HasChain(accounts, c)
  {
    Bip44PathIsNotAllHardened(c);
    assert r[c](seed, Bip44Path(c)).None?;
    forall i | 0 <= i < |accounts|
      ensures accounts[i].chain != c
    {
      assert accounts[i] in accounts;
    }
  }
}
