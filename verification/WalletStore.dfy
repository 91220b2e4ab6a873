/** The wallet repository twice: over the wallets and accounts tables, and in memory. */
module WalletStore {
  import opened Domain

  datatype WalletRow = WalletRow(name: string, createdAt: int)

  datatype AccountKey = AccountKey(wallet: WalletId, chain: ChainId)

  datatype AccountRow = AccountRow(address: Address, path: DerivationPath)

  type Accounts = map<AccountKey, AccountRow>

  /** A sealed seed: salt, nonce and ciphertext. */
  type Envelope = seq<seq<nat>>

  datatype Db = Db(wallets: map<WalletId, WalletRow>, accounts: Accounts, keystore: map<WalletId, Envelope>)

  /** `ReplyLost` takes effect, yet reports an error. */
  datatype Outcome = Fine | Fails | ReplyLost

  /** A missing wallet and a failed query are both errors, told apart by their text. */
  datatype Lookup = Found(wallet: Wallet) | Missing | QueryFailed

  predicate TakesEffect(o: Outcome) {
    o != Fails
  }

  // ----- Constraints of the schema -----------------------------------------------------------

  /** accounts and keystore reference wallets, and (chain, address) is unique among accounts. */
  ghost predicate Constraints(db: Db) {
    && (forall k | k in db.accounts :: k.wallet in db.wallets)
    && (forall id | id in db.keystore :: id in db.wallets)
    && UniqueAddresses(db.accounts)
  }

  ghost predicate UniqueAddresses(accounts: Accounts) {
    forall j, k | j in accounts && k in accounts && j.chain == k.chain
                  && accounts[j].address == accounts[k].address :: j == k
  }

  predicate AddressTaken(accounts: Accounts, key: AccountKey, address: Address) {
    exists k :: k in accounts && k != key && k.chain == key.chain && accounts[k].address == address
  }

  // ----- The Postgres store on values --------------------------------------------------------

  function UpsertAccount(accounts: Accounts, id: WalletId, a: Account): Option<Accounts> {
    var key := AccountKey(id, a.chain);
    if AddressTaken(accounts, key, a.address) then None
    else Some(accounts[key := AccountRow(a.address, a.path)])
  }

  function UpsertAccounts(accounts: Accounts, id: WalletId, list: seq<Account>): Option<Accounts> {
    if list == [] then Some(accounts)
    else
      match UpsertAccounts(accounts, id, list[..|list| - 1])
      case None => None
      case Some(before) => UpsertAccount(before, id, list[|list| - 1])
  }

  /** An existing wallet keeps its creation time; None when a unique address is violated. */
  function SaveWallet(db: Db, w: Wallet): Option<Db> {
    match UpsertAccounts(db.accounts, w.id, w.accounts)
    case None => None
    case Some(accounts) =>
      var row := if w.id in db.wallets then db.wallets[w.id].(name := w.name) else WalletRow(w.name, w.createdAt);
      Some(Db(db.wallets[w.id := row], accounts, db.keystore))
  }

  predicate HasChain(list: seq<Account>, c: ChainId) {
    exists i :: 0 <= i < |list| && list[i].chain == c
  }

  predicate DistinctChains(list: seq<Account>) {
    forall i, j | 0 <= i < j < |list| :: list[i].chain != list[j].chain
  }

  ghost predicate LastOnChain(list: seq<Account>, i: nat) {
    i < |list| && forall j | i < j < |list| :: list[j].chain != list[i].chain
  }

  /** What the upserts leave: the wallet's listed chains get their last listed account, all else stays. */
  lemma {:induction false} UpsertedRows(accounts: Accounts, id: WalletId, list: seq<Account>)
    requires UpsertAccounts(accounts, id, list).Some?
    ensures var after := UpsertAccounts(accounts, id, list).value;
            && (forall k: AccountKey | k.wallet != id || !HasChain(list, k.chain) ::
                  (k in after <==> k in accounts) && (k in after ==> after[k] == accounts[k]))
            && (forall i: nat | LastOnChain(list, i) ::
                  && AccountKey(id, list[i].chain) in after
                  && after[AccountKey(id, list[i].chain)] == AccountRow(list[i].address, list[i].path))
            && (forall k | k in after && k !in accounts :: k.wallet == id && HasChain(list, k.chain))
            && (forall k | k in accounts :: k in after)
  {
    if list != [] {
      var n := |list| - 1;
      var init, a := list[..n], list[n];
      UpsertedRows(accounts, id, init);
      var before, after := UpsertAccounts(accounts, id, init).value, UpsertAccounts(accounts, id, list).value;
      assert after == before[AccountKey(id, a.chain) := AccountRow(a.address, a.path)];
      forall c
        ensures HasChain(list, c) <==> HasChain(init, c) || c == a.chain
      {
        HasChainSnoc(list, c);
      }
      forall i: nat | LastOnChain(list, i)
        ensures AccountKey(id, list[i].chain) in after
        ensures after[AccountKey(id, list[i].chain)] == AccountRow(list[i].address, list[i].path)
      {
        if i < n {
          assert LastOnChain(init, i);
          assert list[n].chain != list[i].chain;
        }
      }
    }
  }

  lemma HasChainSnoc(list: seq<Account>, c: ChainId)
    requires list != []
    ensures HasChain(list, c) <==> HasChain(list[..|list| - 1], c) || c == list[|list| - 1].chain
  {
    var init := list[..|list| - 1];
    if HasChain(init, c) {
      var i :| 0 <= i < |init| && init[i].chain == c;
      assert list[i].chain == c;
    }
    if HasChain(list, c) {
      var i :| 0 <= i < |list| && list[i].chain == c;
      assert i < |init| ==> init[i].chain == c;
    }
  }

  /** No other wallet has the account's address on its chain. */
  predicate Free(accounts: Accounts, id: WalletId, a: Account) {
    forall k | k in accounts && k.chain == a.chain && accounts[k].address == a.address :: k.wallet == id
  }

  predicate AllFree(accounts: Accounts, id: WalletId, list: seq<Account>) {
    forall a | a in list :: Free(accounts, id, a)
  }

  /** The upserts succeed exactly when no listed address belongs to another wallet on the same chain. */
  lemma {:induction false} UpsertsSucceedExactlyWhenFree(accounts: Accounts, id: WalletId, list: seq<Account>)
    ensures UpsertAccounts(accounts, id, list).Some? <==> AllFree(accounts, id, list)
  {
    if list != [] {
      var n := |list| - 1;
      var init, a := list[..n], list[n];
      UpsertsSucceedExactlyWhenFree(accounts, id, init);
      assert list == init + [a];
      assert AllFree(accounts, id, list) <==> AllFree(accounts, id, init) && Free(accounts, id, a);
      if UpsertAccounts(accounts, id, init).Some? {
        UpsertedRows(accounts, id, init);
        LastIsFree(accounts, UpsertAccounts(accounts, id, init).value, id, a);
      }
    }
  }

  /** Upserts of the wallet's own rows do not change what it may still take. */
  lemma LastIsFree(accounts: Accounts, before: Accounts, id: WalletId, a: Account)
    requires forall k: AccountKey | k.wallet != id ::
               (k in before <==> k in accounts) && (k in before ==> before[k] == accounts[k])
    ensures UpsertAccount(before, id, a).Some? <==> Free(accounts, id, a)
  {
    var key := AccountKey(id, a.chain);
    if !Free(accounts, id, a) {
      var k :| k in accounts && k.chain == a.chain && accounts[k].address == a.address && k.wallet != id;
      assert k in before && k != key;
    }
    if AddressTaken(before, key, a.address) {
      var k :| k in before && k != key && k.chain == key.chain && before[k].address == a.address;
      assert k.wallet != id;
    }
  }

  /** The wallet's listed chains have the listed accounts, and every other row is as before. */
  ghost predicate IsUpserted(accounts: Accounts, id: WalletId, list: seq<Account>, after: Accounts) {
    && (forall a | a in list ::
          AccountKey(id, a.chain) in after && after[AccountKey(id, a.chain)] == AccountRow(a.address, a.path))
    && (forall k: AccountKey | k.wallet != id || !HasChain(list, k.chain) ::
          (k in after <==> k in accounts) && (k in after ==> after[k] == accounts[k]))
  }

  lemma UpsertedIs(accounts: Accounts, id: WalletId, list: seq<Account>)
    requires DistinctChains(list) && UpsertAccounts(accounts, id, list).Some?
    ensures IsUpserted(accounts, id, list, UpsertAccounts(accounts, id, list).value)
  {
    UpsertedRows(accounts, id, list);
    forall a | a in list
      ensures var after := UpsertAccounts(accounts, id, list).value;
              AccountKey(id, a.chain) in after && after[AccountKey(id, a.chain)] == AccountRow(a.address, a.path)
    {
      var i :| 0 <= i < |list| && list[i] == a;
      assert LastOnChain(list, i);
    }
  }

  /** A save succeeds exactly when the rows it would leave violate no unique (chain, address). */
  lemma SaveSucceedsExactlyWhenResultIsUnique(db: Db, w: Wallet, after: Accounts)
    requires Constraints(db) && DistinctChains(w.accounts) && IsUpserted(db.accounts, w.id, w.accounts, after)
    ensures SaveWallet(db, w).Some? <==> UniqueAddresses(after)
    ensures SaveWallet(db, w).Some? ==> SaveWallet(db, w).value.accounts == after
  {
    UpsertsSucceedExactlyWhenFree(db.accounts, w.id, w.accounts);
    if AllFree(db.accounts, w.id, w.accounts) {
      UpsertedIs(db.accounts, w.id, w.accounts);
      OneUpsertedResult(db.accounts, w.id, w.accounts, after, SaveWallet(db, w).value.accounts);
      UpsertsKeepUnique(db.accounts, w.id, w.accounts);
    } else {
      var a :| a in w.accounts && !Free(db.accounts, w.id, a);
      var k :| k in db.accounts && k.chain == a.chain && db.accounts[k].address == a.address && k.wallet != w.id;
      assert k in after && AccountKey(w.id, a.chain) in after;
    }
  }

  lemma OneUpsertedResult(accounts: Accounts, id: WalletId, list: seq<Account>, a: Accounts, b: Accounts)
    requires IsUpserted(accounts, id, list, a) && IsUpserted(accounts, id, list, b)
    ensures a == b
  {
    forall k: AccountKey
      ensures k in a <==> k in b
      ensures k in a ==> a[k] == b[k]
    {
      if k.wallet == id && HasChain(list, k.chain) {
        var i :| 0 <= i < |list| && list[i].chain == k.chain;
        assert list[i] in list && k == AccountKey(id, list[i].chain);
      }
    }
    assert a.Keys == b.Keys;
  }

  lemma {:induction false} UpsertsKeepUnique(accounts: Accounts, id: WalletId, list: seq<Account>)
    requires UniqueAddresses(accounts) && UpsertAccounts(accounts, id, list).Some?
    ensures UniqueAddresses(UpsertAccounts(accounts, id, list).value)
  {
    if list != [] {
      var n := |list| - 1;
      UpsertsKeepUnique(accounts, id, list[..n]);
      UpsertKeepsUnique(UpsertAccounts(accounts, id, list[..n]).value, id, list[n]);
    }
  }

  lemma UpsertKeepsUnique(accounts: Accounts, id: WalletId, a: Account)
    requires UniqueAddresses(accounts) && UpsertAccount(accounts, id, a).Some?
    ensures UniqueAddresses(UpsertAccount(accounts, id, a).value)
  {
  }

  /** Saves keep every constraint: an address on a chain belongs to one wallet at all times. */
  lemma SaveKeepsConstraints(db: Db, w: Wallet)
    requires Constraints(db) && SaveWallet(db, w).Some?
    ensures Constraints(SaveWallet(db, w).value)
  {
    UpsertedRows(db.accounts, w.id, w.accounts);
    UpsertsKeepUnique(db.accounts, w.id, w.accounts);
  }

  /** Whatever is saved, no wallet or account row disappears and no creation time moves. */
  lemma SavesOnlyAdd(db: Db, w: Wallet)
    requires SaveWallet(db, w).Some?
    ensures var after := SaveWallet(db, w).value;
            && (forall k | k in db.accounts :: k in after.accounts)
            && (forall id | id in db.wallets ::
                  id in after.wallets && after.wallets[id].createdAt == db.wallets[id].createdAt)
            && (forall id | id in after.wallets :: id in db.wallets || id == w.id)
            && (forall k | k in after.accounts && k !in db.accounts ::
                  k.wallet == w.id && HasChain(w.accounts, k.chain))
  {
    UpsertedRows(db.accounts, w.id, w.accounts);
  }

  // ----- Agreement of the two stores ---------------------------------------------------------

  /** `list` is the wallet's rows in some order, each once. */
  ghost predicate ListsAccounts(accounts: Accounts, id: WalletId, list: seq<Account>) {
    && DistinctChains(list)
    && (forall a | a in list ::
          AccountKey(id, a.chain) in accounts && accounts[AccountKey(id, a.chain)] == AccountRow(a.address, a.path))
    && (forall c | AccountKey(id, c) in accounts :: HasChain(list, c))
  }

  /** `w` is what the tables hold under its id, up to the order of accounts. */
  ghost predicate Shows(db: Db, w: Wallet) {
    && w.id in db.wallets
    && db.wallets[w.id] == WalletRow(w.name, w.createdAt)
    && ListsAccounts(db.accounts, w.id, w.accounts)
  }

  ghost predicate Agree(db: Db, mem: map<WalletId, Wallet>) {
    && db.wallets.Keys == mem.Keys
    && forall id | id in mem :: mem[id].id == id && Shows(db, mem[id])
  }

  /** What a save may do without the stores drifting apart: it names each chain once, and repeats the wallet's
      creation time and every chain the wallet already has. */
  ghost predicate Faithful(mem: map<WalletId, Wallet>, w: Wallet) {
    && DistinctChains(w.accounts)
    && (w.id in mem ==>
          && w.createdAt == mem[w.id].createdAt
          && forall c | HasChain(mem[w.id].accounts, c) :: HasChain(w.accounts, c))
  }

  /** After one more save the stores agree again exactly when the save was faithful. */
  lemma AgreeAgainExactlyWhenFaithful(db: Db, mem: map<WalletId, Wallet>, w: Wallet)
    requires Constraints(db) && Agree(db, mem) && SaveWallet(db, w).Some?
    ensures Agree(SaveWallet(db, w).value, mem[w.id := w]) <==> Faithful(mem, w)
  {
    UpsertedRows(db.accounts, w.id, w.accounts);
    var db', mem' := SaveWallet(db, w).value, mem[w.id := w];
    if Faithful(mem, w) {
      FaithfulShows(db, mem, w);
      forall id | id in mem'
        ensures mem'[id].id == id && Shows(db', mem'[id])
      {
        if id != w.id {
          OthersStillShow(db, w, mem[id]);
        }
      }
      assert db'.wallets.Keys == mem'.Keys;
    }
    if Agree(db', mem') {
      assert Shows(db', mem'[w.id]);
      if w.id in mem {
        forall c | HasChain(mem[w.id].accounts, c)
          ensures HasChain(w.accounts, c)
        {
          var i :| 0 <= i < |mem[w.id].accounts| && mem[w.id].accounts[i].chain == c;
          assert mem[w.id].accounts[i] in mem[w.id].accounts;
          assert AccountKey(w.id, c) in db'.accounts;
        }
      }
    }
  }

  lemma FaithfulShows(db: Db, mem: map<WalletId, Wallet>, w: Wallet)
    requires Constraints(db) && Agree(db, mem) && SaveWallet(db, w).Some? && Faithful(mem, w)
    ensures Shows(SaveWallet(db, w).value, w)
  {
    UpsertedRows(db.accounts, w.id, w.accounts);
    var db' := SaveWallet(db, w).value;
    forall a | a in w.accounts
      ensures AccountKey(w.id, a.chain) in db'.accounts
      ensures db'.accounts[AccountKey(w.id, a.chain)] == AccountRow(a.address, a.path)
    {
      var i :| 0 <= i < |w.accounts| && w.accounts[i] == a;
      assert LastOnChain(w.accounts, i);
    }
    forall c | AccountKey(w.id, c) in db'.accounts
      ensures HasChain(w.accounts, c)
    {
      if AccountKey(w.id, c) in db.accounts {
        assert Shows(db, mem[w.id]);
      }
    }
  }

  lemma OthersStillShow(db: Db, w: Wallet, other: Wallet)
    requires SaveWallet(db, w).Some? && other.id != w.id && Shows(db, other)
    ensures Shows(SaveWallet(db, w).value, other)
  {
    UpsertedRows(db.accounts, w.id, w.accounts);
  }

  function Ids(wallets: seq<Wallet>): (ids: seq<WalletId>)
    ensures |ids| == |wallets| && forall i | 0 <= i < |wallets| :: ids[i] == wallets[i].id
  {
    seq(|wallets|, i requires 0 <= i < |wallets| => wallets[i].id)
  }

  predicate DistinctIds(wallets: seq<Wallet>) {
    forall i, j | 0 <= i < j < |wallets| :: wallets[i].id != wallets[j].id
  }

  lemma IdsSnoc(wallets: seq<Wallet>, w: Wallet)
    ensures Ids(wallets + [w]) == Ids(wallets) + [w.id]
    ensures DistinctIds(wallets) && w.id !in Ids(wallets) ==> DistinctIds(wallets + [w])
  {
    assert forall i | 0 <= i < |wallets| :: wallets[i].id == Ids(wallets)[i];
  }

  /** Every wallet of the tables exactly once, as the tables show it. */
  ghost predicate Listed(db: Db, wallets: seq<Wallet>) {
    && (forall w | w in wallets :: Shows(db, w))
    && (forall id | id in db.wallets :: id in Ids(wallets))
    && DistinctIds(wallets)
  }

  /** Every wallet held in memory exactly once. */
  ghost predicate HeldInMemory(mem: map<WalletId, Wallet>, wallets: seq<Wallet>) {
    && (forall w | w in wallets :: w.id in mem && mem[w.id] == w)
    && (forall id | id in mem :: id in Ids(wallets))
    && DistinctIds(wallets)
  }

  /** Histories of successful saves. */
  function DbAfter(saves: seq<Wallet>): Option<Db> {
    if saves == [] then Some(Db(map[], map[], map[]))
    else
      match DbAfter(saves[..|saves| - 1])
      case None => None
      case Some(db) => SaveWallet(db, saves[|saves| - 1])
  }

  function MemAfter(saves: seq<Wallet>): map<WalletId, Wallet> {
    if saves == [] then map[]
    else MemAfter(saves[..|saves| - 1])[saves[|saves| - 1].id := saves[|saves| - 1]]
  }

  /** Each save names distinct chains, and later saves of a wallet keep its creation time and its chains. */
  ghost predicate Growing(saves: seq<Wallet>) {
    && (forall i | 0 <= i < |saves| :: DistinctChains(saves[i].accounts))
    && (forall i, j | 0 <= i < j < |saves| && saves[i].id == saves[j].id :: Extends(saves[i], saves[j]))
  }

  ghost predicate Extends(v: Wallet, w: Wallet) {
    v.createdAt == w.createdAt && forall c | HasChain(v.accounts, c) :: HasChain(w.accounts, c)
  }

  lemma {:induction false} MemHoldsASave(saves: seq<Wallet>, id: WalletId)
    requires id in MemAfter(saves)
    ensures exists i :: 0 <= i < |saves| && saves[i] == MemAfter(saves)[id] && saves[i].id == id
  {
    var n := |saves| - 1;
    if saves[n].id != id {
      MemHoldsASave(saves[..n], id);
      var i :| 0 <= i < n && saves[..n][i] == MemAfter(saves)[id] && saves[..n][i].id == id;
      assert saves[i] == MemAfter(saves)[id];
    }
  }

  /** Over every history of successful saves that only grow wallets, the two stores hold the same wallets. */
  lemma {:induction false} StoresAgree(saves: seq<Wallet>)
    requires DbAfter(saves).Some? && Growing(saves)
    ensures Constraints(DbAfter(saves).value)
    ensures Agree(DbAfter(saves).value, MemAfter(saves))
  {
    if saves != [] {
      var n := |saves| - 1;
      var init, w := saves[..n], saves[n];
      StoresAgree(init);
      var mem := MemAfter(init);
      if w.id in mem {
        MemHoldsASave(init, w.id);
        var i :| 0 <= i < n && init[i] == mem[w.id] && init[i].id == w.id;
        assert Extends(saves[i], w);
      }
      assert DistinctChains(saves[n].accounts);
      AgreeAgainExactlyWhenFaithful(DbAfter(init).value, mem, w);
      SaveKeepsConstraints(DbAfter(init).value, w);
    }
  }

  /** Two listings of one wallet's rows are the same up to order. */
  lemma ListingsArePermutations(accounts: Accounts, id: WalletId, a: seq<Account>, b: seq<Account>)
    requires ListsAccounts(accounts, id, a) && ListsAccounts(accounts, id, b)
    ensures multiset(a) == multiset(b)
  {
    forall x
      ensures multiset(a)[x] == multiset(b)[x]
    {
      CountInDistinct(a, x);
      CountInDistinct(b, x);
      if x in a {
        ListedIn(accounts, id, a, b, x);
      }
      if x in b {
        ListedIn(accounts, id, b, a, x);
      }
    }
  }

  lemma ListedIn(accounts: Accounts, id: WalletId, a: seq<Account>, b: seq<Account>, x: Account)
    requires ListsAccounts(accounts, id, a) && ListsAccounts(accounts, id, b) && x in a
    ensures x in b
  {
    assert HasChain(b, x.chain);
    var i :| 0 <= i < |b| && b[i].chain == x.chain;
    assert b[i] in b && b[i] == x;
  }

  lemma {:induction false} CountInDistinct(list: seq<Account>, x: Account)
    requires DistinctChains(list)
    ensures multiset(list)[x] == if x in list then 1 else 0
  {
    if list != [] {
      var n := |list| - 1;
      CountInDistinct(list[..n], x);
      assert list == list[..n] + [list[n]];
    }
  }

  // ----- The two repositories as objects -----------------------------------------------------

  /** The database all repositories share. */
  class Database {
    var db: Db

    constructor ()
      ensures db == Db(map[], map[], map[])
    {
      db := Db(map[], map[], map[]);
    }
  }

  class PostgresWallet {
    const database: Database

    constructor (database: Database)
      ensures this.database == database
    {
      this.database := database;
    }

    /** The wallet upsert and every account upsert, or none of them. */
    method Save(w: Wallet, outcome: Outcome) returns (ok: bool)
      modifies database
      ensures var after := SaveWallet(old(database.db), w);
              && database.db == (if TakesEffect(outcome) && after.Some? then after.value else old(database.db))
              && ok == (outcome == Fine && after.Some?)
    {
      var wallets, accounts := database.db.wallets, database.db.accounts;
      if w.id in wallets {
        wallets := wallets[w.id := wallets[w.id].(name := w.name)];
      } else {
        wallets := wallets[w.id := WalletRow(w.name, w.createdAt)];
      }
      for i := 0 to |w.accounts|
        invariant UpsertAccounts(database.db.accounts, w.id, w.accounts[..i]) == Some(accounts)
      {
        assert w.accounts[..i + 1][..i] == w.accounts[..i];
        var a := w.accounts[i];
        var key := AccountKey(w.id, a.chain);
        if AddressTaken(accounts, key, a.address) {
          UpsertFailureSpreads(database.db.accounts, w.id, w.accounts, i + 1);
          return false;
        }
        accounts := accounts[key := AccountRow(a.address, a.path)];
      }
      assert w.accounts[..|w.accounts|] == w.accounts;
      if outcome == Fails {
        return false;
      }
      database.db := Db(wallets, accounts, database.db.keystore);
      return outcome == Fine;
    }

    /** The wallet with its accounts in whatever order the database returns them; either query may fail. */
    method Get(id: WalletId, rowFails: bool, accountsFail: bool) returns (r: Lookup)
      ensures r.QueryFailed? <==> rowFails || (id in database.db.wallets && accountsFail)
      ensures r.Missing? <==> !rowFails && id !in database.db.wallets
      ensures r.Found? ==> r.wallet.id == id && Shows(database.db, r.wallet)
    {
      if rowFails {
        return QueryFailed;
      }
      if id !in database.db.wallets {
        return Missing;
      }
      var row := database.db.wallets[id];
      var accounts := AccountsFor(id, accountsFail);
      if accounts.None? {
        return QueryFailed;
      }
      return Found(Wallet(id, row.name, row.createdAt, accounts.value));
    }

    method AccountsFor(id: WalletId, fails: bool) returns (r: Option<seq<Account>>)
      ensures r.None? <==> fails
      ensures r.Some? ==> ListsAccounts(database.db.accounts, id, r.value)
    {
      if fails {
        return None;
      }
      var rows := database.db.accounts;
      var left := set k | k in rows && k.wallet == id;
      var list := [];
      while left != {}
        invariant left <= set k | k in rows && k.wallet == id
        invariant DistinctChains(list)
        invariant forall a | a in list ::
                    && AccountKey(id, a.chain) in rows && AccountKey(id, a.chain) !in left
                    && rows[AccountKey(id, a.chain)] == AccountRow(a.address, a.path)
        invariant forall c | AccountKey(id, c) in rows :: AccountKey(id, c) in left || HasChain(list, c)
        decreases left
      {
        var k :| k in left;
        var a := Account(k.chain, rows[k].address, rows[k].path);
        ghost var before := list;
        list := list + [a];
        assert list[..|list| - 1] == before;
        forall c
          ensures HasChain(list, c) <==> HasChain(before, c) || c == a.chain
        {
          HasChainSnoc(list, c);
        }
        forall i | 0 <= i < |before|
          ensures before[i].chain != a.chain
        {
          assert before[i] in before;
        }
        left := left - {k};
      }
      return Some(list);
    }

    /** The wallet rows, each once, still without accounts. */
    method WalletRows() returns (wallets: seq<Wallet>)
      ensures forall w | w in wallets ::
                w.id in database.db.wallets && database.db.wallets[w.id] == WalletRow(w.name, w.createdAt)
      ensures forall id | id in database.db.wallets :: id in Ids(wallets)
      ensures DistinctIds(wallets)
    {
      var rows := database.db.wallets;
      var left := rows.Keys;
      wallets := [];
      while left != {}
        invariant left <= rows.Keys
        invariant forall w | w in wallets ::
                    w.id in rows && w.id !in left && rows[w.id] == WalletRow(w.name, w.createdAt)
        invariant forall id | id in rows :: id in left || id in Ids(wallets)
        invariant DistinctIds(wallets)
        decreases left
      {
        var id :| id in left;
        IdsSnoc(wallets, Wallet(id, rows[id].name, rows[id].createdAt, []));
        wallets := wallets + [Wallet(id, rows[id].name, rows[id].createdAt, [])];
        left := left - {id};
      }
    }

    /** Every wallet exactly once, or an error if any of the queries fails. */
    method List(rowsFail: bool, accountsFail: set<WalletId>) returns (r: Option<seq<Wallet>>)
      ensures r.None? <==> rowsFail || exists id :: id in database.db.wallets && id in accountsFail
      ensures r.Some? ==> Listed(database.db, r.value)
    {
      if rowsFail {
        return None;
      }
      var wallets := WalletRows();
      ghost var ids := Ids(wallets);
      for i := 0 to |wallets|
        invariant Ids(wallets) == ids && |wallets| == |ids| && DistinctIds(wallets)
        invariant forall j | 0 <= j < i :: Shows(database.db, wallets[j]) && wallets[j].id !in accountsFail
        invariant forall j | i <= j < |wallets| ::
                    && wallets[j].id in database.db.wallets
                    && database.db.wallets[wallets[j].id] == WalletRow(wallets[j].name, wallets[j].createdAt)
      {
        assert Ids(wallets)[i] == wallets[i].id;
        var accounts := AccountsFor(wallets[i].id, wallets[i].id in accountsFail);
        if accounts.None? {
          return None;
        }
        wallets := wallets[i := wallets[i].(accounts := accounts.value)];
        assert Ids(wallets) == ids;
      }
      assert forall id | id in database.db.wallets :: id in Ids(wallets);
      return Some(wallets);
    }
  }

  lemma {:induction false} UpsertFailureSpreads(accounts: Accounts, id: WalletId, list: seq<Account>, i: nat)
    requires i <= |list| && UpsertAccounts(accounts, id, list[..i]).None?
    ensures UpsertAccounts(accounts, id, list).None?
    decreases |list| - i
  {
    if i < |list| {
      assert list[..i + 1][..i] == list[..i];
      UpsertFailureSpreads(accounts, id, list, i + 1);
    } else {
      assert list[..i] == list;
    }
  }

  class InMemoryWallet {
    var wallets: map<WalletId, Wallet>

    /** Wallets are kept under their own id. */
    ghost predicate Valid()
      reads this
    {
      forall id | id in wallets :: wallets[id].id == id
    }

    constructor ()
      ensures Valid() && wallets == map[]
    {
      wallets := map[];
    }

    method Save(w: Wallet)
      requires Valid()
      modifies this
      ensures Valid() && wallets == old(wallets)[w.id := w]
    {
      wallets := wallets[w.id := w];
    }

    method Get(id: WalletId) returns (w: Option<Wallet>)
      requires Valid()
      ensures w.Some? <==> id in wallets
      ensures w.Some? ==> w.value.id == id && wallets[id] == w.value
    {
      if id in wallets {
        return Some(wallets[id]);
      }
      return None;
    }

    method List() returns (out: seq<Wallet>)
      requires Valid()
      ensures HeldInMemory(wallets, out)
    {
      var left := wallets.Keys;
      out := [];
      while left != {}
        invariant left <= wallets.Keys
        invariant forall w | w in out :: w.id in wallets && w.id !in left && wallets[w.id] == w
        invariant forall id | id in wallets :: id in left || id in Ids(out)
        invariant DistinctIds(out)
        decreases left
      {
        var id :| id in left;
        IdsSnoc(out, wallets[id]);
        out := out + [wallets[id]];
        left := left - {id};
      }
    }
  }

  /** One wallet, its accounts in two orders. */
  predicate SameUpToOrder(v: Wallet, w: Wallet) {
    v.id == w.id && v.name == w.name && v.createdAt == w.createdAt && multiset(v.accounts) == multiset(w.accounts)
  }

  /** Stores that agree answer alike: any wallet the tables may return for an id is the one in memory. */
  lemma AgreeingStoresAnswerAlike(db: Db, mem: map<WalletId, Wallet>, w: Wallet)
    requires Agree(db, mem) && Shows(db, w)
    ensures w.id in mem && SameUpToOrder(w, mem[w.id])
  {
    ListingsArePermutations(db.accounts, w.id, w.accounts, mem[w.id].accounts);
  }

  lemma {:induction false} CountOfDistinctId(wallets: seq<Wallet>, id: WalletId)
    requires DistinctIds(wallets)
    ensures multiset(Ids(wallets))[id] == if id in Ids(wallets) then 1 else 0
  {
    if wallets != [] {
      var n := |wallets| - 1;
      CountOfDistinctId(wallets[..n], id);
      IdsSnoc(wallets[..n], wallets[n]);
      assert wallets == wallets[..n] + [wallets[n]];
      assert forall i | 0 <= i < n :: Ids(wallets[..n])[i] == wallets[i].id;
    }
  }

  /**
   * And they list alike: the same number of wallets, the same ids each once, and under each id the same wallet, up to
   * the order of the wallets and of their accounts.
   */
  lemma AgreeingStoresListAlike(db: Db, mem: map<WalletId, Wallet>, a: seq<Wallet>, b: seq<Wallet>)
    requires Agree(db, mem) && Listed(db, a) && HeldInMemory(mem, b)
    ensures |a| == |b| && multiset(Ids(a)) == multiset(Ids(b))
    ensures forall i, j | 0 <= i < |a| && 0 <= j < |b| && a[i].id == b[j].id :: SameUpToOrder(a[i], b[j])
  {
    forall id
      ensures multiset(Ids(a))[id] == multiset(Ids(b))[id]
    {
      CountOfDistinctId(a, id);
      CountOfDistinctId(b, id);
      ListedIds(db, mem, a, b, id);
    }
    assert multiset(Ids(a)) == multiset(Ids(b));
    assert |Ids(a)| == |multiset(Ids(a))| && |Ids(b)| == |multiset(Ids(b))|;
    forall i, j | 0 <= i < |a| && 0 <= j < |b| && a[i].id == b[j].id
      ensures SameUpToOrder(a[i], b[j])
    {
      assert a[i] in a && b[j] in b;
      AgreeingStoresAnswerAlike(db, mem, a[i]);
    }
  }

  lemma ListedIds(db: Db, mem: map<WalletId, Wallet>, a: seq<Wallet>, b: seq<Wallet>, id: WalletId)
    requires Agree(db, mem) && Listed(db, a) && HeldInMemory(mem, b)
    ensures id in Ids(a) <==> id in db.wallets
    ensures id in Ids(b) <==> id in db.wallets
  {
    assert db.wallets.Keys == mem.Keys;
    if id in Ids(a) {
      var i :| 0 <= i < |a| && Ids(a)[i] == id;
      assert a[i] in a;
    }
    if id in Ids(b) {
      var i :| 0 <= i < |b| && Ids(b)[i] == id;
      assert b[i] in b;
    }
  }
}
