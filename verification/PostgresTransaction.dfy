/** The transaction repository as it is stored: serial row ids, timestamps, foreign keys, rollback. */
module PostgresTransactions {
  import opened Domain
  import opened TransactionTables

  /** A transaction row with the parts that `Tables` leaves out. */
  datatype TxRow = TxRow(id: nat, cols: TxCols, observedAt: int, confirmedAt: Option<int>)

  datatype LinkRowKey = LinkRowKey(txId: nat, address: Address, role: Role)

  type TxRows = map<TxKey, TxRow>

  type LinkRows = map<LinkRowKey, Link>

  /** What the database does with one transaction. `CommitReplyLost` commits, yet reports an error. */
  datatype DbOutcome = Fine | BeginFails | InsertFails | LinkFails | CommitFails | CommitReplyLost

  /** Which row has an id; kept only to state that ids are unique. */
  type RowIndex = map<nat, TxKey>

  /** Row ids are unique and drawn from the sequence, and a row is stamped exactly when confirmed_at is set. */
  ghost predicate GoodRows(rows: TxRows, index: RowIndex, nextId: nat) {
    && (forall k | k in rows ::
          && rows[k].id < nextId && rows[k].id in index && index[rows[k].id] == k
          && rows[k].cols.stamped == rows[k].confirmedAt.Some?)
    && (forall id | id in index :: index[id] in rows && rows[index[id]].id == id)
  }

  /** Both foreign keys of tx_addresses hold. */
  ghost predicate GoodLinks(links: LinkRows, index: RowIndex, wallets: set<WalletId>) {
    forall l | l in links :: l.txId in index && links[l].wallet in wallets
  }

  function RowKeyOf(rows: TxRows, l: LinkKey): LinkRowKey
    requires l.tx in rows
  {
    LinkRowKey(rows[l.tx].id, l.address, l.role)
  }

  predicate Linked(rows: TxRows, links: LinkRows, l: LinkKey) {
    l.tx in rows && RowKeyOf(rows, l) in links
  }

  /** `t` is what is stored, up to ids and timestamps. */
  ghost predicate Shows(rows: TxRows, links: LinkRows, t: Tables) {
    && t.txs.Keys == rows.Keys
    && (forall k | k in rows :: t.txs[k] == rows[k].cols)
    && (forall l :: l in t.links <==> Linked(rows, links, l))
    && (forall l | Linked(rows, links, l) :: t.links[l] == links[RowKeyOf(rows, l)])
  }

  /** The id a row with this key has, or would get from the sequence. */
  function IdFor(rows: TxRows, key: TxKey, drawn: nat): nat {
    if key in rows then rows[key].id else drawn
  }

  /** The row after INSERT ... ON CONFLICT (chain, hash) DO UPDATE, executed at instant `now`. */
  function UpsertedRow(rows: TxRows, evt: TxEvent, drawn: nat, now: int): (row: TxRow)
    ensures row.id == IdFor(rows, KeyOf(evt), drawn)
    ensures row.cols.stamped == row.confirmedAt.Some?
  {
    var stamp := if evt.status == Confirmed then Some(now) else None;
    var key := KeyOf(evt);
    if key in rows then
      rows[key].(cols := rows[key].cols.(status := evt.status, height := HeightOrNull(evt.height),
                                         stamped := stamp.Some?),
                 confirmedAt := stamp)
    else
      var (from, to) := FromTo(evt);
      TxRow(drawn,
            TxCols(evt.status, from, to, evt.amount, evt.symbol, HeightOrNull(evt.height), stamp.Some?),
            now, stamp)
  }

  /**
   * What a save at instant `now` does to ids and timestamps: the row is stamped now if the event is confirmed and not
   * at all otherwise, an existing row keeps its id and when it was first observed, and no other row is touched.
   */
  ghost predicate StampedAt(rows: TxRows, after: TxRows, evt: TxEvent, now: int) {
    var key := KeyOf(evt);
    && key in after
    && after[key].confirmedAt == (if evt.status == Confirmed then Some(now) else None)
    && (key in rows ==> after[key].id == rows[key].id && after[key].observedAt == rows[key].observedAt)
    && (key !in rows ==> after[key].observedAt == now && forall k | k in rows :: rows[k].id != after[key].id)
    && (forall k | k != key :: (k in after <==> k in rows) && (k in rows ==> after[k] == rows[k]))
  }

  /** The link table after the insert-if-absent, in terms of row ids. */
  function StoreLink(links: LinkRows, id: nat, d: Delivery): LinkRows {
    match LinkKeyOf(d.event)
    case None => links
    case Some(l) =>
      var r := LinkRowKey(id, l.address, l.role);
      if r in links then links else links[r := LinkOf(d)]
  }

  /** Storing one row and its link changes what is linked as `SaveLink` says, seen one link key at a time. */
  lemma StoredLinkAt(rows: TxRows, links: LinkRows, index: RowIndex, nextId: nat, wallets: set<WalletId>,
                     d: Delivery, row: TxRow, m: LinkKey)
    requires GoodRows(rows, index, nextId) && GoodLinks(links, index, wallets)
    requires row.id == IdFor(rows, KeyOf(d.event), nextId)
    ensures var rows', links' := rows[KeyOf(d.event) := row], StoreLink(links, row.id, d);
            && (Linked(rows', links', m) <==> Linked(rows, links, m) || LinkKeyOf(d.event) == Some(m))
            && (Linked(rows, links, m) ==> links'[RowKeyOf(rows', m)] == links[RowKeyOf(rows, m)])
            && (!Linked(rows, links, m) && LinkKeyOf(d.event) == Some(m) ==>
                  links'[RowKeyOf(rows', m)] == LinkOf(d))
    ensures LinkKeyOf(d.event) == Some(m) ==>
              (Linked(rows, links, m) <==> LinkRowKey(row.id, m.address, m.role) in links)
  {
    assert nextId !in index;
  }

  /** Ids stay unique, and the stored links within both foreign keys when the inserted one is. */
  lemma StoredGood(rows: TxRows, links: LinkRows, index: RowIndex, nextId: nat, wallets: set<WalletId>,
                   d: Delivery, row: TxRow)
    requires GoodRows(rows, index, nextId) && GoodLinks(links, index, wallets)
    requires row.id == IdFor(rows, KeyOf(d.event), nextId) && row.cols.stamped == row.confirmedAt.Some?
    requires var l := LinkKeyOf(d.event);
             l.None? || LinkRowKey(row.id, l.value.address, l.value.role) in links || d.wallet in wallets
    ensures GoodRows(rows[KeyOf(d.event) := row], index[row.id := KeyOf(d.event)], nextId + 1)
    ensures GoodLinks(StoreLink(links, row.id, d), index[row.id := KeyOf(d.event)], wallets)
  {
  }

  /** The two statements together, on the stored tables, are one abstract save. */
  lemma StoringIsSave(rows: TxRows, links: LinkRows, t: Tables, index: RowIndex, nextId: nat, wallets: set<WalletId>,
                      d: Delivery, row: TxRow)
    requires GoodRows(rows, index, nextId) && GoodLinks(links, index, wallets) && Shows(rows, links, t)
    requires row.id == IdFor(rows, KeyOf(d.event), nextId)
    requires row.cols == SaveTx(t.txs, d.event)[KeyOf(d.event)]
    ensures Shows(rows[KeyOf(d.event) := row], StoreLink(links, row.id, d), Save(t, d))
    ensures var l := LinkKeyOf(d.event);
            l.Some? ==> (l.value in t.links <==> LinkRowKey(row.id, l.value.address, l.value.role) in links)
  {
    var rows', links', t' := rows[KeyOf(d.event) := row], StoreLink(links, row.id, d), Save(t, d);
    forall l
      ensures l in t'.links <==> Linked(rows', links', l)
      ensures Linked(rows', links', l) ==> t'.links[l] == links'[RowKeyOf(rows', l)]
    {
      StoredLinkAt(rows, links, index, nextId, wallets, d, row, l);
    }
    if LinkKeyOf(d.event).Some? {
      StoredLinkAt(rows, links, index, nextId, wallets, d, row, LinkKeyOf(d.event).value);
    }
  }

  class PostgresTransaction {
    var rows: TxRows
    var links: LinkRows
    var nextId: nat
    /** The ids present in `wallets`, which tx_addresses.wallet_id references. */
    const wallets: set<WalletId>
    ghost var index: RowIndex
    /** Every save that was committed, in order. */
    ghost var log: seq<Delivery>
    /** The stored tables, up to ids and timestamps. */
    ghost var tables: Tables

    ghost predicate Valid()
      reads this
    {
      GoodRows(rows, index, nextId) && GoodLinks(links, index, wallets) && Shows(rows, links, tables)
    }

    /** The tables are what the logged saves leave; true from the start and kept by every save. */
    ghost predicate LogTellsAll()
      reads this
    {
      tables == SaveAll(log)
    }

    constructor (wallets: set<WalletId>)
      ensures Valid() && LogTellsAll() && log == [] && this.wallets == wallets
    {
      rows, links, nextId := map[], map[], 0;
      this.wallets := wallets;
      index, log, tables := map[], [], EMPTY;
    }

    /** What the link statement needs: the row is already there, or the referenced wallet is. */
    ghost predicate LinkAllowed(d: Delivery)
      reads this
    {
      var l := LinkKeyOf(d.event);
      l.None? || l.value in tables.links || d.wallet in wallets
    }

    /** The two statements, run on the transaction's own copy of the tables; None when one of them fails. */
    method Statements(d: Delivery, now: int, db: DbOutcome)
      returns (copy: Option<(TxRows, LinkRows)>, ghost newIndex: RowIndex)
      requires Valid()
      ensures copy.Some? == (db !in {InsertFails, LinkFails} && LinkAllowed(d))
      ensures copy.Some? ==>
                && GoodRows(copy.value.0, newIndex, nextId + 1)
                && GoodLinks(copy.value.1, newIndex, wallets)
                && Shows(copy.value.0, copy.value.1, Save(tables, d))
                && StampedAt(rows, copy.value.0, d.event, now)
    {
      if db == InsertFails {
        return None, index;
      }
      var evt := d.event;
      var row := UpsertedRow(rows, evt, nextId, now);
      StoringIsSave(rows, links, tables, index, nextId, wallets, d, row);
      var role := RoleFor(evt.kind);
      var newLinks := links;
      if role.Some? {
        var linkKey := LinkRowKey(row.id, evt.address, role.value);
        if linkKey !in links {
          if d.wallet !in wallets {
            return None, index;
          }
          newLinks := links[linkKey := Link(d.wallet, evt.chain)];
        }
      }
      if db == LinkFails {
        return None, index;
      }
      assert newLinks == StoreLink(links, row.id, d);
      StoredGood(rows, links, index, nextId, wallets, d, row);
      return Some((rows[KeyOf(evt) := row], newLinks)), index[row.id := KeyOf(evt)];
    }

    /**
     * All or nothing: the tables take the whole save or stay as they were. A nil error means the save was
     * taken; it is refused when a statement or the commit fails, or when the wallet is unknown to the foreign
     * key of a link that is not there yet.
     */
    method SaveEvent(walletId: WalletId, evt: TxEvent, now: int, db: DbOutcome) returns (ok: bool)
      requires Valid()
      modifies this
      ensures Valid()
      ensures var d := Delivery(walletId, evt);
              var taken := (db == Fine || db == CommitReplyLost) && old(LinkAllowed(d));
              && tables == (if taken then Save(old(tables), d) else old(tables))
              && log == (if taken then old(log) + [d] else old(log))
      ensures var d := Delivery(walletId, evt);
              var taken := (db == Fine || db == CommitReplyLost) && old(LinkAllowed(d));
              && ok == (taken && db == Fine)
              && (if taken then StampedAt(old(rows), rows, evt, now) else rows == old(rows))
    {
      if db == BeginFails {
        return false;
      }
      ghost var newIndex;
      var copy;
      copy, newIndex := Statements(Delivery(walletId, evt), now, db);
      // The insert draws an id from the sequence even when the key is taken or all is rolled back.
      nextId := nextId + 1;
      if copy.None? || db == CommitFails {
        return false;
      }
      Commit(copy.value.0, copy.value.1, newIndex, Delivery(walletId, evt));
      return db == Fine;
    }

    /** The transaction's copy of the tables becomes the tables. */
    method Commit(newRows: TxRows, newLinks: LinkRows, ghost newIndex: RowIndex, ghost d: Delivery)
      requires GoodRows(newRows, newIndex, nextId) && GoodLinks(newLinks, newIndex, wallets)
      requires Shows(newRows, newLinks, Save(tables, d))
      modifies this`rows, this`links, this`index, this`tables, this`log
      ensures Valid() && rows == newRows
      ensures tables == Save(old(tables), d) && log == old(log) + [d]
    {
      rows, links := newRows, newLinks;
      index, tables, log := newIndex, Save(tables, d), log + [d];
    }
  }
}
