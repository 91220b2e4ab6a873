/**
 * The `transactions` and `tx_addresses` tables up to row ids and timestamps, and what a sequence of event
 * saves makes of them.
 */
module TransactionTables {
  import opened Domain

  datatype Role = Sender | Receiver

  datatype TxKey = TxKey(chain: ChainId, hash: string)

  /** The columns of a transaction row; `stamped` says whether confirmed_at is set. */
  datatype TxCols = TxCols(
    status: TxStatus,
    from: Option<Address>,
    to: Option<Address>,
    amount: int,
    symbol: string,
    height: Option<int>,
    stamped: bool)

  datatype LinkKey = LinkKey(tx: TxKey, address: Address, role: Role)

  /** A link row names the wallet; its chain column repeats the transaction's. */
  datatype Link = Link(wallet: WalletId, chain: ChainId)

  datatype Tables = Tables(txs: map<TxKey, TxCols>, links: map<LinkKey, Link>)

  /** One call of SaveEvent: the event and the wallet it is attributed to. */
  datatype Delivery = Delivery(wallet: WalletId, event: TxEvent)

  const EMPTY := Tables(map[], map[])

  // ----- Columns of a single event -----------------------------------------------------------

  function NonEmpty(s: string): Option<string> {
    if s == "" then None else Some(s)
  }

  function FromTo(e: TxEvent): (Option<Address>, Option<Address>) {
    match e.kind
    case Outbound => (Some(e.address), NonEmpty(e.counterparty))
    case Inbound => (NonEmpty(e.counterparty), Some(e.address))
    case Confirmation => (None, None)
  }

  function HeightOrNull(h: nat): Option<int> {
    if h == 0 then None else Some(ToInt64(h))
  }

  function RoleFor(kind: EventType): Option<Role> {
    match kind
    case Outbound => Some(Sender)
    case Inbound => Some(Receiver)
    case Confirmation => None
  }

  function KeyOf(e: TxEvent): TxKey {
    TxKey(e.chain, e.hash)
  }

  /** The row that the event inserts when its key is new. */
  function ColsOf(e: TxEvent): TxCols {
    TxCols(e.status, FromTo(e).0, FromTo(e).1, e.amount, e.symbol, HeightOrNull(e.height), e.status == Confirmed)
  }

  function LinkKeyOf(e: TxEvent): Option<LinkKey> {
    match RoleFor(e.kind)
    case None => None
    case Some(role) => Some(LinkKey(KeyOf(e), e.address, role))
  }

  function LinkOf(d: Delivery): Link {
    Link(d.wallet, d.event.chain)
  }

  /** The columns and the link of one event, case by case. */
  lemma EventInColumns(e: TxEvent)
    ensures ColsOf(e).status == e.status && ColsOf(e).amount == e.amount && ColsOf(e).symbol == e.symbol
    ensures ColsOf(e).stamped <==> e.status == Confirmed
    ensures ColsOf(e).height.None? <==> e.height == 0
    ensures 0 < e.height < TWO_TO_THE_63 ==> ColsOf(e).height == Some(e.height)
    ensures e.kind == Outbound ==>
              && ColsOf(e).from == Some(e.address) && (ColsOf(e).to.None? <==> e.counterparty == "")
              && (ColsOf(e).to.Some? ==> ColsOf(e).to.value == e.counterparty)
              && LinkKeyOf(e) == Some(LinkKey(TxKey(e.chain, e.hash), e.address, Sender))
    ensures e.kind == Inbound ==>
              && ColsOf(e).to == Some(e.address) && (ColsOf(e).from.None? <==> e.counterparty == "")
              && (ColsOf(e).from.Some? ==> ColsOf(e).from.value == e.counterparty)
              && LinkKeyOf(e) == Some(LinkKey(TxKey(e.chain, e.hash), e.address, Receiver))
    ensures e.kind == Confirmation ==> ColsOf(e).from.None? && ColsOf(e).to.None? && LinkKeyOf(e).None?
  {
  }

  // ----- One save, and a sequence of saves ---------------------------------------------------

  function SaveTx(txs: map<TxKey, TxCols>, e: TxEvent): map<TxKey, TxCols> {
    var k := KeyOf(e);
    if k in txs then
      txs[k := txs[k].(status := e.status, height := HeightOrNull(e.height), stamped := e.status == Confirmed)]
    else
      txs[k := ColsOf(e)]
  }

  function SaveLink(links: map<LinkKey, Link>, d: Delivery): map<LinkKey, Link> {
    match LinkKeyOf(d.event)
    case None => links
    case Some(l) => if l in links then links else links[l := LinkOf(d)]
  }

  /** The upsert into `transactions` followed by the insert-if-absent into `tx_addresses`. */
  function Save(t: Tables, d: Delivery): Tables {
    Tables(SaveTx(t.txs, d.event), SaveLink(t.links, d))
  }

  /** The tables after a sequence of saves, starting from empty ones. */
  function SaveAll(ds: seq<Delivery>): Tables {
    if ds == [] then EMPTY else Save(SaveAll(ds[..|ds| - 1]), ds[|ds| - 1])
  }

  lemma SaveAllSnoc(ds: seq<Delivery>, d: Delivery)
    ensures SaveAll(ds + [d]) == Save(SaveAll(ds), d)
  {
    assert (ds + [d])[..|ds|] == ds;
  }

  // ----- An independent description of the result --------------------------------------------

  ghost predicate FirstOfTx(ds: seq<Delivery>, i: nat) {
    i < |ds| && forall j | 0 <= j < i :: KeyOf(ds[j].event) != KeyOf(ds[i].event)
  }

  ghost predicate LastOfTx(ds: seq<Delivery>, i: nat) {
    i < |ds| && forall j | i < j < |ds| :: KeyOf(ds[j].event) != KeyOf(ds[i].event)
  }

  ghost predicate FirstOfLink(ds: seq<Delivery>, i: nat) {
    && i < |ds|
    && LinkKeyOf(ds[i].event).Some?
    && forall j | 0 <= j < i :: LinkKeyOf(ds[j].event) != LinkKeyOf(ds[i].event)
  }

  /** The columns an existing row keeps whatever arrives later. */
  predicate SameIdentity(a: TxCols, b: TxCols) {
    a.from == b.from && a.to == b.to && a.amount == b.amount && a.symbol == b.symbol
  }

  /** The columns every save overwrites. */
  predicate SameProgress(a: TxCols, b: TxCols) {
    a.status == b.status && a.height == b.height && a.stamped == b.stamped
  }

  predicate HasTx(ds: seq<Delivery>, k: TxKey) {
    exists i :: 0 <= i < |ds| && KeyOf(ds[i].event) == k
  }

  predicate HasLink(ds: seq<Delivery>, l: LinkKey) {
    exists i :: 0 <= i < |ds| && LinkKeyOf(ds[i].event) == Some(l)
  }

  /** A row per key; addresses, amount and asset of its first event, status, height and stamp of its last. */
  ghost predicate DescribesTxs(ds: seq<Delivery>, txs: map<TxKey, TxCols>) {
    && (forall k :: k in txs <==> HasTx(ds, k))
    && (forall i: nat | FirstOfTx(ds, i) ::
          KeyOf(ds[i].event) in txs && SameIdentity(txs[KeyOf(ds[i].event)], ColsOf(ds[i].event)))
    && (forall i: nat | LastOfTx(ds, i) ::
          KeyOf(ds[i].event) in txs && SameProgress(txs[KeyOf(ds[i].event)], ColsOf(ds[i].event)))
  }

  /** A link per link key, with the wallet of its first delivery. */
  ghost predicate DescribesLinks(ds: seq<Delivery>, links: map<LinkKey, Link>) {
    && (forall l :: l in links <==> HasLink(ds, l))
    && (forall i: nat | FirstOfLink(ds, i) ::
          LinkKeyOf(ds[i].event).value in links && links[LinkKeyOf(ds[i].event).value] == LinkOf(ds[i]))
  }

  /** The whole content of the tables in terms of the sequence of deliveries. */
  ghost predicate Describes(ds: seq<Delivery>, t: Tables) {
    DescribesTxs(ds, t.txs) && DescribesLinks(ds, t.links)
  }

  lemma {:induction false} SaveAllDescribed(ds: seq<Delivery>)
    ensures Describes(ds, SaveAll(ds))
  {
    if ds != [] {
      SaveAllDescribed(ds[..|ds| - 1]);
      SaveTxDescribed(ds, SaveAll(ds[..|ds| - 1]).txs);
      SaveLinkDescribed(ds, SaveAll(ds[..|ds| - 1]).links);
    }
  }

  lemma SaveTxDescribed(ds: seq<Delivery>, before: map<TxKey, TxCols>)
    requires ds != [] && DescribesTxs(ds[..|ds| - 1], before)
    ensures DescribesTxs(ds, SaveTx(before, ds[|ds| - 1].event))
  {
    var txs := SaveTx(before, ds[|ds| - 1].event);
    forall k
      ensures k in txs <==> HasTx(ds, k)
    {
      HasTxSnoc(ds, k);
    }
    forall i: nat | FirstOfTx(ds, i)
      ensures KeyOf(ds[i].event) in txs && SameIdentity(txs[KeyOf(ds[i].event)], ColsOf(ds[i].event))
    {
      SaveTxKeepsFirst(ds, before, i);
    }
    forall i: nat | LastOfTx(ds, i)
      ensures KeyOf(ds[i].event) in txs && SameProgress(txs[KeyOf(ds[i].event)], ColsOf(ds[i].event))
    {
      SaveTxTakesLast(ds, before, i);
    }
  }

  lemma SaveTxKeepsFirst(ds: seq<Delivery>, before: map<TxKey, TxCols>, i: nat)
    requires ds != [] && DescribesTxs(ds[..|ds| - 1], before) && FirstOfTx(ds, i)
    ensures var txs := SaveTx(before, ds[|ds| - 1].event);
            KeyOf(ds[i].event) in txs && SameIdentity(txs[KeyOf(ds[i].event)], ColsOf(ds[i].event))
  {
    var init := ds[..|ds| - 1];
    if i < |init| {
      assert FirstOfTx(init, i);
    } else {
      assert !HasTx(init, KeyOf(ds[i].event));
    }
  }

  lemma SaveTxTakesLast(ds: seq<Delivery>, before: map<TxKey, TxCols>, i: nat)
    requires ds != [] && DescribesTxs(ds[..|ds| - 1], before) && LastOfTx(ds, i)
    ensures var txs := SaveTx(before, ds[|ds| - 1].event);
            KeyOf(ds[i].event) in txs && SameProgress(txs[KeyOf(ds[i].event)], ColsOf(ds[i].event))
  {
    var init := ds[..|ds| - 1];
    if i < |init| {
      assert LastOfTx(init, i);
      assert KeyOf(ds[|init|].event) != KeyOf(ds[i].event);
    }
  }

  lemma HasTxSnoc(ds: seq<Delivery>, k: TxKey)
    requires ds != []
    ensures HasTx(ds, k) <==> HasTx(ds[..|ds| - 1], k) || KeyOf(ds[|ds| - 1].event) == k
  {
    var init := ds[..|ds| - 1];
    if HasTx(init, k) {
      var i :| 0 <= i < |init| && KeyOf(init[i].event) == k;
      assert ds[i] == init[i];
    }
    if HasTx(ds, k) {
      var i :| 0 <= i < |ds| && KeyOf(ds[i].event) == k;
      assert i < |init| ==> init[i] == ds[i];
    }
  }

  lemma SaveLinkDescribed(ds: seq<Delivery>, before: map<LinkKey, Link>)
    requires ds != [] && DescribesLinks(ds[..|ds| - 1], before)
    ensures DescribesLinks(ds, SaveLink(before, ds[|ds| - 1]))
  {
    var n := |ds| - 1;
    var init, d, links := ds[..n], ds[n], SaveLink(before, ds[n]);
    forall l
      ensures l in links <==> HasLink(ds, l)
    {
      HasLinkSnoc(ds, l);
    }
    forall i: nat | FirstOfLink(ds, i)
      ensures LinkKeyOf(ds[i].event).value in links && links[LinkKeyOf(ds[i].event).value] == LinkOf(ds[i])
    {
      if i < n {
        assert FirstOfLink(init, i);
      } else {
        assert !HasLink(init, LinkKeyOf(d.event).value);
      }
    }
  }

  lemma HasLinkSnoc(ds: seq<Delivery>, l: LinkKey)
    requires ds != []
    ensures HasLink(ds, l) <==> HasLink(ds[..|ds| - 1], l) || LinkKeyOf(ds[|ds| - 1].event) == Some(l)
  {
    var init := ds[..|ds| - 1];
    if HasLink(init, l) {
      var i :| 0 <= i < |init| && LinkKeyOf(init[i].event) == Some(l);
      assert ds[i] == init[i];
    }
    if HasLink(ds, l) {
      var i :| 0 <= i < |ds| && LinkKeyOf(ds[i].event) == Some(l);
      assert i < |init| ==> init[i] == ds[i];
    }
  }

  /** The description leaves no freedom: two tables it fits are the same. */
  lemma DescriptionIsUnique(ds: seq<Delivery>, t: Tables, u: Tables)
    requires Describes(ds, t) && Describes(ds, u)
    ensures t == u
  {
    forall k | k in t.txs || k in u.txs
      ensures k in t.txs && k in u.txs && t.txs[k] == u.txs[k]
    {
      var i, j := FirstAndLast(ds, k);
    }
    forall l | l in t.links || l in u.links
      ensures l in t.links && l in u.links && t.links[l] == u.links[l]
    {
      var i := FirstLink(ds, l);
    }
    SameMap(t.txs, u.txs);
    SameMap(t.links, u.links);
  }

  lemma SameMap<K, V>(m: map<K, V>, n: map<K, V>)
    requires forall k | k in m :: k in n && m[k] == n[k]
    requires forall k | k in n :: k in m && m[k] == n[k]
    ensures m == n
  {
    assert m.Keys == n.Keys;
  }

  lemma FirstAndLast(ds: seq<Delivery>, k: TxKey) returns (first: nat, last: nat)
    requires HasTx(ds, k)
    ensures FirstOfTx(ds, first) && LastOfTx(ds, last)
    ensures KeyOf(ds[first].event) == k == KeyOf(ds[last].event)
  {
    var i :| 0 <= i < |ds| && KeyOf(ds[i].event) == k;
    first, last := 0, |ds| - 1;
    while KeyOf(ds[first].event) != k
      invariant first <= i
      invariant forall j | 0 <= j < first :: KeyOf(ds[j].event) != k
      decreases i - first
    {
      first := first + 1;
    }
    while KeyOf(ds[last].event) != k
      invariant i <= last < |ds|
      invariant forall j | last < j < |ds| :: KeyOf(ds[j].event) != k
      decreases last
    {
      last := last - 1;
    }
  }

  lemma FirstLink(ds: seq<Delivery>, l: LinkKey) returns (first: nat)
    requires HasLink(ds, l)
    ensures FirstOfLink(ds, first) && LinkKeyOf(ds[first].event) == Some(l)
  {
    var i :| 0 <= i < |ds| && LinkKeyOf(ds[i].event) == Some(l);
    first := 0;
    while LinkKeyOf(ds[first].event) != Some(l)
      invariant first <= i
      invariant forall j | 0 <= j < first :: LinkKeyOf(ds[j].event) != Some(l)
      decreases i - first
    {
      first := first + 1;
    }
  }

  // ----- When only the set of deliveries matters ---------------------------------------------

  /** Deliveries about one transaction agree on its columns, and about one link on its wallet. */
  predicate Compatible(c: Delivery, d: Delivery) {
    && (KeyOf(c.event) == KeyOf(d.event) ==> ColsOf(c.event) == ColsOf(d.event))
    && (LinkKeyOf(c.event).Some? && LinkKeyOf(c.event) == LinkKeyOf(d.event) ==> c.wallet == d.wallet)
  }

  predicate AllCompatible(ds: seq<Delivery>) {
    forall c, d | c in ds && d in ds :: Compatible(c, d)
  }

  /** The tables that simply list what a collection of deliveries says, each row on its own. */
  ghost predicate ListsTxs(ds: seq<Delivery>, txs: map<TxKey, TxCols>) {
    && (forall k :: k in txs <==> HasTx(ds, k))
    && (forall d | d in ds :: KeyOf(d.event) in txs && txs[KeyOf(d.event)] == ColsOf(d.event))
  }

  ghost predicate ListsLinks(ds: seq<Delivery>, links: map<LinkKey, Link>) {
    && (forall l :: l in links <==> HasLink(ds, l))
    && (forall d | d in ds && LinkKeyOf(d.event).Some? ::
          LinkKeyOf(d.event).value in links && links[LinkKeyOf(d.event).value] == LinkOf(d))
  }

  ghost predicate Lists(ds: seq<Delivery>, t: Tables) {
    ListsTxs(ds, t.txs) && ListsLinks(ds, t.links)
  }

  /** Saving compatible deliveries, in any order and any number of times, lists them. */
  lemma SaveAllLists(ds: seq<Delivery>)
    requires AllCompatible(ds)
    ensures Lists(ds, SaveAll(ds))
  {
    SaveAllDescribed(ds);
    ListsTxsWhenCompatible(ds, SaveAll(ds).txs);
    ListsLinksWhenCompatible(ds, SaveAll(ds).links);
  }

  lemma ListsTxsWhenCompatible(ds: seq<Delivery>, txs: map<TxKey, TxCols>)
    requires AllCompatible(ds) && DescribesTxs(ds, txs)
    ensures ListsTxs(ds, txs)
  {
    forall d | d in ds
      ensures KeyOf(d.event) in txs && txs[KeyOf(d.event)] == ColsOf(d.event)
    {
      var i :| 0 <= i < |ds| && ds[i] == d;
      var first, last := FirstAndLast(ds, KeyOf(d.event));
      assert Compatible(ds[first], d) && Compatible(ds[last], d);
    }
  }

  lemma ListsLinksWhenCompatible(ds: seq<Delivery>, links: map<LinkKey, Link>)
    requires AllCompatible(ds) && DescribesLinks(ds, links)
    ensures ListsLinks(ds, links)
  {
    forall d | d in ds && LinkKeyOf(d.event).Some?
      ensures LinkKeyOf(d.event).value in links && links[LinkKeyOf(d.event).value] == LinkOf(d)
    {
      var i :| 0 <= i < |ds| && ds[i] == d;
      var first := FirstLink(ds, LinkKeyOf(d.event).value);
      assert Compatible(ds[first], d);
    }
  }

  /** Two sequences with the same elements leave the same tables: re-scans and duplicates change nothing. */
  lemma OrderAndRepetitionDoNotMatter(ds: seq<Delivery>, es: seq<Delivery>)
    requires AllCompatible(ds)
    requires forall d :: d in ds <==> d in es
    ensures SaveAll(ds) == SaveAll(es)
  {
    SaveAllLists(ds);
    SaveAllLists(es);
    SameTxs(ds, es, SaveAll(ds).txs, SaveAll(es).txs);
    SameTxs(es, ds, SaveAll(es).txs, SaveAll(ds).txs);
    SameLinks(ds, es, SaveAll(ds).links, SaveAll(es).links);
    SameLinks(es, ds, SaveAll(es).links, SaveAll(ds).links);
    SameMap(SaveAll(ds).txs, SaveAll(es).txs);
    SameMap(SaveAll(ds).links, SaveAll(es).links);
  }

  lemma SameTxs(ds: seq<Delivery>, es: seq<Delivery>, t: map<TxKey, TxCols>, u: map<TxKey, TxCols>)
    requires ListsTxs(ds, t) && ListsTxs(es, u) && (forall d | d in ds :: d in es)
    ensures forall k | k in t :: k in u && t[k] == u[k]
  {
    forall k | k in t
      ensures k in u && t[k] == u[k]
    {
      var i :| 0 <= i < |ds| && KeyOf(ds[i].event) == k;
      assert ds[i] in es;
    }
  }

  lemma SameLinks(ds: seq<Delivery>, es: seq<Delivery>, t: map<LinkKey, Link>, u: map<LinkKey, Link>)
    requires ListsLinks(ds, t) && ListsLinks(es, u) && (forall d | d in ds :: d in es)
    ensures forall l | l in t :: l in u && t[l] == u[l]
  {
    forall l | l in t
      ensures l in u && t[l] == u[l]
    {
      var i :| 0 <= i < |ds| && LinkKeyOf(ds[i].event) == Some(l);
      assert ds[i] in es;
    }
  }

  /**
   * What makes two saves commute on given tables: about one transaction they overwrite alike, and insert alike unless
   * the row is there; about one link they name one wallet unless the link is there.
   */
  predicate CommuteOn(t: Tables, c: Delivery, d: Delivery) {
    && (KeyOf(c.event) == KeyOf(d.event) ==>
          && SameProgress(ColsOf(c.event), ColsOf(d.event))
          && (KeyOf(c.event) in t.txs || SameIdentity(ColsOf(c.event), ColsOf(d.event))))
    && (LinkKeyOf(c.event).Some? && LinkKeyOf(c.event) == LinkKeyOf(d.event) ==>
          LinkKeyOf(c.event).value in t.links || c.wallet == d.wallet)
  }

  /** On any tables, the order of two saves is irrelevant exactly when they commute there. */
  lemma OrderMattersExactlyUnlessTheyCommute(t: Tables, c: Delivery, d: Delivery)
    ensures Save(Save(t, c), d) == Save(Save(t, d), c) <==> CommuteOn(t, c, d)
  {
    TxSavesCommute(t.txs, c.event, d.event);
    LinkSavesCommute(t.links, c, d);
  }

  lemma TxSavesCommute(txs: map<TxKey, TxCols>, c: TxEvent, d: TxEvent)
    ensures SaveTx(SaveTx(txs, c), d) == SaveTx(SaveTx(txs, d), c)
            <==> (KeyOf(c) == KeyOf(d) ==>
                    && SameProgress(ColsOf(c), ColsOf(d))
                    && (KeyOf(c) in txs || SameIdentity(ColsOf(c), ColsOf(d))))
  {
    var cd, dc := SaveTx(SaveTx(txs, c), d), SaveTx(SaveTx(txs, d), c);
    if KeyOf(c) != KeyOf(d) {
      SameMap(cd, dc);
    } else {
      assert cd == dc <==> cd[KeyOf(c)] == dc[KeyOf(c)] by {
        if cd[KeyOf(c)] == dc[KeyOf(c)] {
          SameMap(cd, dc);
        }
      }
    }
  }

  lemma LinkSavesCommute(links: map<LinkKey, Link>, c: Delivery, d: Delivery)
    ensures SaveLink(SaveLink(links, c), d) == SaveLink(SaveLink(links, d), c)
            <==> (LinkKeyOf(c.event).Some? && LinkKeyOf(c.event) == LinkKeyOf(d.event) ==>
                    LinkKeyOf(c.event).value in links || c.wallet == d.wallet)
  {
    var cd, dc := SaveLink(SaveLink(links, c), d), SaveLink(SaveLink(links, d), c);
    if LinkKeyOf(c.event).Some? && LinkKeyOf(c.event) == LinkKeyOf(d.event) {
      var l := LinkKeyOf(c.event).value;
      assert l in cd && l in dc;
      if l !in links {
        assert cd[l] == LinkOf(c) && dc[l] == LinkOf(d);
      }
    } else {
      SameMap(cd, dc);
    }
  }

  /** Compatible deliveries are those that commute on all tables. */
  lemma CompatibleExactlyWhenAlwaysCommuting(c: Delivery, d: Delivery)
    ensures Compatible(c, d) <==> forall t :: Save(Save(t, c), d) == Save(Save(t, d), c)
  {
    forall t
      ensures Save(Save(t, c), d) == Save(Save(t, d), c) <==> CommuteOn(t, c, d)
    {
      OrderMattersExactlyUnlessTheyCommute(t, c, d);
    }
    if Compatible(c, d) {
      assert forall t :: CommuteOn(t, c, d);
    } else {
      assert !CommuteOn(EMPTY, c, d);
    }
  }

  /** Saving an event a second time right away never changes anything, compatible or not. */
  lemma SaveIsIdempotent(t: Tables, d: Delivery)
    ensures Save(Save(t, d), d) == Save(t, d)
  {
    assert SaveTx(SaveTx(t.txs, d.event), d.event) == SaveTx(t.txs, d.event);
  }

  /**
   * A status is not terminal for the upsert: the row ends with the status of whichever event came last,
   * so it stays confirmed exactly when no later event of that transaction carries another status.
   */
  lemma ConfirmedStaysExactlyWhenLastIsConfirmed(ds: seq<Delivery>, last: nat)
    requires LastOfTx(ds, last)
    ensures KeyOf(ds[last].event) in SaveAll(ds).txs
    ensures SaveAll(ds).txs[KeyOf(ds[last].event)].status == Confirmed <==> ds[last].event.status == Confirmed
  {
    SaveAllDescribed(ds);
  }

  lemma ConfirmedCanBeUndone(d: Delivery)
    requires d.event.status == Confirmed
    ensures var undone := Delivery(d.wallet, d.event.(status := Pending));
            && SaveAll([d]).txs[KeyOf(d.event)].status == Confirmed
            && SaveAll([d, undone]).txs[KeyOf(d.event)].status == Pending
            && !SaveAll([d, undone]).txs[KeyOf(d.event)].stamped
  {
    var undone := Delivery(d.wallet, d.event.(status := Pending));
    assert [d, undone][..1] == [d];
  }

  // ----- Several monitors on one pair of tables ----------------------------------------------

  function OnChain(t: Tables, c: ChainId): Tables {
    Tables(map k | k in t.txs && k.chain == c :: t.txs[k],
           map l | l in t.links && l.tx.chain == c :: t.links[l])
  }

  function OfChain(ds: seq<Delivery>, c: ChainId): seq<Delivery> {
    if ds == [] then []
    else
      var rest := OfChain(ds[..|ds| - 1], c);
      if ds[|ds| - 1].event.chain == c then rest + [ds[|ds| - 1]] else rest
  }

  /** Whatever saves are interleaved, each chain's part of the tables is what its own saves alone produce. */
  lemma {:induction false} ChainsDoNotInterfere(ds: seq<Delivery>, c: ChainId)
    ensures OnChain(SaveAll(ds), c) == SaveAll(OfChain(ds, c))
  {
    if ds != [] {
      var n := |ds| - 1;
      var init, d := ds[..n], ds[n];
      ChainsDoNotInterfere(init, c);
      var before := SaveAll(init);
      if d.event.chain == c {
        var own := OfChain(init, c);
        assert (own + [d])[..|own|] == own;
        SaveOnChain(before, d, c);
      } else {
        SaveOffChain(before, d, c);
      }
    }
  }

  lemma SaveOnChain(t: Tables, d: Delivery, c: ChainId)
    requires d.event.chain == c
    ensures OnChain(Save(t, d), c) == Save(OnChain(t, c), d)
  {
    var a, b := OnChain(Save(t, d), c), Save(OnChain(t, c), d);
    SameMap(a.txs, b.txs);
    SameMap(a.links, b.links);
  }

  lemma SaveOffChain(t: Tables, d: Delivery, c: ChainId)
    requires d.event.chain != c
    ensures OnChain(Save(t, d), c) == OnChain(t, c)
  {
    var a, b := OnChain(Save(t, d), c), OnChain(t, c);
    SameMap(a.txs, b.txs);
    SameMap(a.links, b.links);
  }

  /** A monitor's saves reach the tables in the order it made them, whoever else saves in between. */
  ghost predicate Interleaves(ds: seq<Delivery>, xs: seq<Delivery>, ys: seq<Delivery>)
    decreases |ds|
  {
    if ds == [] then xs == [] && ys == []
    else
      var n := |ds| - 1;
      || (xs != [] && xs[|xs| - 1] == ds[n] && Interleaves(ds[..n], xs[..|xs| - 1], ys))
      || (ys != [] && ys[|ys| - 1] == ds[n] && Interleaves(ds[..n], xs, ys[..|ys| - 1]))
  }

  ghost predicate AllOn(ds: seq<Delivery>, c: ChainId) {
    forall d | d in ds :: d.event.chain == c
  }

  lemma {:induction false} InterleavingSplits(ds: seq<Delivery>, xs: seq<Delivery>, ys: seq<Delivery>, c: ChainId)
    requires Interleaves(ds, xs, ys) && AllOn(xs, c) && forall d | d in ys :: d.event.chain != c
    ensures OfChain(ds, c) == xs
    decreases |ds|
  {
    if ds != [] {
      var n := |ds| - 1;
      if xs != [] && xs[|xs| - 1] == ds[n] && Interleaves(ds[..n], xs[..|xs| - 1], ys) {
        InterleavingSplits(ds[..n], xs[..|xs| - 1], ys, c);
        assert xs[|xs| - 1] in xs;
      } else {
        InterleavingSplits(ds[..n], xs, ys[..|ys| - 1], c);
        assert ys[|ys| - 1] in ys;
      }
    }
  }

  /** Two monitors of different chains, in any interleaving, each leave what they would have left alone. */
  lemma MonitorsAreIndependent(ds: seq<Delivery>, xs: seq<Delivery>, ys: seq<Delivery>, c: ChainId, e: ChainId)
    requires c != e && Interleaves(ds, xs, ys) && AllOn(xs, c) && AllOn(ys, e)
    ensures OnChain(SaveAll(ds), c) == SaveAll(xs)
    ensures OnChain(SaveAll(ds), e) == SaveAll(ys)
  {
    InterleavingSplits(ds, xs, ys, c);
    InterleavingCommutes(ds, xs, ys);
    InterleavingSplits(ds, ys, xs, e);
    ChainsDoNotInterfere(ds, c);
    ChainsDoNotInterfere(ds, e);
  }

  lemma {:induction false} InterleavingCommutes(ds: seq<Delivery>, xs: seq<Delivery>, ys: seq<Delivery>)
    requires Interleaves(ds, xs, ys)
    ensures Interleaves(ds, ys, xs)
    decreases |ds|
  {
    if ds != [] {
      var n := |ds| - 1;
      if xs != [] && xs[|xs| - 1] == ds[n] && Interleaves(ds[..n], xs[..|xs| - 1], ys) {
        InterleavingCommutes(ds[..n], xs[..|xs| - 1], ys);
      } else {
        InterleavingCommutes(ds[..n], xs, ys[..|ys| - 1]);
      }
    }
  }
}
