/** Which transactions of a block concern a watched address, and the events they give rise to. */
module Matching {
  import opened Domain

  /** A 20-byte account address, kept abstract as a number. */
  datatype EvmAddress = EvmAddress(bits: nat)

  /**
   * The two directions between 20-byte addresses and their text. Checksum casing makes `hex` depend on
   * keccak, so both stay uninterpreted; `Sound` is what the rest of the model needs of them.
   */
  datatype Codec = Codec(hex: EvmAddress -> Address, fromHex: Address -> EvmAddress) {
    ghost predicate Sound() {
      forall a :: fromHex(hex(a)) == a && hex(a) != ""
    }
  }

  /** `sender` is None when the signature does not recover, `to` is None for a contract creation. */
  datatype Tx = Tx(hash: string, sender: Option<EvmAddress>, to: Option<EvmAddress>, value: nat)

  datatype Block = Block(txs: seq<Tx>, time: int)

  /** What one scan is configured with: the chain it labels events with and the addresses it looks for. */
  datatype Scan = Scan(codec: Codec, chain: ChainId, watched: map<EvmAddress, Address>)

  datatype Side = SenderSide | RecipientSide

  const NATIVE_SYMBOL := "ETH"

  function AddressOf(codec: Codec, a: Option<EvmAddress>): Address {
    match a
    case None => ""
    case Some(addr) => codec.hex(addr)
  }

  function Party(tx: Tx, side: Side): Option<EvmAddress> {
    if side == SenderSide then tx.sender else tx.to
  }

  predicate Watches(scan: Scan, tx: Tx, side: Side) {
    Party(tx, side).Some? && Party(tx, side).value in scan.watched
  }

  /** The event for one watched side of a transaction. */
  function SideEvent(scan: Scan, tx: Tx, side: Side, height: nat, time: int): TxEvent
    requires Watches(scan, tx, side)
  {
    TxEvent(
      if side == SenderSide then Outbound else Inbound,
      scan.chain,
      scan.watched[Party(tx, side).value],
      AddressOf(scan.codec, Party(tx, if side == SenderSide then RecipientSide else SenderSide)),
      tx.hash,
      tx.value,
      NATIVE_SYMBOL,
      Confirmed,
      height,
      time)
  }

  /** The events of one transaction, outbound first. */
  function TxEvents(scan: Scan, tx: Tx, height: nat, time: int): seq<TxEvent> {
    (if Watches(scan, tx, SenderSide) then [SideEvent(scan, tx, SenderSide, height, time)] else [])
    + (if Watches(scan, tx, RecipientSide) then [SideEvent(scan, tx, RecipientSide, height, time)] else [])
  }

  /** The events of a list of transactions. */
  function Matched(scan: Scan, txs: seq<Tx>, height: nat, time: int): seq<TxEvent> {
    if txs == [] then []
    else Matched(scan, txs[..|txs| - 1], height, time) + TxEvents(scan, txs[|txs| - 1], height, time)
  }

  /** The specified events; each tells of a transaction and a side. */
  method MatchTransactions(scan: Scan, txs: seq<Tx>, height: nat, time: int) returns (events: seq<TxEvent>)
    ensures events == Matched(scan, txs, height, time)
    ensures forall e | e in events ::
              exists i, outbound :: 0 <= i < |txs| && Tells(scan, txs[i], outbound, height, time, e)
  {
    events := [];
    for i := 0 to |txs|
      invariant events == Matched(scan, txs[..i], height, time)
    {
      var tx := txs[i];
      assert txs[..i + 1][..i] == txs[..i];
      var counterparty := AddressOf(scan.codec, tx.to);
      ghost var before := events;
      if tx.sender.Some? && tx.sender.value in scan.watched {
        var addr := scan.watched[tx.sender.value];
        events := events + [TxEvent(Outbound, scan.chain, addr, counterparty, tx.hash, tx.value,
                                    NATIVE_SYMBOL, Confirmed, height, time)];
      }
      if tx.to.Some? && tx.to.value in scan.watched {
        var addr := scan.watched[tx.to.value];
        var fromAddr := "";
        if tx.sender.Some? {
          fromAddr := scan.codec.hex(tx.sender.value);
        }
        events := events + [TxEvent(Inbound, scan.chain, addr, fromAddr, tx.hash, tx.value,
                                    NATIVE_SYMBOL, Confirmed, height, time)];
      }
      assert events == before + TxEvents(scan, tx, height, time);
    }
    assert txs[..|txs|] == txs;
    var slots := EventsTell(scan, txs, height, time);
  }

  /** The side a slot number stands for: every transaction owns an even slot and the odd one after it. */
  function SlotSide(slot: nat): Side {
    if slot % 2 == 0 then SenderSide else RecipientSide
  }

  predicate SlotWatched(scan: Scan, txs: seq<Tx>, slot: nat) {
    slot / 2 < |txs| && Watches(scan, txs[slot / 2], SlotSide(slot))
  }

  /** `slots` lists, in increasing order, exactly the watched slots of `txs`. */
  ghost predicate ListsWatchedSlots(scan: Scan, txs: seq<Tx>, slots: seq<nat>) {
    && (forall j, k | 0 <= j < k < |slots| :: slots[j] < slots[k])
    && (forall s: nat :: s in slots <==> SlotWatched(scan, txs, s))
  }

  /** The watched slots of transaction i, and of the first n transactions. */
  function TxSlots(scan: Scan, tx: Tx, i: nat): seq<nat> {
    (if Watches(scan, tx, SenderSide) then [2 * i] else [])
    + (if Watches(scan, tx, RecipientSide) then [2 * i + 1] else [])
  }

  function Slots(scan: Scan, txs: seq<Tx>): seq<nat> {
    if txs == [] then []
    else Slots(scan, txs[..|txs| - 1]) + TxSlots(scan, txs[|txs| - 1], |txs| - 1)
  }

  lemma {:induction false} SlotsListed(scan: Scan, txs: seq<Tx>)
    ensures ListsWatchedSlots(scan, txs, Slots(scan, txs))
  {
    if txs != [] {
      var n := |txs| - 1;
      var init := txs[..n];
      var before, added, slots := Slots(scan, init), TxSlots(scan, txs[n], n), Slots(scan, txs);
      SlotsListed(scan, init);
      forall s: nat
        ensures s in slots <==> SlotWatched(scan, txs, s)
      {
        assert s in slots <==> s in before || s in added;
        assert s in before <==> SlotWatched(scan, init, s);
        if s / 2 < n {
          assert init[s / 2] == txs[s / 2];
        }
      }
      forall j, k | 0 <= j < k < |slots|
        ensures slots[j] < slots[k]
      {
        if j < |before| <= k {
          assert before[j] in before && SlotWatched(scan, init, before[j]);
        }
      }
    }
  }

  /** `e` is the event of that slot. */
  ghost predicate ComesFromSlot(scan: Scan, txs: seq<Tx>, height: nat, time: int, slot: nat, e: TxEvent) {
    SlotWatched(scan, txs, slot) && e == SideEvent(scan, txs[slot / 2], SlotSide(slot), height, time)
  }

  lemma {:induction false} MatchedFollowsSlots(scan: Scan, txs: seq<Tx>, height: nat, time: int)
    ensures |Matched(scan, txs, height, time)| == |Slots(scan, txs)|
    ensures forall k | 0 <= k < |Slots(scan, txs)| ::
              ComesFromSlot(scan, txs, height, time, Slots(scan, txs)[k], Matched(scan, txs, height, time)[k])
  {
    if txs != [] {
      var n := |txs| - 1;
      var init, tx := txs[..n], txs[n];
      MatchedFollowsSlots(scan, init, height, time);
      var before := |Slots(scan, init)|;
      forall k | 0 <= k < |Slots(scan, txs)|
        ensures ComesFromSlot(scan, txs, height, time, Slots(scan, txs)[k], Matched(scan, txs, height, time)[k])
      {
        if k < before {
          assert ComesFromSlot(scan, init, height, time, Slots(scan, init)[k], Matched(scan, init, height, time)[k]);
        } else {
          assert Slots(scan, txs)[k] == TxSlots(scan, tx, n)[k - before];
          assert Matched(scan, txs, height, time)[k] == TxEvents(scan, tx, height, time)[k - before];
        }
      }
    }
  }

  /** The result is the watched sides in transaction order, outbound before inbound, each exactly once. */
  lemma MatchedListsWatchedSides(scan: Scan, txs: seq<Tx>, height: nat, time: int) returns (slots: seq<nat>)
    ensures ListsWatchedSlots(scan, txs, slots)
    ensures |Matched(scan, txs, height, time)| == |slots|
    ensures forall k | 0 <= k < |slots| ::
              ComesFromSlot(scan, txs, height, time, slots[k], Matched(scan, txs, height, time)[k])
  {
    slots := Slots(scan, txs);
    SlotsListed(scan, txs);
    MatchedFollowsSlots(scan, txs, height, time);
  }

  /** What the event of one watched side says, field by field. */
  ghost predicate Tells(scan: Scan, tx: Tx, outbound: bool, height: nat, time: int, e: TxEvent) {
    var self, other := if outbound then tx.sender else tx.to, if outbound then tx.to else tx.sender;
    && e.kind == (if outbound then Outbound else Inbound)
    && e.chain == scan.chain
    && self.Some? && self.value in scan.watched && e.address == scan.watched[self.value]
    && e.counterparty == (if other.Some? then scan.codec.hex(other.value) else "")
    && e.hash == tx.hash
    && e.amount == tx.value && e.symbol == "ETH"
    && e.status == Confirmed
    && e.height == height && e.timestamp == time
  }

  /** The event in place k of the result tells of the k-th watched side: transaction slot / 2, outbound when even. */
  lemma EventsTell(scan: Scan, txs: seq<Tx>, height: nat, time: int) returns (slots: seq<nat>)
    ensures ListsWatchedSlots(scan, txs, slots) && |Matched(scan, txs, height, time)| == |slots|
    ensures forall k | 0 <= k < |slots| ::
              && slots[k] / 2 < |txs|
              && Tells(scan, txs[slots[k] / 2], slots[k] % 2 == 0, height, time, Matched(scan, txs, height, time)[k])
  {
    slots := MatchedListsWatchedSides(scan, txs, height, time);
    forall k | 0 <= k < |slots|
      ensures slots[k] / 2 < |txs|
      ensures Tells(scan, txs[slots[k] / 2], slots[k] % 2 == 0, height, time, Matched(scan, txs, height, time)[k])
    {
      assert ComesFromSlot(scan, txs, height, time, slots[k], Matched(scan, txs, height, time)[k]);
    }
  }

  /** An event is produced exactly when some transaction has that watched side. */
  lemma MatchedExactly(scan: Scan, txs: seq<Tx>, height: nat, time: int, e: TxEvent)
    ensures e in Matched(scan, txs, height, time) <==>
            exists i, side :: 0 <= i < |txs| && Watches(scan, txs[i], side)
                              && e == SideEvent(scan, txs[i], side, height, time)
  {
    var slots := MatchedListsWatchedSides(scan, txs, height, time);
    if e in Matched(scan, txs, height, time) {
      var k :| 0 <= k < |slots| && e == Matched(scan, txs, height, time)[k];
      assert ComesFromSlot(scan, txs, height, time, slots[k], e);
    }
    if i, side :| 0 <= i < |txs| && Watches(scan, txs[i], side)
                  && e == SideEvent(scan, txs[i], side, height, time) {
      var s := if side == SenderSide then 2 * i else 2 * i + 1;
      assert s / 2 == i && SlotSide(s) == side && SlotWatched(scan, txs, s);
      assert s in slots;
      var k :| 0 <= k < |slots| && slots[k] == s;
      assert Matched(scan, txs, height, time)[k] == e;
    }
  }

  // ----- The set-up of a watch ---------------------------------------------------------------

  /** `watched` is keyed by the parsed form of exactly the given addresses, each key kept with one of its texts. */
  ghost predicate WatchesExactly(codec: Codec, addrs: seq<Address>, watched: map<EvmAddress, Address>) {
    && (forall a :: a in watched <==> exists k :: 0 <= k < |addrs| && codec.fromHex(addrs[k]) == a)
    && (forall a :: a in watched ==> watched[a] in addrs && codec.fromHex(watched[a]) == a)
  }

  /** When several given texts parse to one address, the last of them is kept. */
  method WatchedMap(codec: Codec, addrs: seq<Address>) returns (watched: map<EvmAddress, Address>)
    ensures WatchesExactly(codec, addrs, watched)
    ensures forall k | 0 <= k < |addrs| ::
              (forall j | k < j < |addrs| :: codec.fromHex(addrs[j]) != codec.fromHex(addrs[k]))
              ==> watched[codec.fromHex(addrs[k])] == addrs[k]
  {
    watched := map[];
    for i := 0 to |addrs|
      invariant forall a :: a in watched <==> exists k :: 0 <= k < i && codec.fromHex(addrs[k]) == a
      invariant forall a :: a in watched ==> watched[a] in addrs && codec.fromHex(watched[a]) == a
      invariant forall k | 0 <= k < i ::
                  (forall j | k < j < i :: codec.fromHex(addrs[j]) != codec.fromHex(addrs[k]))
                  ==> watched[codec.fromHex(addrs[k])] == addrs[k]
    {
      watched := watched[codec.fromHex(addrs[i]) := addrs[i]];
    }
  }
}
