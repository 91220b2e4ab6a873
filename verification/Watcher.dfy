/** The scan loop of the EVM watcher and the cursor rows it keeps. */
module Watchers {
  import opened Domain
  import opened Matching
  import opened Pipeline

  /** The `chain_cursors` table: one signed 64-bit height per chain. */
  class PostgresCursor {
    var rows: map<ChainId, int>

    constructor ()
      ensures rows == map[]
    {
      rows := map[];
    }

    /** The height a chain's row stands for. */
    function Height(chain: ChainId): Option<nat>
      reads this
    {
      if chain in rows then Some(ToUint64(rows[chain])) else None
    }

    method Get(chain: ChainId, fails: bool) returns (ok: bool, height: Option<nat>)
      ensures ok == !fails
      ensures ok ==> height == Height(chain)
    {
      if fails {
        return false, None;
      }
      return true, if chain in rows then Some(ToUint64(rows[chain])) else None;
    }

    /**
     * What was set is what is read back, for every unsigned height, and no other chain's row moves. A write may take
     * effect although its reply is lost and an error reported.
     */
    method Set(chain: ChainId, height: Height, fails: bool, replyLost: bool) returns (ok: bool)
      modifies this
      ensures ok == (!fails && !replyLost)
      ensures Height(chain) == if fails then old(Height(chain)) else Some(height)
      ensures forall c | c != chain :: Height(c) == old(Height(c))
    {
      if fails {
        return false;
      }
      HeightSurvivesBigint(height);
      rows := rows[chain := ToInt64(height)];
      return !replyLost;
    }
  }

  /** Storing an unsigned height as a signed one loses nothing, and below 2^63 not even the number changes. */
  lemma HeightSurvivesBigint(h: Height)
    ensures ToUint64(ToInt64(h)) == h
    ensures -TWO_TO_THE_63 <= ToInt64(h) < TWO_TO_THE_63
    ensures ToInt64(h) == h <==> h < TWO_TO_THE_63
  {
  }

  /** The cursor after blocks lo, ..., hi - 1 were finished in order: the last one whose write succeeded. */
  function CursorAfter(before: Option<nat>, lo: nat, hi: nat, writeFails: set<nat>): Option<nat> {
    if hi <= lo then before
    else if hi - 1 in writeFails then CursorAfter(before, lo, hi - 1, writeFails)
    else Some(hi - 1)
  }

  lemma {:induction false} CursorNeverPassesTheScan(before: Option<nat>, lo: nat, hi: nat, writeFails: set<nat>)
    ensures var c := CursorAfter(before, lo, hi, writeFails);
            c == before || (c.Some? && lo <= c.value < hi && c.value !in writeFails)
    ensures forall n | lo <= n < hi && n !in writeFails ::
              CursorAfter(before, lo, hi, writeFails).Some? && n <= CursorAfter(before, lo, hi, writeFails).value
    decreases hi
  {
    if lo < hi {
      CursorNeverPassesTheScan(before, lo, hi - 1, writeFails);
    }
  }

  lemma StreamSnoc(before: seq<TxEvent>, env: Env, cfg: Config, from: nat, n: nat)
    requires from < n
    ensures before + Stream(env, cfg, from, n) + EventsAt(env, cfg, n) == before + Stream(env, cfg, from, n + 1)
  {
  }

  class Watcher {
    const env: Env
    const cursor: PostgresCursor?
    var watched: map<EvmAddress, Address>
    var next: nat
    /** Everything sent on the channel so far. */
    var sent: seq<TxEvent>

    constructor (env: Env, cursor: PostgresCursor?)
      ensures this.env == env && this.cursor == cursor && sent == [] && watched == map[] && next == 1
    {
      this.env, this.cursor := env, cursor;
      watched, next, sent := map[], 1, [];
    }

    ghost function SavedHeight(): Option<nat>
      reads this, cursor
    {
      if cursor == null then None else cursor.Height(env.chain)
    }

    /**
     * Starts after the saved cursor when it can be read and lies below the head, else after the head: so without a
     * store or a row, with a failed read, or with a cursor at or above the head, it starts after the head.
     */
    method Watch(addrs: seq<Address>, tip: Option<nat>, cursorFails: bool) returns (ok: bool)
      modifies this
      ensures ok == tip.Some?
      ensures ok ==> next == ResumePoint(SavedHeight(), !cursorFails, tip.value) + 1
      ensures ok && (cursorFails || SavedHeight().None? || SavedHeight().value >= tip.value) ==> next == tip.value + 1
      ensures ok && !cursorFails && SavedHeight().Some? && SavedHeight().value < tip.value ==>
                next == SavedHeight().value + 1
      ensures ok ==> WatchesExactly(env.codec, addrs, watched)
      ensures !ok ==> next == old(next) && watched == old(watched)
      ensures sent == old(sent)
    {
      if tip.None? {
        return false;
      }
      var from := tip.value;
      if cursor != null {
        var read, saved := cursor.Get(env.chain, cursorFails);
        if read && saved.Some? && saved.value < tip.value {
          from := saved.value;
        }
      }
      watched := WatchedMap(env.codec, addrs);
      next := from + 1;
      return true;
    }

    /** Sends one block's events in order, stopping before the send at which the context is found cancelled. */
    method Emit(events: seq<TxEvent>, cancelAfter: Option<nat>) returns (cancelled: bool)
      modifies this`sent
      ensures !cancelled ==> sent == old(sent) + events
      ensures cancelled ==> old(sent) <= sent < old(sent) + events && cancelAfter == Some(|sent|)
      ensures cancelled <==> cancelAfter.Some? && |old(sent)| <= cancelAfter.value < |old(sent)| + |events|
    {
      var k := 0;
      while k < |events|
        invariant k <= |events|
        invariant sent == old(sent) + events[..k]
        invariant cancelAfter.Some? ==> !(|old(sent)| <= cancelAfter.value < |sent|)
      {
        if cancelAfter == Some(|sent|) {
          assert events[..k] < events;
          return true;
        }
        sent := sent + [events[k]];
        k := k + 1;
      }
      assert events[..|events|] == events;
      return false;
    }

    /** What becomes of one block: its fetch fails, the context is cancelled while it is sent, or it is finished. */
    method ScanBlock(fetchFails: bool, writeFails: bool, replyLost: bool, cancelAfter: Option<nat>, ghost cfg: Config)
      returns (fetched: bool, cancelled: bool)
      requires 0 < next < TWO_TO_THE_64 && cfg.watched == watched
      modifies this`next, this`sent, cursor
      ensures fetched == !fetchFails && (cancelled ==> fetched)
      ensures next == if fetched && !cancelled then old(next) + 1 else old(next)
      ensures !fetched ==> sent == old(sent)
      ensures fetched && !cancelled ==> sent == old(sent) + EventsAt(env, cfg, old(next))
      ensures cancelled ==> old(sent) <= sent < old(sent) + EventsAt(env, cfg, old(next))
      ensures cancelled ==> cancelAfter == Some(|sent|)
      ensures !cancelled && cancelAfter.Some? ==> !(|old(sent)| <= cancelAfter.value < |sent|)
      ensures SavedHeight() == (if cursor == null then None
                                else if fetched && !cancelled && !writeFails then Some(old(next))
                                else old(SavedHeight()))
      ensures cursor != null ==> forall c | c != env.chain :: cursor.Height(c) == old(cursor.Height(c))
    {
      if fetchFails {
        return false, false;
      }
      var n := next;
      var block := env.blocks(n);
      var events := MatchTransactions(Scan(env.codec, env.chain, watched), block.txs, n, block.time);
      cancelled := Emit(events, cancelAfter);
      if cancelled {
        return true, true;
      }
      next := n + 1;
      if cursor != null {
        var written := cursor.Set(env.chain, n, writeFails, replyLost);
      }
      return true, false;
    }

    /** The blocks from `from` up to the next one were sent in full, and their cursor writes tried. */
    ghost predicate PassedSince(before: seq<TxEvent>, from: nat, saved: Option<nat>, cfg: Config, writeFails: set<nat>)
      reads this, cursor
    {
      && 0 < from <= next
      && sent == before + Stream(env, cfg, from - 1, next)
      && SavedHeight() == (if cursor == null then None else CursorAfter(saved, from, next, writeFails))
    }

    /**
     * One tick. `fetchFails` and `writeFails` are the blocks whose RPC or cursor write fails, `repliesLost` those
     * whose write is done but reported as failed, which changes nothing as the error is only logged; `cancelAfter` is
     * the number of sends after which the context is found cancelled. Unless cancelled, the tick sends exactly the
     * events of the blocks it passes, in order, and passes every block up to the head or the first failing fetch;
     * cancelled, it stops within a block, which it leaves as the next one. `cfg` is any configuration with these
     * watched addresses.
     */
    method Tick(head: Option<Height>, fetchFails: set<nat>, writeFails: set<nat>, repliesLost: set<nat>,
                cancelAfter: Option<nat>, ghost cfg: Config)
      returns (cancelled: bool)
      requires next > 0 && cfg.watched == watched
      modifies this, cursor
      ensures watched == old(watched) && old(next) <= next
      ensures head.None? ==> !cancelled && next == old(next)
      ensures cancelled ==> next <= head.value
      ensures head.Some? ==> next == old(next) || next <= head.value + 1
      ensures forall n | old(next) <= n < next :: n !in fetchFails
      ensures !cancelled && head.Some? && next <= head.value ==> next in fetchFails
      ensures !cancelled ==> sent == old(sent) + Stream(env, cfg, old(next) - 1, next)
      ensures cancelled ==>
                && old(sent) + Stream(env, cfg, old(next) - 1, next) <= sent
                && sent < old(sent) + Stream(env, cfg, old(next) - 1, next + 1)
                && cancelAfter == Some(|sent|)
      ensures !cancelled && cancelAfter.Some? ==> !(|old(sent)| <= cancelAfter.value < |sent|)
      ensures SavedHeight() == (if cursor == null then None
                                else CursorAfter(old(SavedHeight()), old(next), next, writeFails))
      ensures cursor != null ==> forall c | c != env.chain :: cursor.Height(c) == old(cursor.Height(c))
    {
      if head.None? {
        return false;
      }
      var n := next;
      while n <= head.value
        invariant n == next && old(next) <= next && watched == old(watched)
        invariant next == old(next) || next <= head.value + 1
        invariant forall m | old(next) <= m < next :: m !in fetchFails
        invariant cancelAfter.Some? ==> !(|old(sent)| <= cancelAfter.value < |sent|)
        invariant PassedSince(old(sent), old(next), old(SavedHeight()), cfg, writeFails)
        invariant cursor != null ==> forall c | c != env.chain :: cursor.Height(c) == old(cursor.Height(c))
        decreases head.value + 1 - n
      {
        var fetched;
        fetched, cancelled := ScanBlock(n in fetchFails, n in writeFails, n in repliesLost, cancelAfter, cfg);
        StreamSnoc(old(sent), env, cfg, old(next) - 1, n);
        if !fetched || cancelled {
          return;
        }
        n := n + 1;
      }
      return false;
    }
  }

  /** An error-free, uncancelled tick ends exactly behind the head, or where it was if it was already there. */
  method TickWithoutErrors(w: Watcher, head: Height, ghost cfg: Config)
    requires w.next > 0 && cfg.watched == w.watched
    modifies w, w.cursor
    ensures w.next == if old(w.next) <= head then head + 1 else old(w.next)
    ensures w.sent == old(w.sent) + Stream(w.env, cfg, old(w.next) - 1, w.next)
    ensures w.cursor != null && old(w.next) <= head ==> w.SavedHeight() == Some(head)
  {
    var cancelled := w.Tick(Some(head), {}, {}, {}, None, cfg);
  }
}
