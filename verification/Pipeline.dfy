/**
 * The block-scanning monitor as a transition system: the watcher goroutine, the monitor loop that receives its
 * events over an unbuffered channel, and the database that outlives both. Every RPC, save, publish and cursor
 * write may fail, and the process may die between any two steps.
 */
module Pipeline {
  import opened Domain
  import opened Matching
  import opened TransactionTables

  /** What no run changes: the chain's history. Heights the node has not reached yet are simply never fetched. */
  datatype Env = Env(codec: Codec, chain: ChainId, blocks: nat -> Block)

  /** What one run reads at start-up: the watched addresses and the wallet each text belongs to. */
  datatype Config = Config(watched: map<EvmAddress, Address>, owners: map<Address, WalletId>)

  ghost predicate WellFormed(env: Env, cfg: Config) {
    forall a | a in cfg.watched :: cfg.watched[a] in cfg.owners && env.codec.fromHex(cfg.watched[a]) == a
  }

  function EventsAt(env: Env, cfg: Config, n: nat): seq<TxEvent> {
    Matched(Scan(env.codec, env.chain, cfg.watched), env.blocks(n).txs, n, env.blocks(n).time)
  }

  /** The call the monitor makes for an event; an address that is no key would be given the empty wallet id. */
  function DeliveryOf(cfg: Config, e: TxEvent): Delivery {
    Delivery(if e.address in cfg.owners then cfg.owners[e.address] else "", e)
  }

  /**
   * The watcher: waiting for the next tick, about to fetch block n, sending the events of block n, or about to
   * persist n as scanned. `tip` is the head it learnt at the start of the tick.
   */
  datatype Watcher =
    | Off
    | Waiting
    | Scanning(n: nat, tip: nat)
    | Emitting(n: nat, tip: nat, sent: nat)
    | Advancing(n: nat, tip: nat)

  datatype Monitor = Idle | Holding(e: TxEvent) | Recorded(e: TxEvent) | Stopped

  datatype Step =
    | Boot(cfg: Config, tip: nat, cursorRead: bool)
    | Tick(head: Option<nat>)
    | EndScan
    | Fetch(ok: bool)
    | HandOver
    | FinishBlock
    | WriteCursor(written: bool)
    | SaveEvent(applied: bool, ok: bool)
    | Publish(applied: bool, ok: bool)
    | StopWatcher
    | StopMonitor
    | Crash

  /**
   * `tables` and `cursor` are persistent, `cfg` to `monitor` belong to the current run. The rest is history for
   * stating properties: `runs` counts boots, `resumed` says whether this run started from the cursor; `handed`,
   * `saved` and `published` are this run's events; `log` is every save ever committed, `completed` the
   * configuration under which each block was last finished, `lost` the event each run handed over but never
   * saved. Blocks above `base` up to the cursor are the ones the cursor vouches for.
   */
  datatype State = State(
    tables: Tables,
    cursor: Option<nat>,
    cfg: Config,
    from: nat,
    next: nat,
    watcher: Watcher,
    monitor: Monitor,
    runs: nat,
    resumed: bool,
    handed: seq<TxEvent>,
    saved: seq<TxEvent>,
    published: seq<TxEvent>,
    log: seq<Delivery>,
    completed: map<nat, Config>,
    base: nat,
    lost: map<nat, Delivery>)

  const INIT := State(EMPTY, None, Config(map[], map[]), 0, 1, Off, Stopped,
                      0, false, [], [], [], [], map[], 0, map[])

  /** The height a run scans after: the saved cursor when it was read and lies below the head, else the head. */
  function ResumePoint(cursor: Option<nat>, cursorRead: bool, tip: nat): nat {
    if cursorRead && cursor.Some? && cursor.value < tip then cursor.value else tip
  }

  ghost predicate Enabled(env: Env, s: State, step: Step) {
    match step
    case Boot(cfg, tip, cursorRead) => s.watcher.Off? && s.monitor.Stopped? && WellFormed(env, cfg)
    case Tick(head) => s.watcher.Waiting?
    case EndScan => s.watcher.Scanning? && s.watcher.n > s.watcher.tip
    case Fetch(ok) => s.watcher.Scanning? && s.watcher.n <= s.watcher.tip
    case HandOver =>
      s.watcher.Emitting? && s.watcher.sent < |EventsAt(env, s.cfg, s.watcher.n)| && s.monitor.Idle?
    case FinishBlock => s.watcher.Emitting? && s.watcher.sent == |EventsAt(env, s.cfg, s.watcher.n)|
    case WriteCursor(written) => s.watcher.Advancing?
    case SaveEvent(applied, ok) => s.monitor.Holding? && (ok ==> applied)
    case Publish(applied, ok) => s.monitor.Recorded? && (ok ==> applied)
    case StopWatcher => s.watcher.Waiting? || s.watcher.Emitting?
    case StopMonitor => s.monitor.Idle?
    case Crash => true
  }

  ghost function Apply(env: Env, s: State, step: Step): State
    requires Enabled(env, s, step)
  {
    match step
    case Boot(cfg, tip, cursorRead) =>
      var from := ResumePoint(s.cursor, cursorRead, tip);
      s.(cfg := cfg, from := from, next := from + 1, watcher := Waiting, monitor := Idle,
         runs := s.runs + 1, resumed := cursorRead && s.cursor.Some?,
         handed := [], saved := [], published := [])
    case Tick(head) =>
      if head.None? then s else s.(watcher := Scanning(s.next, head.value))
    case EndScan => s.(watcher := Waiting)
    case Fetch(ok) =>
      s.(watcher := if ok then Emitting(s.watcher.n, s.watcher.tip, 0) else Waiting)
    case HandOver =>
      var e := EventsAt(env, s.cfg, s.watcher.n)[s.watcher.sent];
      s.(watcher := Emitting(s.watcher.n, s.watcher.tip, s.watcher.sent + 1), monitor := Holding(e),
         handed := s.handed + [e])
    case FinishBlock =>
      s.(watcher := Advancing(s.watcher.n, s.watcher.tip), next := s.watcher.n + 1,
         completed := s.completed[s.watcher.n := s.cfg])
    case WriteCursor(written) =>
      var n := s.watcher.n;
      var scanning := Scanning(n + 1, s.watcher.tip);
      if !written then s.(watcher := scanning)
      else
        var joined := s.cursor.Some? && s.from <= s.cursor.value;
        s.(watcher := scanning, cursor := Some(n),
           base := if joined && s.base <= s.from then s.base else s.from)
    case SaveEvent(applied, ok) =>
      var d := DeliveryOf(s.cfg, s.monitor.e);
      var m := if ok then Recorded(s.monitor.e) else Stopped;
      if applied then
        s.(monitor := m, tables := Save(s.tables, d), log := s.log + [d], saved := s.saved + [s.monitor.e])
      else
        s.(monitor := m, lost := s.lost[s.runs := d])
    case Publish(applied, ok) =>
      s.(monitor := if ok then Idle else Stopped,
         published := if applied then s.published + [s.monitor.e] else s.published)
    case StopWatcher => s.(watcher := Off)
    case StopMonitor => s.(monitor := Stopped)
    case Crash =>
      s.(watcher := Off, monitor := Stopped,
         lost := if s.monitor.Holding? then s.lost[s.runs := DeliveryOf(s.cfg, s.monitor.e)] else s.lost)
  }

  /** The state a list of steps leads to from the empty database, if each is enabled in its turn. */
  ghost function Exec(env: Env, steps: seq<Step>): Option<State> {
    if steps == [] then Some(INIT)
    else
      var before := Exec(env, steps[..|steps| - 1]);
      var step := steps[|steps| - 1];
      if before.Some? && Enabled(env, before.value, step) then Some(Apply(env, before.value, step)) else None
  }

  // ----- What every reachable state satisfies ------------------------------------------------

  /** The events of blocks from + 1, ..., until - 1 in chain order. */
  ghost function Stream(env: Env, cfg: Config, from: nat, until: nat): seq<TxEvent> {
    if until <= from + 1 then [] else Stream(env, cfg, from, until - 1) + EventsAt(env, cfg, until - 1)
  }

  ghost predicate ScanInv(env: Env, s: State) {
    && s.from < s.next
    && (s.watcher.Scanning? ==> s.watcher.n == s.next)
    && (s.watcher.Advancing? ==> s.watcher.n + 1 == s.next && s.from < s.watcher.n)
    && (s.watcher.Emitting? ==> s.watcher.n == s.next && s.watcher.sent <= |EventsAt(env, s.cfg, s.next)|)
    && var whole := Stream(env, s.cfg, s.from, s.next);
       match s.watcher
       case Emitting(n, tip, sent) => s.handed == whole + EventsAt(env, s.cfg, s.next)[..sent]
       case Off => s.handed <= whole + EventsAt(env, s.cfg, s.next)
       case _ => s.handed == whole
  }

  /** Only booted runs act, and a run whose monitor is alive has lost nothing. */
  ghost predicate RunsInv(s: State) {
    && (forall r | r in s.lost :: 1 <= r <= s.runs)
    && (!s.monitor.Stopped? ==> s.runs !in s.lost && 1 <= s.runs)
    && (!s.watcher.Off? ==> 1 <= s.runs)
  }

  /** How far the monitor is behind the hand-over, and the publisher behind the tables. */
  ghost predicate LagInv(s: State) {
    && RunsInv(s)
    && match s.monitor
       case Idle => s.handed == s.saved == s.published
       case Holding(e) => s.handed == s.saved + [e] && s.published == s.saved
       case Recorded(e) => s.handed == s.saved == s.published + [e]
       case Stopped =>
         && s.published <= s.saved <= s.handed
         && |s.handed| <= |s.published| + 1
         && (|s.saved| < |s.handed| ==>
               s.runs in s.lost && s.lost[s.runs] == DeliveryOf(s.cfg, s.handed[|s.handed| - 1]))
  }

  ghost predicate LogInv(s: State) {
    && s.tables == SaveAll(s.log)
    && (forall e | e in s.saved :: DeliveryOf(s.cfg, e) in s.log)
  }

  /** Handed over by some run that has not saved it, or is yet to. */
  ghost predicate Unsaved(s: State, d: Delivery) {
    || (exists r :: r in s.lost && s.lost[r] == d)
    || (s.monitor.Holding? && d == DeliveryOf(s.cfg, s.monitor.e))
  }

  /** Every event of the block is saved, except perhaps its last, if that is one of the unsaved ones. */
  ghost predicate AlmostSaved(env: Env, s: State, cfg: Config, n: nat) {
    var evs := EventsAt(env, cfg, n);
    forall i | 0 <= i < |evs| ::
      || DeliveryOf(cfg, evs[i]) in s.log
      || (i == |evs| - 1 && Unsaved(s, DeliveryOf(cfg, evs[i])))
  }

  ghost predicate BlocksInv(env: Env, s: State) {
    && (forall n | n in s.completed :: AlmostSaved(env, s, s.completed[n], n))
    && (forall n | s.from < n < s.next :: n in s.completed && s.completed[n] == s.cfg)
  }

  ghost predicate CursorInv(s: State) {
    && (s.cursor.Some? ==> forall n | s.base < n <= s.cursor.value :: n in s.completed)
    && (s.resumed ==> s.cursor.Some? && s.from <= s.cursor.value)
  }

  ghost predicate Inv(env: Env, s: State) {
    ScanInv(env, s) && LagInv(s) && LogInv(s) && BlocksInv(env, s) && CursorInv(s)
  }

  lemma ScanInvKept(env: Env, s: State, step: Step)
    requires ScanInv(env, s) && Enabled(env, s, step)
    ensures ScanInv(env, Apply(env, s, step))
  {
    var s' := Apply(env, s, step);
    match step
    case HandOver =>
      var evs, k := EventsAt(env, s.cfg, s.next), s.watcher.sent;
      assert evs[..k + 1] == evs[..k] + [evs[k]];
    case FinishBlock =>
      assert EventsAt(env, s.cfg, s.next)[..s.watcher.sent] == EventsAt(env, s.cfg, s.next);
    case _ =>
  }

  lemma RunsInvKept(env: Env, s: State, step: Step)
    requires RunsInv(s) && Enabled(env, s, step)
    ensures RunsInv(Apply(env, s, step))
  {
  }

  lemma LagInvKept(env: Env, s: State, step: Step)
    requires LagInv(s) && Enabled(env, s, step)
    ensures LagInv(Apply(env, s, step))
  {
    RunsInvKept(env, s, step);
    var s' := Apply(env, s, step);
    match step
    case HandOver => assert s'.handed == s'.saved + [s'.monitor.e];
    case SaveEvent(applied, ok) => assert s.handed == s.saved + [s.monitor.e];
    case Publish(applied, ok) => assert s.handed == s.published + [s.monitor.e];
    case _ =>
  }

  lemma LogInvKept(env: Env, s: State, step: Step)
    requires LogInv(s) && Enabled(env, s, step)
    ensures LogInv(Apply(env, s, step))
  {
    if step.SaveEvent? && step.applied {
      SaveAllSnoc(s.log, DeliveryOf(s.cfg, s.monitor.e));
    }
  }

  /** The log only grows, and an unsaved delivery either stays unsaved or reaches the log. */
  lemma UnsavedKept(env: Env, s: State, step: Step, d: Delivery)
    requires RunsInv(s) && Enabled(env, s, step)
    ensures d in s.log ==> d in Apply(env, s, step).log
    ensures Unsaved(s, d) ==> Unsaved(Apply(env, s, step), d) || d in Apply(env, s, step).log
  {
    var s' := Apply(env, s, step);
    if r :| r in s.lost && s.lost[r] == d {
      assert r in s'.lost && s'.lost[r] == d;
    } else if s.monitor.Holding? && d == DeliveryOf(s.cfg, s.monitor.e) && (step.Crash? || step.SaveEvent?) {
      assert (step.SaveEvent? && step.applied) || (s.runs in s'.lost && s'.lost[s.runs] == d);
    }
  }

  lemma AlmostSavedKept(env: Env, s: State, step: Step, cfg: Config, n: nat)
    requires RunsInv(s) && Enabled(env, s, step) && AlmostSaved(env, s, cfg, n)
    ensures AlmostSaved(env, Apply(env, s, step), cfg, n)
  {
    var evs := EventsAt(env, cfg, n);
    forall i | 0 <= i < |evs|
      ensures var s', d := Apply(env, s, step), DeliveryOf(cfg, evs[i]);
              d in s'.log || (i == |evs| - 1 && Unsaved(s', d))
    {
      UnsavedKept(env, s, step, DeliveryOf(cfg, evs[i]));
    }
  }

  /** A block whose last event has just been sent is almost saved: only that event can still be on its way. */
  lemma FinishedIsAlmostSaved(env: Env, s: State)
    requires ScanInv(env, s) && LagInv(s) && LogInv(s)
    requires s.watcher.Emitting? && s.watcher.sent == |EventsAt(env, s.cfg, s.next)|
    ensures AlmostSaved(env, s, s.cfg, s.next)
  {
    var evs := EventsAt(env, s.cfg, s.next);
    var start := |Stream(env, s.cfg, s.from, s.next)|;
    forall i | 0 <= i < |evs|
      ensures DeliveryOf(s.cfg, evs[i]) in s.log || (i == |evs| - 1 && Unsaved(s, DeliveryOf(s.cfg, evs[i])))
    {
      assert s.handed[start + i] == evs[i];
      if start + i < |s.saved| {
        assert s.saved[start + i] == evs[i];
      }
    }
  }

  lemma BlocksInvKept(env: Env, s: State, step: Step)
    requires RunsInv(s) && BlocksInv(env, s) && Enabled(env, s, step)
    requires s.watcher.Emitting? ==> s.watcher.n == s.next
    requires step.FinishBlock? ==> AlmostSaved(env, s, s.cfg, s.next)
    ensures BlocksInv(env, Apply(env, s, step))
  {
    var s' := Apply(env, s, step);
    forall n | n in s'.completed
      ensures AlmostSaved(env, s', s'.completed[n], n)
    {
      if step.FinishBlock? && n == s.next {
        AlmostSavedKept(env, s, step, s.cfg, n);
      } else {
        AlmostSavedKept(env, s, step, s.completed[n], n);
      }
    }
  }

  lemma CursorInvKept(env: Env, s: State, step: Step)
    requires (s.watcher.Advancing? ==> s.watcher.n + 1 == s.next && s.from < s.watcher.n) && CursorInv(s)
    requires forall n | s.from < n < s.next :: n in s.completed
    requires Enabled(env, s, step)
    ensures CursorInv(Apply(env, s, step))
  {
  }

  lemma {:induction false} Reachable(env: Env, steps: seq<Step>)
    requires Exec(env, steps).Some?
    ensures Inv(env, Exec(env, steps).value)
  {
    if steps != [] {
      var init, step := steps[..|steps| - 1], steps[|steps| - 1];
      Reachable(env, init);
      var s := Exec(env, init).value;
      ScanInvKept(env, s, step);
      LagInvKept(env, s, step);
      LogInvKept(env, s, step);
      if step.FinishBlock? {
        FinishedIsAlmostSaved(env, s);
      }
      BlocksInvKept(env, s, step);
      CursorInvKept(env, s, step);
    }
  }
}
