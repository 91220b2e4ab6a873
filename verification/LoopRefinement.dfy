/**
 * The two loops take the steps of the transition system: every tick of the watcher and every event handled by the
 * monitor is a path of it, so what holds of all its runs holds of the loops. That a state leads to another is said as:
 * every closed set of states that has the one has the other.
 */
module LoopRefinement {
  import opened Domain
  import opened TransactionTables
  import opened Pipeline
  import opened PipelineSafety
  import opened PostgresTransactions
  import opened MonitorServices
  import opened Watchers

  /** Whatever one step makes of a member is a member. */
  ghost predicate Closed(env: Env, R: iset<State>) {
    forall s, step | s in R && Enabled(env, s, step) :: Apply(env, s, step) in R
  }

  ghost predicate Within(env: Env, R: iset<State>, s: State) {
    Closed(env, R) && s in R
  }

  lemma StepWithin(env: Env, R: iset<State>, s: State, step: Step) returns (s': State)
    requires Within(env, R, s) && Enabled(env, s, step)
    ensures s' in R && s' == Apply(env, s, step)
  {
    s' := Apply(env, s, step);
  }

  /** What the transition system reaches from the empty database. */
  ghost function Reached(env: Env): iset<State> {
    iset s | exists steps :: Exec(env, steps) == Some(s)
  }

  /** It is closed, and all of it satisfies the invariants. */
  lemma ReachedIsClosed(env: Env)
    ensures Closed(env, Reached(env)) && INIT in Reached(env)
    ensures forall s | s in Reached(env) :: Inv(env, s)
  {
    forall s, step | s in Reached(env) && Enabled(env, s, step)
      ensures Apply(env, s, step) in Reached(env)
    {
      var steps :| Exec(env, steps) == Some(s);
      var more, s' := ExecStep(env, steps, s, step);
    }
    forall s | s in Reached(env)
      ensures Inv(env, s)
    {
      var steps :| Exec(env, steps) == Some(s);
      Reachable(env, steps);
    }
    assert Exec(env, []) == Some(INIT);
  }

  /** Nothing of the scan moved. */
  ghost predicate SameScan(s: State, s': State) {
    && s'.cfg == s.cfg && s'.from == s.from && s'.next == s.next && s'.watcher == s.watcher
    && s'.cursor == s.cursor && s'.base == s.base && s'.completed == s.completed && s'.handed == s.handed
    && s'.runs == s.runs
  }

  /** The monitor after some events: it has the last of them in hand, or is untouched if there were none. */
  function MonitorAfter(m: Monitor, events: seq<TxEvent>): Monitor {
    if events == [] then m else Monitor.Holding(events[|events| - 1])
  }

  lemma MonitorAfterBoth(m: Monitor, a: seq<TxEvent>, b: seq<TxEvent>)
    ensures MonitorAfter(MonitorAfter(m, a), b) == MonitorAfter(m, a + b)
  {
    if b == [] {
      assert a + b == a;
    }
  }

  // ----- The monitor -------------------------------------------------------------------------

  /** Handling the event the monitor holds, with whatever effect, is a path: a save step and perhaps a publish step. */
  lemma HandleIsAPath(env: Env, R: iset<State>, s: State, effect: Effect, save: DbOutcome, publish: PublishOutcome,
                      foreignKeyHolds: bool)
    returns (s': State)
    requires Within(env, R, s) && s.monitor.Holding? && Possible(effect, save, publish, foreignKeyHolds)
    ensures s' in R && SameScan(s, s')
    ensures s'.monitor == if effect.ok then Idle else Stopped
    ensures s'.log == if effect.saved then s.log + [DeliveryOf(s.cfg, s.monitor.e)] else s.log
    ensures s'.published == if effect.delivered then s.published + [s.monitor.e] else s.published
  {
    s' := StepWithin(env, R, s, Step.SaveEvent(effect.saved, effect.saved && save == Fine));
    if s'.monitor.Recorded? {
      s' := StepWithin(env, R, s', Publish(effect.delivered, effect.ok));
    }
  }

  /** A live monitor can always finish what it has in hand. */
  lemma Drain(env: Env, R: iset<State>, s: State) returns (s': State)
    requires Within(env, R, s) && !s.monitor.Stopped?
    ensures s' in R && SameScan(s, s') && s'.monitor.Idle?
  {
    s' := s;
    if s'.monitor.Holding? {
      s' := StepWithin(env, R, s', Step.SaveEvent(true, true));
    }
    if s'.monitor.Recorded? {
      s' := StepWithin(env, R, s', Publish(true, true));
    }
  }

  predicate OfMonitor(step: Step) {
    step.SaveEvent? || step.Publish? || step.StopMonitor?
  }

  /** The watcher's own steps: all but the hand-over, in which both take part. */
  predicate OfWatcher(step: Step) {
    step.Tick? || step.EndScan? || step.Fetch? || step.FinishBlock? || step.WriteCursor? || step.StopWatcher?
  }

  /** Between two hand-overs the monitor and the watcher do not see each other. */
  lemma MonitorAndWatcherCommute(env: Env, s: State, m: Step, w: Step)
    requires OfMonitor(m) && OfWatcher(w) && Enabled(env, s, m) && Enabled(env, s, w)
    ensures Enabled(env, Apply(env, s, m), w) && Enabled(env, Apply(env, s, w), m)
    ensures Apply(env, Apply(env, s, m), w) == Apply(env, Apply(env, s, w), m)
  {
    var t := Apply(env, s, m);
    MonitorFieldsCommute(env, s, w, t.monitor, t.tables, t.log, t.saved, t.published, t.lost);
    assert t == s.(monitor := t.monitor, tables := t.tables, log := t.log, saved := t.saved, published := t.published,
                   lost := t.lost);
    WatcherLeavesMonitorFields(env, s, w);
    MonitorIgnoresScan(env, s, Apply(env, s, w), m);
  }

  /** The watcher's steps neither read nor write what the monitor changes ... */
  lemma MonitorFieldsCommute(env: Env, s: State, w: Step, m: Monitor, tables: Tables, log: seq<Delivery>,
                             saved: seq<TxEvent>, published: seq<TxEvent>, lost: map<nat, Delivery>)
    requires OfWatcher(w) && Enabled(env, s, w)
    ensures var t := s.(monitor := m, tables := tables, log := log, saved := saved, published := published,
                        lost := lost);
            && Enabled(env, t, w)
            && Apply(env, t, w) == Apply(env, s, w).(monitor := m, tables := tables, log := log, saved := saved,
                                                     published := published, lost := lost)
  {
  }

  lemma WatcherLeavesMonitorFields(env: Env, s: State, w: Step)
    requires OfWatcher(w) && Enabled(env, s, w)
    ensures var t := Apply(env, s, w);
            && t.monitor == s.monitor && t.tables == s.tables && t.log == s.log && t.saved == s.saved
            && t.published == s.published && t.lost == s.lost && t.cfg == s.cfg && t.runs == s.runs
  {
  }

  /** ... and the monitor's steps change it alike wherever the scan is. */
  lemma MonitorIgnoresScan(env: Env, s: State, t: State, m: Step)
    requires OfMonitor(m) && Enabled(env, s, m)
    requires t.monitor == s.monitor && t.tables == s.tables && t.log == s.log && t.saved == s.saved
    requires t.published == s.published && t.lost == s.lost && t.cfg == s.cfg && t.runs == s.runs
    ensures Enabled(env, t, m)
    ensures var s' := Apply(env, s, m);
            Apply(env, t, m) == t.(monitor := s'.monitor, tables := s'.tables, log := s'.log, saved := s'.saved,
                                   published := s'.published, lost := s'.lost)
  {
  }

  /** The state that steps lead to from a given one. */
  ghost function Run(env: Env, s: State, steps: seq<Step>): Option<State>
    decreases |steps|
  {
    if steps == [] then Some(s)
    else if Enabled(env, s, steps[0]) then Run(env, Apply(env, s, steps[0]), steps[1..])
    else None
  }

  lemma {:induction false} WatcherStepPasses(env: Env, s: State, ms: seq<Step>, w: Step)
    requires (forall m | m in ms :: OfMonitor(m)) && OfWatcher(w)
    requires Run(env, s, ms).Some? && Enabled(env, s, w)
    ensures Enabled(env, Run(env, s, ms).value, w)
    ensures Run(env, Apply(env, s, w), ms) == Some(Apply(env, Run(env, s, ms).value, w))
    decreases |ms|
  {
    if ms != [] {
      MonitorAndWatcherCommute(env, s, ms[0], w);
      WatcherStepPasses(env, Apply(env, s, ms[0]), ms[1..], w);
    }
  }

  /**
   * Whatever becomes of the event in the monitor's hands, and whenever it does among the watcher's steps, the outcome
   * is as if the watcher had gone first: saves that fail late, or early, leave the same state.
   */
  lemma {:induction false} TheirOrderDoesNotMatter(env: Env, s: State, ms: seq<Step>, ws: seq<Step>)
    requires (forall m | m in ms :: OfMonitor(m)) && (forall w | w in ws :: OfWatcher(w))
    requires Run(env, s, ms).Some? && Run(env, s, ws).Some?
    ensures Run(env, Run(env, s, ms).value, ws) == Run(env, Run(env, s, ws).value, ms)
    ensures Run(env, Run(env, s, ms).value, ws).Some?
    decreases |ws|
  {
    if ws != [] {
      WatcherStepPasses(env, s, ms, ws[0]);
      TheirOrderDoesNotMatter(env, Apply(env, s, ws[0]), ms, ws[1..]);
    }
  }

  // ----- The watcher -------------------------------------------------------------------------

  /** The first k events of the block being sent are handed over, those before the last handled. */
  ghost predicate SentTo(env: Env, s: State, s': State, k: nat)
    requires s.watcher.Emitting? && s.watcher.sent <= k <= |EventsAt(env, s.cfg, s.watcher.n)|
  {
    && s'.monitor == MonitorAfter(s.monitor, EventsAt(env, s.cfg, s.watcher.n)[s.watcher.sent..k])
    && SameScan(s.(watcher := Emitting(s.watcher.n, s.watcher.tip, k), handed := s'.handed), s')
    && s'.handed == s.handed + EventsAt(env, s.cfg, s.watcher.n)[s.watcher.sent..k]
  }

  /** Before each hand-over the monitor finishes the event before; the last event stays in its hands. */
  lemma {:induction false} SendUpTo(env: Env, R: iset<State>, s: State, k: nat)
    returns (s': State)
    requires Within(env, R, s) && s.watcher.Emitting?
    requires s.watcher.sent <= k <= |EventsAt(env, s.cfg, s.watcher.n)|
    requires s.monitor.Stopped? ==> k == s.watcher.sent
    ensures s' in R && SentTo(env, s, s', k)
    decreases k
  {
    if k == s.watcher.sent {
      s' := s;
      SentNone(env, s);
    } else {
      var t := SendUpTo(env, R, s, k - 1);
      s' := SendNext(env, R, s, t, k - 1);
    }
  }

  lemma SentNone(env: Env, s: State)
    requires s.watcher.Emitting? && s.watcher.sent <= |EventsAt(env, s.cfg, s.watcher.n)|
    ensures SentTo(env, s, s, s.watcher.sent)
  {
  }

  lemma SendNext(env: Env, R: iset<State>, s: State, t: State, k: nat) returns (t': State)
    requires s.watcher.Emitting? && s.watcher.sent <= k < |EventsAt(env, s.cfg, s.watcher.n)| && !s.monitor.Stopped?
    requires Within(env, R, t) && SentTo(env, s, t, k)
    ensures t' in R && SentTo(env, s, t', k + 1)
  {
    t' := SendOne(env, R, t);
    SentOneMore(env, s, t, t', k);
  }

  lemma SentOneMore(env: Env, s: State, t: State, t': State, k: nat)
    requires s.watcher.Emitting? && s.watcher.sent <= k < |EventsAt(env, s.cfg, s.watcher.n)|
    requires SentTo(env, s, t, k)
    requires SameScan(t.(watcher := Emitting(t.watcher.n, t.watcher.tip, k + 1), handed := t'.handed), t')
    requires t'.handed == t.handed + [EventsAt(env, t.cfg, t.watcher.n)[k]]
    requires t'.monitor == Monitor.Holding(EventsAt(env, t.cfg, t.watcher.n)[k])
    ensures SentTo(env, s, t', k + 1)
  {
    var evs := EventsAt(env, s.cfg, s.watcher.n);
    assert evs[s.watcher.sent..k] + [evs[k]] == evs[s.watcher.sent..k + 1];
  }

  lemma SendOne(env: Env, R: iset<State>, s: State) returns (s': State)
    requires Within(env, R, s) && s.watcher.Emitting? && !s.monitor.Stopped?
    requires s.watcher.sent < |EventsAt(env, s.cfg, s.watcher.n)|
    ensures s' in R
    ensures SameScan(s.(watcher := Emitting(s.watcher.n, s.watcher.tip, s.watcher.sent + 1), handed := s'.handed), s')
    ensures s'.handed == s.handed + [EventsAt(env, s.cfg, s.watcher.n)[s.watcher.sent]]
    ensures s'.monitor == Monitor.Holding(EventsAt(env, s.cfg, s.watcher.n)[s.watcher.sent])
  {
    var idle := Drain(env, R, s);
    s' := StepWithin(env, R, idle, HandOver);
  }

  /** The next block was sent in full and finished, and its cursor write tried. */
  ghost predicate ScannedNext(env: Env, s: State, s': State, written: bool) {
    && s'.cfg == s.cfg && s'.next == s.next + 1
    && s'.monitor == MonitorAfter(s.monitor, EventsAt(env, s.cfg, s.next))
    && s'.handed == s.handed + EventsAt(env, s.cfg, s.next)
    && s'.cursor == if written then Some(s.next) else s.cursor
  }

  /** One block: fetched, sent, finished, and its cursor write tried. */
  lemma ScanOne(env: Env, R: iset<State>, s: State, written: bool) returns (s': State)
    requires Within(env, R, s) && s.watcher.Scanning? && s.watcher.n == s.next <= s.watcher.tip
    requires s.monitor.Stopped? ==> EventsAt(env, s.cfg, s.next) == []
    ensures s' in R && ScannedNext(env, s, s', written)
    ensures s'.watcher == Scanning(s.next + 1, s.watcher.tip)
  {
    var evs := EventsAt(env, s.cfg, s.next);
    var emitting := FetchNext(env, R, s);
    var all := SendUpTo(env, R, emitting, |evs|);
    SentMeans(env, s, emitting.watcher, all, |evs|);
    assert evs[..|evs|] == evs;
    s' := FinishOne(env, R, all, written);
  }

  lemma FinishOne(env: Env, R: iset<State>, s: State, written: bool) returns (s': State)
    requires Within(env, R, s) && s.watcher.Emitting?
    requires s.watcher.sent == |EventsAt(env, s.cfg, s.watcher.n)|
    ensures s' in R && s'.cfg == s.cfg && s'.next == s.watcher.n + 1
    ensures s'.watcher == Scanning(s.watcher.n + 1, s.watcher.tip)
    ensures s'.handed == s.handed && s'.monitor == s.monitor
    ensures s'.cursor == if written then Some(s.watcher.n) else s.cursor
  {
    var advancing := StepWithin(env, R, s, FinishBlock);
    s' := StepWithin(env, R, advancing, WriteCursor(written));
  }

  /** How far a scan that began at `s` has come in `t`: every block passed was sent in full. */
  ghost predicate Scanned(env: Env, s: State, t: State, writeFails: set<nat>) {
    && t.cfg == s.cfg && 0 < s.next <= t.next
    && t.handed == s.handed + Stream(env, s.cfg, s.next - 1, t.next)
    && t.cursor == CursorAfter(s.cursor, s.next, t.next, writeFails)
    && t.monitor == MonitorAfter(s.monitor, Stream(env, s.cfg, s.next - 1, t.next))
  }

  /** Blocks next, ..., until - 1 in one go. */
  lemma {:induction false} ScanMany(env: Env, R: iset<State>, s: State, until: nat, writeFails: set<nat>)
    returns (s': State)
    requires Within(env, R, s) && s.watcher.Scanning? && s.watcher.n == s.next
    requires 0 < s.next <= until <= s.watcher.tip + 1
    requires s.monitor.Stopped? ==> Stream(env, s.cfg, s.next - 1, until) == []
    ensures s' in R && s'.next == until && s'.watcher == Scanning(until, s.watcher.tip)
    ensures Scanned(env, s, s', writeFails)
    decreases until
  {
    if s.next == until {
      s' := s;
      ScannedNone(env, s, writeFails);
    } else {
      StoppedBefore(env, s, until);
      var t := ScanMany(env, R, s, until - 1, writeFails);
      s' := ScanNext(env, R, s, t, writeFails);
    }
  }

  lemma ScannedNone(env: Env, s: State, writeFails: set<nat>)
    requires 0 < s.next
    ensures Scanned(env, s, s, writeFails)
  {
  }

  lemma ScanNext(env: Env, R: iset<State>, s: State, t: State, writeFails: set<nat>)
    returns (t': State)
    requires Within(env, R, t) && Scanned(env, s, t, writeFails)
    requires t.watcher.Scanning? && t.watcher.n == t.next <= t.watcher.tip
    requires s.monitor.Stopped? ==> EventsAt(env, s.cfg, t.next) == []
    ensures t' in R && t'.next == t.next + 1 && t'.watcher == Scanning(t.next + 1, t.watcher.tip)
    ensures Scanned(env, s, t', writeFails)
  {
    t' := ScanOne(env, R, t, t.next !in writeFails);
    ScannedOneMore(env, s, t, t', writeFails);
  }

  lemma StoppedBefore(env: Env, s: State, until: nat)
    requires 0 < s.next < until
    requires s.monitor.Stopped? ==> Stream(env, s.cfg, s.next - 1, until) == []
    ensures s.monitor.Stopped? ==>
              Stream(env, s.cfg, s.next - 1, until - 1) == [] && EventsAt(env, s.cfg, until - 1) == []
  {
  }

  lemma ScannedOneMore(env: Env, s: State, t: State, t': State, writeFails: set<nat>)
    requires Scanned(env, s, t, writeFails) && ScannedNext(env, t, t', t.next !in writeFails)
    ensures Scanned(env, s, t', writeFails)
  {
    StreamSnoc(s.handed, env, s.cfg, s.next - 1, t.next);
    MonitorAfterBoth(s.monitor, Stream(env, s.cfg, s.next - 1, t.next), EventsAt(env, s.cfg, t.next));
  }

  /**
   * What `Watcher.Tick` does when it is not cancelled, the transition system can do, whatever the monitor has in hand
   * at the start; at the end it still has the tick's last event in hand, with any outcome left to it. Only a stopped
   * monitor lets no event through.
   */
  lemma TickIsAPath(env: Env, R: iset<State>, s: State, head: nat, writeFails: set<nat>, until: nat)
    returns (s': State)
    requires Within(env, R, s) && s.watcher.Waiting? && 0 < s.next <= until
    requires until == s.next || until <= head + 1
    requires s.monitor.Stopped? ==> Stream(env, s.cfg, s.next - 1, until) == []
    ensures s' in R && s'.watcher.Waiting? && s'.next == until
    ensures Scanned(env, s, s', writeFails)
  {
    var t := ScanUntil(env, R, s, head, writeFails, until);
    s' := EndTick(env, R, t);
    ScannedAlike(env, s, t, s.watcher, Waiting, writeFails);
  }

  /** At the first block that cannot be fetched, or behind the head. */
  lemma EndTick(env: Env, R: iset<State>, s: State) returns (s': State)
    requires Within(env, R, s) && s.watcher.Scanning?
    ensures s' in R && s' == s.(watcher := Waiting)
  {
    if s.watcher.n <= s.watcher.tip {
      s' := StepWithin(env, R, s, Fetch(false));
    } else {
      s' := StepWithin(env, R, s, EndScan);
    }
  }

  lemma ScanUntil(env: Env, R: iset<State>, s: State, head: nat, writeFails: set<nat>, until: nat)
    returns (s': State)
    requires Within(env, R, s) && s.watcher.Waiting? && 0 < s.next <= until
    requires until == s.next || until <= head + 1
    requires s.monitor.Stopped? ==> Stream(env, s.cfg, s.next - 1, until) == []
    ensures s' in R && s'.watcher == Scanning(until, head) && s'.next == until
    ensures Scanned(env, s, s', writeFails)
  {
    var scanning := StartTick(env, R, s, head);
    if s.next <= head {
      s' := ScanMany(env, R, scanning, until, writeFails);
    } else {
      s' := scanning;
    }
    ScannedAlike(env, s, s', scanning.watcher, s'.watcher, writeFails);
  }

  lemma StartTick(env: Env, R: iset<State>, s: State, head: nat) returns (s': State)
    requires Within(env, R, s) && s.watcher.Waiting?
    ensures s' in R && s' == s.(watcher := Scanning(s.next, head))
  {
    s' := StepWithin(env, R, s, Tick(Some(head)));
  }

  /** How far a scan has come does not depend on where the watcher stands. */
  lemma ScannedAlike(env: Env, s: State, t: State, v: Pipeline.Watcher, w: Pipeline.Watcher, writeFails: set<nat>)
    ensures Scanned(env, s.(watcher := v), t.(watcher := w), writeFails) <==> Scanned(env, s, t, writeFails)
  {
  }

  /** A cancelled tick is a path too: it stops in block `until` after `k` of its events, with the watcher off. */
  lemma CancelledTickIsAPath(env: Env, R: iset<State>, s: State, head: nat, writeFails: set<nat>, until: nat, k: nat)
    returns (s': State)
    requires Within(env, R, s) && s.watcher.Waiting? && 0 < s.next <= until <= head
    requires k <= |EventsAt(env, s.cfg, until)|
    requires s.monitor.Stopped? ==> Stream(env, s.cfg, s.next - 1, until) == [] && k == 0
    ensures s' in R && s'.watcher.Off? && s'.cfg == s.cfg && s'.next == until
    ensures s'.handed == s.handed + Stream(env, s.cfg, s.next - 1, until) + EventsAt(env, s.cfg, until)[..k]
    ensures s'.monitor
         == MonitorAfter(s.monitor, Stream(env, s.cfg, s.next - 1, until) + EventsAt(env, s.cfg, until)[..k])
    ensures s'.cursor == CursorAfter(s.cursor, s.next, until, writeFails)
  {
    var t := ScanUntil(env, R, s, head, writeFails, until);
    s' := SendPart(env, R, t, k);
    MonitorAfterBoth(s.monitor, Stream(env, s.cfg, s.next - 1, until), EventsAt(env, s.cfg, until)[..k]);
  }

  lemma SendPart(env: Env, R: iset<State>, s: State, k: nat) returns (s': State)
    requires Within(env, R, s) && s.watcher.Scanning? && s.watcher.n == s.next <= s.watcher.tip
    requires k <= |EventsAt(env, s.cfg, s.next)| && (s.monitor.Stopped? ==> k == 0)
    ensures s' in R && s'.watcher.Off?
    ensures s'.monitor == MonitorAfter(s.monitor, EventsAt(env, s.cfg, s.next)[..k])
    ensures s'.cfg == s.cfg && s'.next == s.next && s'.cursor == s.cursor
    ensures s'.handed == s.handed + EventsAt(env, s.cfg, s.next)[..k]
  {
    var emitting := FetchNext(env, R, s);
    var some := SendUpTo(env, R, emitting, k);
    SentMeans(env, s, emitting.watcher, some, k);
    s' := StopSending(env, R, some);
  }

  lemma SentMeans(env: Env, s: State, w: Pipeline.Watcher, s': State, k: nat)
    requires w.Emitting? && w.n == s.next && w.sent == 0 && k <= |EventsAt(env, s.cfg, s.next)|
    requires SentTo(env, s.(watcher := w), s', k)
    ensures s'.cfg == s.cfg && s'.next == s.next && s'.cursor == s.cursor
    ensures s'.monitor == MonitorAfter(s.monitor, EventsAt(env, s.cfg, s.next)[..k])
    ensures s'.handed == s.handed + EventsAt(env, s.cfg, s.next)[..k]
    ensures s'.watcher == Emitting(s.next, w.tip, k)
  {
    assert EventsAt(env, s.cfg, s.next)[0..k] == EventsAt(env, s.cfg, s.next)[..k];
  }

  lemma FetchNext(env: Env, R: iset<State>, s: State) returns (s': State)
    requires Within(env, R, s) && s.watcher.Scanning? && s.watcher.n <= s.watcher.tip
    ensures s' in R && s' == s.(watcher := Emitting(s.watcher.n, s.watcher.tip, 0))
  {
    s' := StepWithin(env, R, s, Fetch(true));
  }

  lemma StopSending(env: Env, R: iset<State>, s: State) returns (s': State)
    requires Within(env, R, s) && s.watcher.Emitting?
    ensures s' in R && s' == s.(watcher := Off)
  {
    s' := StepWithin(env, R, s, StopWatcher);
  }

  // ----- Simulation --------------------------------------------------------------------------

  /** The watcher object is in the state that the transition system has reached. */
  ghost predicate Simulates(w: Watchers.Watcher, R: iset<State>, s: State)
    reads w, w.cursor
  {
    && Within(w.env, R, s)
    && 0 < w.next == s.next && w.watched == s.cfg.watched && w.sent == s.handed && w.SavedHeight() == s.cursor
  }

  /** Starting to watch is booting: the scan resumes where the transition system says. */
  method SimulatedStart(w: Watchers.Watcher, addrs: seq<Address>, tip: Option<nat>, cursorFails: bool,
                        ghost owners: map<Address, WalletId>, ghost R: iset<State>, ghost s: State)
    returns (ok: bool, ghost s': State)
    requires Within(w.env, R, s) && s.watcher.Off? && s.monitor.Stopped?
    requires w.sent == [] && w.SavedHeight() == s.cursor && forall a | a in addrs :: a in owners
    modifies w
    ensures ok == tip.Some?
    ensures ok ==> Simulates(w, R, s') && s'.watcher.Waiting? && s'.monitor.Idle? && s'.cfg.owners == owners
  {
    ok := w.Watch(addrs, tip, cursorFails);
    s' := s;
    if ok {
      s' := StepWithin(w.env, R, s, Boot(Config(w.watched, owners), tip.value, !cursorFails));
    }
  }

  /**
   * Tick by tick the watcher object stays in a state that the transition system reaches, whatever fails, whenever it
   * is cancelled, and whatever the monitor has in hand. (With a stopped monitor a tick that has something to send never
   * returns.)
   */
  method SimulatedTick(w: Watchers.Watcher, head: Option<Height>, fetchFails: set<nat>, writeFails: set<nat>,
                       repliesLost: set<nat>, cancelAfter: Option<nat>, ghost R: iset<State>, ghost s: State)
    returns (cancelled: bool, ghost s': State)
    requires Simulates(w, R, s) && s.watcher.Waiting?
    modifies w, w.cursor
    ensures !(s.monitor.Stopped? && w.sent != old(w.sent)) ==>
              Simulates(w, R, s') && s'.watcher == if cancelled then Off else Waiting
  {
    cancelled := w.Tick(head, fetchFails, writeFails, repliesLost, cancelAfter, s.cfg);
    s' := s;
    ghost var fails := if w.cursor == null then Blocks(s.next, w.next) else writeFails;
    AllWritesFail(s.cursor, s.next, w.next);
    if head.Some? && (s.monitor.Stopped? ==> w.sent == s.handed) {
      s' := TickOrCancel(w.env, R, s, head.value, fails, cancelled, w.next, w.sent);
    }
  }

  /** The two kinds of tick, described as `Watcher.Tick` describes them. */
  lemma TickOrCancel(env: Env, R: iset<State>, s: State, head: nat, writeFails: set<nat>,
                     cancelled: bool, until: nat, sent: seq<TxEvent>)
    returns (s': State)
    requires Within(env, R, s) && s.watcher.Waiting? && 0 < s.next <= until
    requires until == s.next || until <= head + 1
    requires cancelled ==> until <= head
    requires !cancelled ==> sent == s.handed + Stream(env, s.cfg, s.next - 1, until)
    requires cancelled ==>
               && s.handed + Stream(env, s.cfg, s.next - 1, until) <= sent
               && sent < s.handed + Stream(env, s.cfg, s.next - 1, until + 1)
    requires s.monitor.Stopped? ==> sent == s.handed
    ensures s' in R && s'.watcher == if cancelled then Off else Waiting
    ensures s'.cfg == s.cfg && s'.next == until && s'.handed == sent
    ensures s'.cursor == CursorAfter(s.cursor, s.next, until, writeFails)
  {
    if cancelled {
      var k := SentWithin(env, s, until, sent);
      s' := CancelledTickIsAPath(env, R, s, head, writeFails, until, k);
    } else {
      assert s.monitor.Stopped? ==> |Stream(env, s.cfg, s.next - 1, until)| == 0;
      s' := TickIsAPath(env, R, s, head, writeFails, until);
    }
  }

  lemma SentWithin(env: Env, s: State, until: nat, sent: seq<TxEvent>) returns (k: nat)
    requires 0 < s.next <= until
    requires s.handed + Stream(env, s.cfg, s.next - 1, until) <= sent
    requires sent < s.handed + Stream(env, s.cfg, s.next - 1, until + 1)
    ensures k <= |EventsAt(env, s.cfg, until)|
    ensures sent == s.handed + Stream(env, s.cfg, s.next - 1, until) + EventsAt(env, s.cfg, until)[..k]
    ensures sent == s.handed ==> k == 0 && Stream(env, s.cfg, s.next - 1, until) == []
  {
    var before, evs := s.handed + Stream(env, s.cfg, s.next - 1, until), EventsAt(env, s.cfg, until);
    StreamSnoc(s.handed, env, s.cfg, s.next - 1, until);
    k := |sent| - |before|;
    assert sent == (before + evs)[..|sent|] == before + evs[..k];
  }

  function Blocks(lo: nat, hi: nat): (blocks: set<nat>)
    ensures forall n :: n in blocks <==> lo <= n < hi
    decreases hi
  {
    if hi <= lo then {} else Blocks(lo, hi - 1) + {hi - 1}
  }

  /** Without a cursor store it is as if every write failed. */
  lemma AllWritesFail(before: Option<nat>, lo: nat, hi: nat)
    ensures CursorAfter(before, lo, hi, Blocks(lo, hi)) == before
  {
    CursorNeverPassesTheScan(before, lo, hi, Blocks(lo, hi));
  }
}
