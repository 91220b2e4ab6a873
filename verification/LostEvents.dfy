/** What is lost stays lost: an event left behind a persisted cursor, in every continuation that trusts the cursor. */
module LostEvents {
  import opened Domain
  import opened Matching
  import opened TransactionTables
  import opened Pipeline
  import opened PipelineSafety
  import opened LoopRefinement

  // ----- After the loss ----------------------------------------------------------------------

  /** Every run that starts reads the cursor and sees a head at or above block n. */
  ghost predicate BootsTrustCursor(steps: seq<Step>, n: nat) {
    forall k | 0 <= k < |steps| && steps[k].Boot? :: steps[k].cursorRead && n <= steps[k].tip
  }

  /** The cursor is at or above n, and no running scan, nor the monitor, has to do with n or a block below. */
  ghost predicate Beyond(s: State, n: nat) {
    && s.cursor.Some? && n <= s.cursor.value
    && ((s.watcher.Off? && s.monitor.Stopped?) || n <= s.from)
  }

  ghost predicate LogGrowsAbove(before: seq<Delivery>, log: seq<Delivery>, n: nat) {
    before <= log && forall k | |before| <= k < |log| :: log[k].event.height > n
  }

  lemma BeyondKept(env: Env, s: State, step: Step, n: nat)
    requires ScanInv(env, s) && Beyond(s, n) && Enabled(env, s, step)
    requires step.Boot? ==> step.cursorRead && n <= step.tip
    ensures Beyond(Apply(env, s, step), n)
  {
  }

  lemma SavedIsAbove(env: Env, s: State, step: Step, n: nat)
    requires ScanInv(env, s) && LagInv(s) && Beyond(s, n) && Enabled(env, s, step)
    ensures LogGrowsAbove(s.log, Apply(env, s, step).log, n)
  {
    if step.SaveEvent? && step.applied {
      HeldIsAbove(env, s);
    }
  }

  lemma HeldIsAbove(env: Env, s: State)
    requires ScanInv(env, s) && LagInv(s) && s.monitor.Holding?
    ensures s.monitor.e.height > s.from
  {
    HandedMembers(env, s, |s.handed| - 1);
    var m, k :| s.from < m <= s.next && 0 <= k < |EventsAt(env, s.cfg, m)| && s.monitor.e == EventsAt(env, s.cfg, m)[k];
    EventHeights(env, s.cfg, m, k);
  }

  /**
   * Once everything has stopped with the cursor at or above n, no event of n or a block below is ever saved again, as
   * long as every later run reads the cursor and sees a head at or above n.
   */
  lemma {:induction false} NothingBelowIsSavedAgain(env: Env, steps: seq<Step>, more: seq<Step>, n: nat)
    requires Exec(env, steps).Some? && Beyond(Exec(env, steps).value, n)
    requires Exec(env, steps + more).Some? && BootsTrustCursor(more, n)
    ensures Beyond(Exec(env, steps + more).value, n)
    ensures LogGrowsAbove(Exec(env, steps).value.log, Exec(env, steps + more).value.log, n)
    decreases |more|
  {
    if more == [] {
      assert steps + more == steps;
    } else {
      var init, step := more[..|more| - 1], more[|more| - 1];
      assert (steps + more)[..|steps + more| - 1] == steps + init;
      ExecLast(env, steps + more);
      NothingBelowIsSavedAgain(env, steps, init, n);
      StaysBeyond(env, steps + init, step, Exec(env, steps).value.log, n);
    }
  }

  lemma ExecLast(env: Env, steps: seq<Step>)
    requires steps != [] && Exec(env, steps).Some?
    ensures var before := Exec(env, steps[..|steps| - 1]);
            && before.Some? && Enabled(env, before.value, steps[|steps| - 1])
            && Exec(env, steps) == Some(Apply(env, before.value, steps[|steps| - 1]))
  {
  }

  lemma StaysBeyond(env: Env, steps: seq<Step>, step: Step, before: seq<Delivery>, n: nat)
    requires Exec(env, steps).Some? && Enabled(env, Exec(env, steps).value, step)
    requires Beyond(Exec(env, steps).value, n) && LogGrowsAbove(before, Exec(env, steps).value.log, n)
    requires step.Boot? ==> step.cursorRead && n <= step.tip
    ensures Beyond(Apply(env, Exec(env, steps).value, step), n)
    ensures LogGrowsAbove(before, Apply(env, Exec(env, steps).value, step).log, n)
  {
    var s := Exec(env, steps).value;
    assert ScanInv(env, s) && LagInv(s) by {
      Reachable(env, steps);
    }
    BeyondKept(env, s, step, n);
    SavedIsAbove(env, s, step, n);
    GrowthAddsUp(before, s.log, Apply(env, s, step).log, n);
  }

  lemma GrowthAddsUp(a: seq<Delivery>, b: seq<Delivery>, c: seq<Delivery>, n: nat)
    requires LogGrowsAbove(a, b, n) && LogGrowsAbove(b, c, n)
    ensures LogGrowsAbove(a, c, n)
  {
    assert b == c[..|b|];
  }

  // ----- The events of a block are told apart ------------------------------------------------

  lemma LinksTellEventsApart(env: Env, cfg: Config, n: nat, i: nat, j: nat)
    requires DistinctHashes(env) && i < j < |EventsAt(env, cfg, n)|
    ensures LinkKeyOf(EventsAt(env, cfg, n)[i]) != LinkKeyOf(EventsAt(env, cfg, n)[j])
  {
    var scan, txs, time := Scan(env.codec, env.chain, cfg.watched), env.blocks(n).txs, env.blocks(n).time;
    var slots := MatchedListsWatchedSides(scan, txs, n, time);
    assert ComesFromSlot(scan, txs, n, time, slots[i], EventsAt(env, cfg, n)[i]);
    assert ComesFromSlot(scan, txs, n, time, slots[j], EventsAt(env, cfg, n)[j]);
  }

  // ----- The loss ----------------------------------------------------------------------------

  /** In its first run the monitor has saved exactly the deliveries of the run's saved events. */
  ghost predicate FirstRunLog(s: State) {
    s.runs <= 1 ==>
      |s.log| == |s.saved| && forall i | 0 <= i < |s.log| :: s.log[i] == DeliveryOf(s.cfg, s.saved[i])
  }

  lemma FirstRunLogKept(env: Env, s: State, step: Step)
    requires FirstRunLog(s) && Enabled(env, s, step) && (s.runs == 0 ==> s.log == [])
    requires s.runs == 0 ==> s.monitor.Stopped?
    ensures FirstRunLog(Apply(env, s, step))
    ensures Apply(env, s, step).runs == 0 ==> Apply(env, s, step).log == []
  {
  }

  lemma {:induction false} FirstRun(env: Env, steps: seq<Step>)
    requires Exec(env, steps).Some?
    ensures FirstRunLog(Exec(env, steps).value)
    ensures Exec(env, steps).value.runs == 0 ==> Exec(env, steps).value.log == []
  {
    if steps != [] {
      FirstRun(env, steps[..|steps| - 1]);
      assert RunsInv(Exec(env, steps[..|steps| - 1]).value) by {
        Reachable(env, steps[..|steps| - 1]);
      }
      FirstRunLogKept(env, Exec(env, steps[..|steps| - 1]).value, steps[|steps| - 1]);
    }
  }

  /** The last event of the block, delivered. */
  function LastOf(env: Env, cfg: Config, n: nat): Delivery
    requires EventsAt(env, cfg, n) != []
  {
    DeliveryOf(cfg, EventsAt(env, cfg, n)[|EventsAt(env, cfg, n)| - 1])
  }

  /** The deliveries of all events of the block but its last. */
  ghost predicate AllButLast(env: Env, cfg: Config, n: nat, log: seq<Delivery>) {
    var evs := EventsAt(env, cfg, n);
    |log| == |evs| - 1 && forall i | 0 <= i < |log| :: log[i] == DeliveryOf(cfg, evs[i])
  }

  lemma StartScan(env: Env, R: iset<State>, cfg: Config, n: nat) returns (s: State)
    requires Within(env, R, INIT) && WellFormed(env, cfg)
    ensures s in R && s.runs == 1
    ensures s.watcher == Scanning(n + 1, n + 1) && s.next == n + 1 && s.from == n && s.monitor.Idle? && s.cfg == cfg
    ensures s.handed == [] && s.cursor.None?
  {
    var booted := StepWithin(env, R, INIT, Boot(cfg, n, true));
    s := StepWithin(env, R, booted, Tick(Some(n + 1)));
  }

  lemma PersistAndCrash(env: Env, R: iset<State>, s: State) returns (s': State)
    requires Within(env, R, s) && s.watcher.Emitting? && s.cursor.None?
    requires s.watcher.sent == |EventsAt(env, s.cfg, s.watcher.n)|
    ensures s' in R && s'.watcher.Off? && s'.monitor.Stopped?
    ensures s'.log == s.log && s'.base == s.from && s'.cursor == Some(s.watcher.n)
  {
    var finished := StepWithin(env, R, s, FinishBlock);
    var written := StepWithin(env, R, finished, WriteCursor(true));
    s' := StepWithin(env, R, written, Crash);
  }

  /** A run that hands over all events of block n + 1, saves all but the last, persists the block and dies. */
  lemma RunThatLoses(env: Env, cfg: Config, n: nat) returns (s: State)
    requires WellFormed(env, cfg) && EventsAt(env, cfg, n + 1) != []
    ensures s in Reached(env) && s.watcher.Off? && s.monitor.Stopped?
    ensures s.base < n + 1 && s.cursor == Some(n + 1)
    ensures AllButLast(env, cfg, n + 1, s.log)
  {
    var R, evs := Reached(env), EventsAt(env, cfg, n + 1);
    ReachedIsClosed(env);
    var scanning := StartScan(env, R, cfg, n);
    var emitting := FetchNext(env, R, scanning);
    var holding := SendUpTo(env, R, emitting, |evs|);
    SentMeans(env, scanning, emitting.watcher, holding, |evs|);
    assert evs[..|evs|] == evs && holding.runs == 1 && holding.from == n;
    HoldingLast(env, holding, evs);
    s := PersistAndCrash(env, R, holding);
  }

  lemma HoldingLast(env: Env, s: State, evs: seq<TxEvent>)
    requires s in Reached(env) && s.runs <= 1 && s.monitor.Holding? && s.handed == evs
    ensures |s.log| == |evs| - 1 && forall i | 0 <= i < |s.log| :: s.log[i] == DeliveryOf(s.cfg, evs[i])
  {
    var steps :| Exec(env, steps) == Some(s);
    FirstRun(env, steps);
    assert LagInv(s) by {
      Reachable(env, steps);
    }
    assert s.handed == s.saved + [s.monitor.e];
  }

  /**
   * The gap is real, and for good: for any block with events there is a run that persists the block as scanned and
   * dies with its last event unsaved, after which no run that reads the cursor, and sees a head at or above it, ever
   * brings the event into the tables.
   */
  lemma LastEventCanBeLostForGood(env: Env, cfg: Config, n: nat) returns (steps: seq<Step>)
    requires DistinctHashes(env) && WellFormed(env, cfg) && EventsAt(env, cfg, n + 1) != []
    ensures Exec(env, steps).Some?
    ensures var s := Exec(env, steps).value;
            s.base < n + 1 && s.cursor == Some(n + 1)
    ensures forall more | Exec(env, steps + more).Some? && BootsTrustCursor(more, n + 1) ::
              !InTables(Exec(env, steps + more).value.tables, LastOf(env, cfg, n + 1))
  {
    var s := RunThatLoses(env, cfg, n);
    steps :| Exec(env, steps) == Some(s);
    forall more | Exec(env, steps + more).Some? && BootsTrustCursor(more, n + 1)
      ensures !InTables(Exec(env, steps + more).value.tables, LastOf(env, cfg, n + 1))
    {
      NothingBelowIsSavedAgain(env, steps, more, n + 1);
      NotInTables(env, cfg, steps + more, n + 1, s.log);
    }
  }

  lemma NotInTables(env: Env, cfg: Config, steps: seq<Step>, n: nat, before: seq<Delivery>)
    requires DistinctHashes(env) && Exec(env, steps).Some? && EventsAt(env, cfg, n) != []
    requires AllButLast(env, cfg, n, before)
    requires LogGrowsAbove(before, Exec(env, steps).value.log, n)
    ensures !InTables(Exec(env, steps).value.tables, LastOf(env, cfg, n))
  {
    var s := Exec(env, steps).value;
    assert LogInv(s) by {
      Reachable(env, steps);
    }
    SaveAllDescribed(s.log);
    NotLinked(env, cfg, steps, s.log, n, before);
  }

  lemma NotLinked(env: Env, cfg: Config, steps: seq<Step>, log: seq<Delivery>, n: nat, before: seq<Delivery>)
    requires DistinctHashes(env) && Exec(env, steps).Some? && EventsAt(env, cfg, n) != []
    requires AllButLast(env, cfg, n, before)
    requires log == Exec(env, steps).value.log && LogGrowsAbove(before, log, n)
    ensures forall i | 0 <= i < |log| :: LinkKeyOf(log[i].event) != LinkKeyOf(LastOf(env, cfg, n).event)
  {
    forall i | 0 <= i < |log|
      ensures LinkKeyOf(log[i].event) != LinkKeyOf(LastOf(env, cfg, n).event)
    {
      if i < |before| {
        assert log[i] == before[i];
        LinksTellEventsApart(env, cfg, n, i, |before|);
      } else {
        LaterBlocksDiffer(env, cfg, steps, n, log[i]);
        EventsHaveLinks(env, cfg, n);
      }
    }
  }

  lemma EventsHaveLinks(env: Env, cfg: Config, n: nat)
    requires EventsAt(env, cfg, n) != []
    ensures LinkKeyOf(LastOf(env, cfg, n).event).Some?
  {
    var evs := EventsAt(env, cfg, n);
    MatchedExactly(Scan(env.codec, env.chain, cfg.watched), env.blocks(n).txs, n, env.blocks(n).time, evs[|evs| - 1]);
  }

  /** A saved delivery of another block is about another transaction. */
  lemma LaterBlocksDiffer(env: Env, cfg: Config, steps: seq<Step>, n: nat, d: Delivery)
    requires DistinctHashes(env) && Exec(env, steps).Some? && EventsAt(env, cfg, n) != []
    requires d in Exec(env, steps).value.log && d.event.height != n
    ensures KeyOf(d.event) != KeyOf(LastOf(env, cfg, n).event)
  {
    var i := LoggedHash(env, steps, d);
    var j := LastHash(env, cfg, n);
  }

  lemma LastHash(env: Env, cfg: Config, n: nat) returns (i: nat)
    requires EventsAt(env, cfg, n) != []
    ensures i < |env.blocks(n).txs| && env.blocks(n).txs[i].hash == LastOf(env, cfg, n).event.hash
  {
    i := EventHash(env, cfg, n, |EventsAt(env, cfg, n)| - 1);
  }

  lemma LoggedHash(env: Env, steps: seq<Step>, d: Delivery) returns (i: nat)
    requires Exec(env, steps).Some? && d in Exec(env, steps).value.log
    ensures i < |env.blocks(d.event.height).txs| && env.blocks(d.event.height).txs[i].hash == d.event.hash
  {
    var cfgs := iset c | WellFormed(env, c);
    assert Produced(env, cfgs, d) by {
      BootsAreWellFormed(env, steps);
      LogIsProduced(env, cfgs, steps);
    }
    var cfg, n, k :|
      && cfg in cfgs && 0 < n && 0 <= k < |EventsAt(env, cfg, n)|
      && d == DeliveryOf(cfg, EventsAt(env, cfg, n)[k]);
    EventHeights(env, cfg, n, k);
    i := EventHash(env, cfg, n, k);
  }

  lemma EventHash(env: Env, cfg: Config, n: nat, k: nat) returns (i: nat)
    requires k < |EventsAt(env, cfg, n)|
    ensures i < |env.blocks(n).txs| && env.blocks(n).txs[i].hash == EventsAt(env, cfg, n)[k].hash
  {
    var scan, txs, time, e := Scan(env.codec, env.chain, cfg.watched), env.blocks(n).txs, env.blocks(n).time,
                              EventsAt(env, cfg, n)[k];
    MatchedExactly(scan, txs, n, time, e);
    var side;
    i, side :| 0 <= i < |txs| && Watches(scan, txs[i], side) && e == SideEvent(scan, txs[i], side, n, time);
  }
}
