/** What the monitor guarantees over every run, and exactly what it does not. */
module PipelineSafety {
  import opened Domain
  import opened Matching
  import opened TransactionTables
  import opened Pipeline

  // ----- Where the saved deliveries come from ------------------------------------------------

  /** `d` is the delivery of an event of some block, matched under one of the given configurations. */
  ghost predicate Produced(env: Env, cfgs: iset<Config>, d: Delivery) {
    exists cfg, n, k ::
      && cfg in cfgs && 0 < n && 0 <= k < |EventsAt(env, cfg, n)|
      && d == DeliveryOf(cfg, EventsAt(env, cfg, n)[k])
  }

  ghost predicate BootsWithin(steps: seq<Step>, cfgs: iset<Config>) {
    forall k | 0 <= k < |steps| && steps[k].Boot? :: steps[k].cfg in cfgs
  }

  lemma {:induction false} StreamMembers(env: Env, cfg: Config, from: nat, until: nat, j: nat)
    requires j < |Stream(env, cfg, from, until)|
    ensures exists n, k ::
              && from < n < until && 0 <= k < |EventsAt(env, cfg, n)|
              && Stream(env, cfg, from, until)[j] == EventsAt(env, cfg, n)[k]
    decreases until
  {
    var init := Stream(env, cfg, from, until - 1);
    if j < |init| {
      StreamMembers(env, cfg, from, until - 1, j);
    } else {
      assert Stream(env, cfg, from, until)[j] == EventsAt(env, cfg, until - 1)[j - |init|];
    }
  }

  /** Every event of a block is about one of its transactions, and carries the block's own height and time. */
  lemma EventsAreOfTheirBlock(env: Env, cfg: Config, n: nat, k: nat)
    requires k < |EventsAt(env, cfg, n)|
    ensures var e := EventsAt(env, cfg, n)[k];
            && e.height == n && e.timestamp == env.blocks(e.height).time
            && exists i, outbound ::
                 0 <= i < |env.blocks(n).txs|
                 && Tells(Scan(env.codec, env.chain, cfg.watched), env.blocks(n).txs[i], outbound, n,
                          env.blocks(n).time, e)
  {
    var slots := EventsTell(Scan(env.codec, env.chain, cfg.watched), env.blocks(n).txs, n, env.blocks(n).time);
    assert Tells(Scan(env.codec, env.chain, cfg.watched), env.blocks(n).txs[slots[k] / 2], slots[k] % 2 == 0, n,
                 env.blocks(n).time, EventsAt(env, cfg, n)[k]);
  }

  /** The stream runs through its blocks in order, and each of its events carries the time of its own block. */
  lemma {:induction false} StreamIsInOrder(env: Env, cfg: Config, from: nat, until: nat)
    ensures forall j | 0 <= j < |Stream(env, cfg, from, until)| ::
              var e := Stream(env, cfg, from, until)[j];
              from < e.height < until && e.timestamp == env.blocks(e.height).time
    ensures forall i, j | 0 <= i < j < |Stream(env, cfg, from, until)| ::
              Stream(env, cfg, from, until)[i].height <= Stream(env, cfg, from, until)[j].height
    decreases until
  {
    if from + 1 < until {
      StreamIsInOrder(env, cfg, from, until - 1);
      var init, last := Stream(env, cfg, from, until - 1), EventsAt(env, cfg, until - 1);
      assert Stream(env, cfg, from, until) == init + last;
      forall k | 0 <= k < |last|
        ensures last[k].height == until - 1 && last[k].timestamp == env.blocks(last[k].height).time
      {
        EventsAreOfTheirBlock(env, cfg, until - 1, k);
      }
    }
  }

  /** Every event handed over in this run belongs to a block the run has scanned or is scanning. */
  lemma HandedMembers(env: Env, s: State, j: nat)
    requires ScanInv(env, s) && j < |s.handed|
    ensures exists n, k ::
              && s.from < n <= s.next && 0 <= k < |EventsAt(env, s.cfg, n)|
              && s.handed[j] == EventsAt(env, s.cfg, n)[k]
  {
    var whole := Stream(env, s.cfg, s.from, s.next);
    if j < |whole| {
      StreamMembers(env, s.cfg, s.from, s.next, j);
    } else {
      assert s.handed[j] == EventsAt(env, s.cfg, s.next)[j - |whole|];
    }
  }

  ghost predicate LogWithin(env: Env, cfgs: iset<Config>, s: State) {
    && (forall d | d in s.log :: Produced(env, cfgs, d))
    && (s.runs > 0 ==> s.cfg in cfgs)
  }

  lemma LogWithinKept(env: Env, cfgs: iset<Config>, s: State, step: Step)
    requires ScanInv(env, s) && LagInv(s) && LogWithin(env, cfgs, s) && Enabled(env, s, step)
    requires step.Boot? ==> step.cfg in cfgs
    ensures LogWithin(env, cfgs, Apply(env, s, step))
  {
    if step.SaveEvent? && step.applied {
      HandedMembers(env, s, |s.handed| - 1);
      assert Produced(env, cfgs, DeliveryOf(s.cfg, s.monitor.e));
    }
  }

  lemma {:induction false} LogIsProduced(env: Env, cfgs: iset<Config>, steps: seq<Step>)
    requires Exec(env, steps).Some? && BootsWithin(steps, cfgs)
    ensures LogWithin(env, cfgs, Exec(env, steps).value)
  {
    if steps != [] {
      var init, step := steps[..|steps| - 1], steps[|steps| - 1];
      LogIsProduced(env, cfgs, init);
      Reachable(env, init);
      LogWithinKept(env, cfgs, Exec(env, init).value, step);
    }
  }

  /** A produced delivery is a confirmed one, has a link, and names the wallet its address belongs to. */
  lemma ProducedDeliveries(env: Env, cfgs: iset<Config>, d: Delivery)
    requires Produced(env, cfgs, d) && forall cfg | cfg in cfgs :: WellFormed(env, cfg)
    ensures d.event.status == Confirmed && d.event.chain == env.chain && LinkKeyOf(d.event).Some?
    ensures exists cfg :: cfg in cfgs && d.event.address in cfg.owners && d.wallet == cfg.owners[d.event.address]
  {
    var cfg, n, k :|
      && cfg in cfgs && 0 < n && 0 <= k < |EventsAt(env, cfg, n)|
      && d == DeliveryOf(cfg, EventsAt(env, cfg, n)[k]);
    MatchedExactly(Scan(env.codec, env.chain, cfg.watched), env.blocks(n).txs, n, env.blocks(n).time, d.event);
  }

  // ----- All but at most one event per run ---------------------------------------------------

  /** The row of the delivery's transaction is there, confirmed, and so is its link. */
  predicate InTables(t: Tables, d: Delivery) {
    && KeyOf(d.event) in t.txs
    && t.txs[KeyOf(d.event)].status == Confirmed
    && LinkKeyOf(d.event).Some?
    && LinkKeyOf(d.event).value in t.links
  }

  /** The one event each run may have handed over without saving it. */
  function Outstanding(s: State): map<nat, Delivery> {
    if s.monitor.Holding? then s.lost[s.runs := DeliveryOf(s.cfg, s.monitor.e)] else s.lost
  }

  lemma LoggedIsInTables(env: Env, steps: seq<Step>, d: Delivery)
    requires Exec(env, steps).Some? && d in Exec(env, steps).value.log
    ensures InTables(Exec(env, steps).value.tables, d)
  {
    var s := Exec(env, steps).value;
    Reachable(env, steps);
    var cfgs := iset cfg | WellFormed(env, cfg);
    BootsAreWellFormed(env, steps);
    LogIsProduced(env, cfgs, steps);
    ProducedDeliveries(env, cfgs, d);
    SaveAllDescribed(s.log);
    var i :| 0 <= i < |s.log| && s.log[i] == d;
    assert LinkKeyOf(s.log[i].event) == Some(LinkKeyOf(d.event).value);
    assert KeyOf(s.log[i].event) == KeyOf(d.event);
    var first, last := FirstAndLast(s.log, KeyOf(d.event));
    assert s.log[last] in s.log;
    ProducedDeliveries(env, cfgs, s.log[last]);
  }

  lemma {:induction false} BootsAreWellFormed(env: Env, steps: seq<Step>)
    requires Exec(env, steps).Some?
    ensures BootsWithin(steps, iset cfg | WellFormed(env, cfg))
  {
    if steps != [] {
      BootsAreWellFormed(env, steps[..|steps| - 1]);
    }
  }

  /**
   * Over any number of crashes, restarts, RPC failures, lost replies and failed writes: each event of each block
   * the cursor vouches for is in the tables, unless it is the last of its block and the outstanding event of some
   * run; and there is at most one outstanding event per run.
   */
  lemma AllButOnePerRun(env: Env, steps: seq<Step>)
    requires Exec(env, steps).Some?
    ensures var s := Exec(env, steps).value;
            && (forall r | r in Outstanding(s) :: 1 <= r <= s.runs)
            && (s.cursor.Some? ==>
                  forall n | s.base < n <= s.cursor.value ::
                    && n in s.completed
                    && var evs := EventsAt(env, s.completed[n], n);
                       forall i | 0 <= i < |evs| ::
                         || InTables(s.tables, DeliveryOf(s.completed[n], evs[i]))
                         || (i == |evs| - 1 && DeliveryOf(s.completed[n], evs[i]) in Outstanding(s).Values))
  {
    var s := Exec(env, steps).value;
    Reachable(env, steps);
    if s.cursor.Some? {
      forall n | s.base < n <= s.cursor.value
        ensures n in s.completed
        ensures var evs := EventsAt(env, s.completed[n], n);
                forall i | 0 <= i < |evs| ::
                  || InTables(s.tables, DeliveryOf(s.completed[n], evs[i]))
                  || (i == |evs| - 1 && DeliveryOf(s.completed[n], evs[i]) in Outstanding(s).Values)
      {
        var evs := EventsAt(env, s.completed[n], n);
        assert AlmostSaved(env, s, s.completed[n], n);
        forall i | 0 <= i < |evs|
          ensures || InTables(s.tables, DeliveryOf(s.completed[n], evs[i]))
                  || (i == |evs| - 1 && DeliveryOf(s.completed[n], evs[i]) in Outstanding(s).Values)
        {
          var d := DeliveryOf(s.completed[n], evs[i]);
          if d in s.log {
            LoggedIsInTables(env, steps, d);
          } else {
            UnsavedIsOutstanding(s, d);
          }
        }
      }
    }
  }

  lemma UnsavedIsOutstanding(s: State, d: Delivery)
    requires LagInv(s)
    ensures Unsaved(s, d) <==> d in Outstanding(s).Values
  {
    if r :| r in s.lost && s.lost[r] == d {
      assert r in Outstanding(s) && Outstanding(s)[r] == d;
    } else if s.monitor.Holding? {
      assert s.runs in Outstanding(s) && Outstanding(s)[s.runs] == DeliveryOf(s.cfg, s.monitor.e);
    }
  }

  /** This run has ended with an event that was handed over and not saved. */
  predicate Stranded(s: State) {
    s.monitor.Stopped? && s.saved != s.handed
  }

  /** A run strands an event exactly when it dies, or its save has no effect, while the monitor holds the event. */
  lemma StrandsExactlyWhenHolding(env: Env, steps: seq<Step>, step: Step)
    requires Exec(env, steps).Some? && Enabled(env, Exec(env, steps).value, step)
    ensures var s := Exec(env, steps).value;
            !Stranded(s) && Stranded(Apply(env, s, step))
            <==> s.monitor.Holding? && (step.Crash? || (step.SaveEvent? && !step.applied))
  {
    assert LagInv(Exec(env, steps).value) by {
      Reachable(env, steps);
    }
    StrandStep(env, Exec(env, steps).value, step);
  }

  lemma StrandStep(env: Env, s: State, step: Step)
    requires LagInv(s) && Enabled(env, s, step)
    ensures !Stranded(s) && Stranded(Apply(env, s, step))
            <==> s.monitor.Holding? && (step.Crash? || (step.SaveEvent? && !step.applied))
  {
    if s.monitor.Holding? {
      assert |s.saved| < |s.handed|;
    }
  }

  // ----- When the cursor can be trusted ------------------------------------------------------

  /** Every event of the block was saved under the configuration that finished it. */
  ghost predicate WhollySaved(env: Env, s: State, n: nat)
    requires n in s.completed
  {
    forall e | e in EventsAt(env, s.completed[n], n) :: DeliveryOf(s.completed[n], e) in s.log
  }

  ghost predicate CursorIsTrue(env: Env, s: State) {
    s.cursor.Some? ==> forall n | s.base < n <= s.cursor.value && n in s.completed :: WhollySaved(env, s, n)
  }

  /** The last event this run handed over is in no save of any run. */
  ghost predicate LastIsUnsaved(s: State) {
    s.handed != [] && DeliveryOf(s.cfg, s.handed[|s.handed| - 1]) !in s.log
  }

  /** The step moves the cursor, or finishes again a block with events that the cursor covers already. */
  ghost predicate Vouches(env: Env, s: State, step: Step) {
    || (step.WriteCursor? && step.written)
    || (&& step.FinishBlock?
        && EventsAt(env, s.cfg, s.next) != []
        && s.cursor.Some? && s.base < s.next <= s.cursor.value)
  }

  /**
   * The guard that the code lacks: a true cursor stays true exactly unless a step vouches for blocks while the last
   * event handed over is unsaved.
   */
  lemma CursorStaysTrueExactlyUnlessLastIsUnsaved(env: Env, steps: seq<Step>, step: Step)
    requires Exec(env, steps).Some? && Enabled(env, Exec(env, steps).value, step)
    requires CursorIsTrue(env, Exec(env, steps).value)
    ensures var s := Exec(env, steps).value;
            CursorIsTrue(env, Apply(env, s, step)) <==> !(Vouches(env, s, step) && LastIsUnsaved(s))
  {
    var s := Exec(env, steps).value;
    assert ScanInv(env, s) && LagInv(s) && LogInv(s) && BlocksInv(env, s) && CursorInv(s) by {
      Reachable(env, steps);
    }
    if step.WriteCursor? && step.written {
      WriteKeepsTruth(env, s, step);
    } else if step.FinishBlock? {
      FinishKeepsTruth(env, s);
    } else {
      OthersKeepTruth(env, s, step);
    }
  }

  lemma OthersKeepTruth(env: Env, s: State, step: Step)
    requires Enabled(env, s, step) && CursorIsTrue(env, s)
    requires !step.FinishBlock? && !(step.WriteCursor? && step.written)
    ensures CursorIsTrue(env, Apply(env, s, step))
  {
    var s' := Apply(env, s, step);
    assert forall d | d in s.log :: d in s'.log;
    assert forall n | n in s.completed && WhollySaved(env, s, n) :: WhollySaved(env, s', n);
  }

  /** Crashes, restarts, ticks, fetches and failures of any kind neither open the gap nor close it. */
  lemma GapStaysWithoutSaveOrScan(env: Env, s: State, step: Step)
    requires Enabled(env, s, step)
    requires !step.FinishBlock? && !(step.WriteCursor? && step.written) && !(step.SaveEvent? && step.applied)
    ensures CursorIsTrue(env, Apply(env, s, step)) <==> CursorIsTrue(env, s)
  {
    var s' := Apply(env, s, step);
    assert s'.completed == s.completed && s'.log == s.log && s'.cursor == s.cursor && s'.base == s.base;
    assert forall n | n in s.completed :: WhollySaved(env, s', n) <==> WhollySaved(env, s, n);
  }

  /** A block that is neither saved nor about to be is one whose last event is the last one handed over. */
  lemma OnlyLastCanBeMissing(env: Env, s: State, n: nat)
    requires ScanInv(env, s) && LagInv(s) && LogInv(s) && !s.watcher.Off?
    requires s.from < n < s.next || (s.watcher.Emitting? && n == s.next && s.watcher.sent == |EventsAt(env, s.cfg, n)|)
    requires !LastIsUnsaved(s)
    ensures forall e | e in EventsAt(env, s.cfg, n) :: DeliveryOf(s.cfg, e) in s.log
  {
    forall e | e in EventsAt(env, s.cfg, n)
      ensures DeliveryOf(s.cfg, e) in s.log
    {
      assert e in s.handed by {
        if n < s.next {
          StreamHas(env, s.cfg, s.from, s.next, n, e);
          HandedHasStream(env, s, e);
        } else {
          assert EventsAt(env, s.cfg, n)[..s.watcher.sent] == EventsAt(env, s.cfg, n);
        }
      }
      HandedIsSavedOrLast(s, e);
    }
  }

  lemma {:induction false} StreamHas(env: Env, cfg: Config, from: nat, until: nat, n: nat, e: TxEvent)
    requires from < n < until && e in EventsAt(env, cfg, n)
    ensures e in Stream(env, cfg, from, until)
    decreases until
  {
    var init, last := Stream(env, cfg, from, until - 1), EventsAt(env, cfg, until - 1);
    assert e in init + last <==> e in init || e in last;
    if n < until - 1 {
      StreamHas(env, cfg, from, until - 1, n, e);
    }
  }

  lemma HandedHasStream(env: Env, s: State, e: TxEvent)
    requires ScanInv(env, s) && !s.watcher.Off? && e in Stream(env, s.cfg, s.from, s.next)
    ensures e in s.handed
  {
  }

  lemma HandedIsSavedOrLast(s: State, e: TxEvent)
    requires LagInv(s) && LogInv(s) && e in s.handed && !LastIsUnsaved(s)
    ensures DeliveryOf(s.cfg, e) in s.log
  {
    var i :| 0 <= i < |s.handed| && s.handed[i] == e;
    if i < |s.saved| {
      assert s.saved[i] == e;
    }
  }

  lemma WriteKeepsTruth(env: Env, s: State, step: Step)
    requires ScanInv(env, s) && LagInv(s) && LogInv(s) && BlocksInv(env, s) && CursorIsTrue(env, s)
    requires Enabled(env, s, step) && step.WriteCursor? && step.written
    ensures CursorIsTrue(env, Apply(env, s, step)) <==> !LastIsUnsaved(s)
  {
    var s' := Apply(env, s, step);
    assert s'.completed == s.completed && s'.log == s.log && s'.cursor == Some(s.next - 1) && s'.base <= s.from;
    assert s'.base == s.from || (s'.base == s.base && s.cursor.Some? && s.from <= s.cursor.value);
    if LastIsUnsaved(s) {
      var m := UnsavedBlock(env, s);
      assert !WhollySaved(env, s', m);
    } else {
      ScannedIsSaved(env, s);
      forall m | s'.base < m <= s'.cursor.value && m in s'.completed
        ensures WhollySaved(env, s', m)
      {
        assert WhollySaved(env, s, m);
      }
    }
  }

  /** An unsaved last event leaves one of the blocks this run has passed incomplete. */
  lemma UnsavedBlock(env: Env, s: State) returns (m: nat)
    requires ScanInv(env, s) && BlocksInv(env, s) && s.watcher.Advancing? && LastIsUnsaved(s)
    ensures s.from < m < s.next && m in s.completed && !WhollySaved(env, s, m)
  {
    StreamMembers(env, s.cfg, s.from, s.next, |s.handed| - 1);
    var k;
    m, k :| s.from < m < s.next && 0 <= k < |EventsAt(env, s.cfg, m)|
            && s.handed[|s.handed| - 1] == EventsAt(env, s.cfg, m)[k];
  }

  lemma ScannedIsSaved(env: Env, s: State)
    requires ScanInv(env, s) && LagInv(s) && LogInv(s) && BlocksInv(env, s) && s.watcher.Advancing? && !LastIsUnsaved(s)
    ensures forall m | s.from < m < s.next :: m in s.completed && WhollySaved(env, s, m)
  {
    forall m | s.from < m < s.next
      ensures WhollySaved(env, s, m)
    {
      OnlyLastCanBeMissing(env, s, m);
    }
  }

  lemma FinishKeepsTruth(env: Env, s: State)
    requires ScanInv(env, s) && LagInv(s) && LogInv(s) && CursorIsTrue(env, s) && Enabled(env, s, FinishBlock)
    ensures CursorIsTrue(env, Apply(env, s, FinishBlock)) <==> !(Vouches(env, s, FinishBlock) && LastIsUnsaved(s))
  {
    var s' := Apply(env, s, FinishBlock);
    FinishedBlock(env, s);
    if s.cursor.Some? {
      forall m | s'.base < m <= s'.cursor.value && m in s'.completed && m != s.next
        ensures WhollySaved(env, s', m)
      {
        assert WhollySaved(env, s, m);
      }
    }
  }

  lemma FinishedBlock(env: Env, s: State)
    requires ScanInv(env, s) && LagInv(s) && LogInv(s) && Enabled(env, s, FinishBlock)
    ensures WhollySaved(env, Apply(env, s, FinishBlock), s.next)
            <==> !(EventsAt(env, s.cfg, s.next) != [] && LastIsUnsaved(s))
  {
    var s', evs := Apply(env, s, FinishBlock), EventsAt(env, s.cfg, s.next);
    assert s'.completed[s.next] == s.cfg && s'.log == s.log;
    if evs != [] {
      SentBlock(env, s);
      assert evs[|evs| - 1] in evs;
    }
  }

  lemma SentBlock(env: Env, s: State)
    requires ScanInv(env, s) && LagInv(s) && LogInv(s) && Enabled(env, s, FinishBlock)
    requires EventsAt(env, s.cfg, s.next) != []
    ensures var evs := EventsAt(env, s.cfg, s.next);
            s.handed != [] && s.handed[|s.handed| - 1] == evs[|evs| - 1]
    ensures !LastIsUnsaved(s) ==> forall e | e in EventsAt(env, s.cfg, s.next) :: DeliveryOf(s.cfg, e) in s.log
  {
    var evs := EventsAt(env, s.cfg, s.next);
    assert evs[..|evs|] == evs;
    if !LastIsUnsaved(s) {
      OnlyLastCanBeMissing(env, s, s.next);
    }
  }

  // ----- Block by block ----------------------------------------------------------------------

  ghost predicate OfBlock(env: Env, cfg: Config, n: nat, d: Delivery) {
    exists k :: 0 <= k < |EventsAt(env, cfg, n)| && DeliveryOf(cfg, EventsAt(env, cfg, n)[k]) == d
  }

  /** What runs left outstanding of the block has been saved since, by a later scan of it or by the monitor. */
  ghost predicate NoneMissing(env: Env, s: State, n: nat) {
    n in s.completed ==>
      forall r | r in Outstanding(s) && OfBlock(env, s.completed[n], n, Outstanding(s)[r]) ::
        Outstanding(s)[r] in s.log
  }

  /** A finished block is saved completely exactly when nothing that runs left outstanding of it is still missing. */
  lemma WhollySavedExactlyWhenNoneMissing(env: Env, steps: seq<Step>, n: nat)
    requires Exec(env, steps).Some? && n in Exec(env, steps).value.completed
    ensures WhollySaved(env, Exec(env, steps).value, n) <==> NoneMissing(env, Exec(env, steps).value, n)
  {
    var s := Exec(env, steps).value;
    assert LagInv(s) && BlocksInv(env, s) by {
      Reachable(env, steps);
    }
    MissingIsOutstanding(env, s, n);
  }

  lemma MissingIsOutstanding(env: Env, s: State, n: nat)
    requires LagInv(s) && BlocksInv(env, s) && n in s.completed
    ensures WhollySaved(env, s, n) <==> NoneMissing(env, s, n)
  {
    var cfg := s.completed[n];
    var evs := EventsAt(env, cfg, n);
    assert AlmostSaved(env, s, cfg, n);
    if NoneMissing(env, s, n) {
      forall e | e in evs
        ensures DeliveryOf(cfg, e) in s.log
      {
        var i :| 0 <= i < |evs| && evs[i] == e;
        UnsavedIsOutstanding(s, DeliveryOf(cfg, evs[i]));
        assert OfBlock(env, cfg, n, DeliveryOf(cfg, evs[i]));
      }
    }
  }

  lemma EventHeights(env: Env, cfg: Config, n: nat, i: nat)
    requires i < |EventsAt(env, cfg, n)|
    ensures EventsAt(env, cfg, n)[i].height == n
  {
    var evs := EventsAt(env, cfg, n);
    MatchedExactly(Scan(env.codec, env.chain, cfg.watched), env.blocks(n).txs, n, env.blocks(n).time, evs[i]);
  }

  lemma ExecStep(env: Env, steps: seq<Step>, s: State, step: Step) returns (more: seq<Step>, s': State)
    requires Exec(env, steps) == Some(s) && Enabled(env, s, step)
    ensures more == steps + [step] && s' == Apply(env, s, step)
    ensures Exec(env, more) == Some(s')
  {
    more, s' := steps + [step], Apply(env, s, step);
    assert more[..|more| - 1] == steps;
  }

  // ----- Order within a run, and the scan ----------------------------------------------------

  /**
   * Within a run the published events are a prefix of the saved ones, those of the handed-over ones, and those of
   * the declared event sequence of blocks from + 1, from + 2, ...; at most one event separates the two ends, and
   * whatever has been saved is in the tables.
   */
  lemma RunOrder(env: Env, steps: seq<Step>)
    requires Exec(env, steps).Some?
    ensures var s := Exec(env, steps).value;
            && s.published <= s.saved <= s.handed <= Stream(env, s.cfg, s.from, s.next + 1)
            && |s.handed| <= |s.published| + 1
            && forall e | e in s.saved :: InTables(s.tables, DeliveryOf(s.cfg, e))
  {
    var s := Exec(env, steps).value;
    assert LogInv(s) && ScanInv(env, s) && LagInv(s) by {
      Reachable(env, steps);
    }
    OrderOf(env, s);
    SavedIsInTables(env, steps, s);
  }

  lemma SavedIsInTables(env: Env, steps: seq<Step>, s: State)
    requires Exec(env, steps) == Some(s) && LogInv(s)
    ensures forall e | e in s.saved :: InTables(s.tables, DeliveryOf(s.cfg, e))
  {
    forall e | e in s.saved
      ensures InTables(s.tables, DeliveryOf(s.cfg, e))
    {
      LoggedIsInTables(env, steps, DeliveryOf(s.cfg, e));
    }
  }

  /** Every event published in a run is dated with the time of the block whose height it carries. */
  lemma PublishedEventsAreDated(env: Env, steps: seq<Step>)
    requires Exec(env, steps).Some?
    ensures forall e | e in Exec(env, steps).value.published :: e.timestamp == env.blocks(e.height).time
  {
    var s := Exec(env, steps).value;
    RunOrder(env, steps);
    StreamIsInOrder(env, s.cfg, s.from, s.next + 1);
    PublishedIsInStream(s.published, Stream(env, s.cfg, s.from, s.next + 1));
  }

  lemma PublishedIsInStream(published: seq<TxEvent>, stream: seq<TxEvent>)
    requires published <= stream
    ensures forall e | e in published :: exists j :: 0 <= j < |stream| && stream[j] == e
  {
    forall e | e in published
      ensures exists j :: 0 <= j < |stream| && stream[j] == e
    {
      var j :| 0 <= j < |published| && published[j] == e;
      assert stream[j] == e;
    }
  }

  lemma OrderOf(env: Env, s: State)
    requires ScanInv(env, s) && LagInv(s)
    ensures s.published <= s.saved <= s.handed <= Stream(env, s.cfg, s.from, s.next + 1)
    ensures |s.handed| <= |s.published| + 1
  {
    assert Stream(env, s.cfg, s.from, s.next + 1)
        == Stream(env, s.cfg, s.from, s.next) + EventsAt(env, s.cfg, s.next);
  }

  /**
   * The scan moves one block at a time and only by finishing it; a written cursor is the block just finished; a
   * failed fetch leaves the block to be fetched next. `base` rises only in a run that did not start from the
   * cursor: a run that did resumes at or below it, so it leaves no gap.
   */
  ghost predicate MovesByTheRules(env: Env, s: State, step: Step)
    requires Enabled(env, s, step)
  {
    var s' := Apply(env, s, step);
    && (!step.Boot? ==> s'.next == if step.FinishBlock? then s.next + 1 else s.next)
    && (step.FinishBlock? ==> FinishesInFull(env, s, s'))
    && (s'.cursor != s.cursor ==> step.WriteCursor?)
    && (step.WriteCursor? && step.written ==> s'.cursor == Some(s'.next - 1))
    && (step.Fetch? ==> s.watcher.n == s.next && s'.next == s.next)
    && (step.Boot? && step.cursorRead && s.cursor.Some? ==> s'.next <= s.cursor.value + 1)
    && (s'.base > s.base ==> step.WriteCursor? && !s.resumed)
  }

  lemma ScanDiscipline(env: Env, steps: seq<Step>, step: Step)
    requires Exec(env, steps).Some? && Enabled(env, Exec(env, steps).value, step)
    ensures MovesByTheRules(env, Exec(env, steps).value, step)
  {
    var s := Exec(env, steps).value;
    assert ScanInv(env, s) && CursorInv(s) by {
      Reachable(env, steps);
    }
    if step.FinishBlock? {
      FinishIsInFull(env, s);
    }
    ScanStep(env, s, step);
  }

  /** The block finished is recorded with this run's configuration, and its events were the last ones handed over. */
  ghost predicate FinishesInFull(env: Env, s: State, s': State) {
    var evs := EventsAt(env, s.cfg, s.next);
    && s'.completed == s.completed[s.next := s.cfg]
    && |evs| <= |s'.handed| && s'.handed[|s'.handed| - |evs|..] == evs
  }

  lemma FinishIsInFull(env: Env, s: State)
    requires ScanInv(env, s) && Enabled(env, s, FinishBlock)
    ensures FinishesInFull(env, s, Apply(env, s, FinishBlock))
  {
    var evs := EventsAt(env, s.cfg, s.next);
    assert evs[..|evs|] == evs;
  }

  lemma ScanStep(env: Env, s: State, step: Step)
    requires ScanInv(env, s) && CursorInv(s) && Enabled(env, s, step)
    requires step.FinishBlock? ==> FinishesInFull(env, s, Apply(env, s, step))
    ensures MovesByTheRules(env, s, step)
  {
  }

  // ----- The tables and the chain ------------------------------------------------------------

  /** Watched texts are the checksummed form of their address, and each belongs to one wallet at all times. */
  ghost predicate Canonical(env: Env, owner: Address -> WalletId, cfg: Config) {
    forall a | a in cfg.watched ::
      && cfg.watched[a] == env.codec.hex(a)
      && env.codec.hex(a) in cfg.owners
      && cfg.owners[env.codec.hex(a)] == owner(env.codec.hex(a))
  }

  ghost function CanonicalConfigs(env: Env, owner: Address -> WalletId): iset<Config> {
    iset cfg | WellFormed(env, cfg) && Canonical(env, owner, cfg)
  }

  /** No hash occurs twice in the history. */
  ghost predicate DistinctHashes(env: Env) {
    forall n: nat, m: nat, i, j |
      && 0 <= i < |env.blocks(n).txs| && 0 <= j < |env.blocks(m).txs|
      && env.blocks(n).txs[i].hash == env.blocks(m).txs[j].hash :: n == m && i == j
  }

  function TextOf(env: Env, a: Option<EvmAddress>): Option<Address> {
    match a
    case None => None
    case Some(addr) => Some(env.codec.hex(addr))
  }

  function RoleOf(side: Side): Role {
    if side == SenderSide then Sender else Receiver
  }

  /** The row a transaction of block n should have: its own sender, recipient and value, confirmed at n. */
  function TrueRow(env: Env, tx: Tx, n: nat): TxCols {
    TxCols(Confirmed, TextOf(env, tx.sender), TextOf(env, tx.to), tx.value, NATIVE_SYMBOL, Some(ToInt64(n)), true)
  }

  ghost predicate HasTrueRow(env: Env, t: Tables, tx: Tx, n: nat) {
    var k := TxKey(env.chain, tx.hash);
    k in t.txs && t.txs[k] == TrueRow(env, tx, n)
  }

  ghost predicate HasTrueLink(env: Env, owner: Address -> WalletId, t: Tables, tx: Tx, side: Side) {
    && Party(tx, side).Some?
    && var text := env.codec.hex(Party(tx, side).value);
       var l := LinkKey(TxKey(env.chain, tx.hash), text, RoleOf(side));
       l in t.links && t.links[l] == Link(owner(text), env.chain)
  }

  /** `d` reports one side of transaction i of block n. */
  ghost predicate Reports(env: Env, owner: Address -> WalletId, d: Delivery, n: nat, i: nat, side: Side) {
    && 0 < n && i < |env.blocks(n).txs|
    && var tx := env.blocks(n).txs[i];
       && Party(tx, side).Some?
       && KeyOf(d.event) == TxKey(env.chain, tx.hash)
       && ColsOf(d.event) == TrueRow(env, tx, n)
       && LinkKeyOf(d.event)
          == Some(LinkKey(TxKey(env.chain, tx.hash), env.codec.hex(Party(tx, side).value), RoleOf(side)))
       && LinkOf(d) == Link(owner(env.codec.hex(Party(tx, side).value)), env.chain)
  }

  /** Outbound and inbound events of a canonical configuration describe the same row, the transaction's own. */
  lemma CanonicalEventsReport(env: Env, owner: Address -> WalletId, cfg: Config, n: nat, i: nat, side: Side)
    requires env.codec.Sound() && cfg in CanonicalConfigs(env, owner)
    requires 0 < n && i < |env.blocks(n).txs|
    requires Watches(Scan(env.codec, env.chain, cfg.watched), env.blocks(n).txs[i], side)
    ensures Reports(env, owner,
                    DeliveryOf(cfg, SideEvent(Scan(env.codec, env.chain, cfg.watched), env.blocks(n).txs[i], side,
                                              n, env.blocks(n).time)),
                    n, i, side)
  {
  }

  /**
   * For a transfer between two watched addresses the two events agree on the from and to columns exactly when
   * both watched texts are canonical.
   */
  lemma BothSidesAgreeExactlyWhenCanonical(scan: Scan, tx: Tx, height: nat, time: int)
    requires scan.codec.Sound() && Watches(scan, tx, SenderSide) && Watches(scan, tx, RecipientSide)
    ensures FromTo(SideEvent(scan, tx, SenderSide, height, time))
         == FromTo(SideEvent(scan, tx, RecipientSide, height, time))
         <==> && scan.watched[tx.sender.value] == scan.codec.hex(tx.sender.value)
              && scan.watched[tx.to.value] == scan.codec.hex(tx.to.value)
  {
    var s, r := tx.sender.value, tx.to.value;
    assert scan.codec.fromHex(scan.codec.hex(s)) == s && scan.codec.hex(s) != "";
    assert scan.codec.fromHex(scan.codec.hex(r)) == r && scan.codec.hex(r) != "";
  }

  /** `d` is the delivery of that watched side. */
  ghost predicate IsReportOf(env: Env, cfg: Config, d: Delivery, n: nat, i: nat, side: Side) {
    var scan := Scan(env.codec, env.chain, cfg.watched);
    && 0 < n && i < |env.blocks(n).txs|
    && Watches(scan, env.blocks(n).txs[i], side)
    && d == DeliveryOf(cfg, SideEvent(scan, env.blocks(n).txs[i], side, n, env.blocks(n).time))
  }

  /** Every run that watches a side reports it alike, so two deliveries with one link are one delivery. */
  lemma OneReportPerLink(env: Env, owner: Address -> WalletId, c: Delivery, cCfg: Config, n: nat, i: nat, cSide: Side,
                         d: Delivery, dCfg: Config, m: nat, j: nat, dSide: Side)
    requires env.codec.Sound() && DistinctHashes(env)
    requires iset{cCfg, dCfg} <= CanonicalConfigs(env, owner)
    requires IsReportOf(env, cCfg, c, n, i, cSide) && IsReportOf(env, dCfg, d, m, j, dSide)
    requires LinkKeyOf(c.event) == LinkKeyOf(d.event)
    ensures c == d
  {
    assert env.blocks(n).txs[i].hash == env.blocks(m).txs[j].hash;
  }

  /** Under canonical configurations every saved delivery reports a watched side of some transaction. */
  lemma ProducedReports(env: Env, owner: Address -> WalletId, cfgs: iset<Config>, d: Delivery)
    returns (cfg: Config, n: nat, i: nat, side: Side)
    requires env.codec.Sound() && Produced(env, cfgs, d) && cfgs <= CanonicalConfigs(env, owner)
    ensures cfg in cfgs && Reports(env, owner, d, n, i, side)
    ensures IsReportOf(env, cfg, d, n, i, side)
  {
    var k;
    cfg, n, k :|
      && cfg in cfgs && 0 < n && 0 <= k < |EventsAt(env, cfg, n)|
      && d == DeliveryOf(cfg, EventsAt(env, cfg, n)[k]);
    var scan, txs, time := Scan(env.codec, env.chain, cfg.watched), env.blocks(n).txs, env.blocks(n).time;
    MatchedExactly(scan, txs, n, time, d.event);
    i, side :| 0 <= i < |txs| && Watches(scan, txs[i], side) && d.event == SideEvent(scan, txs[i], side, n, time);
    CanonicalEventsReport(env, owner, cfg, n, i, side);
  }

  /** Two deliveries of one history never contradict each other, across runs, re-scans and both sides. */
  lemma ReportsAreCompatible(env: Env, owner: Address -> WalletId, c: Delivery, n: nat, i: nat, cSide: Side,
                             d: Delivery, m: nat, j: nat, dSide: Side)
    requires DistinctHashes(env) && Reports(env, owner, c, n, i, cSide) && Reports(env, owner, d, m, j, dSide)
    ensures Compatible(c, d)
  {
    if KeyOf(c.event) == KeyOf(d.event) {
      assert env.blocks(n).txs[i].hash == env.blocks(m).txs[j].hash;
    }
  }

  lemma LogListed(env: Env, owner: Address -> WalletId, cfgs: iset<Config>, steps: seq<Step>)
    requires env.codec.Sound() && DistinctHashes(env)
    requires Exec(env, steps).Some? && BootsWithin(steps, cfgs) && cfgs <= CanonicalConfigs(env, owner)
    ensures var s := Exec(env, steps).value;
            Lists(s.log, s.tables)
  {
    var s := Exec(env, steps).value;
    Reachable(env, steps);
    LogIsProduced(env, cfgs, steps);
    forall c, d | c in s.log && d in s.log
      ensures Compatible(c, d)
    {
      var cCfg, n, i, cSide := ProducedReports(env, owner, cfgs, c);
      var dCfg, m, j, dSide := ProducedReports(env, owner, cfgs, d);
      ReportsAreCompatible(env, owner, c, n, i, cSide, d, m, j, dSide);
    }
    SaveAllLists(s.log);
  }

  /** Some transaction of the history, watched by one of the configurations on that side. */
  ghost predicate WatchedIn(env: Env, cfgs: iset<Config>, n: nat, i: nat, side: Side) {
    && 0 < n && i < |env.blocks(n).txs|
    && exists cfg :: cfg in cfgs && Watches(Scan(env.codec, env.chain, cfg.watched), env.blocks(n).txs[i], side)
  }

  /** The row at `k` is the exact row of that transaction, which touches a watched address. */
  ghost predicate RowTellsTruth(env: Env, cfgs: iset<Config>, t: Tables, k: TxKey, n: nat, i: nat, side: Side) {
    && WatchedIn(env, cfgs, n, i, side)
    && k == TxKey(env.chain, env.blocks(n).txs[i].hash)
    && HasTrueRow(env, t, env.blocks(n).txs[i], n)
  }

  /** The link at `l` names that transaction, the text and role of that side, and the wallet owning it. */
  ghost predicate LinkTellsTruth(env: Env, owner: Address -> WalletId, cfgs: iset<Config>, t: Tables, l: LinkKey,
                                 n: nat, i: nat, side: Side)
  {
    && WatchedIn(env, cfgs, n, i, side)
    && HasTrueLink(env, owner, t, env.blocks(n).txs[i], side)
    && l == LinkKey(TxKey(env.chain, env.blocks(n).txs[i].hash),
                    env.codec.hex(Party(env.blocks(n).txs[i], side).value), RoleOf(side))
  }

  /**
   * In every reachable state, whatever failed on the way, each row is the exact row of a transaction that touches
   * a watched address ...
   */
  lemma RowsTellOnlyTheTruth(env: Env, owner: Address -> WalletId, cfgs: iset<Config>, steps: seq<Step>, k: TxKey)
    returns (n: nat, i: nat, side: Side)
    requires env.codec.Sound() && DistinctHashes(env)
    requires Exec(env, steps).Some? && BootsWithin(steps, cfgs) && cfgs <= CanonicalConfigs(env, owner)
    requires k in Exec(env, steps).value.tables.txs
    ensures RowTellsTruth(env, cfgs, Exec(env, steps).value.tables, k, n, i, side)
  {
    var s := Exec(env, steps).value;
    LogListed(env, owner, cfgs, steps);
    LogIsProduced(env, cfgs, steps);
    assert HasTx(s.log, k);
    var j :| 0 <= j < |s.log| && KeyOf(s.log[j].event) == k;
    var cfg;
    cfg, n, i, side := ProducedReports(env, owner, cfgs, s.log[j]);
    assert WatchedIn(env, cfgs, n, i, side);
  }

  /** ... and each link names the side and the owning wallet of such a transaction. */
  lemma LinksTellOnlyTheTruth(env: Env, owner: Address -> WalletId, cfgs: iset<Config>, steps: seq<Step>, l: LinkKey)
    returns (n: nat, i: nat, side: Side)
    requires env.codec.Sound() && DistinctHashes(env)
    requires Exec(env, steps).Some? && BootsWithin(steps, cfgs) && cfgs <= CanonicalConfigs(env, owner)
    requires l in Exec(env, steps).value.tables.links
    ensures LinkTellsTruth(env, owner, cfgs, Exec(env, steps).value.tables, l, n, i, side)
  {
    var s := Exec(env, steps).value;
    LogIsProduced(env, cfgs, steps);
    assert ListsLinks(s.log, s.tables.links) by {
      LogListed(env, owner, cfgs, steps);
    }
    var j :| 0 <= j < |s.log| && LinkKeyOf(s.log[j].event) == Some(l);
    n, i, side := LoggedLink(env, owner, cfgs, s.log, s.tables, s.log[j]);
  }

  lemma LoggedLink(env: Env, owner: Address -> WalletId, cfgs: iset<Config>, log: seq<Delivery>, t: Tables, d: Delivery)
    returns (n: nat, i: nat, side: Side)
    requires env.codec.Sound() && cfgs <= CanonicalConfigs(env, owner)
    requires Produced(env, cfgs, d) && d in log && ListsLinks(log, t.links)
    ensures LinkKeyOf(d.event).Some?
    ensures LinkTellsTruth(env, owner, cfgs, t, LinkKeyOf(d.event).value, n, i, side)
  {
    var cfg;
    cfg, n, i, side := ProducedReports(env, owner, cfgs, d);
    assert WatchedIn(env, cfgs, n, i, side);
  }

  /** Every side of the block that the run which finished it watched has its exact row and its link. */
  ghost predicate BlockIsRecorded(env: Env, owner: Address -> WalletId, s: State, n: nat)
    requires n in s.completed
  {
    forall i: nat, side | i < |env.blocks(n).txs|
                          && Watches(Scan(env.codec, env.chain, s.completed[n].watched), env.blocks(n).txs[i], side) ::
      && HasTrueRow(env, s.tables, env.blocks(n).txs[i], n)
      && HasTrueLink(env, owner, s.tables, env.blocks(n).txs[i], side)
  }

  /**
   * Block by block, the tables hold the whole truth about what the cursor vouches for exactly when nothing that runs
   * left outstanding of that block is still missing. Losses in other blocks, and losses a later scan made good, do
   * not matter.
   */
  lemma TablesHoldTheWholeTruth(env: Env, owner: Address -> WalletId, cfgs: iset<Config>, steps: seq<Step>, n: nat)
    requires env.codec.Sound() && DistinctHashes(env)
    requires Exec(env, steps).Some? && BootsWithin(steps, cfgs) && cfgs <= CanonicalConfigs(env, owner)
    requires var s := Exec(env, steps).value;
             s.cursor.Some? && s.base < n <= s.cursor.value
    ensures var s := Exec(env, steps).value;
            && n in s.completed && s.completed[n] in cfgs
            && (BlockIsRecorded(env, owner, s, n) <==> NoneMissing(env, s, n))
  {
    var s := Exec(env, steps).value;
    assert LagInv(s) && BlocksInv(env, s) && n in s.completed by {
      Reachable(env, steps);
    }
    CompletedWithin(env, cfgs, steps);
    LogListed(env, owner, cfgs, steps);
    LogIsProduced(env, cfgs, steps);
    MissingIsOutstanding(env, s, n);
    WhollySavedIsRecorded(env, owner, cfgs, s, n);
  }

  lemma WhollySavedIsRecorded(env: Env, owner: Address -> WalletId, cfgs: iset<Config>, s: State, n: nat)
    requires env.codec.Sound() && DistinctHashes(env) && cfgs <= CanonicalConfigs(env, owner)
    requires LogWithin(env, cfgs, s) && Lists(s.log, s.tables) && n in s.completed && s.completed[n] in cfgs && 0 < n
    ensures WhollySaved(env, s, n) <==> BlockIsRecorded(env, owner, s, n)
  {
    if WhollySaved(env, s, n) {
      forall i: nat, side | i < |env.blocks(n).txs|
                            && Watches(Scan(env.codec, env.chain, s.completed[n].watched), env.blocks(n).txs[i], side)
        ensures HasTrueRow(env, s.tables, env.blocks(n).txs[i], n)
        ensures HasTrueLink(env, owner, s.tables, env.blocks(n).txs[i], side)
      {
        SavedSideIsRecorded(env, owner, s, n, i, side);
      }
    }
    if BlockIsRecorded(env, owner, s, n) {
      forall e | e in EventsAt(env, s.completed[n], n)
        ensures DeliveryOf(s.completed[n], e) in s.log
      {
        RecordedEventIsSaved(env, owner, cfgs, s, n, e);
      }
    }
  }

  lemma SavedSideIsRecorded(env: Env, owner: Address -> WalletId, s: State, n: nat, i: nat, side: Side)
    requires env.codec.Sound() && n in s.completed && s.completed[n] in CanonicalConfigs(env, owner) && 0 < n
    requires WhollySaved(env, s, n) && Lists(s.log, s.tables) && i < |env.blocks(n).txs|
    requires Watches(Scan(env.codec, env.chain, s.completed[n].watched), env.blocks(n).txs[i], side)
    ensures HasTrueRow(env, s.tables, env.blocks(n).txs[i], n)
    ensures HasTrueLink(env, owner, s.tables, env.blocks(n).txs[i], side)
  {
    var scan, txs, time := Scan(env.codec, env.chain, s.completed[n].watched), env.blocks(n).txs, env.blocks(n).time;
    var e := SideEvent(scan, txs[i], side, n, time);
    MatchedExactly(scan, txs, n, time, e);
    CanonicalEventsReport(env, owner, s.completed[n], n, i, side);
    assert e in EventsAt(env, s.completed[n], n);
  }

  lemma RecordedEventIsSaved(env: Env, owner: Address -> WalletId, cfgs: iset<Config>, s: State, n: nat, e: TxEvent)
    requires env.codec.Sound() && DistinctHashes(env) && cfgs <= CanonicalConfigs(env, owner)
    requires LogWithin(env, cfgs, s) && Lists(s.log, s.tables) && n in s.completed && s.completed[n] in cfgs && 0 < n
    requires BlockIsRecorded(env, owner, s, n) && e in EventsAt(env, s.completed[n], n)
    ensures DeliveryOf(s.completed[n], e) in s.log
  {
    var scan, txs, time := Scan(env.codec, env.chain, s.completed[n].watched), env.blocks(n).txs, env.blocks(n).time;
    MatchedExactly(scan, txs, n, time, e);
    var i, side :| 0 <= i < |txs| && Watches(scan, txs[i], side) && e == SideEvent(scan, txs[i], side, n, time);
    CanonicalEventsReport(env, owner, s.completed[n], n, i, side);
    assert HasTrueLink(env, owner, s.tables, txs[i], side);
    LinkedReportIsSaved(env, owner, cfgs, s.log, DeliveryOf(s.completed[n], e), s.completed[n], n, i, side);
  }

  /** A link in the tables stands for exactly one delivery, which is therefore the one that was saved. */
  lemma LinkedReportIsSaved(env: Env, owner: Address -> WalletId, cfgs: iset<Config>, log: seq<Delivery>,
                            d: Delivery, cfg: Config, n: nat, i: nat, side: Side)
    requires env.codec.Sound() && DistinctHashes(env) && cfgs <= CanonicalConfigs(env, owner)
    requires forall c | c in log :: Produced(env, cfgs, c)
    requires cfg in cfgs && IsReportOf(env, cfg, d, n, i, side)
    requires LinkKeyOf(d.event).Some? && HasLink(log, LinkKeyOf(d.event).value)
    ensures d in log
  {
    var k :| 0 <= k < |log| && LinkKeyOf(log[k].event) == LinkKeyOf(d.event);
    var other, m, j, otherSide := ProducedReports(env, owner, cfgs, log[k]);
    OneReportPerLink(env, owner, d, cfg, n, i, side, log[k], other, m, j, otherSide);
  }

  lemma {:induction false} CompletedWithin(env: Env, cfgs: iset<Config>, steps: seq<Step>)
    requires Exec(env, steps).Some? && BootsWithin(steps, cfgs)
    ensures forall n | n in Exec(env, steps).value.completed :: Exec(env, steps).value.completed[n] in cfgs
  {
    if steps != [] {
      var init, step := steps[..|steps| - 1], steps[|steps| - 1];
      CompletedWithin(env, cfgs, init);
      LogIsProduced(env, cfgs, init);
      Reachable(env, init);
      CompletedWithinKept(env, cfgs, Exec(env, init).value, step);
    }
  }

  lemma CompletedWithinKept(env: Env, cfgs: iset<Config>, s: State, step: Step)
    requires Enabled(env, s, step) && (s.runs > 0 ==> s.cfg in cfgs) && (s.watcher.Off? || s.runs > 0)
    requires forall n | n in s.completed :: s.completed[n] in cfgs
    ensures forall n | n in Apply(env, s, step).completed :: Apply(env, s, step).completed[n] in cfgs
  {
  }

  /** A row, its own, exactly if the transaction touches a watched address, and a link exactly per watched side. */
  ghost predicate IsTheComprehension(env: Env, owner: Address -> WalletId, cfg: Config, t: Tables, n: nat, i: nat)
    requires i < |env.blocks(n).txs|
  {
    var tx, scan := env.blocks(n).txs[i], Scan(env.codec, env.chain, cfg.watched);
    && (TxKey(env.chain, tx.hash) in t.txs <==> Watches(scan, tx, SenderSide) || Watches(scan, tx, RecipientSide))
    && (TxKey(env.chain, tx.hash) in t.txs ==> HasTrueRow(env, t, tx, n))
    && (forall side :: HasTrueLink(env, owner, t, tx, side) <==> Watches(scan, tx, side))
  }

  /**
   * With one unchanging watch list the tables restricted to a block the cursor vouches for are a plain comprehension
   * over the chain, exactly when nothing that runs left outstanding of the block is still missing.
   */
  lemma TablesAreTheComprehension(env: Env, owner: Address -> WalletId, cfg: Config, steps: seq<Step>, n: nat)
    requires env.codec.Sound() && DistinctHashes(env)
    requires Exec(env, steps).Some? && BootsWithin(steps, iset{cfg}) && cfg in CanonicalConfigs(env, owner)
    requires var s := Exec(env, steps).value;
             s.cursor.Some? && s.base < n <= s.cursor.value
    ensures var s := Exec(env, steps).value;
            (forall i: nat | i < |env.blocks(n).txs| :: IsTheComprehension(env, owner, cfg, s.tables, n, i))
            <==> NoneMissing(env, s, n)
  {
    var s := Exec(env, steps).value;
    TablesHoldTheWholeTruth(env, owner, iset{cfg}, steps, n);
    assert s.completed[n] == cfg;
    if BlockIsRecorded(env, owner, s, n) {
      forall i: nat | i < |env.blocks(n).txs|
        ensures IsTheComprehension(env, owner, cfg, s.tables, n, i)
      {
        RecordedIsTheComprehension(env, owner, cfg, steps, n, i);
      }
    }
    if forall i: nat | i < |env.blocks(n).txs| :: IsTheComprehension(env, owner, cfg, s.tables, n, i) {
      forall i: nat, side | i < |env.blocks(n).txs|
                            && Watches(Scan(env.codec, env.chain, cfg.watched), env.blocks(n).txs[i], side)
        ensures HasTrueRow(env, s.tables, env.blocks(n).txs[i], n)
        ensures HasTrueLink(env, owner, s.tables, env.blocks(n).txs[i], side)
      {
        assert IsTheComprehension(env, owner, cfg, s.tables, n, i);
      }
    }
  }

  lemma RecordedIsTheComprehension(env: Env, owner: Address -> WalletId, cfg: Config, steps: seq<Step>, n: nat, i: nat)
    requires env.codec.Sound() && DistinctHashes(env)
    requires Exec(env, steps).Some? && BootsWithin(steps, iset{cfg}) && cfg in CanonicalConfigs(env, owner)
    requires var s := Exec(env, steps).value;
             n in s.completed && s.completed[n] == cfg && BlockIsRecorded(env, owner, s, n)
    requires i < |env.blocks(n).txs|
    ensures IsTheComprehension(env, owner, cfg, Exec(env, steps).value.tables, n, i)
  {
    var t, tx := Exec(env, steps).value.tables, env.blocks(n).txs[i];
    var scan := Scan(env.codec, env.chain, cfg.watched);
    if TxKey(env.chain, tx.hash) in t.txs {
      var m, j, side := RowsTellOnlyTheTruth(env, owner, iset{cfg}, steps, TxKey(env.chain, tx.hash));
      assert m == n && j == i;
    }
    forall side | HasTrueLink(env, owner, t, tx, side)
      ensures Watches(scan, tx, side)
    {
      LinkedSideIsWatched(env, owner, cfg, steps, n, i, side);
    }
  }

  lemma LinkedSideIsWatched(env: Env, owner: Address -> WalletId, cfg: Config, steps: seq<Step>,
                            n: nat, i: nat, side: Side)
    requires env.codec.Sound() && DistinctHashes(env)
    requires Exec(env, steps).Some? && BootsWithin(steps, iset{cfg}) && cfg in CanonicalConfigs(env, owner)
    requires i < |env.blocks(n).txs|
    requires HasTrueLink(env, owner, Exec(env, steps).value.tables, env.blocks(n).txs[i], side)
    ensures Watches(Scan(env.codec, env.chain, cfg.watched), env.blocks(n).txs[i], side)
  {
    var tx := env.blocks(n).txs[i];
    var l := LinkKey(TxKey(env.chain, tx.hash), env.codec.hex(Party(tx, side).value), RoleOf(side));
    var m, j, other := LinksTellOnlyTheTruth(env, owner, iset{cfg}, steps, l);
    assert m == n && j == i && other == side;
  }
}
