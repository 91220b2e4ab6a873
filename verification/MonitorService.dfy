/** The consumer half of the monitor: receive, save, publish, stop on the first error. */
module MonitorServices {
  import opened Domain
  import opened TransactionTables
  import opened Pipeline
  import opened PostgresTransactions

  /** `PublishReplyLost` delivers the event, yet reports an error. */
  datatype PublishOutcome = PublishFine | PublishFails | PublishReplyLost

  /** The saves of the first `count` events on top of an earlier log. */
  ghost function Logged(before: seq<Delivery>, cfg: Config, events: seq<TxEvent>, count: nat): seq<Delivery>
    requires count <= |events|
  {
    if count == 0 then before
    else Logged(before, cfg, events, count - 1) + [DeliveryOf(cfg, events[count - 1])]
  }

  lemma {:induction false} LoggedIsAppended(before: seq<Delivery>, cfg: Config, events: seq<TxEvent>, count: nat)
    requires count <= |events|
    ensures var log := Logged(before, cfg, events, count);
            && |log| == |before| + count && log[..|before|] == before
            && forall i | 0 <= i < count :: log[|before| + i] == DeliveryOf(cfg, events[i])
  {
    if count > 0 {
      LoggedIsAppended(before, cfg, events, count - 1);
    }
  }

  /** The first `count` events on top of those published earlier. */
  ghost function Followed(before: seq<TxEvent>, events: seq<TxEvent>, count: nat): seq<TxEvent>
    requires count <= |events|
  {
    if count == 0 then before else Followed(before, events, count - 1) + [events[count - 1]]
  }

  lemma {:induction false} FollowedIsAppended(before: seq<TxEvent>, events: seq<TxEvent>, count: nat)
    requires count <= |events|
    ensures Followed(before, events, count) == before + events[..count]
  {
    if count > 0 {
      FollowedIsAppended(before, events, count - 1);
      assert events[..count] == events[..count - 1] + [events[count - 1]];
    }
  }

  /** What took effect for one event: a lost reply takes effect although it is reported as an error. */
  datatype Effect = Effect(saved: bool, delivered: bool, ok: bool)

  /** The effect one event may have: publishing only follows a reported save, and only success is `ok`. */
  predicate Possible(e: Effect, save: DbOutcome, publish: PublishOutcome, foreignKeyHolds: bool) {
    && e.saved == ((save == Fine || save == CommitReplyLost) && foreignKeyHolds)
    && e.delivered == (e.saved && save == Fine && publish != PublishFails)
    && e.ok == (e.delivered && publish == PublishFine)
  }

  class MonitorService {
    const repo: PostgresTransaction
    var published: seq<TxEvent>

    constructor (repo: PostgresTransaction)
      ensures this.repo == repo && published == []
    {
      this.repo := repo;
      published := [];
    }

    /** One received event: save, then publish, each only after the step before it succeeded. */
    method Handle(cfg: Config, evt: TxEvent, save: DbOutcome, publish: PublishOutcome, now: int)
      returns (ok: bool, ghost effect: Effect)
      requires repo.Valid()
      modifies this, repo
      ensures repo.Valid()
      ensures ok == effect.ok
      ensures ok <==> save == Fine && publish == PublishFine && old(repo.LinkAllowed(DeliveryOf(cfg, evt)))
      ensures Possible(effect, save, publish, old(repo.LinkAllowed(DeliveryOf(cfg, evt))))
      ensures repo.LinkAllowed(DeliveryOf(cfg, evt)) == old(repo.LinkAllowed(DeliveryOf(cfg, evt)))
      ensures repo.log == if effect.saved then old(repo.log) + [DeliveryOf(cfg, evt)] else old(repo.log)
      ensures old(repo.LogTellsAll()) ==> repo.LogTellsAll()
      ensures published == if effect.delivered then old(published) + [evt] else old(published)
    {
      ghost var allowed := repo.LinkAllowed(DeliveryOf(cfg, evt));
      ghost var saved := (save == Fine || save == CommitReplyLost) && allowed;
      SaveAllSnoc(repo.log, DeliveryOf(cfg, evt));
      var walletId := if evt.address in cfg.owners then cfg.owners[evt.address] else "";
      var stored := repo.SaveEvent(walletId, evt, now, save);
      if !stored {
        return false, Effect(saved, false, false);
      }
      if publish == PublishFails {
        return false, Effect(true, false, false);
      }
      published := published + [evt];
      return publish == PublishFine, Effect(true, true, publish == PublishFine);
    }

    /** The first `count` events were saved and published, on top of what was there before. */
    ghost predicate HandledUpTo(log: seq<Delivery>, out: seq<TxEvent>, cfg: Config, events: seq<TxEvent>, count: nat)
      requires count <= |events|
      reads this, repo
    {
      && repo.Valid()
      && repo.log == Logged(log, cfg, events, count)
      && published == Followed(out, events, count)
    }

    /**
     * Handles the events received until the channel closes or the context is cancelled; saves[i] and
     * publishes[i] are what the database and the publisher do with the i-th. The first `handled` events succeed
     * and are saved and published in order. If that is not all of them, the next one failed, having had the
     * effect `last`, and nothing after it is touched.
     */
    method Watch(cfg: Config, events: seq<TxEvent>, saves: nat -> DbOutcome, publishes: nat -> PublishOutcome,
                 now: int)
      returns (ok: bool, ghost handled: nat, ghost last: Effect)
      requires repo.Valid()
      modifies this, repo
      ensures repo.Valid()
      ensures handled <= |events| && ok == (handled == |events|)
      ensures forall i: nat | i < handled :: saves(i) == Fine && publishes(i) == PublishFine
      ensures !ok ==>
                && !last.ok
                && Possible(last, saves(handled), publishes(handled),
                            repo.LinkAllowed(DeliveryOf(cfg, events[handled])))
      ensures repo.log == Logged(old(repo.log), cfg, events, if !ok && last.saved then handled + 1 else handled)
      ensures published == Followed(old(published), events, if !ok && last.delivered then handled + 1 else handled)
    {
      handled, last := 0, Effect(true, true, true);
      for i := 0 to |events|
        invariant handled == i && HandledUpTo(old(repo.log), old(published), cfg, events, i)
        invariant forall j: nat | j < i :: saves(j) == Fine && publishes(j) == PublishFine
      {
        ok, last := Handle(cfg, events[i], saves(i), publishes(i), now);
        if !ok {
          return;
        }
        handled := i + 1;
      }
      return true, handled, last;
    }
  }
}
