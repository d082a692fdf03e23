/** The imperative form of the send queue: the table operations of
    internal/storage/queue.go and the loop of internal/smtp/sender.go, proved to take
    exactly the steps of the state machine in `SendQueue`. */
module Sender {
  import opened Backoff
  import opened Clock
  import opened Collections
  import opened SendQueue

  function ItemIds(items: seq<Item>): seq<nat> {
    seq(|items|, i requires 0 <= i < |items| => items[i].id)
  }

  class Queue {
    var rows: map<nat, Row>
    var nextId: nat

    constructor ()
      ensures rows == map[] && nextId == 0
    {
      rows, nextId := map[], 0;
    }

    method EnqueueMessage(mail: Mail, now: int)
      modifies this
      ensures rows == old(rows)[old(nextId) := Row(mail, 0, now, "", now, Pending)]
      ensures nextId == old(nextId) + 1
    {
      rows := rows[nextId := Row(mail, 0, now, "", now, Pending)];
      nextId := nextId + 1;
    }

    /** A due row with the least retry time. */
    method Earliest(due: set<nat>) returns (id: nat)
      requires due != {} && due <= rows.Keys
      ensures id in due
      ensures forall d <- due :: rows[id].nextRetry <= rows[d].nextRetry
    {
      id :| id in due;
      var rest := due - {id};
      while rest != {}
        invariant rest <= due && id in due
        invariant forall d <- due - rest :: rows[id].nextRetry <= rows[d].nextRetry
        decreases rest
      {
        var d :| d in rest;
        if rows[d].nextRetry < rows[id].nextRetry {
          id := d;
        }
        rest := rest - {d};
      }
    }

    method DequeueMessages(limit: int, now: int) returns (items: seq<Item>)
      ensures IsBatch(rows, now, limit, ItemIds(items))
      ensures items == Items(rows, ItemIds(items))
    {
      items := [];
      var left := DueIds(rows, now);
      ghost var due := left;
      while left != {} && (limit < 0 || |items| < limit)
        invariant forall it <- items :: it.id in due && it.row == rows[it.id]
        invariant left <= due && forall d <- due :: d in left <==> d !in ItemIds(items)
        invariant NoDup(ItemIds(items)) && |items| + |left| == |due|
        invariant forall i, j | 0 <= i < j < |items| :: items[i].row.nextRetry <= items[j].row.nextRetry
        invariant forall i, d | 0 <= i < |items| && d in left :: items[i].row.nextRetry <= rows[d].nextRetry
        invariant 0 <= limit ==> |items| <= limit
        decreases left
      {
        var id := Earliest(left);
        assert ItemIds(items + [Item(id, rows[id])]) == ItemIds(items) + [id];
        items := items + [Item(id, rows[id])];
        left := left - {id};
      }
    }

    method MarkSending(id: nat)
      modifies this`rows
      ensures rows == if id in old(rows) then old(rows)[id := old(rows)[id].(status := Sending)] else old(rows)
    {
      if id in rows {
        rows := rows[id := rows[id].(status := Sending)];
      }
    }

    method MarkSent(id: nat)
      modifies this`rows
      ensures rows == if id in old(rows) then old(rows)[id := old(rows)[id].(status := Sent)] else old(rows)
    {
      if id in rows {
        rows := rows[id := rows[id].(status := Sent)];
      }
    }

    method MarkFailed(id: nat, error: string, nextRetry: int)
      modifies this`rows
      ensures rows == if id !in old(rows) then old(rows) else
                        var row := old(rows)[id];
                        old(rows)[id := row.(status := Pending, attempts := row.attempts + 1,
                                             lastError := error, nextRetry := nextRetry)]
    {
      if id in rows {
        var row := rows[id];
        rows := rows[id := row.(status := Pending, attempts := row.attempts + 1,
                                lastError := error, nextRetry := nextRetry)];
      }
    }

    method MarkDeadLetter(id: nat, error: string)
      modifies this`rows
      ensures rows == if id !in old(rows) then old(rows) else
                        var row := old(rows)[id];
                        old(rows)[id := row.(status := Failed, lastError := error, attempts := row.attempts + 1)]
    {
      if id in rows {
        var row := rows[id];
        rows := rows[id := row.(status := Failed, lastError := error, attempts := row.attempts + 1)];
      }
    }
  }

  /** What the database, the remote host and the clock answer while one item is handled. */
  datatype Reply = Reply(claimOk: bool, delivered: bool, error: string, checkedAt: int, retriedAt: int, recordOk: bool)

  /** The steps one item takes when answered by r ... */
  function ItemSteps(r: Reply): seq<Event> {
    if !r.claimOk then [MarkSending(false)]
    else [MarkSending(true), Deliver(r.delivered), Record(r.error, r.checkedAt, r.retriedAt, r.recordOk)]
  }

  /** ... and those of n items, the i-th answered by `reply(i)`. */
  function BatchSteps(reply: nat -> Reply, n: nat): seq<Event> {
    if n == 0 then [] else BatchSteps(reply, n - 1) + ItemSteps(reply(n - 1))
  }

  class OutboundSender {
    const cfg: Config
    const db: Queue
    var log: seq<Attempt>

    constructor (cfg: Config, db: Queue)
      ensures this.cfg == cfg && this.db == db && log == []
    {
      this.cfg, this.db, log := cfg, db, [];
    }

    ghost function State(phase: SendQueue.Sender): Sys
      reads this, db
    {
      Sys(db.rows, db.nextId, phase, log)
    }

    method HandleFailure(item: Item, r: Reply)
      modifies db`rows
      ensures db.rows == if !r.recordOk || item.id !in old(db.rows) then old(db.rows) else
                var row := AfterFailure(cfg, old(db.rows)[item.id], item.row, r.error, r.checkedAt, r.retriedAt);
                old(db.rows)[item.id := row]
      ensures r.recordOk && item.id in old(db.rows) ==>
        && item.id in db.rows
        && var row := old(db.rows)[item.id];
        && (if item.row.attempts >= cfg.maxRetries ||
               r.checkedAt > item.row.created * 1_000_000_000 + cfg.deadLetterAfter
            then db.rows[item.id] == row.(status := Failed, lastError := r.error, attempts := row.attempts + 1)
            else db.rows[item.id] == row.(status := Pending, lastError := r.error, attempts := row.attempts + 1,
                   nextRetry := Unix(r.retriedAt + Delay(cfg.baseDelay, item.row.attempts))))
    {
      if r.checkedAt - item.row.created * SECOND > cfg.deadLetterAfter {
        if r.recordOk { db.MarkDeadLetter(item.id, r.error); }
        return;
      }
      if item.row.attempts >= cfg.maxRetries {
        if r.recordOk { db.MarkDeadLetter(item.id, r.error); }
        return;
      }
      var nextRetry := Unix(r.retriedAt + Delay(cfg.baseDelay, item.row.attempts));
      if r.recordOk { db.MarkFailed(item.id, r.error, nextRetry); }
    }

    /** The loop body: claim the item, deliver it, record the outcome. */
    method HandleItem(item: Item, r: Reply, ghost start: Sys, ghost steps: seq<Event>, ghost rest: seq<Item>)
      requires Legal(cfg, start, steps)
      requires Exec(cfg, start, steps) == State(Working([item] + rest))
      modifies this`log, db`rows
      ensures Legal(cfg, start, steps + ItemSteps(r))
      ensures Exec(cfg, start, steps + ItemSteps(r)) == State(Working(rest))
    {
      assert ([item] + rest)[1..] == rest;
      ghost var claimed := TakeStep(cfg, start, steps, MarkSending(r.claimOk));
      if !r.claimOk {
        return;
      }
      db.MarkSending(item.id);
      ghost var tried := TakeStep(cfg, start, claimed, Deliver(r.delivered));
      log := log + [Attempt(item.id, r.delivered)];
      ghost var recorded := TakeStep(cfg, start, tried, Record(r.error, r.checkedAt, r.retriedAt, r.recordOk));
      if !r.delivered {
        HandleFailure(item, r);
      } else if r.recordOk {
        db.MarkSent(item.id);
      }
      assert recorded == steps + ItemSteps(r);
    }

    /** One tick takes a run of the state machine from idle to idle: one dequeue, then
        claim, deliver and record for each item of the batch. */
    method ProcessQueue(now: int, reply: nat -> Reply) returns (ghost batch: seq<nat>)
      modifies this`log, db`rows
      ensures var steps := [Dequeue(now, batch)] + BatchSteps(reply, |batch|) + [Finish];
        Legal(cfg, old(State(Idle)), steps) && Exec(cfg, old(State(Idle)), steps) == State(Idle)
    {
      ghost var start := State(Idle);
      var items := db.DequeueMessages(cfg.limit, now);
      batch := ItemIds(items);
      assert Legal(cfg, start, []);
      ghost var steps := TakeStep(cfg, start, [], Dequeue(now, batch));
      var i := 0;
      while i < |items|
        invariant 0 <= i <= |items|
        invariant steps == [Dequeue(now, batch)] + BatchSteps(reply, i)
        invariant Legal(cfg, start, steps) && Exec(cfg, start, steps) == State(Working(items[i..]))
      {
        assert [items[i]] + items[i + 1..] == items[i..];
        HandleItem(items[i], reply(i), start, steps, items[i + 1..]);
        assert steps + ItemSteps(reply(i)) == [Dequeue(now, batch)] + BatchSteps(reply, i + 1);
        steps := steps + ItemSteps(reply(i));
        i := i + 1;
      }
      steps := TakeStep(cfg, start, steps, Finish);
    }
  }

  /** Adds one enabled step to a run. */
  lemma TakeStep(cfg: Config, s: Sys, steps: seq<Event>, ev: Event) returns (more: seq<Event>)
    requires Legal(cfg, s, steps) && Enabled(cfg, Exec(cfg, s, steps), ev)
    ensures more == steps + [ev] && Legal(cfg, s, more)
    ensures Exec(cfg, s, more) == Apply(cfg, Exec(cfg, s, steps), ev)
  {
    more := steps + [ev];
    ExecSnoc(cfg, s, steps, ev);
  }
}
