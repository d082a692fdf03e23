/** The outbound send queue of internal/storage/queue.go and the retry loop of
    internal/smtp/sender.go as a state machine.

    Every SQL statement is one step, so enqueuing sessions and a crash of the server
    can come between any two statements of the single sender.  `deliver` is an
    arbitrary outcome; `log` records its calls. */
module SendQueue {
  import opened Backoff
  import opened Clock
  import opened Collections

  datatype Config = Config(limit: int, maxRetries: int, baseDelay: int, deadLetterAfter: int)

  datatype Mail = Mail(from: string, to: string, data: string)

  datatype Status = Pending | Sending | Sent | Failed

  /** A row of send_queue.  `nextRetry` and `created` are in seconds. */
  datatype Row = Row(mail: Mail, attempts: nat, nextRetry: int, lastError: string, created: int, status: Status)

  datatype Item = Item(id: nat, row: Row)

  /** Where the sender is in its loop over a batch. */
  datatype Sender =
    | Idle
    | Working(todo: seq<Item>)
    | Claimed(item: Item, todo: seq<Item>)
    | Tried(item: Item, ok: bool, todo: seq<Item>)

  datatype Attempt = Attempt(id: nat, ok: bool)

  datatype Sys = Sys(rows: map<nat, Row>, nextId: nat, sender: Sender, log: seq<Attempt>)

  /** Clock readings: `now` in seconds, `checkedAt` and `retriedAt` in nanoseconds. */
  datatype Event =
    | Enqueue(mail: Mail, now: int)
    | Dequeue(now: int, batch: seq<nat>)
    | MarkSending(dbOk: bool)
    | Deliver(ok: bool)
    | Record(error: string, checkedAt: int, retriedAt: int, dbOk: bool)
    | Finish
    | Crash

  // --------------------------------------------------------------------- steps

  function Todo(s: Sender): seq<Item> {
    if s.Idle? then [] else s.todo
  }

  function DueIds(rows: map<nat, Row>, now: int): set<nat> {
    set id | id in rows && rows[id].status == Pending && rows[id].nextRetry <= now
  }

  /** The answers the dequeue query may give: due rows, earliest first, at most
      `limit` of them (a negative LIMIT is none), ties in any order. */
  ghost predicate IsBatch(rows: map<nat, Row>, now: int, limit: int, batch: seq<nat>) {
    && NoDup(batch)
    && (forall i | 0 <= i < |batch| :: batch[i] in DueIds(rows, now))
    && (forall i, j | 0 <= i < j < |batch| :: rows[batch[i]].nextRetry <= rows[batch[j]].nextRetry)
    && (forall i, d | 0 <= i < |batch| && d in DueIds(rows, now) && d !in batch ::
          rows[batch[i]].nextRetry <= rows[d].nextRetry)
    && |batch| == (if 0 <= limit < |DueIds(rows, now)| then limit else |DueIds(rows, now)|)
  }

  /** Only pending rows that are due are in a batch, and all of them if it is not full. */
  lemma BatchAre(rows: map<nat, Row>, now: int, limit: int, batch: seq<nat>)
    requires IsBatch(rows, now, limit, batch)
    ensures forall id <- batch :: id in rows && rows[id].status == Pending && rows[id].nextRetry <= now
    ensures limit < 0 || |batch| < limit ==>
      forall id <- rows :: rows[id].status == Pending && rows[id].nextRetry <= now ==> id in batch
  {
    if limit < 0 || |batch| < limit {
      var due := DueIds(rows, now);
      NoDupCard(batch);
      assert Range(batch) <= due && |due - Range(batch)| == |due| - |Range(batch)| == 0;
      forall id | id in due ensures id in batch {
        assert id !in due - Range(batch);
      }
    }
  }

  function Items(rows: map<nat, Row>, batch: seq<nat>): seq<Item>
    requires forall i | 0 <= i < |batch| :: batch[i] in rows
  {
    seq(|batch|, i requires 0 <= i < |batch| => Item(batch[i], rows[batch[i]]))
  }

  /** The row after a failed delivery of an item read as `item`. */
  function AfterFailure(cfg: Config, row: Row, item: Row, error: string, checkedAt: int, retriedAt: int): Row {
    if checkedAt - item.created * SECOND > cfg.deadLetterAfter || item.attempts >= cfg.maxRetries then
      row.(status := Failed, lastError := error, attempts := row.attempts + 1)
    else
      row.(status := Pending, lastError := error, attempts := row.attempts + 1,
           nextRetry := Unix(retriedAt + Delay(cfg.baseDelay, item.attempts)))
  }

  ghost predicate Enabled(cfg: Config, s: Sys, ev: Event) {
    match ev
    case Enqueue(_, _) => true
    case Dequeue(now, batch) => s.sender.Idle? && IsBatch(s.rows, now, cfg.limit, batch)
    case MarkSending(_) => s.sender.Working? && s.sender.todo != []
    case Deliver(_) => s.sender.Claimed?
    case Record(_, _, _, _) => s.sender.Tried?
    case Finish => s.sender.Working? && s.sender.todo == []
    case Crash => true
  }

  ghost function Apply(cfg: Config, s: Sys, ev: Event): Sys
    requires Enabled(cfg, s, ev)
  {
    match ev
    case Enqueue(mail, now) =>
      s.(rows := s.rows[s.nextId := Row(mail, 0, now, "", now, Pending)], nextId := s.nextId + 1)
    case Dequeue(now, batch) =>
      s.(sender := Working(Items(s.rows, batch)))
    case MarkSending(dbOk) =>
      var item, rest := s.sender.todo[0], s.sender.todo[1..];
      if !dbOk then s.(sender := Working(rest))
      else if item.id !in s.rows then s.(sender := Claimed(item, rest))
      else s.(rows := s.rows[item.id := s.rows[item.id].(status := Sending)], sender := Claimed(item, rest))
    case Deliver(ok) =>
      s.(sender := Tried(s.sender.item, ok, s.sender.todo), log := s.log + [Attempt(s.sender.item.id, ok)])
    case Record(error, checkedAt, retriedAt, dbOk) =>
      var item := s.sender.item;
      var done := s.(sender := Working(s.sender.todo));
      if !dbOk || item.id !in s.rows then done
      else
        var row := s.rows[item.id];
        var row' := if s.sender.ok then row.(status := Sent)
                    else AfterFailure(cfg, row, item.row, error, checkedAt, retriedAt);
        done.(rows := s.rows[item.id := row'])
    case Finish => s.(sender := Idle)
    case Crash => s.(sender := Idle)
  }

  // ---------------------------------------------------------------------- runs

  ghost predicate Legal(cfg: Config, s: Sys, evs: seq<Event>)
    decreases |evs|
  {
    evs == [] || (Enabled(cfg, s, evs[0]) && Legal(cfg, Apply(cfg, s, evs[0]), evs[1..]))
  }

  ghost function Exec(cfg: Config, s: Sys, evs: seq<Event>): Sys
    requires Legal(cfg, s, evs)
    decreases |evs|
  {
    if evs == [] then s else Exec(cfg, Apply(cfg, s, evs[0]), evs[1..])
  }

  lemma {:induction false} ExecSnoc(cfg: Config, s: Sys, evs: seq<Event>, ev: Event)
    requires Legal(cfg, s, evs) && Enabled(cfg, Exec(cfg, s, evs), ev)
    ensures Legal(cfg, s, evs + [ev])
    ensures Exec(cfg, s, evs + [ev]) == Apply(cfg, Exec(cfg, s, evs), ev)
    decreases |evs|
  {
    if evs == [] {
      assert [ev][1..] == [];
      assert evs + [ev] == [ev];
      assert Legal(cfg, Apply(cfg, s, ev), []);
    } else {
      assert (evs + [ev])[1..] == evs[1..] + [ev];
      ExecSnoc(cfg, Apply(cfg, s, evs[0]), evs[1..], ev);
    }
  }

  const EMPTY: Sys := Sys(map[], 0, Idle, [])

  /** How often `deliver` was called for an item. */
  function Calls(log: seq<Attempt>, id: nat): nat {
    if log == [] then 0
    else Calls(log[..|log| - 1], id) + (if log[|log| - 1].id == id then 1 else 0)
  }

  lemma CallsAppend(log: seq<Attempt>, a: Attempt, id: nat)
    ensures Calls(log + [a], id) == Calls(log, id) + (if a.id == id then 1 else 0)
  {
    assert (log + [a])[..|log|] == log;
  }

  ghost predicate Accepted(log: seq<Attempt>, id: nat) {
    Attempt(id, true) in log
  }

  /** Once a delivery succeeded the item is never handed to `deliver` again. */
  ghost predicate SuccessIsLast(log: seq<Attempt>) {
    forall i, j | 0 <= i < j < |log| && log[i].id == log[j].id :: !log[i].ok
  }

  // ----------------------------------------------------------------- invariant

  function Retries(cfg: Config): nat {
    if cfg.maxRetries < 0 then 0 else cfg.maxRetries
  }

  /** A row against the calls made for it: `calls` calls, `accepted` one of them. */
  predicate RowInv(cfg: Config, row: Row, calls: nat, accepted: bool, held: bool, tried: bool) {
    match row.status
    case Pending => calls == row.attempts <= Retries(cfg) && !accepted
    case Sending =>
      && row.attempts <= Retries(cfg)
      && (if held then calls == row.attempts + (if tried then 1 else 0) && (!tried ==> !accepted)
          else row.attempts <= calls <= row.attempts + 1)
    case Sent => row.attempts <= Retries(cfg) && calls == row.attempts + 1 && accepted
    case Failed => calls == row.attempts <= Retries(cfg) + 1 && !accepted
  }

  /** The sender's copy of an item agrees with its row. */
  ghost predicate Fresh(rows: map<nat, Row>, item: Item, status: Status) {
    item.id in rows && rows[item.id] == item.row.(status := status)
  }

  ghost predicate SenderInv(rows: map<nat, Row>, s: Sender) {
    var todo := Todo(s);
    && (forall i, j | 0 <= i < j < |todo| :: todo[i].id != todo[j].id)
    && (forall it <- todo :: it.row.status == Pending && Fresh(rows, it, Pending))
    && (s.Claimed? || s.Tried? ==> s.item.row.status == Pending && Fresh(rows, s.item, Sending))
  }

  predicate Holds(s: Sender, id: nat) {
    (s.Claimed? || s.Tried?) && s.item.id == id
  }

  ghost predicate Inv(cfg: Config, s: Sys) {
    && (forall id <- s.rows :: id < s.nextId)
    && (forall a <- s.log :: a.id in s.rows)
    && SenderInv(s.rows, s.sender)
    && (forall id <- s.rows ::
          RowInv(cfg, s.rows[id], Calls(s.log, id), Accepted(s.log, id), Holds(s.sender, id), s.sender.Tried?))
    && (s.sender.Tried? ==> (s.sender.ok <==> Accepted(s.log, s.sender.item.id)))
    && SuccessIsLast(s.log)
  }

  lemma {:induction false} NoCalls(log: seq<Attempt>, id: nat)
    requires forall a <- log :: a.id != id
    ensures Calls(log, id) == 0 && !Accepted(log, id)
  {
    if log != [] {
      NoCalls(log[..|log| - 1], id);
    }
  }

  lemma InvEnqueue(cfg: Config, s: Sys, mail: Mail, now: int)
    requires Inv(cfg, s)
    ensures Inv(cfg, Apply(cfg, s, Enqueue(mail, now)))
  {
    NoCalls(s.log, s.nextId);
  }

  lemma InvDequeue(cfg: Config, s: Sys, now: int, batch: seq<nat>)
    requires Inv(cfg, s) && Enabled(cfg, s, Dequeue(now, batch))
    ensures Inv(cfg, Apply(cfg, s, Dequeue(now, batch)))
  {
  }

  lemma InvMarkSending(cfg: Config, s: Sys, dbOk: bool)
    requires Inv(cfg, s) && Enabled(cfg, s, MarkSending(dbOk))
    ensures Inv(cfg, Apply(cfg, s, MarkSending(dbOk)))
  {
    assert Fresh(s.rows, s.sender.todo[0], Pending);
  }

  lemma SuccessStaysLast(log: seq<Attempt>, a: Attempt)
    requires SuccessIsLast(log) && !Accepted(log, a.id)
    ensures SuccessIsLast(log + [a])
  {
    forall i | 0 <= i < |log| && log[i].id == a.id ensures !log[i].ok {
      assert log[i] in log;
    }
  }

  lemma InvDeliver(cfg: Config, s: Sys, ok: bool)
    requires Inv(cfg, s) && Enabled(cfg, s, Deliver(ok))
    ensures Inv(cfg, Apply(cfg, s, Deliver(ok)))
  {
    var a := Attempt(s.sender.item.id, ok);
    var next := Apply(cfg, s, Deliver(ok));
    assert Fresh(s.rows, s.sender.item, Sending);
    assert !Accepted(s.log, a.id);
    SuccessStaysLast(s.log, a);
    assert forall b :: b in next.log <==> b in s.log || b == a;
    forall id | id in s.rows
      ensures RowInv(cfg, next.rows[id], Calls(next.log, id), Accepted(next.log, id), Holds(next.sender, id),
        next.sender.Tried?)
    {
      CallsAppend(s.log, a, id);
    }
  }

  lemma InvRecord(cfg: Config, s: Sys, error: string, checkedAt: int, retriedAt: int, dbOk: bool)
    requires Inv(cfg, s) && Enabled(cfg, s, Record(error, checkedAt, retriedAt, dbOk))
    ensures Inv(cfg, Apply(cfg, s, Record(error, checkedAt, retriedAt, dbOk)))
  {
  }

  lemma InvKept(cfg: Config, s: Sys, ev: Event)
    requires Inv(cfg, s) && Enabled(cfg, s, ev)
    ensures Inv(cfg, Apply(cfg, s, ev))
  {
    match ev
    case Enqueue(mail, now) => InvEnqueue(cfg, s, mail, now);
    case Dequeue(now, batch) => InvDequeue(cfg, s, now, batch);
    case MarkSending(dbOk) => InvMarkSending(cfg, s, dbOk);
    case Deliver(ok) => InvDeliver(cfg, s, ok);
    case Record(e, c, r, dbOk) => InvRecord(cfg, s, e, c, r, dbOk);
    case Finish =>
    case Crash =>
  }

  lemma {:induction false} InvAlways(cfg: Config, s: Sys, evs: seq<Event>)
    requires Inv(cfg, s) && Legal(cfg, s, evs)
    ensures Inv(cfg, Exec(cfg, s, evs))
    decreases |evs|
  {
    if evs != [] {
      InvKept(cfg, s, evs[0]);
      InvAlways(cfg, Apply(cfg, s, evs[0]), evs[1..]);
    }
  }

  // ----------------------------------------------------------- safety of a run

  /** At most one call to `deliver` per permitted retry and one more, whatever crashes
      and failed updates happen; nothing follows a success; a pending row never has
      more attempts than retries. */
  lemma DeliverySafety(cfg: Config, evs: seq<Event>, id: nat)
    requires Legal(cfg, EMPTY, evs)
    ensures var end := Exec(cfg, EMPTY, evs);
      && Calls(end.log, id) <= Retries(cfg) + 1
      && SuccessIsLast(end.log)
      && (id in end.rows && end.rows[id].status == Pending ==>
        end.rows[id].attempts == Calls(end.log, id) <= Retries(cfg))
  {
    InvAlways(cfg, EMPTY, evs);
    var end := Exec(cfg, EMPTY, evs);
    if id !in end.rows {
      NoCalls(end.log, id);
    }
  }

  /** The table tells the truth: of an item that is not being sent, nor stuck in sending, the
      row says sent exactly when the remote host accepted it. */
  lemma SentIffAccepted(cfg: Config, evs: seq<Event>, id: nat)
    requires Legal(cfg, EMPTY, evs) && id in Exec(cfg, EMPTY, evs).rows
    ensures var end := Exec(cfg, EMPTY, evs);
      end.rows[id].status != Sending ==> (end.rows[id].status == Sent <==> Attempt(id, true) in end.log)
  {
    InvAlways(cfg, EMPTY, evs);
  }

  // --------------------------------------------------- what becomes of an item

  /** A row becomes sent exactly when the outcome of an accepted delivery is recorded, and
      nothing else of it changes. */
  lemma BecomesSentIff(cfg: Config, s: Sys, ev: Event, id: nat)
    requires Inv(cfg, s) && Enabled(cfg, s, ev) && id in s.rows
    ensures var row, next := s.rows[id], Apply(cfg, s, ev).rows;
      && id in next
      && (row.status != Sent && next[id].status == Sent <==>
            ev.Record? && ev.dbOk && s.sender.item.id == id && s.sender.ok)
      && (row.status != Sent && next[id].status == Sent ==> next[id] == row.(status := Sent))
  {
    SenderRows(cfg, s, ev);
  }

  /** It becomes failed exactly when the outcome of a failed delivery is recorded and either
      the attempts had reached the limit or the clock was past the dead-letter age; the
      error is kept and the attempt counted. */
  lemma BecomesFailedIff(cfg: Config, s: Sys, ev: Event, id: nat)
    requires Inv(cfg, s) && Enabled(cfg, s, ev) && id in s.rows
    ensures var row, next := s.rows[id], Apply(cfg, s, ev).rows;
      && id in next
      && (row.status != Failed && next[id].status == Failed <==>
            && ev.Record? && ev.dbOk && s.sender.item.id == id && !s.sender.ok
            && (row.attempts >= cfg.maxRetries || ev.checkedAt > row.created * 1_000_000_000 + cfg.deadLetterAfter))
      && (row.status != Failed && next[id].status == Failed ==>
            next[id] == row.(status := Failed, lastError := ev.error, attempts := row.attempts + 1))
  {
    SenderRows(cfg, s, ev);
  }

  /** Otherwise a failed delivery makes it pending again, due base * 2^attempts after the
      clock was read. */
  lemma RescheduledIff(cfg: Config, s: Sys, ev: Event, id: nat)
    requires Inv(cfg, s) && Enabled(cfg, s, ev) && id in s.rows && NoOverflow(cfg)
    ensures var row, next := s.rows[id], Apply(cfg, s, ev).rows;
      && id in next
      && (row.status != Pending && next[id].status == Pending <==>
            && ev.Record? && ev.dbOk && s.sender.item.id == id && !s.sender.ok
            && row.attempts < cfg.maxRetries && ev.checkedAt <= row.created * 1_000_000_000 + cfg.deadLetterAfter)
      && (row.status != Pending && next[id].status == Pending ==>
            next[id] == row.(status := Pending, lastError := ev.error, attempts := row.attempts + 1,
                             nextRetry := Unix(ev.retriedAt + cfg.baseDelay * Pow2(row.attempts))))
  {
    SenderRows(cfg, s, ev);
    if s.rows[id].attempts < cfg.maxRetries {
      NoDelayOverflows(cfg.baseDelay, cfg.maxRetries, s.rows[id].attempts);
    }
  }

  /** The rows the sender's next step works on. */
  lemma SenderRows(cfg: Config, s: Sys, ev: Event)
    requires Inv(cfg, s) && Enabled(cfg, s, ev)
    ensures ev.MarkSending? ==> Fresh(s.rows, s.sender.todo[0], Pending)
    ensures ev.Record? ==> Fresh(s.rows, s.sender.item, Sending)
    ensures s.nextId !in s.rows
  {
  }

  /** Left `sending` by a sender that no longer works on it. */
  predicate Stuck(s: Sys, id: nat) {
    id in s.rows && s.rows[id].status == Sending && !Holds(s.sender, id)
  }

  /** A row the sender cannot touch any more: sent, failed, or left `Sending` by a
      crash or by an update that failed. */
  ghost predicate Settled(s: Sys, id: nat) {
    id in s.rows && (s.rows[id].status == Sent || s.rows[id].status == Failed || Stuck(s, id))
  }

  lemma SettledNotHeld(cfg: Config, s: Sys, id: nat)
    requires Inv(cfg, s) && Settled(s, id)
    ensures !Holds(s.sender, id)
    ensures s.sender.Working? && s.sender.todo != [] ==> s.sender.todo[0].id != id
  {
    if s.sender.Working? && s.sender.todo != [] {
      assert Fresh(s.rows, s.sender.todo[0], Pending);
    }
    if s.sender.Claimed? || s.sender.Tried? {
      assert Fresh(s.rows, s.sender.item, Sending);
    }
  }

  lemma SettledStep(cfg: Config, s: Sys, ev: Event, id: nat)
    requires Inv(cfg, s) && Enabled(cfg, s, ev) && Settled(s, id)
    ensures var next := Apply(cfg, s, ev);
      Settled(next, id) && next.rows[id] == s.rows[id] && Calls(next.log, id) == Calls(s.log, id)
  {
    SettledNotHeld(cfg, s, id);
    if ev.Deliver? {
      CallsAppend(s.log, Attempt(s.sender.item.id, ev.ok), id);
    }
  }

  /** Sent and failed rows are final, and so is a row stranded in `Sending`: no later
      step changes it and it is never delivered again. */
  lemma {:induction false} SettledForever(cfg: Config, s: Sys, evs: seq<Event>, id: nat)
    requires Inv(cfg, s) && Legal(cfg, s, evs) && Settled(s, id)
    ensures var end := Exec(cfg, s, evs);
      id in end.rows && end.rows[id] == s.rows[id] && Calls(end.log, id) == Calls(s.log, id)
    decreases |evs|
  {
    if evs != [] {
      var ev := evs[0];
      InvKept(cfg, s, ev);
      SettledStep(cfg, s, ev, id);
      SettledForever(cfg, Apply(cfg, s, ev), evs[1..], id);
    }
  }

  /** A crash while the item is being handled, or an outcome that could not be written. */
  predicate Strands(s: Sys, ev: Event, id: nat) {
    Holds(s.sender, id) && (ev.Crash? || (ev.Record? && !ev.dbOk))
  }

  ghost predicate StrandedIn(cfg: Config, s: Sys, evs: seq<Event>, id: nat)
    requires Legal(cfg, s, evs)
    decreases |evs|
  {
    evs != [] && (Strands(s, evs[0], id) || StrandedIn(cfg, Apply(cfg, s, evs[0]), evs[1..], id))
  }

  lemma StuckStep(cfg: Config, s: Sys, ev: Event, id: nat)
    requires Inv(cfg, s) && Enabled(cfg, s, ev)
    ensures Stuck(Apply(cfg, s, ev), id) <==> Stuck(s, id) || Strands(s, ev, id)
  {
    match ev
    case MarkSending(_) => assert Fresh(s.rows, s.sender.todo[0], Pending);
    case Deliver(_) => assert Fresh(s.rows, s.sender.item, Sending);
    case Record(_, _, _, _) => assert Fresh(s.rows, s.sender.item, Sending);
    case Crash => assert s.sender.Claimed? || s.sender.Tried? ==> Fresh(s.rows, s.sender.item, Sending);
    case _ =>
  }

  /** After any run an item is stuck, and by SettledForever never retried, if and only if
      it was so before or some step crashed on it or failed to record its outcome. */
  lemma {:induction false} StuckIff(cfg: Config, s: Sys, evs: seq<Event>, id: nat)
    requires Inv(cfg, s) && Legal(cfg, s, evs)
    ensures Stuck(Exec(cfg, s, evs), id) <==> Stuck(s, id) || StrandedIn(cfg, s, evs, id)
    decreases |evs|
  {
    if evs != [] {
      InvKept(cfg, s, evs[0]);
      StuckStep(cfg, s, evs[0], id);
      StuckIff(cfg, Apply(cfg, s, evs[0]), evs[1..], id);
    }
  }

  /** A crash while an item is with `deliver` strands it, although it may not have been
      delivered: retries do not survive a crash. */
  lemma CrashStrands(cfg: Config, s: Sys, evs: seq<Event>)
    requires Inv(cfg, s) && (s.sender.Claimed? || s.sender.Tried?)
    requires Legal(cfg, s, [Crash] + evs)
    ensures var id := s.sender.item.id;
      var end := Exec(cfg, s, [Crash] + evs);
      Stuck(end, id) && Calls(end.log, id) == Calls(s.log, id)
  {
    var id := s.sender.item.id;
    assert ([Crash] + evs)[1..] == evs;
    InvKept(cfg, s, Crash);
    StuckIff(cfg, s, [Crash] + evs, id);
    StuckStep(cfg, s, Crash, id);
    SettledForever(cfg, Apply(cfg, s, Crash), evs, id);
  }

  // ------------------------------------------------------------- retry horizon

  ghost predicate NoOverflow(cfg: Config) {
    0 < cfg.baseDelay && (0 < cfg.maxRetries ==> cfg.baseDelay * Pow2(cfg.maxRetries - 1) <= INT64_MAX)
  }

  function LongestDelay(cfg: Config): int {
    if 0 < cfg.maxRetries then cfg.baseDelay * Pow2(cfg.maxRetries - 1) else 0
  }

  /** The two clock readings of one failure are at most `gap` nanoseconds apart. */
  ghost predicate ClockGap(evs: seq<Event>, gap: int) {
    forall ev <- evs :: ev.Record? ==> ev.retriedAt <= ev.checkedAt + gap
  }

  ghost predicate Reschedules(s: Sys, bound: int) {
    forall id <- s.rows :: s.rows[id].status == Pending && s.rows[id].attempts > 0 ==>
      s.rows[id].nextRetry * SECOND <= s.rows[id].created * SECOND + bound
  }

  lemma RescheduleBound(cfg: Config, row: Row, item: Row, error: string, checkedAt: int, retriedAt: int, gap: int)
    requires NoOverflow(cfg) && retriedAt <= checkedAt + gap && item.created == row.created
    ensures var row' := AfterFailure(cfg, row, item, error, checkedAt, retriedAt);
      row'.status == Pending ==>
        && row'.nextRetry * SECOND <= row.created * SECOND + cfg.deadLetterAfter + LongestDelay(cfg) + gap
        && row'.nextRetry >= Unix(retriedAt + cfg.baseDelay)
  {
    if item.attempts < cfg.maxRetries {
      NoDelayOverflows(cfg.baseDelay, cfg.maxRetries, item.attempts);
    }
  }

  lemma RescheduleStep(cfg: Config, s: Sys, ev: Event, gap: int)
    requires NoOverflow(cfg) && Inv(cfg, s) && Enabled(cfg, s, ev)
    requires ev.Record? ==> ev.retriedAt <= ev.checkedAt + gap
    requires Reschedules(s, cfg.deadLetterAfter + LongestDelay(cfg) + gap)
    ensures Reschedules(Apply(cfg, s, ev), cfg.deadLetterAfter + LongestDelay(cfg) + gap)
  {
    if ev.Record? {
      var item := s.sender.item;
      assert Fresh(s.rows, item, Sending);
      RescheduleBound(cfg, s.rows[item.id], item.row, ev.error, ev.checkedAt, ev.retriedAt, gap);
    }
  }

  /** Every rescheduled row is due by created + deadLetterAfter + the longest delay
      (plus the gap between the two clock readings of a failure). */
  lemma {:induction false} RetryHorizon(cfg: Config, s: Sys, evs: seq<Event>, gap: int)
    requires NoOverflow(cfg) && Inv(cfg, s) && Legal(cfg, s, evs) && ClockGap(evs, gap)
    requires Reschedules(s, cfg.deadLetterAfter + LongestDelay(cfg) + gap)
    ensures Reschedules(Exec(cfg, s, evs), cfg.deadLetterAfter + LongestDelay(cfg) + gap)
    decreases |evs|
  {
    if evs != [] {
      InvKept(cfg, s, evs[0]);
      RescheduleStep(cfg, s, evs[0], gap);
      RetryHorizon(cfg, Apply(cfg, s, evs[0]), evs[1..], gap);
    }
  }

  // ---------------------------------------------------------------- draining

  /** How many more delivery attempts a row can cost. */
  function Budget(cfg: Config, row: Row): nat {
    match row.status
    case Pending => if row.attempts <= Retries(cfg) then Retries(cfg) + 1 - row.attempts else 0
    case Sending => if row.attempts <= Retries(cfg) then Retries(cfg) - row.attempts else 0
    case _ => 0
  }

  function Budgets(cfg: Config, rows: map<nat, Row>, n: nat): nat {
    if n == 0 then 0
    else Budgets(cfg, rows, n - 1) + (if n - 1 in rows then Budget(cfg, rows[n - 1]) else 0)
  }

  lemma {:induction false} BudgetsPut(cfg: Config, rows: map<nat, Row>, n: nat, id: nat, row: Row)
    ensures id >= n ==> Budgets(cfg, rows[id := row], n) == Budgets(cfg, rows, n)
    ensures id < n && id in rows ==>
      Budgets(cfg, rows[id := row], n) == Budgets(cfg, rows, n) - Budget(cfg, rows[id]) + Budget(cfg, row)
  {
    if n > 0 {
      BudgetsPut(cfg, rows, n - 1, id, row);
    }
  }

  function Enqueues(evs: seq<Event>): nat {
    if evs == [] then 0 else (if evs[0].Enqueue? then 1 else 0) + Enqueues(evs[1..])
  }

  function Claims(evs: seq<Event>): nat {
    if evs == [] then 0
    else (if evs[0].MarkSending? && evs[0].dbOk then 1 else 0) + Claims(evs[1..])
  }

  lemma BudgetStep(cfg: Config, s: Sys, ev: Event)
    requires Inv(cfg, s) && Enabled(cfg, s, ev)
    ensures var next := Apply(cfg, s, ev);
      Budgets(cfg, next.rows, next.nextId) + Claims([ev])
        <= Budgets(cfg, s.rows, s.nextId) + (if ev.Enqueue? then Retries(cfg) + 1 else 0)
  {
    var next := Apply(cfg, s, ev);
    assert [ev][1..] == [];
    match ev
    case Enqueue(mail, now) =>
      BudgetsPut(cfg, s.rows, s.nextId, s.nextId, next.rows[s.nextId]);
    case MarkSending(dbOk) =>
      var item := s.sender.todo[0];
      assert Fresh(s.rows, item, Pending);
      BudgetsPut(cfg, s.rows, s.nextId, item.id, s.rows[item.id].(status := Sending));
    case Record(error, checkedAt, retriedAt, dbOk) =>
      var item := s.sender.item;
      assert Fresh(s.rows, item, Sending);
      BudgetsPut(cfg, s.rows, s.nextId, item.id, next.rows[item.id]);
    case _ =>
  }

  lemma MulSucc(a: int, b: int)
    ensures a * (1 + b) == a + a * b
  {
  }

  /** Conservation: claims for delivery made in a run plus the budget left at its end
      never exceed the budget at its start plus maxRetries + 1 for each new item. */
  lemma {:induction false} AttemptsConserved(cfg: Config, s: Sys, evs: seq<Event>)
    requires Inv(cfg, s) && Legal(cfg, s, evs)
    ensures var end := Exec(cfg, s, evs);
      Claims(evs) + Budgets(cfg, end.rows, end.nextId)
        <= Budgets(cfg, s.rows, s.nextId) + (Retries(cfg) + 1) * Enqueues(evs)
    decreases |evs|
  {
    if evs == [] {
      assert Enqueues(evs) == 0;
    } else {
      InvKept(cfg, s, evs[0]);
      BudgetStep(cfg, s, evs[0]);
      AttemptsConserved(cfg, Apply(cfg, s, evs[0]), evs[1..]);
      assert [evs[0]][1..] == [];
      MulSucc(Retries(cfg) + 1, Enqueues(evs[1..]));
    }
  }

  // ------------------------------------------------------------ no starvation

  /** Pending rows due at or before t. */
  function DueBy(s: Sys, t: int): set<nat> {
    DueIds(s.rows, t)
  }

  function Ids(todo: seq<Item>): set<nat> {
    set it <- todo :: it.id
  }

  /** Those of them the current batch does not hold. */
  function Waiting(s: Sys, t: int): set<nat> {
    DueBy(s, t) - Ids(Todo(s.sender))
  }

  /** No crash, and no failing claim. */
  predicate Steady(ev: Event) {
    !ev.Crash? && (ev.MarkSending? ==> ev.dbOk)
  }

  /** The clock has passed second t: new rows are stamped later than t. */
  predicate Later(ev: Event, t: int) {
    match ev
    case Enqueue(_, now) => t < now
    case Dequeue(now, _) => t <= now
    case Record(_, _, retriedAt, _) => t * SECOND <= retriedAt
    case _ => true
  }

  function Ticks(evs: seq<Event>): nat {
    if evs == [] then 0 else (if evs[0].Dequeue? then 1 else 0) + Ticks(evs[1..])
  }

  /** `id` was attempted since its call count was `calls`, or still waits its turn. */
  ghost predicate Served(s: Sys, t: int, id: nat, calls: nat) {
    Calls(s.log, id) > calls || id in DueBy(s, t) || (s.sender.Claimed? && s.sender.item.id == id)
  }

  function Minus(a: nat, b: int): nat {
    if a <= b then 0 else if b < 0 then a else a - b
  }

  lemma MinusTwice(a: nat, x: int, b: nat, y: int)
    requires 0 <= x && 0 <= y && b <= Minus(a, x)
    ensures Minus(b, y) <= Minus(a, x + y)
  {
  }

  /** A dequeue takes the oldest first: it empties the due set or shrinks it by `limit`. */
  lemma DequeueTakesOldest(cfg: Config, s: Sys, now: int, batch: seq<nat>, t: int)
    requires 0 < cfg.limit && Enabled(cfg, s, Dequeue(now, batch)) && t <= now
    ensures |DueBy(s, t) - Range(batch)| <= Minus(|DueBy(s, t)|, cfg.limit)
  {
    var due, took := DueBy(s, t), Range(batch);
    if d :| d in due && d !in took {
      forall b | b in took ensures b in due {
        var i :| 0 <= i < |batch| && batch[i] == b;
        assert s.rows[batch[i]].nextRetry <= s.rows[d].nextRetry;
      }
      NoDupCard(batch);
      assert took + {d} <= DueIds(s.rows, now);
      SubsetCard(took + {d}, DueIds(s.rows, now));
      assert |due - took| == |due| - |took|;
    } else {
      assert due - took == {};
    }
  }

  lemma DueByStep(cfg: Config, s: Sys, ev: Event, t: int)
    requires Inv(cfg, s) && Enabled(cfg, s, ev) && Later(ev, t)
    requires NoOverflow(cfg) && SECOND <= cfg.baseDelay
    ensures DueBy(Apply(cfg, s, ev), t) <= DueBy(s, t)
  {
    if ev.Record? {
      var item := s.sender.item;
      assert Fresh(s.rows, item, Sending);
      RescheduleBound(cfg, s.rows[item.id], item.row, ev.error, ev.checkedAt, ev.retriedAt,
        ev.retriedAt - ev.checkedAt);
    }
  }

  lemma ServedStep(cfg: Config, s: Sys, ev: Event, t: int, id: nat, calls: nat)
    requires Inv(cfg, s) && Enabled(cfg, s, ev) && Steady(ev)
    requires Served(s, t, id, calls) && calls <= Calls(s.log, id)
    ensures Served(Apply(cfg, s, ev), t, id, calls) && calls <= Calls(Apply(cfg, s, ev).log, id)
  {
    if ev.Deliver? {
      CallsAppend(s.log, Attempt(s.sender.item.id, ev.ok), id);
    } else if ev.MarkSending? {
      assert Fresh(s.rows, s.sender.todo[0], Pending);
    } else if ev.Record? {
      assert Fresh(s.rows, s.sender.item, Sending);
    }
  }

  lemma WaitingDequeue(cfg: Config, s: Sys, now: int, batch: seq<nat>, t: int)
    requires 0 < cfg.limit && Enabled(cfg, s, Dequeue(now, batch)) && t <= now
    ensures |Waiting(Apply(cfg, s, Dequeue(now, batch)), t)| <= Minus(|Waiting(s, t)|, cfg.limit)
  {
    DequeueTakesOldest(cfg, s, now, batch, t);
    assert Waiting(s, t) == DueBy(s, t);
    var items := Items(s.rows, batch);
    forall x | x in Range(batch) ensures x in Ids(items) {
      var i :| 0 <= i < |batch| && batch[i] == x;
      assert items[i] in items;
    }
    SubsetCard(DueBy(s, t) - Ids(items), DueBy(s, t) - Range(batch));
  }

  lemma WaitingElse(cfg: Config, s: Sys, ev: Event, t: int)
    requires Inv(cfg, s) && Enabled(cfg, s, ev) && Steady(ev) && Later(ev, t) && !ev.Dequeue?
    requires NoOverflow(cfg) && SECOND <= cfg.baseDelay
    ensures Waiting(Apply(cfg, s, ev), t) <= Waiting(s, t)
  {
    DueByStep(cfg, s, ev, t);
    if ev.MarkSending? {
      var todo := s.sender.todo;
      assert Fresh(s.rows, todo[0], Pending);
      assert Ids(todo) == {todo[0].id} + Ids(todo[1..]);
    } else if ev.Finish? {
      assert Ids(Todo(s.sender)) == {};
    }
  }

  lemma WaitingStep(cfg: Config, s: Sys, ev: Event, t: int)
    requires Inv(cfg, s) && Enabled(cfg, s, ev) && Steady(ev) && Later(ev, t)
    requires 0 < cfg.limit && NoOverflow(cfg) && SECOND <= cfg.baseDelay
    ensures |Waiting(Apply(cfg, s, ev), t)| <= Minus(|Waiting(s, t)|, if ev.Dequeue? then cfg.limit else 0)
  {
    if ev.Dequeue? {
      WaitingDequeue(cfg, s, ev.now, ev.batch, t);
    } else {
      WaitingElse(cfg, s, ev, t);
      SubsetCard(Waiting(Apply(cfg, s, ev), t), Waiting(s, t));
    }
  }

  lemma TicksTimes(limit: nat, evs: seq<Event>)
    requires evs != []
    ensures limit * Ticks(evs) == (if evs[0].Dequeue? then limit else 0) + limit * Ticks(evs[1..])
    ensures 0 <= limit * Ticks(evs[1..])
  {
    MulSucc(limit, Ticks(evs[1..]));
  }

  lemma ShrunkTwice(a: nat, b: nat, c: nat, limit: nat, evs: seq<Event>)
    requires evs != [] && b <= Minus(a, if evs[0].Dequeue? then limit else 0)
    requires c <= Minus(b, limit * Ticks(evs[1..]))
    ensures c <= Minus(a, limit * Ticks(evs))
  {
    TicksTimes(limit, evs);
    MinusTwice(a, if evs[0].Dequeue? then limit else 0, b, limit * Ticks(evs[1..]));
  }

  lemma {:induction false} WaitingShrinks(cfg: Config, s: Sys, evs: seq<Event>, t: int, id: nat, calls: nat)
    requires Inv(cfg, s) && Legal(cfg, s, evs)
    requires forall ev <- evs :: Steady(ev) && Later(ev, t)
    requires 0 < cfg.limit && NoOverflow(cfg) && SECOND <= cfg.baseDelay
    requires Served(s, t, id, calls) && calls <= Calls(s.log, id)
    ensures |Waiting(Exec(cfg, s, evs), t)| <= Minus(|Waiting(s, t)|, cfg.limit * Ticks(evs))
    ensures Served(Exec(cfg, s, evs), t, id, calls)
    decreases |evs|
  {
    if evs == [] {
      assert Ticks(evs) == 0;
    } else {
      var ev := evs[0];
      InvKept(cfg, s, ev);
      WaitingStep(cfg, s, ev, t);
      ServedStep(cfg, s, ev, t, id, calls);
      WaitingShrinks(cfg, Apply(cfg, s, ev), evs[1..], t, id, calls);
      ShrunkTwice(|Waiting(s, t)|, |Waiting(Apply(cfg, s, ev), t)|, |Waiting(Exec(cfg, s, evs), t)|, cfg.limit, evs);
    }
  }

  /** No starvation: an item pending at an idle moment and due at t is handed to
      `deliver` within ceil(rank / limit) complete ticks once the clock has passed t,
      where rank counts the pending rows due by t; new rows and retries never cut in. */
  lemma NoStarvation(cfg: Config, s: Sys, evs: seq<Event>, id: nat)
    requires Inv(cfg, s) && s.sender.Idle? && Legal(cfg, s, evs)
    requires id in s.rows && s.rows[id].status == Pending
    requires forall ev <- evs :: Steady(ev) && Later(ev, s.rows[id].nextRetry)
    requires 0 < cfg.limit && NoOverflow(cfg) && SECOND <= cfg.baseDelay
    requires |DueBy(s, s.rows[id].nextRetry)| <= cfg.limit * Ticks(evs)
    requires Exec(cfg, s, evs).sender.Idle?
    ensures Calls(Exec(cfg, s, evs).log, id) > Calls(s.log, id)
  {
    var t := s.rows[id].nextRetry;
    var end := Exec(cfg, s, evs);
    WaitingShrinks(cfg, s, evs, t, id, Calls(s.log, id));
    assert Waiting(s, t) == DueBy(s, t);
    assert Waiting(end, t) == DueBy(end, t);
  }

  // ----------------------------------------------------------------- draining

  ghost predicate NonePending(s: Sys) {
    forall id <- s.rows :: s.rows[id].status != Pending
  }

  ghost predicate Quiet(s: Sys) {
    NonePending(s) && (s.sender.Idle? || s.sender == Working([]))
  }

  /** What keeps every pending row due at `horizon` and later. */
  ghost predicate DueByHorizon(cfg: Config, s: Sys, horizon: int, gap: int) {
    forall id <- s.rows ::
      && (s.rows[id].status == Pending ==> s.rows[id].nextRetry <= horizon)
      && s.rows[id].created * SECOND + cfg.deadLetterAfter + LongestDelay(cfg) + gap <= horizon * SECOND
  }

  /** A step of a run without new items, crashes and failing claims. */
  predicate Draining(ev: Event, horizon: int, gap: int) {
    && Steady(ev) && !ev.Enqueue?
    && (ev.Dequeue? ==> horizon <= ev.now)
    && (ev.Record? ==> ev.retriedAt <= ev.checkedAt + gap)
  }

  lemma DrainStep(cfg: Config, s: Sys, ev: Event, horizon: int, gap: int)
    requires Inv(cfg, s) && Enabled(cfg, s, ev) && Draining(ev, horizon, gap)
    requires 0 < cfg.limit && NoOverflow(cfg) && DueByHorizon(cfg, s, horizon, gap)
    ensures DueByHorizon(cfg, Apply(cfg, s, ev), horizon, gap)
    ensures Quiet(s) ==> Quiet(Apply(cfg, s, ev))
    ensures ev.Dequeue? ==> Quiet(s) || Todo(Apply(cfg, s, ev).sender) != []
  {
    if ev.Record? {
      var item := s.sender.item;
      assert Fresh(s.rows, item, Sending);
      RescheduleBound(cfg, s.rows[item.id], item.row, ev.error, ev.checkedAt, ev.retriedAt, gap);
    } else if ev.Dequeue? {
      if !NonePending(s) {
        var id :| id in s.rows && s.rows[id].status == Pending;
        assert id in DueIds(s.rows, ev.now);
      } else {
        assert DueIds(s.rows, ev.now) == {};
      }
    } else if ev.MarkSending? {
      assert Fresh(s.rows, s.sender.todo[0], Pending);
    }
  }

  lemma {:induction false} DrainsOrSpends(cfg: Config, s: Sys, evs: seq<Event>, horizon: int, gap: int)
    requires Inv(cfg, s) && Legal(cfg, s, evs) && Exec(cfg, s, evs).sender.Idle?
    requires forall ev <- evs :: Draining(ev, horizon, gap)
    requires 0 < cfg.limit && NoOverflow(cfg) && DueByHorizon(cfg, s, horizon, gap)
    ensures var end := Exec(cfg, s, evs);
      || Quiet(end)
      || (!Quiet(s) && Ticks(evs) + Budgets(cfg, end.rows, end.nextId) + (if Todo(s.sender) == [] then 0 else 1)
            <= Budgets(cfg, s.rows, s.nextId))
    decreases |evs|
  {
    if evs != [] {
      var ev := evs[0];
      InvKept(cfg, s, ev);
      DrainStep(cfg, s, ev, horizon, gap);
      BudgetStep(cfg, s, ev);
      assert [ev][1..] == [];
      DrainsOrSpends(cfg, Apply(cfg, s, ev), evs[1..], horizon, gap);
    }
  }

  lemma {:induction false} PendingHasBudget(cfg: Config, rows: map<nat, Row>, n: nat, id: nat)
    requires id in rows && id < n && Budget(cfg, rows[id]) > 0
    ensures Budgets(cfg, rows, n) > 0
  {
    if id < n - 1 {
      PendingHasBudget(cfg, rows, n - 1, id);
    }
  }

  /** Draining: without new items, once every retry date has passed, as many ticks as
      there is budget leave nothing pending. */
  lemma Drains(cfg: Config, s: Sys, evs: seq<Event>, horizon: int, gap: int)
    requires Inv(cfg, s) && Legal(cfg, s, evs) && Exec(cfg, s, evs).sender.Idle?
    requires forall ev <- evs :: Draining(ev, horizon, gap)
    requires 0 < cfg.limit && NoOverflow(cfg) && DueByHorizon(cfg, s, horizon, gap)
    requires Budgets(cfg, s.rows, s.nextId) <= Ticks(evs)
    ensures NonePending(Exec(cfg, s, evs))
  {
    var end := Exec(cfg, s, evs);
    InvAlways(cfg, s, evs);
    DrainsOrSpends(cfg, s, evs, horizon, gap);
    forall id <- end.rows ensures end.rows[id].status != Pending {
      if end.rows[id].status == Pending {
        PendingHasBudget(cfg, end.rows, end.nextId, id);
      }
    }
  }
}
