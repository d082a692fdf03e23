/** The expiry reaper (internal/expiry/reaper.go): at startup and after every sweep it dates
    the messages of Trash and Spam, and every sweep deletes what has expired.  Times are
    nanoseconds, dates in the table seconds. */
module Reaper {
  import opened Clock
  import opened Collections
  import opened MailStore
  import opened MailDb

  // ------------------------------------------------------------ written once

  lemma ExpiryStep(s: Sys, ev: Event, id: nat)
    requires Enabled(s, ev) && id < s.db.nextMessage && id in s.db.messages && s.db.messages[id].expires.Some?
    ensures id in Apply(s, ev).db.messages ==> Apply(s, ev).db.messages[id].expires == s.db.messages[id].expires
    ensures id < Apply(s, ev).db.nextMessage
  {
  }

  /** expires_at is written at most once: a run either leaves a dated message's date alone
      or removes the message. */
  lemma {:induction false} ExpiryWrittenOnce(s: Sys, evs: seq<Event>, id: nat)
    requires Legal(s, evs) && id < s.db.nextMessage && id in s.db.messages && s.db.messages[id].expires.Some?
    ensures id in Exec(s, evs).db.messages ==>
      Exec(s, evs).db.messages[id].expires == s.db.messages[id].expires
    decreases |evs|
  {
    if evs != [] {
      var next := Apply(s, evs[0]);
      ExpiryStep(s, evs[0], id);
      if id in next.db.messages {
        ExpiryWrittenOnce(next, evs[1..], id);
      } else {
        GoneForGood(next, evs[1..], id);
      }
    }
  }

  lemma {:induction false} GoneForGood(s: Sys, evs: seq<Event>, id: nat)
    requires Legal(s, evs) && id < s.db.nextMessage && id !in s.db.messages
    ensures id !in Exec(s, evs).db.messages
    decreases |evs|
  {
    if evs != [] {
      GoneForGood(Apply(s, evs[0]), evs[1..], id);
    }
  }

  // ------------------------------------------------------------- one message

  /** What the reaper makes of a message that stays where it is. */
  datatype Track = Live(expires: Option<int>) | Gone

  datatype Reap = Date(at: int) | SweepAt(now: int)

  function Reaped(track: Track, r: Reap): Track {
    match track
    case Gone => Gone
    case Live(expires) =>
      match r
      case Date(at) => if expires.None? then Live(Some(at)) else track
      case SweepAt(now) => if expires.Some? && expires.value <= now then Gone else track
  }

  function AllReaped(track: Track, reaps: seq<Reap>): Track
    decreases reaps
  {
    if reaps == [] then track else AllReaped(Reaped(track, reaps[0]), reaps[1..])
  }

  function TrackOf(db: Store, id: nat): Track {
    if id in db.messages then Live(db.messages[id].expires) else Gone
  }

  predicate InNamed(db: Store, name: string, id: nat) {
    id in db.messages && InMailboxNamed(db, db.messages[id], name)
  }

  /** The steps of a run that are the reaper's on the mailboxes of that name. */
  function ReapsOf(name: string, ev: Event): seq<Reap> {
    match ev
    case SetDates(dated, at) => if dated == name then [Date(at)] else []
    case Sweep(now) => [SweepAt(now)]
    case _ => []
  }

  function AllReapsOf(name: string, evs: seq<Event>): seq<Reap> {
    if evs == [] then [] else ReapsOf(name, evs[0]) + AllReapsOf(name, evs[1..])
  }

  /** Throughout the run nothing but a sweep takes the message out of such a mailbox. */
  ghost predicate Stays(name: string, s: Sys, evs: seq<Event>, id: nat)
    requires Legal(s, evs)
    decreases |evs|
  {
    && InNamed(s.db, name, id)
    && (evs != [] ==>
          || (evs[0].Sweep? && id !in Apply(s, evs[0]).db.messages)
          || Stays(name, Apply(s, evs[0]), evs[1..], id))
  }

  lemma StepTracks(name: string, s: Sys, ev: Event, id: nat)
    requires Enabled(s, ev) && InNamed(s.db, name, id) && id < s.db.nextMessage
    requires InNamed(Apply(s, ev).db, name, id) || ev.Sweep?
    ensures TrackOf(Apply(s, ev).db, id) == AllReaped(TrackOf(s.db, id), ReapsOf(name, ev))
  {
    var reaps := ReapsOf(name, ev);
    if reaps != [] {
      assert reaps[1..] == [];
    }
  }

  lemma {:induction false} AllReapedConcat(track: Track, a: seq<Reap>, b: seq<Reap>)
    ensures AllReaped(track, a + b) == AllReaped(AllReaped(track, a), b)
    decreases a
  {
    if a == [] {
      assert a + b == b;
    } else {
      assert (a + b)[1..] == a[1..] + b;
      AllReapedConcat(Reaped(track, a[0]), a[1..], b);
    }
  }

  lemma {:induction false} GoneStaysGone(reaps: seq<Reap>)
    ensures AllReaped(Gone, reaps) == Gone
    decreases reaps
  {
    if reaps != [] {
      GoneStaysGone(reaps[1..]);
    }
  }

  /** Whatever else sessions do, a message that stays in a mailbox of that name lives exactly
      as the reaper's own steps say. */
  lemma {:induction false} RunTracks(name: string, s: Sys, evs: seq<Event>, id: nat)
    requires Inv(s) && Legal(s, evs) && Stays(name, s, evs, id)
    ensures TrackOf(Exec(s, evs).db, id) == AllReaped(TrackOf(s.db, id), AllReapsOf(name, evs))
    decreases |evs|
  {
    if evs != [] {
      var next := Apply(s, evs[0]);
      StepTracks(name, s, evs[0], id);
      InvKept(s, evs[0]);
      AllReapedConcat(TrackOf(s.db, id), ReapsOf(name, evs[0]), AllReapsOf(name, evs[1..]));
      if id in next.db.messages {
        RunTracks(name, next, evs[1..], id);
      } else {
        GoneForGood(next, evs[1..], id);
        GoneStaysGone(AllReapsOf(name, evs[1..]));
      }
    }
  }

  // ------------------------------------------------------------------- timing

  /** A statement that takes effect at `done` with the clock read at `read`. */
  datatype Stamp = Stamp(read: int, done: int)

  datatype Tick = Tick(sweep: Stamp, date: Stamp)

  predicate Prompt(s: Stamp, lag: int) {
    s.read <= s.done <= s.read + lag
  }

  /** Ticks follow one another at most `gap` apart, each statement within `lag`. */
  predicate Schedule(sweep: int, date: int, ticks: seq<Tick>, gap: int, lag: int)
    decreases ticks
  {
    ticks != [] ==>
      && Prompt(ticks[0].sweep, lag) && Prompt(ticks[0].date, lag)
      && date <= ticks[0].sweep.read && ticks[0].sweep.done <= ticks[0].date.read
      && ticks[0].sweep.done <= sweep + gap && ticks[0].date.done <= date + gap
      && Schedule(ticks[0].sweep.done, ticks[0].date.done, ticks[1..], gap, lag)
  }

  /** Dating, for a message there since `entered`. */
  function Dating(track: Track, s: Stamp, entered: int, ttl: int): Track {
    if entered <= s.done then Reaped(track, Date(Unix(s.read + ttl))) else track
  }

  /** When a message there since `entered` is removed, if it is. */
  function RemovedAt(track: Track, ticks: seq<Tick>, entered: int, ttl: int): Option<int>
    decreases ticks
  {
    if ticks == [] then None
    else
      var t := ticks[0];
      var swept := if entered <= t.sweep.done then Reaped(track, SweepAt(Unix(t.sweep.read))) else track;
      if swept.Gone? then Some(t.sweep.done)
      else RemovedAt(Dating(swept, t.date, entered, ttl), ticks[1..], entered, ttl)
  }

  /** From startup on, for a message that enters without a date. */
  function Removal(start: Stamp, ticks: seq<Tick>, entered: int, ttl: int): Option<int> {
    RemovedAt(Dating(Live(None), start, entered, ttl), ticks, entered, ttl)
  }

  lemma UnixMonotone(a: int, b: int)
    requires a <= b
    ensures Unix(a) <= Unix(b)
  {
  }

  /** Dated from a reading d, a message is removed by the first sweep to read d + ttl. */
  lemma {:induction false} DatedRemoval(d: int, sweep: int, date: int, ticks: seq<Tick>, gap: int, lag: int,
                                        entered: int, ttl: int)
    requires Schedule(sweep, date, ticks, gap, lag) && gap >= 0 && lag >= 0 && ttl > 0
    requires entered <= date && entered - lag <= d <= entered + gap
    requires sweep <= entered + ttl + gap + lag
    ensures var r := RemovedAt(Live(Some(Unix(d + ttl))), ticks, entered, ttl);
      && (r.Some? ==> Unix(entered + ttl - lag) <= Unix(r.value) && r.value <= entered + ttl + 2 * gap + lag)
      && (ticks != [] && entered + ttl + gap <= ticks[|ticks| - 1].sweep.read ==> r.Some?)
    decreases ticks
  {
    if ticks != [] {
      var t := ticks[0];
      UnixMonotone(entered + ttl - lag, d + ttl);
      UnixMonotone(t.sweep.read, t.sweep.done);
      if Unix(t.sweep.read) < Unix(d + ttl) {
        assert t.sweep.read < d + ttl;
        DatedRemoval(d, t.sweep.done, t.date.done, ticks[1..], gap, lag, entered, ttl);
        if |ticks| > 1 {
          assert ticks[1..][|ticks[1..]| - 1] == ticks[|ticks| - 1];
        }
      }
    }
  }

  lemma {:induction false} UndatedRemoval(sweep: int, date: int, ticks: seq<Tick>, gap: int, lag: int, entered: int,
                                          ttl: int)
    requires Schedule(sweep, date, ticks, gap, lag) && gap >= 0 && lag >= 0 && ttl > 0
    requires sweep <= date < entered
    ensures var r := RemovedAt(Live(None), ticks, entered, ttl);
      && (r.Some? ==> Unix(entered + ttl - lag) <= Unix(r.value) && r.value <= entered + ttl + 2 * gap + lag)
      && (ticks != [] && entered + ttl + gap <= ticks[|ticks| - 1].sweep.read ==> r.Some?)
    decreases ticks
  {
    if ticks != [] {
      var t, rest := ticks[0], ticks[1..];
      if entered <= t.date.done {
        DatedRemoval(t.date.read, t.sweep.done, t.date.done, rest, gap, lag, entered, ttl);
      } else {
        UndatedRemoval(t.sweep.done, t.date.done, rest, gap, lag, entered, ttl);
      }
      if |ticks| > 1 {
        assert rest[|rest| - 1] == ticks[|ticks| - 1];
      }
    }
  }

  /** Reaper timing: a message that enters Trash or Spam at `entered`, when the reaper runs,
      and stays, is removed no earlier than its ttl later (to the second, less the lag) and no
      later than ttl and two gaps and a lag; and removed it is once the reaper has run
      that long. */
  lemma RemovalWindow(start: Stamp, ticks: seq<Tick>, gap: int, lag: int, entered: int, ttl: int)
    requires Prompt(start, lag) && Schedule(start.done, start.done, ticks, gap, lag)
    requires gap >= 0 && lag >= 0 && ttl > 0 && start.done <= entered + gap
    ensures var r := Removal(start, ticks, entered, ttl);
      && (r.Some? ==> Unix(entered + ttl - lag) <= Unix(r.value) && r.value <= entered + ttl + 2 * gap + lag)
      && (ticks != [] && entered + ttl + gap <= ticks[|ticks| - 1].sweep.read ==> r.Some?)
  {
    if entered <= start.done {
      DatedRemoval(start.read, start.done, start.done, ticks, gap, lag, entered, ttl);
    } else {
      UndatedRemoval(start.done, start.done, ticks, gap, lag, entered, ttl);
    }
  }

  // ---------------------------------------------------- the schedule as a run

  /** The reaper's steps that take effect from `entered` on. */
  function StepsOf(ticks: seq<Tick>, entered: int, ttl: int): seq<Reap> {
    if ticks == [] then []
    else
      var t := ticks[0];
      (if entered <= t.sweep.done then [SweepAt(Unix(t.sweep.read))] else [])
      + (if entered <= t.date.done then [Date(Unix(t.date.read + ttl))] else [])
      + StepsOf(ticks[1..], entered, ttl)
  }

  lemma {:induction false} StepsRemove(track: Track, ticks: seq<Tick>, entered: int, ttl: int)
    requires track.Live?
    ensures AllReaped(track, StepsOf(ticks, entered, ttl)).Gone? <==> RemovedAt(track, ticks, entered, ttl).Some?
    decreases ticks
  {
    if ticks != [] {
      var t := ticks[0];
      var a := if entered <= t.sweep.done then [SweepAt(Unix(t.sweep.read))] else [];
      var b := if entered <= t.date.done then [Date(Unix(t.date.read + ttl))] else [];
      var rest := StepsOf(ticks[1..], entered, ttl);
      assert a + b + rest == a + (b + rest);
      AllReapedConcat(track, a, b + rest);
      var swept := AllReaped(track, a);
      assert a != [] ==> a[1..] == [];
      AllReapedConcat(swept, b, rest);
      assert b != [] ==> b[1..] == [];
      if swept.Gone? {
        GoneStaysGone(b + rest);
      } else {
        StepsRemove(Dating(swept, t.date, entered, ttl), ticks[1..], entered, ttl);
      }
    }
  }

  /** The reaper's steps from startup on, as far as they take effect from `entered` on. */
  function ScheduleSteps(start: Stamp, ticks: seq<Tick>, entered: int, ttl: int): seq<Reap> {
    (if entered <= start.done then [Date(Unix(start.read + ttl))] else []) + StepsOf(ticks, entered, ttl)
  }

  lemma ScheduleRemoves(start: Stamp, ticks: seq<Tick>, entered: int, ttl: int)
    ensures AllReaped(Live(None), ScheduleSteps(start, ticks, entered, ttl)).Gone? <==>
            Removal(start, ticks, entered, ttl).Some?
  {
    var a := if entered <= start.done then [Date(Unix(start.read + ttl))] else [];
    assert a != [] ==> a[1..] == [];
    AllReapedConcat(Live(None), a, StepsOf(ticks, entered, ttl));
    StepsRemove(Dating(Live(None), start, entered, ttl), ticks, entered, ttl);
  }

  /** In a run of the whole store whose reaper steps are those of a schedule, a message that
      entered without a date is gone at the end exactly when the schedule removes it. */
  lemma RunFollowsSchedule(name: string, s: Sys, evs: seq<Event>, id: nat,
                           start: Stamp, ticks: seq<Tick>, entered: int, ttl: int)
    requires Inv(s) && Legal(s, evs) && Stays(name, s, evs, id) && s.db.messages[id].expires.None?
    requires AllReapsOf(name, evs) == ScheduleSteps(start, ticks, entered, ttl)
    ensures id !in Exec(s, evs).db.messages <==> Removal(start, ticks, entered, ttl).Some?
  {
    RunTracks(name, s, evs, id);
    ScheduleRemoves(start, ticks, entered, ttl);
  }

  lemma {:induction false} RemovedBySweep(track: Track, sweep: int, date: int, ticks: seq<Tick>, gap: int, lag: int,
                                          entered: int, ttl: int)
    requires Schedule(sweep, date, ticks, gap, lag) && ticks != []
    ensures date <= ticks[|ticks| - 1].sweep.done
    ensures var r := RemovedAt(track, ticks, entered, ttl); r.Some? ==> r.value <= ticks[|ticks| - 1].sweep.done
    decreases ticks
  {
    if |ticks| > 1 {
      var t, rest := ticks[0], ticks[1..];
      var swept := if entered <= t.sweep.done then Reaped(track, SweepAt(Unix(t.sweep.read))) else track;
      RemovedBySweep(Dating(swept, t.date, entered, ttl), t.sweep.done, t.date.done, rest, gap, lag, entered, ttl);
      assert rest[|rest| - 1] == ticks[|ticks| - 1];
    } else {
      assert ticks[1..] == [];
    }
  }

  /** Reaper timing in runs of the store: a message that entered a mailbox of that name at
      `entered` without a date, and stays, is still there as long as the last sweep is
      before its ttl is over (to the second, less the lag), and is gone once a sweep has
      read a clock one gap past it. */
  lemma RemovalInRuns(name: string, s: Sys, evs: seq<Event>, id: nat,
                      start: Stamp, ticks: seq<Tick>, gap: int, lag: int, entered: int, ttl: int)
    requires Inv(s) && Legal(s, evs) && Stays(name, s, evs, id) && s.db.messages[id].expires.None?
    requires AllReapsOf(name, evs) == ScheduleSteps(start, ticks, entered, ttl)
    requires Prompt(start, lag) && Schedule(start.done, start.done, ticks, gap, lag) && ticks != []
    requires gap >= 0 && lag >= 0 && ttl > 0 && start.done <= entered + gap
    ensures var last := ticks[|ticks| - 1].sweep;
      && (Unix(last.done) < Unix(entered + ttl - lag) ==> id in Exec(s, evs).db.messages)
      && (last.read >= entered + ttl + gap ==> id !in Exec(s, evs).db.messages)
  {
    RunFollowsSchedule(name, s, evs, id, start, ticks, entered, ttl);
    RemovalWindow(start, ticks, gap, lag, entered, ttl);
    RemovedBySweep(Dating(Live(None), start, entered, ttl), start.done, start.done, ticks, gap, lag, entered, ttl);
    var r := Removal(start, ticks, entered, ttl);
    if r.Some? {
      UnixMonotone(r.value, ticks[|ticks| - 1].sweep.done);
    }
  }

  // ----------------------------------------------------------------- the object

  class Reaper {
    const db: Database
    const trashTTL: int
    const spamTTL: int

    constructor (db: Database, trashTTL: int, spamTTL: int)
      ensures this.db == db && this.trashTTL == trashTTL && this.spamTTL == spamTTL
    {
      this.db, this.trashTTL, this.spamTTL := db, trashTTL, spamTTL;
    }

    method SetTTLForMailbox(name: string, ttl: int, now: int)
      modifies db
      ensures db.State() == Dated(old(db.State()), name, Unix(now + ttl))
      ensures db.messages.Keys == old(db.messages).Keys
      ensures forall id <- db.messages ::
        var m := old(db.messages)[id];
        db.messages[id] == m.(expires :=
          if m.expires.None? && m.mailbox in db.mailboxes && db.mailboxes[m.mailbox].name == name
          then Some(Unix(now + ttl)) else m.expires)
    {
      var at := Unix(now + ttl);
      db.messages := map id | id in db.messages ::
        var m := db.messages[id];
        if m.expires.None? && InMailboxNamed(db.State(), m, name) then m.(expires := Some(at)) else m;
    }

    /** Trash first, then Spam, each with its own reading of the clock. */
    method ApplyMailboxTTLs(trashNow: int, spamNow: int)
      modifies db
      ensures db.State() == TTLsApplied(old(db.State()), trashTTL, trashNow, spamTTL, spamNow)
      ensures db.messages.Keys == old(db.messages).Keys
      ensures forall id <- db.messages ::
        var m := old(db.messages)[id];
        var name := if m.mailbox in db.mailboxes then db.mailboxes[m.mailbox].name else "";
        db.messages[id] == m.(expires :=
          if m.expires.Some? then m.expires
          else if name == "Trash" && trashTTL > 0 then Some(Unix(trashNow + trashTTL))
          else if name == "Spam" && spamTTL > 0 then Some(Unix(spamNow + spamTTL))
          else None)
    {
      if trashTTL > 0 {
        SetTTLForMailbox("Trash", trashTTL, trashNow);
      }
      if spamTTL > 0 {
        SetTTLForMailbox("Spam", spamTTL, spamNow);
      }
    }

    method SweepOnce(now: int)
      modifies db
      ensures db.State() == Swept(old(db.State()), Unix(now))
    {
      var count := db.DeleteExpiredMessages(Unix(now));
    }

    /** What one tick of the loop in Run does. */
    method OneTick(sweepNow: int, trashNow: int, spamNow: int)
      modifies db
      ensures db.State() == TTLsApplied(Swept(old(db.State()), Unix(sweepNow)), trashTTL, trashNow, spamTTL, spamNow)
      ensures forall id <- old(db.messages) :: id !in db.messages <==>
        old(db.messages)[id].expires.Some? && old(db.messages)[id].expires.value <= Unix(sweepNow)
    {
      SweepOnce(sweepNow);
      ApplyMailboxTTLs(trashNow, spamNow);
    }
  }

  function TTLsApplied(db: Store, trashTTL: int, trashNow: int, spamTTL: int, spamNow: int): Store {
    var trashed := if trashTTL > 0 then Dated(db, "Trash", Unix(trashNow + trashTTL)) else db;
    if spamTTL > 0 then Dated(trashed, "Spam", Unix(spamNow + spamTTL)) else trashed
  }

  /** The steps of a tick. */
  function TickSteps(sweepNow: int, trashTTL: int, trashNow: int, spamTTL: int, spamNow: int): seq<Event> {
    [Sweep(Unix(sweepNow))]
    + (if trashTTL > 0 then [SetDates("Trash", Unix(trashNow + trashTTL))] else [])
    + (if spamTTL > 0 then [SetDates("Spam", Unix(spamNow + spamTTL))] else [])
  }

  lemma OneStep(s: Sys, ev: Event)
    requires Enabled(s, ev)
    ensures Legal(s, [ev]) && Exec(s, [ev]) == Apply(s, ev)
  {
    assert [ev][1..] == [] && Legal(Apply(s, ev), []);
  }

  /** A tick of the reaper is a run of the store. */
  lemma TickIsRun(s: Sys, sweepNow: int, trashTTL: int, trashNow: int, spamTTL: int, spamNow: int)
    ensures var evs := TickSteps(sweepNow, trashTTL, trashNow, spamTTL, spamNow);
      && Legal(s, evs)
      && Exec(s, evs).db == TTLsApplied(Swept(s.db, Unix(sweepNow)), trashTTL, trashNow, spamTTL, spamNow)
  {
    var sweep := Sweep(Unix(sweepNow));
    var trash, spam := SetDates("Trash", Unix(trashNow + trashTTL)), SetDates("Spam", Unix(spamNow + spamTTL));
    OneStep(s, sweep);
    var swept := Apply(s, sweep);
    var first := if trashTTL > 0 then [trash] else [];
    if trashTTL > 0 {
      OneStep(swept, trash);
    }
    ExecConcat(s, [sweep], first);
    var trashed := Exec(s, [sweep] + first);
    var second := if spamTTL > 0 then [spam] else [];
    if spamTTL > 0 {
      OneStep(trashed, spam);
    }
    ExecConcat(s, [sweep] + first, second);
  }
}
