/** Alias quotas: the check-then-act protocol that delivery (internal/smtp/session.go) and
    alias creation (internal/alias/generator.go) run against the aliases table of
    internal/storage/aliases.go.  Reading a row and acting on it are separate steps, so
    other sessions act in between. */
module AliasQuota {
  import opened Clock
  import opened Collections

  datatype Alias = Alias(user: nat, address: string, active: bool, expires: Option<int>, count: nat, max: Option<int>)

  /** AUTOINCREMENT: `nextId` exceeds every id ever used. */
  datatype Table = Table(aliases: map<nat, Alias>, nextId: nat)

  // --------------------------------------------------------------- statements

  function Incremented(t: Table, id: nat): Table {
    if id in t.aliases then t.(aliases := t.aliases[id := t.aliases[id].(count := t.aliases[id].count + 1)]) else t
  }

  function Deactivated(t: Table, id: nat): Table {
    if id in t.aliases then t.(aliases := t.aliases[id := t.aliases[id].(active := false)]) else t
  }

  predicate AddressTaken(t: Table, address: string) {
    exists id <- t.aliases :: t.aliases[id].address == address
  }

  /** The INSERT of CreateAlias; UNIQUE(address) makes it fail. */
  function Created(t: Table, draft: Draft): Table {
    if AddressTaken(t, draft.address) then t
    else
      var max := if draft.maxMessages > 0 then Some(draft.maxMessages) else None;
      Table(t.aliases[t.nextId := Alias(draft.user, draft.address, true, draft.expires, 0, max)], t.nextId + 1)
  }

  function Removed(t: Table, id: nat): Table {
    t.(aliases := t.aliases - {id})
  }

  function Owned(t: Table, user: nat): set<nat> {
    set id | id in t.aliases && t.aliases[id].user == user
  }

  // ------------------------------------------------------------------- checks

  datatype Draft = Draft(user: nat, address: string, expires: Option<int>, maxMessages: int)

  datatype Verdict = Admit | Inactive | Expired | Full

  /** The checks on an alias that was just read, at time `now` in nanoseconds. */
  function Judge(a: Alias, now: int): Verdict {
    if !a.active then Inactive
    else if a.expires.Some? && a.expires.value * SECOND < now then Expired
    else if a.max.Some? && a.count >= a.max.value then Full
    else Admit
  }

  datatype Task = Idle | Increment(id: nat) | Deactivate(id: nat) | Insert(draft: Draft)

  /** Delivery and Resolve differ on an expired alias: only Resolve deactivates it. */
  function TaskFor(id: nat, verdict: Verdict, resolving: bool): Task {
    match verdict
    case Admit => Increment(id)
    case Inactive => Idle
    case Expired => if resolving then Deactivate(id) else Idle
    case Full => Deactivate(id)
  }

  function Done(t: Table, task: Task): Table {
    match task
    case Idle => t
    case Increment(id) => Incremented(t, id)
    case Deactivate(id) => Deactivated(t, id)
    case Insert(draft) => Created(t, draft)
  }

  // -------------------------------------------------------------------- steps

  /** `tasks` has one entry for each session; `clock` is the latest time any has read. */
  datatype Sys = Sys(table: Table, tasks: map<nat, Task>, clock: int)

  datatype Event =
    | Look(session: nat, id: nat, now: int, resolving: bool)
    | LookToCreate(session: nat, draft: Draft)
    | Act(session: nat)
    | Fail(session: nat)                 // the statement fails, or the session dies
    | Remove(id: nat)

  predicate Enabled(s: Sys, ev: Event) {
    match ev
    case Look(session, id, _, _) => session in s.tasks && s.tasks[session].Idle? && id in s.table.aliases
    case LookToCreate(session, _) => session in s.tasks && s.tasks[session].Idle?
    case Act(session) => session in s.tasks
    case Fail(session) => session in s.tasks
    case Remove(_) => true
  }

  function Apply(maxPerUser: int, s: Sys, ev: Event): Sys
    requires Enabled(s, ev)
  {
    match ev
    case Look(session, id, now, resolving) =>
      s.(tasks := s.tasks[session := TaskFor(id, Judge(s.table.aliases[id], now), resolving)],
         clock := if s.clock < now then now else s.clock)
    case LookToCreate(session, draft) =>
      if |Owned(s.table, draft.user)| >= maxPerUser then s else s.(tasks := s.tasks[session := Insert(draft)])
    case Act(session) => s.(table := Done(s.table, s.tasks[session]), tasks := s.tasks[session := Idle])
    case Fail(session) => s.(tasks := s.tasks[session := Idle])
    case Remove(id) => s.(table := Removed(s.table, id))
  }

  predicate Legal(maxPerUser: int, s: Sys, evs: seq<Event>)
    decreases |evs|
  {
    evs == [] || (Enabled(s, evs[0]) && Legal(maxPerUser, Apply(maxPerUser, s, evs[0]), evs[1..]))
  }

  function Exec(maxPerUser: int, s: Sys, evs: seq<Event>): Sys
    requires Legal(maxPerUser, s, evs)
    decreases |evs|
  {
    if evs == [] then s else Exec(maxPerUser, Apply(maxPerUser, s, evs[0]), evs[1..])
  }

  function AllIdle(n: nat): (tasks: map<nat, Task>)
    ensures |tasks| == n && forall session: nat :: session in tasks <==> session < n
    ensures forall session <- tasks :: tasks[session].Idle?
  {
    if n == 0 then map[] else AllIdle(n - 1)[n - 1 := Idle]
  }

  /** n sessions, no aliases. */
  function Start(n: nat): Sys {
    Sys(Table(map[], 1), AllIdle(n), 0)
  }

  // -------------------------------------------------------------- the invariant

  /** What a session that passed a check is about to add to. */
  datatype Goal = Counting(id: nat) | Creating(user: nat)

  function GoalOf(task: Task): Option<Goal> {
    match task
    case Increment(id) => Some(Counting(id))
    case Insert(draft) => Some(Creating(draft.user))
    case _ => None
  }

  function Busy(tasks: map<nat, Task>, g: Goal): set<nat> {
    set session | session in tasks && GoalOf(tasks[session]) == Some(g)
  }

  /** How far a goal has come, and the limit that is set for it. */
  function Level(t: Table, g: Goal): nat {
    match g
    case Counting(id) => if id in t.aliases then t.aliases[id].count else 0
    case Creating(user) => |Owned(t, user)|
  }

  function Limit(maxPerUser: int, t: Table, g: Goal): Option<int> {
    match g
    case Counting(id) => if id in t.aliases then t.aliases[id].max else None
    case Creating(_) => Some(maxPerUser)
  }

  /** The level together with the sessions about to raise it stays within the limit and
      one more for every session but the first. */
  predicate Within(maxPerUser: int, s: Sys, g: Goal) {
    var total := Level(s.table, g) + |Busy(s.tasks, g)|;
    Limit(maxPerUser, s.table, g).Some? && total > 0 ==>
      total <= Limit(maxPerUser, s.table, g).value + |s.tasks| - 1
  }

  predicate TaskKnown(t: Table, task: Task) {
    (task.Increment? ==> task.id < t.nextId) && (task.Deactivate? ==> task.id < t.nextId)
  }

  ghost predicate Inv(maxPerUser: int, s: Sys) {
    && (forall id <- s.table.aliases :: id < s.table.nextId)
    && (forall session <- s.tasks :: TaskKnown(s.table, s.tasks[session]))
    && (forall g :: Within(maxPerUser, s, g))
  }

  /** The sessions busy with g, without one of them. */
  function BusyBut(tasks: map<nat, Task>, session: nat, g: Goal): set<nat> {
    set other | other in tasks && other != session && GoalOf(tasks[other]) == Some(g)
  }

  lemma BusySplit(tasks: map<nat, Task>, session: nat, g: Goal)
    requires session in tasks
    ensures |Busy(tasks, g)| == |BusyBut(tasks, session, g)| + if GoalOf(tasks[session]) == Some(g) then 1 else 0
  {
    assert Busy(tasks, g) == BusyBut(tasks, session, g) + if GoalOf(tasks[session]) == Some(g) then {session} else {};
  }

  lemma BusyAfter(tasks: map<nat, Task>, session: nat, task: Task, g: Goal)
    requires session in tasks
    ensures |tasks[session := task]| == |tasks|
    ensures |Busy(tasks[session := task], g)| ==
      |Busy(tasks, g)| - (if GoalOf(tasks[session]) == Some(g) then 1 else 0)
                       + (if GoalOf(task) == Some(g) then 1 else 0)
  {
    BusySplit(tasks, session, g);
    BusySplit(tasks[session := task], session, g);
    assert BusyBut(tasks[session := task], session, g) == BusyBut(tasks, session, g);
    assert tasks[session := task].Keys == tasks.Keys;
  }

  lemma BusyBound(tasks: map<nat, Task>, g: Goal)
    ensures |Busy(tasks, g)| <= |tasks|
  {
    SubsetCard(Busy(tasks, g), tasks.Keys);
  }

  /** A check that passes found the level below the limit. */
  lemma WithinLook(maxPerUser: int, s: Sys, session: nat, task: Task, g: Goal)
    requires Within(maxPerUser, s, g) && session in s.tasks && s.tasks[session].Idle?
    requires GoalOf(task) == Some(g) && Limit(maxPerUser, s.table, g).Some? ==>
               Level(s.table, g) < Limit(maxPerUser, s.table, g).value
    ensures Within(maxPerUser, s.(tasks := s.tasks[session := task]), g)
  {
    BusyAfter(s.tasks, session, task, g);
    BusyBound(s.tasks[session := task], g);
  }

  lemma OwnedAfterCreate(t: Table, draft: Draft, user: nat)
    requires forall id <- t.aliases :: id < t.nextId
    ensures |Owned(Created(t, draft), user)| <= |Owned(t, user)| + if draft.user == user then 1 else 0
  {
    if !AddressTaken(t, draft.address) {
      assert Owned(Created(t, draft), user) == Owned(t, user) + if draft.user == user then {t.nextId} else {};
    }
  }

  /** Acting turns one busy session into at most one more of the level. */
  lemma WithinAct(maxPerUser: int, s: Sys, session: nat, g: Goal)
    requires Inv(maxPerUser, s) && session in s.tasks
    ensures Within(maxPerUser, Apply(maxPerUser, s, Act(session)), g)
  {
    var task := s.tasks[session];
    var next := Apply(maxPerUser, s, Act(session));
    assert Within(maxPerUser, s, g);
    BusyAfter(s.tasks, session, Idle, g);
    match g
    case Creating(user) =>
      if task.Insert? {
        OwnedAfterCreate(s.table, task.draft, user);
      } else {
        assert Owned(next.table, user) == Owned(s.table, user);
      }
    case Counting(id) =>
      if task.Insert? && id in next.table.aliases && id !in s.table.aliases {
        NobodyCountsNew(maxPerUser, s);
      }
  }

  lemma NobodyCountsNew(maxPerUser: int, s: Sys)
    requires Inv(maxPerUser, s)
    ensures Busy(s.tasks, Counting(s.table.nextId)) == {}
  {
    forall session | session in s.tasks ensures GoalOf(s.tasks[session]) != Some(Counting(s.table.nextId)) {
      assert TaskKnown(s.table, s.tasks[session]);
    }
  }

  lemma WithinRemove(maxPerUser: int, s: Sys, id: nat, g: Goal)
    requires Within(maxPerUser, s, g)
    ensures Within(maxPerUser, s.(table := Removed(s.table, id)), g)
  {
    if g.Creating? {
      SubsetCard(Owned(Removed(s.table, id), g.user), Owned(s.table, g.user));
    }
  }

  lemma WithinKept(maxPerUser: int, s: Sys, ev: Event, g: Goal)
    requires Inv(maxPerUser, s) && Enabled(s, ev)
    ensures Within(maxPerUser, Apply(maxPerUser, s, ev), g)
  {
    assert Within(maxPerUser, s, g);
    match ev
    case Look(session, id, now, resolving) =>
      WithinLook(maxPerUser, s, session, TaskFor(id, Judge(s.table.aliases[id], now), resolving), g);
    case LookToCreate(session, draft) =>
      if |Owned(s.table, draft.user)| < maxPerUser {
        WithinLook(maxPerUser, s, session, Insert(draft), g);
      }
    case Act(session) => WithinAct(maxPerUser, s, session, g);
    case Fail(session) => BusyAfter(s.tasks, session, Idle, g);
    case Remove(id) => WithinRemove(maxPerUser, s, id, g);
  }

  lemma InvKept(maxPerUser: int, s: Sys, ev: Event)
    requires Inv(maxPerUser, s) && Enabled(s, ev)
    ensures Inv(maxPerUser, Apply(maxPerUser, s, ev)) && |Apply(maxPerUser, s, ev).tasks| == |s.tasks|
  {
    forall g ensures Within(maxPerUser, Apply(maxPerUser, s, ev), g) {
      WithinKept(maxPerUser, s, ev, g);
    }
    assert Apply(maxPerUser, s, ev).tasks.Keys == s.tasks.Keys;
    var next := Apply(maxPerUser, s, ev);
    forall session | session in next.tasks ensures TaskKnown(next.table, next.tasks[session]) {
      assert TaskKnown(s.table, s.tasks[session]);
    }
  }

  lemma {:induction false} InvAlways(maxPerUser: int, s: Sys, evs: seq<Event>)
    requires Inv(maxPerUser, s) && Legal(maxPerUser, s, evs)
    ensures Inv(maxPerUser, Exec(maxPerUser, s, evs)) && |Exec(maxPerUser, s, evs).tasks| == |s.tasks|
    decreases |evs|
  {
    if evs != [] {
      InvKept(maxPerUser, s, evs[0]);
      InvAlways(maxPerUser, Apply(maxPerUser, s, evs[0]), evs[1..]);
    }
  }

  lemma StartInv(maxPerUser: int, n: nat)
    ensures Inv(maxPerUser, Start(n)) && |Start(n).tasks| == n
  {
    forall g ensures Within(maxPerUser, Start(n), g) {
      assert Busy(Start(n).tasks, g) == {};
      if g.Creating? {
        assert Owned(Start(n).table, g.user) == {};
      }
    }
  }

  /** The quota under concurrency: with n sessions, the messages counted for an alias and
      those about to be, or the aliases a user has and is about to get, never exceed the
      limit by more than n - 1; so one session alone never exceeds it. */
  lemma QuotaBound(maxPerUser: int, n: nat, evs: seq<Event>, g: Goal)
    requires Legal(maxPerUser, Start(n), evs)
    requires Limit(maxPerUser, Exec(maxPerUser, Start(n), evs).table, g).Some?
    ensures var s := Exec(maxPerUser, Start(n), evs);
      var total := Level(s.table, g) + |Busy(s.tasks, g)|;
      && (total > 0 ==> total <= Limit(maxPerUser, s.table, g).value + n - 1)
      && (n == 1 && Level(s.table, g) > 0 ==> Level(s.table, g) <= Limit(maxPerUser, s.table, g).value)
  {
    StartInv(maxPerUser, n);
    InvAlways(maxPerUser, Start(n), evs);
    assert Within(maxPerUser, Exec(maxPerUser, Start(n), evs), g);
  }

  // ------------------------------------------------------------ the bound is met

  lemma {:induction false} ExecConcat(maxPerUser: int, s: Sys, a: seq<Event>, b: seq<Event>)
    requires Legal(maxPerUser, s, a) && Legal(maxPerUser, Exec(maxPerUser, s, a), b)
    ensures Legal(maxPerUser, s, a + b)
    ensures Exec(maxPerUser, s, a + b) == Exec(maxPerUser, Exec(maxPerUser, s, a), b)
    decreases |a|
  {
    if a == [] {
      assert a + b == b;
    } else {
      ExecConcat(maxPerUser, Apply(maxPerUser, s, a[0]), a[1..], b);
      assert (a + b)[0] == a[0] && (a + b)[1..] == a[1..] + b;
    }
  }

  lemma ExecSnoc(maxPerUser: int, s: Sys, evs: seq<Event>, ev: Event)
    requires Legal(maxPerUser, s, evs) && Enabled(Exec(maxPerUser, s, evs), ev)
    ensures Legal(maxPerUser, s, evs + [ev])
    ensures Exec(maxPerUser, s, evs + [ev]) == Apply(maxPerUser, Exec(maxPerUser, s, evs), ev)
  {
    var r := Exec(maxPerUser, s, evs);
    assert [ev][1..] == [] && Legal(maxPerUser, Apply(maxPerUser, r, ev), []);
    assert Exec(maxPerUser, r, [ev]) == Exec(maxPerUser, Apply(maxPerUser, r, ev), []);
    ExecConcat(maxPerUser, s, evs, [ev]);
  }

  predicate AllAreIdle(s: Sys, n: nat) {
    s.tasks.Keys == AllIdle(n).Keys && forall session <- s.tasks :: s.tasks[session].Idle?
  }

  function CountUp(t: Table, id: nat, k: nat): Table
    requires id in t.aliases
  {
    t.(aliases := t.aliases[id := t.aliases[id].(count := t.aliases[id].count + k)])
  }

  /** One session after another delivers k messages. */
  lemma {:induction false} DeliverInTurn(maxPerUser: int, s: Sys, id: nat, n: nat, k: nat) returns (evs: seq<Event>)
    requires AllAreIdle(s, n) && n > 0 && id in s.table.aliases && s.clock == 0
    requires var a := s.table.aliases[id]; a.active && a.expires.None? && a.max.Some? && a.count + k <= a.max.value
    ensures Legal(maxPerUser, s, evs)
    ensures var r := Exec(maxPerUser, s, evs); AllAreIdle(r, n) && r.table == CountUp(s.table, id, k) && r.clock == 0
    decreases k
  {
    if k == 0 {
      evs := [];
    } else {
      var looked := Apply(maxPerUser, s, Look(0, id, 0, false));
      var acted := Apply(maxPerUser, looked, Act(0));
      assert acted.table == CountUp(s.table, id, 1);
      var rest := DeliverInTurn(maxPerUser, acted, id, n, k - 1);
      evs := [Look(0, id, 0, false), Act(0)] + rest;
      assert evs[1..] == [Act(0)] + rest && evs[1..][1..] == rest;
      assert Legal(maxPerUser, looked, evs[1..]);
    }
  }

  predicate FirstCounting(s: Sys, id: nat, n: nat, k: nat) {
    s.tasks.Keys == AllIdle(n).Keys
    && forall session <- s.tasks :: s.tasks[session] == if session < k then Increment(id) else Idle
  }

  /** Then the first k sessions all look before any acts ... */
  lemma {:induction false} LookTogether(maxPerUser: int, s: Sys, id: nat, n: nat, k: nat) returns (evs: seq<Event>)
    requires AllAreIdle(s, n) && k <= n && id in s.table.aliases && s.clock == 0
    requires Judge(s.table.aliases[id], 0).Admit?
    ensures Legal(maxPerUser, s, evs)
    ensures var r := Exec(maxPerUser, s, evs); FirstCounting(r, id, n, k) && r.table == s.table && r.clock == 0
    decreases k
  {
    if k == 0 {
      evs := [];
    } else {
      var before := LookTogether(maxPerUser, s, id, n, k - 1);
      var r := Exec(maxPerUser, s, before);
      var last := Look(k - 1, id, 0, false);
      ExecSnoc(maxPerUser, s, before, last);
      evs := before + [last];
    }
  }

  lemma ActLast(maxPerUser: int, s: Sys, id: nat, n: nat, k: nat)
    requires FirstCounting(s, id, n, k) && 0 < k <= n && id in s.table.aliases
    ensures Enabled(s, Act(k - 1))
    ensures var next := Apply(maxPerUser, s, Act(k - 1));
      FirstCounting(next, id, n, k - 1) && next.table == CountUp(s.table, id, 1)
  {
    assert k - 1 in AllIdle(n);
  }

  lemma CountUpAdds(t: Table, id: nat, k: nat)
    requires id in t.aliases
    ensures CountUp(CountUp(t, id, 1), id, k) == CountUp(t, id, k + 1)
  {
  }

  /** ... and then all act. */
  lemma {:induction false} ActTogether(maxPerUser: int, s: Sys, id: nat, n: nat, k: nat) returns (evs: seq<Event>)
    requires FirstCounting(s, id, n, k) && k <= n && id in s.table.aliases
    ensures Legal(maxPerUser, s, evs)
    ensures Exec(maxPerUser, s, evs).table == CountUp(s.table, id, k)
    decreases k
  {
    if k == 0 {
      evs := [];
    } else {
      ActLast(maxPerUser, s, id, n, k);
      var next := Apply(maxPerUser, s, Act(k - 1));
      var rest := ActTogether(maxPerUser, next, id, n, k - 1);
      evs := [Act(k - 1)] + rest;
      assert evs[1..] == rest;
      CountUpAdds(s.table, id, k - 1);
    }
  }

  /** For every limit and every number of sessions some run counts limit + n - 1 messages:
      the bound cannot be improved. */
  lemma QuotaBoundMet(maxPerUser: int, n: nat, draft: Draft) returns (evs: seq<Event>)
    requires maxPerUser > 0 && n > 0 && draft.maxMessages > 0 && draft.expires.None?
    ensures Legal(maxPerUser, Start(n), evs)
    ensures var t := Exec(maxPerUser, Start(n), evs).table;
      && 1 in t.aliases && t.aliases[1].max == Some(draft.maxMessages)
      && t.aliases[1].count == draft.maxMessages + n - 1
  {
    var s0 := Start(n);
    assert Owned(s0.table, draft.user) == {};
    var made := [LookToCreate(0, draft), Act(0)];
    var s1 := Apply(maxPerUser, Apply(maxPerUser, s0, made[0]), made[1]);
    assert made[1..] == [Act(0)] && made[1..][1..] == [];
    assert Legal(maxPerUser, s1, []);
    assert Exec(maxPerUser, s0, made) == Exec(maxPerUser, Apply(maxPerUser, s0, made[0]), [Act(0)]) == s1;
    var inTurn := DeliverInTurn(maxPerUser, s1, 1, n, draft.maxMessages - 1);
    var s2 := Exec(maxPerUser, s1, inTurn);
    var looks := LookTogether(maxPerUser, s2, 1, n, n);
    var s3 := Exec(maxPerUser, s2, looks);
    var acts := ActTogether(maxPerUser, s3, 1, n, n);
    ExecConcat(maxPerUser, s2, looks, acts);
    ExecConcat(maxPerUser, s1, inTurn, looks + acts);
    ExecConcat(maxPerUser, s0, made, inTurn + (looks + acts));
    evs := made + (inTurn + (looks + acts));
  }

  // The same of a user's aliases, with a different address for each.

  function Address(i: nat): (a: string)
    ensures |a| == i
  {
    if i == 0 then "" else "a" + Address(i - 1)
  }

  /** The i-th request of the user; its address has i characters. */
  function Request(user: nat, i: nat): (draft: Draft)
    ensures draft.user == user && |draft.address| == i
  {
    Draft(user, Address(i), None, 0)
  }

  /** The table holds the first m requests of the user and nothing else. */
  ghost predicate HasMade(t: Table, user: nat, m: nat) {
    && t.nextId == m + 1
    && (forall id: nat :: id in t.aliases <==> 1 <= id <= m)
    && forall id <- t.aliases :: t.aliases[id].user == user && |t.aliases[id].address| == id
  }

  function IdsTo(m: nat): (ids: set<nat>)
    ensures |ids| == m && forall id: nat :: id in ids <==> 1 <= id <= m
  {
    if m == 0 then {} else IdsTo(m - 1) + {m}
  }

  lemma MadeCount(t: Table, user: nat, m: nat)
    requires HasMade(t, user, m)
    ensures |Owned(t, user)| == m
  {
    assert Owned(t, user) == IdsTo(m);
  }

  lemma MakeNext(t: Table, user: nat, m: nat, draft: Draft)
    requires HasMade(t, user, m) && draft.user == user && |draft.address| == m + 1
    ensures HasMade(Created(t, draft), user, m + 1)
  {
    assert !AddressTaken(t, draft.address);
  }

  /** One session creates k aliases after another. */
  lemma {:induction false} CreateInTurn(maxPerUser: int, s: Sys, user: nat, n: nat, m: nat, k: nat)
    returns (evs: seq<Event>)
    requires AllAreIdle(s, n) && n > 0 && HasMade(s.table, user, m) && m + k <= maxPerUser
    ensures Legal(maxPerUser, s, evs)
    ensures var r := Exec(maxPerUser, s, evs); AllAreIdle(r, n) && HasMade(r.table, user, m + k)
    decreases k
  {
    if k == 0 {
      evs := [];
    } else {
      MadeCount(s.table, user, m);
      MakeNext(s.table, user, m, Request(user, m + 1));
      var look := LookToCreate(0, Request(user, m + 1));
      var looked := Apply(maxPerUser, s, look);
      var acted := Apply(maxPerUser, looked, Act(0));
      var rest := CreateInTurn(maxPerUser, acted, user, n, m + 1, k - 1);
      evs := [look, Act(0)] + rest;
      assert evs[1..] == [Act(0)] + rest && evs[1..][1..] == rest;
      assert Legal(maxPerUser, looked, evs[1..]);
    }
  }

  /** The first k sessions are about to make their requests. */
  predicate FirstCreating(s: Sys, requests: seq<Draft>, k: nat) {
    s.tasks.Keys == AllIdle(|requests|).Keys
    && forall session <- s.tasks :: s.tasks[session] == if session < k then Insert(requests[session]) else Idle
  }

  lemma OneMoreCreating(maxPerUser: int, s: Sys, requests: seq<Draft>, k: nat)
    requires k < |requests| && FirstCreating(s, requests, k) && |Owned(s.table, requests[k].user)| < maxPerUser
    ensures var look := LookToCreate(k, requests[k]);
      Enabled(s, look) && FirstCreating(Apply(maxPerUser, s, look), requests, k + 1)
      && Apply(maxPerUser, s, look).table == s.table
  {
    assert k in AllIdle(|requests|);
    var next := Apply(maxPerUser, s, LookToCreate(k, requests[k]));
    assert next.tasks.Keys == s.tasks.Keys;
  }

  lemma CreateLast(maxPerUser: int, s: Sys, requests: seq<Draft>, k: nat)
    requires k < |requests| && FirstCreating(s, requests, k + 1)
    ensures Enabled(s, Act(k))
    ensures var next := Apply(maxPerUser, s, Act(k));
      FirstCreating(next, requests, k) && next.table == Created(s.table, requests[k])
  {
    assert k in AllIdle(|requests|);
  }

  lemma {:induction false} LookToCreateTogether(maxPerUser: int, s: Sys, requests: seq<Draft>, k: nat)
    returns (evs: seq<Event>)
    requires FirstCreating(s, requests, 0) && k <= |requests|
    requires forall r <- requests :: |Owned(s.table, r.user)| < maxPerUser
    ensures Legal(maxPerUser, s, evs)
    ensures FirstCreating(Exec(maxPerUser, s, evs), requests, k) && Exec(maxPerUser, s, evs).table == s.table
    decreases k
  {
    if k == 0 {
      evs := [];
    } else {
      var before := LookToCreateTogether(maxPerUser, s, requests, k - 1);
      assert requests[k - 1] in requests;
      OneMoreCreating(maxPerUser, Exec(maxPerUser, s, before), requests, k - 1);
      var last := LookToCreate(k - 1, requests[k - 1]);
      ExecSnoc(maxPerUser, s, before, last);
      evs := before + [last];
    }
  }

  /** Requests of one user that the last session makes first, each with an address of its own. */
  predicate Distinct(requests: seq<Draft>, user: nat, top: nat) {
    forall i | 0 <= i < |requests| :: requests[i].user == user && |requests[i].address| == top - i
  }

  lemma {:induction false} CreateTogether(maxPerUser: int, s: Sys, requests: seq<Draft>, k: nat, user: nat, top: nat)
    returns (evs: seq<Event>)
    requires k <= |requests| && k <= top && FirstCreating(s, requests, k) && Distinct(requests, user, top)
    requires HasMade(s.table, user, top - k)
    ensures Legal(maxPerUser, s, evs)
    ensures HasMade(Exec(maxPerUser, s, evs).table, user, top)
    decreases k
  {
    if k == 0 {
      evs := [];
    } else {
      MakeNext(s.table, user, top - k, requests[k - 1]);
      CreateLast(maxPerUser, s, requests, k - 1);
      var next := Apply(maxPerUser, s, Act(k - 1));
      var rest := CreateTogether(maxPerUser, next, requests, k - 1, user, top);
      evs := [Act(k - 1)] + rest;
      assert evs[1..] == rest;
    }
  }

  function Requests(user: nat, n: nat, top: nat): (requests: seq<Draft>)
    requires n <= top
    ensures |requests| == n && Distinct(requests, user, top)
  {
    seq(n, i requires 0 <= i < n => Request(user, top - i))
  }

  lemma CreateAtOnce(maxPerUser: int, s: Sys, user: nat, n: nat, m: nat) returns (evs: seq<Event>)
    requires AllAreIdle(s, n) && HasMade(s.table, user, m) && m < maxPerUser
    ensures Legal(maxPerUser, s, evs) && HasMade(Exec(maxPerUser, s, evs).table, user, m + n)
  {
    var requests := Requests(user, n, m + n);
    MadeCount(s.table, user, m);
    forall r | r in requests ensures r.user == user {
      var i :| 0 <= i < n && requests[i] == r;
    }
    var looks := LookToCreateTogether(maxPerUser, s, requests, n);
    var looked := Exec(maxPerUser, s, looks);
    var acts := CreateTogether(maxPerUser, looked, requests, n, user, m + n);
    ExecConcat(maxPerUser, s, looks, acts);
    evs := looks + acts;
  }

  /** For every limit and every number of sessions some run gives a user limit + n - 1 aliases. */
  lemma AliasBoundMet(maxPerUser: int, n: nat, user: nat) returns (evs: seq<Event>)
    requires maxPerUser > 0 && n > 0
    ensures Legal(maxPerUser, Start(n), evs)
    ensures Level(Exec(maxPerUser, Start(n), evs).table, Creating(user)) == maxPerUser + n - 1
  {
    var s0 := Start(n);
    var m := maxPerUser - 1;
    var inTurn := CreateInTurn(maxPerUser, s0, user, n, 0, m);
    var s1 := Exec(maxPerUser, s0, inTurn);
    var atOnce := CreateAtOnce(maxPerUser, s1, user, n, m);
    ExecConcat(maxPerUser, s0, inTurn, atOnce);
    evs := inTurn + atOnce;
    MadeCount(Exec(maxPerUser, s0, evs).table, user, m + n);
  }

  /** In this run the goal does not pass its limit. */
  predicate LimitHolds(maxPerUser: int, n: nat, evs: seq<Event>, g: Goal) {
    Legal(maxPerUser, Start(n), evs) ==>
      var t := Exec(maxPerUser, Start(n), evs).table;
      Limit(maxPerUser, t, g).Some? && Level(t, g) > 0 ==> Level(t, g) <= Limit(maxPerUser, t, g).value
  }

  /** Nobody may have an alias: none is made. */
  lemma {:induction false} NoneMade(maxPerUser: int, s: Sys, evs: seq<Event>)
    requires maxPerUser <= 0 && Legal(maxPerUser, s, evs)
    requires s.table.aliases == map[] && forall session <- s.tasks :: s.tasks[session].Idle?
    ensures Exec(maxPerUser, s, evs).table.aliases == map[]
    decreases |evs|
  {
    if evs != [] {
      NoneMade(maxPerUser, Apply(maxPerUser, s, evs[0]), evs[1..]);
    }
  }

  lemma LimitsHold(maxPerUser: int, n: nat, evs: seq<Event>, g: Goal)
    requires n <= 1 || maxPerUser <= 0
    ensures LimitHolds(maxPerUser, n, evs, g)
  {
    if Legal(maxPerUser, Start(n), evs) {
      var t := Exec(maxPerUser, Start(n), evs).table;
      if maxPerUser <= 0 {
        NoneMade(maxPerUser, Start(n), evs);
        assert g.Creating? ==> Owned(t, g.user) == {};
      } else if Limit(maxPerUser, t, g).Some? {
        QuotaBound(maxPerUser, n, evs, g);
      }
    }
  }

  /** No run passes the limit of an alias, and no run passes that of a user, exactly when there
      is at most one session or no alias may be made at all. */
  lemma QuotaHoldsIff(maxPerUser: int, n: nat)
    ensures (forall evs, id :: LimitHolds(maxPerUser, n, evs, Counting(id))) <==> n <= 1 || maxPerUser <= 0
    ensures (forall evs, user :: LimitHolds(maxPerUser, n, evs, Creating(user))) <==> n <= 1 || maxPerUser <= 0
  {
    if n <= 1 || maxPerUser <= 0 {
      forall evs, g ensures LimitHolds(maxPerUser, n, evs, g) {
        LimitsHold(maxPerUser, n, evs, g);
      }
    } else {
      var one := QuotaBoundMet(maxPerUser, n, Draft(1, "", None, 1));
      assert !LimitHolds(maxPerUser, n, one, Counting(1));
      var many := AliasBoundMet(maxPerUser, n, 1);
      assert !LimitHolds(maxPerUser, n, many, Creating(1));
    }
  }

  // ------------------------------------------------------------- conservation

  /** The messages a run admits to an alias: each is delivered. */
  function Admitted(maxPerUser: int, s: Sys, evs: seq<Event>, id: nat): nat
    requires Legal(maxPerUser, s, evs)
    decreases |evs|
  {
    if evs == [] then 0
    else
      (if evs[0].Look? && evs[0].id == id && Judge(s.table.aliases[id], evs[0].now).Admit? then 1 else 0)
      + Admitted(maxPerUser, Apply(maxPerUser, s, evs[0]), evs[1..], id)
  }

  /** Those of them whose increment failed. */
  function Uncounted(maxPerUser: int, s: Sys, evs: seq<Event>, id: nat): nat
    requires Legal(maxPerUser, s, evs)
    decreases |evs|
  {
    if evs == [] then 0
    else
      (if evs[0].Fail? && s.tasks[evs[0].session] == Increment(id) then 1 else 0)
      + Uncounted(maxPerUser, Apply(maxPerUser, s, evs[0]), evs[1..], id)
  }

  lemma {:induction false} GoneForGood(maxPerUser: int, s: Sys, evs: seq<Event>, id: nat)
    requires Legal(maxPerUser, s, evs) && id < s.table.nextId && id !in s.table.aliases
    ensures id !in Exec(maxPerUser, s, evs).table.aliases
    decreases |evs|
  {
    if evs != [] {
      GoneForGood(maxPerUser, Apply(maxPerUser, s, evs[0]), evs[1..], id);
    }
  }

  lemma ConserveStep(maxPerUser: int, s: Sys, ev: Event, id: nat)
    requires Enabled(s, ev) && id in s.table.aliases && id < s.table.nextId
    ensures var next := Apply(maxPerUser, s, ev);
      id in next.table.aliases ==>
        Level(next.table, Counting(id)) + |Busy(next.tasks, Counting(id))| +
          (if ev.Fail? && s.tasks[ev.session] == Increment(id) then 1 else 0) ==
        Level(s.table, Counting(id)) + |Busy(s.tasks, Counting(id))| +
          (if ev.Look? && ev.id == id && Judge(s.table.aliases[id], ev.now).Admit? then 1 else 0)
  {
    var g := Counting(id);
    match ev
    case Look(session, other, now, resolving) =>
      BusyAfter(s.tasks, session, TaskFor(other, Judge(s.table.aliases[other], now), resolving), g);
    case LookToCreate(session, draft) => BusyAfter(s.tasks, session, Insert(draft), g);
    case Act(session) => BusyAfter(s.tasks, session, Idle, g);
    case Fail(session) => BusyAfter(s.tasks, session, Idle, g);
    case Remove(_) =>
  }

  /** As long as an alias lives, every message admitted to it is counted, about to be, or
      one whose increment failed. */
  lemma {:induction false} AdmissionsConserved(maxPerUser: int, s: Sys, evs: seq<Event>, id: nat)
    requires Legal(maxPerUser, s, evs) && Inv(maxPerUser, s) && id in s.table.aliases
    requires id in Exec(maxPerUser, s, evs).table.aliases
    ensures var r := Exec(maxPerUser, s, evs);
      Level(r.table, Counting(id)) + |Busy(r.tasks, Counting(id))| + Uncounted(maxPerUser, s, evs, id) ==
      Level(s.table, Counting(id)) + |Busy(s.tasks, Counting(id))| + Admitted(maxPerUser, s, evs, id)
    decreases |evs|
  {
    if evs != [] {
      var next := Apply(maxPerUser, s, evs[0]);
      InvKept(maxPerUser, s, evs[0]);
      if id !in next.table.aliases {
        GoneForGood(maxPerUser, next, evs[1..], id);
        assert false;
      }
      ConserveStep(maxPerUser, s, evs[0], id);
      AdmissionsConserved(maxPerUser, next, evs[1..], id);
    }
  }

  // --------------------------------------------------------- inactive for good

  /** An inactive alias is never active again and is sent nothing more. */
  lemma {:induction false} InactiveForGood(maxPerUser: int, s: Sys, evs: seq<Event>, id: nat)
    requires Legal(maxPerUser, s, evs) && id < s.table.nextId
    requires id in s.table.aliases ==> !s.table.aliases[id].active
    ensures var r := Exec(maxPerUser, s, evs); id in r.table.aliases ==> !r.table.aliases[id].active
    ensures Admitted(maxPerUser, s, evs, id) == 0
    decreases |evs|
  {
    if evs != [] {
      InactiveForGood(maxPerUser, Apply(maxPerUser, s, evs[0]), evs[1..], id);
    }
  }

  /** Its messages are used up, or it had expired when some session read the clock. */
  predicate Spent(a: Alias, clock: int) {
    || (a.max.Some? && a.count >= a.max.value)
    || (a.expires.Some? && a.expires.value * SECOND < clock)
  }

  predicate DeactivationsJustified(s: Sys) {
    && (forall id <- s.table.aliases ::
          id < s.table.nextId && (s.table.aliases[id].active || Spent(s.table.aliases[id], s.clock)))
    && (forall session <- s.tasks :: TaskKnown(s.table, s.tasks[session]))
    && (forall session <- s.tasks :: s.tasks[session].Deactivate? && s.tasks[session].id in s.table.aliases ==>
          Spent(s.table.aliases[s.tasks[session].id], s.clock))
  }

  lemma JustifiedKept(maxPerUser: int, s: Sys, ev: Event)
    requires DeactivationsJustified(s) && Enabled(s, ev)
    ensures DeactivationsJustified(Apply(maxPerUser, s, ev))
  {
  }

  /** No alias is deactivated early: an inactive one has reached its limit or expired. */
  lemma {:induction false} InactiveForAReason(maxPerUser: int, s: Sys, evs: seq<Event>)
    requires Legal(maxPerUser, s, evs) && DeactivationsJustified(s)
    ensures DeactivationsJustified(Exec(maxPerUser, s, evs))
    decreases |evs|
  {
    if evs != [] {
      JustifiedKept(maxPerUser, s, evs[0]);
      InactiveForAReason(maxPerUser, Apply(maxPerUser, s, evs[0]), evs[1..]);
    }
  }
}
