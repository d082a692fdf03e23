/** The aliases table and the two places that run its checks: recipient resolution in
    internal/smtp/session.go and the generator of internal/alias/generator.go, one session
    at a time. */
module Aliases {
  import opened Clock
  import opened Collections
  import opened AliasQuota

  /** strings.SplitN(address, "@", 2), if it gives two parts. */
  function SplitAddress(address: string): (r: Option<(string, string)>)
    ensures r.None? <==> '@' !in address
    ensures r.Some? ==> address == r.value.0 + "@" + r.value.1 && '@' !in r.value.0
  {
    if address == "" then None
    else if address[0] == '@' then Some(("", address[1..]))
    else
      var rest := SplitAddress(address[1..]);
      if rest.None? then None else Some(([address[0]] + rest.value.0, rest.value.1))
  }

  class AliasStore {
    var aliases: map<nat, Alias>
    var nextId: nat

    constructor ()
      ensures State() == Start(0).table
    {
      aliases, nextId := map[], 1;
    }

    function State(): Table
      reads this
    {
      Table(aliases, nextId)
    }

    method ResolveAlias(address: string) returns (found: Option<nat>)
      ensures found.None? <==> !AddressTaken(State(), address)
      ensures found.Some? ==> found.value in aliases && aliases[found.value].address == address
    {
      found := None;
      var left := aliases.Keys;
      while left != {}
        invariant left <= aliases.Keys
        invariant forall id <- aliases :: id !in left ==> aliases[id].address != address
        decreases left
      {
        var id :| id in left;
        if aliases[id].address == address {
          return Some(id);
        }
        left := left - {id};
      }
    }

    method ListAliases(user: nat) returns (ids: seq<nat>)
      ensures NoDup(ids) && Range(ids) == Owned(State(), user)
    {
      ids := [];
      var left := aliases.Keys;
      while left != {}
        invariant left <= aliases.Keys && NoDup(ids)
        invariant forall id :: id in ids <==> id in aliases && id !in left && aliases[id].user == user
        decreases left
      {
        var id :| id in left;
        if aliases[id].user == user {
          ids := ids + [id];
        }
        left := left - {id};
      }
    }

    method IncrementAliasCount(id: nat)
      modifies this
      ensures State() == Incremented(old(State()), id)
    {
      if id in aliases {
        aliases := aliases[id := aliases[id].(count := aliases[id].count + 1)];
      }
    }

    method DeactivateAlias(id: nat)
      modifies this
      ensures State() == Deactivated(old(State()), id)
    {
      if id in aliases {
        aliases := aliases[id := aliases[id].(active := false)];
      }
    }

    method DeleteAlias(id: nat)
      modifies this
      ensures State() == Removed(old(State()), id)
    {
      aliases := aliases - {id};
    }

    method CreateAlias(draft: Draft) returns (ok: bool)
      modifies this
      ensures ok == !AddressTaken(old(State()), draft.address)
      ensures State() == Created(old(State()), draft)
    {
      var clash := ResolveAlias(draft.address);
      if clash.Some? {
        return false;
      }
      var max := if draft.maxMessages > 0 then Some(draft.maxMessages) else None;
      aliases := aliases[nextId := Alias(draft.user, draft.address, true, draft.expires, 0, max)];
      nextId := nextId + 1;
      return true;
    }
  }

  datatype Recipient =
    | Malformed                // no @ in the address
    | Remote                   // not a local domain: goes to the send queue
    | Direct(user: nat)
    | Unknown                  // neither user nor alias
    | Refused(why: Verdict)
    | Forwarded(user: nat)     // the owner of an alias
    | OwnerMissing

  /** Users by local part and domain, and local domains; neither changes here. */
  datatype Directory = Directory(users: map<(string, string), nat>, domains: set<string>)

  /** What the checks make of a message to the alias `id`. */
  function Outcome(dir: Directory, a: Alias, verdict: Verdict): Recipient {
    if !verdict.Admit? then Refused(verdict)
    else if a.user in dir.users.Values then Forwarded(a.user)
    else OwnerMissing
  }

  /** How `to` is answered and what happens to the table: nothing unless it is an alias,
      `id`, and then exactly what one session does that looks and acts. */
  predicate Answered(dir: Directory, was: Table, to: string, now: int, resolving: bool, r: Recipient, t: Table,
                     id: nat) {
    var parts := SplitAddress(to);
    if parts.None? then r == Malformed && t == was
    else if !resolving && parts.value.1 !in dir.domains then r == Remote && t == was
    else if parts.value in dir.users then r == Direct(dir.users[parts.value]) && t == was
    else if !AddressTaken(was, to) then r == Unknown && t == was
    else
      && id in was.aliases && was.aliases[id].address == to
      && var verdict := Judge(was.aliases[id], now);
      && r == Outcome(dir, was.aliases[id], verdict) && t == Done(was, TaskFor(id, verdict, resolving))
  }

  /** The recipient part of deliverMessage. */
  method FindRecipient(db: AliasStore, dir: Directory, to: string, now: int) returns (r: Recipient, ghost id: nat)
    modifies db
    ensures Answered(dir, old(db.State()), to, now, false, r, db.State(), id)
    ensures r.Refused? || r.Forwarded? || r.OwnerMissing? ==>
      && id in old(db.aliases) && old(db.aliases)[id].address == to
      && var a := old(db.aliases)[id];
      && (forall user :: r == Forwarded(user) <==>
            && a.active && (a.expires.Some? ==> now <= a.expires.value * 1_000_000_000)
            && (a.max.Some? ==> a.count < a.max.value) && a.user == user && user in dir.users.Values)
      && (r.Forwarded? ==> db.aliases == old(db.aliases)[id := a.(count := a.count + 1)])
      && (r == Refused(Inactive) <==> !a.active)
      && (r == Refused(Expired) <==> a.active && a.expires.Some? && a.expires.value * 1_000_000_000 < now)
      && (r == Refused(Full) ==> db.aliases == old(db.aliases)[id := a.(active := false)])
  {
    id := 0;
    var parts := SplitAddress(to);
    if parts.None? {
      return Malformed, id;
    }
    if parts.value.1 !in dir.domains {
      return Remote, id;
    }
    if parts.value in dir.users {
      return Direct(dir.users[parts.value]), id;
    }
    var found := db.ResolveAlias(to);
    if found.None? {
      return Unknown, id;
    }
    id := found.value;
    var a := db.aliases[found.value];
    if !a.active {
      return Refused(Inactive), id;
    }
    if a.expires.Some? && a.expires.value * SECOND < now {
      return Refused(Expired), id;
    }
    if a.max.Some? && a.count >= a.max.value {
      db.DeactivateAlias(found.value);
      return Refused(Full), id;
    }
    db.IncrementAliasCount(found.value);
    if a.user !in dir.users.Values {
      return OwnerMissing, id;
    }
    return Forwarded(a.user), id;
  }

  class Generator {
    const db: AliasStore
    const maxPerUser: int

    constructor (db: AliasStore, maxPerUser: int)
      ensures this.db == db && this.maxPerUser == maxPerUser
    {
      this.db, this.maxPerUser := db, maxPerUser;
    }

    method Resolve(dir: Directory, address: string, now: int) returns (r: Recipient, ghost id: nat)
      modifies db
      ensures Answered(dir, old(db.State()), address, now, true, r, db.State(), id)
      ensures r.Refused? || r.Forwarded? || r.OwnerMissing? ==>
        && id in old(db.aliases) && old(db.aliases)[id].address == address
        && var a := old(db.aliases)[id];
        && (forall user :: r == Forwarded(user) <==>
              && a.active && (a.expires.Some? ==> now <= a.expires.value * 1_000_000_000)
              && (a.max.Some? ==> a.count < a.max.value) && a.user == user && user in dir.users.Values)
        && (r.Forwarded? ==> db.aliases == old(db.aliases)[id := a.(count := a.count + 1)])
        && (r == Refused(Inactive) <==> !a.active)
        && (r == Refused(Expired) <==> a.active && a.expires.Some? && a.expires.value * 1_000_000_000 < now)
        && (r == Refused(Full) ==> db.aliases == old(db.aliases)[id := a.(active := false)])
    {
      id := 0;
      var parts := SplitAddress(address);
      if parts.None? {
        return Malformed, id;
      }
      if parts.value in dir.users {
        return Direct(dir.users[parts.value]), id;
      }
      var found := db.ResolveAlias(address);
      if found.None? {
        return Unknown, id;
      }
      id := found.value;
      var a := db.aliases[found.value];
      if !a.active {
        return Refused(Inactive), id;
      }
      if a.expires.Some? && a.expires.value * SECOND < now {
        db.DeactivateAlias(found.value);
        return Refused(Expired), id;
      }
      if a.max.Some? && a.count >= a.max.value {
        db.DeactivateAlias(found.value);
        return Refused(Full), id;
      }
      db.IncrementAliasCount(found.value);
      if a.user !in dir.users.Values {
        return OwnerMissing, id;
      }
      return Forwarded(a.user), id;
    }

    /** Create with the address drawn already: a session that looks, then acts. */
    method Create(user: nat, address: string, ttl: int, maxMessages: int, now: int) returns (ok: bool)
      modifies db
      ensures ok == (|Owned(old(db.State()), user)| < maxPerUser && !AddressTaken(old(db.State()), address))
      ensures db.State() == if |Owned(old(db.State()), user)| < maxPerUser
                            then Created(old(db.State()), NewDraft(user, address, ttl, maxMessages, now))
                            else old(db.State())
      ensures !ok ==> db.State() == old(db.State())
      ensures ok ==> db.aliases == old(db.aliases)[old(db.nextId) :=
        Alias(user, address, true, if ttl > 0 then Some(Unix(now + ttl)) else None, 0,
              if maxMessages > 0 then Some(maxMessages) else None)]
    {
      var existing := db.ListAliases(user);
      NoDupCard(existing);
      if |existing| >= maxPerUser {
        return false;
      }
      var expires := None;
      if ttl > 0 {
        expires := Some(Unix(now + ttl));
      }
      ok := db.CreateAlias(Draft(user, address, expires, maxMessages));
    }
  }

  function NewDraft(user: nat, address: string, ttl: int, maxMessages: int, now: int): Draft {
    Draft(user, address, if ttl > 0 then Some(Unix(now + ttl)) else None, maxMessages)
  }

  /** One session's look and act are the two steps of the protocol: the serial methods
      above are runs of it. */
  lemma SerialIsRun(maxPerUser: int, s: Sys, session: nat, id: nat, now: int, resolving: bool)
    requires session in s.tasks && s.tasks[session].Idle? && id in s.table.aliases
    ensures var evs := [Look(session, id, now, resolving), Act(session)];
      && Legal(maxPerUser, s, evs)
      && Exec(maxPerUser, s, evs).table == Done(s.table, TaskFor(id, Judge(s.table.aliases[id], now), resolving))
      && Exec(maxPerUser, s, evs).tasks == s.tasks
  {
    var evs := [Look(session, id, now, resolving), Act(session)];
    assert evs[1..] == [Act(session)] && evs[1..][1..] == [];
    var looked := Apply(maxPerUser, s, evs[0]);
    var acted := Apply(maxPerUser, looked, Act(session));
    assert Legal(maxPerUser, acted, []);
    assert Exec(maxPerUser, looked, evs[1..]) == acted;
    assert acted.tasks == s.tasks;
  }

  // ------------------------------------------------------------ one after another

  /** An alias after one message ... */
  function Received(a: Alias, now: int): Alias {
    match Judge(a, now)
    case Admit => a.(count := a.count + 1)
    case Full => a.(active := false)
    case _ => a
  }

  /** ... and after deliveries at these times, and how many of them it admitted. */
  function AfterDeliveries(a: Alias, nows: seq<int>): Alias {
    if nows == [] then a
    else Received(AfterDeliveries(a, nows[..|nows| - 1]), nows[|nows| - 1])
  }

  function AdmittedOf(a: Alias, nows: seq<int>): nat {
    if nows == [] then 0
    else
      var init := nows[..|nows| - 1];
      AdmittedOf(a, init) + if Judge(AfterDeliveries(a, init), nows[|nows| - 1]).Admit? then 1 else 0
  }

  /** The deliveries that come before the alias expires. */
  function InTime(a: Alias, nows: seq<int>): nat {
    if nows == [] then 0
    else
      InTime(a, nows[..|nows| - 1]) +
      if a.expires.Some? && a.expires.value * SECOND < nows[|nows| - 1] then 0 else 1
  }

  /** Deliveries one after another: an alias admits those in time, up to its limit, and is
      turned off exactly when one more comes in time. */
  lemma {:induction false} SerialQuotaExact(a: Alias, nows: seq<int>)
    requires a.active && (a.max.Some? ==> a.count <= a.max.value)
    ensures var r := AfterDeliveries(a, nows);
      var room := if a.max.Some? then a.max.value - a.count else InTime(a, nows);
      && AdmittedOf(a, nows) == (if InTime(a, nows) <= room then InTime(a, nows) else room)
      && r == a.(count := a.count + AdmittedOf(a, nows), active := InTime(a, nows) <= room)
  {
    if nows != [] {
      SerialQuotaExact(a, nows[..|nows| - 1]);
    }
  }

  datatype Call = Call(to: string, now: int)

  ghost predicate AnsweredBySome(dir: Directory, was: Table, call: Call, r: Recipient, t: Table) {
    exists id: nat :: Answered(dir, was, call.to, call.now, false, r, t, id)
  }

  /** FindRecipient called for one recipient after another: the answers, and the table before
      each call and after the last. */
  ghost predicate InTurn(dir: Directory, calls: seq<Call>, tables: seq<Table>, answers: seq<Recipient>) {
    && |tables| == |calls| + 1 && |answers| == |calls|
    && forall i | 0 <= i < |calls| :: AnsweredBySome(dir, tables[i], calls[i], answers[i], tables[i + 1])
  }

  /** UNIQUE(address) */
  ghost predicate UniqueAddresses(t: Table) {
    forall i, j | i in t.aliases && j in t.aliases && t.aliases[i].address == t.aliases[j].address :: i == j
  }

  /** Mail to the address is local and for no user. */
  predicate ReachesAlias(dir: Directory, address: string) {
    var parts := SplitAddress(address);
    parts.Some? && parts.value.1 in dir.domains && parts.value !in dir.users
  }

  function TimesTo(calls: seq<Call>, address: string): seq<int> {
    if calls == [] then []
    else
      var n := |calls| - 1;
      TimesTo(calls[..n], address) + if calls[n].to == address then [calls[n].now] else []
  }

  /** How many messages to the address were forwarded. */
  function ForwardedTo(calls: seq<Call>, answers: seq<Recipient>, address: string): nat
    requires |answers| == |calls|
  {
    if calls == [] then 0
    else
      var n := |calls| - 1;
      ForwardedTo(calls[..n], answers[..n], address)
      + if calls[n].to == address && answers[n].Forwarded? then 1 else 0
  }

  lemma DeliveredTo(a: Alias, nows: seq<int>, now: int)
    ensures AfterDeliveries(a, nows + [now]) == Received(AfterDeliveries(a, nows), now)
    ensures AdmittedOf(a, nows + [now]) ==
      AdmittedOf(a, nows) + if Judge(AfterDeliveries(a, nows), now).Admit? then 1 else 0
  {
    assert (nows + [now])[..|nows|] == nows;
  }

  /** No check alters what an alias is. */
  lemma DoneKeeps(t: Table, task: Task)
    requires !task.Insert?
    ensures Done(t, task).aliases.Keys == t.aliases.Keys
    ensures forall id <- t.aliases ::
      Done(t, task).aliases[id].address == t.aliases[id].address && Done(t, task).aliases[id].user == t.aliases[id].user
    ensures UniqueAddresses(t) ==> UniqueAddresses(Done(t, task))
  {
  }

  /** One call: what becomes of the row of an alias. */
  lemma CallStep(dir: Directory, was: Table, call: Call, r: Recipient, t: Table, id: nat)
    requires AnsweredBySome(dir, was, call, r, t) && UniqueAddresses(was) && id in was.aliases
    requires ReachesAlias(dir, was.aliases[id].address)
    ensures UniqueAddresses(t) && id in t.aliases && t.aliases[id].address == was.aliases[id].address
    ensures t.aliases[id].user == was.aliases[id].user
    ensures var a := was.aliases[id];
      if call.to != a.address then t.aliases[id] == a
      else
        && (r.Forwarded? <==> Judge(a, call.now).Admit? && a.user in dir.users.Values)
        && t.aliases[id] == Received(a, call.now)
  {
    var found: nat :| Answered(dir, was, call.to, call.now, false, r, t, found);
    if t != was {
      DoneKeeps(was, TaskFor(found, Judge(was.aliases[found], call.now), false));
    }
  }

  lemma LastCall(dir: Directory, calls: seq<Call>, tables: seq<Table>, answers: seq<Recipient>)
    requires InTurn(dir, calls, tables, answers) && calls != []
    ensures var n := |calls| - 1;
      && InTurn(dir, calls[..n], tables[..n + 1], answers[..n]) && tables[..n + 1][0] == tables[0]
      && tables[..n + 1][n] == tables[n]
      && AnsweredBySome(dir, tables[n], calls[n], answers[n], tables[n + 1])
  {
  }

  /** Whatever messages come in turn, those forwarded for an alias are the admitted ones. */
  lemma {:induction false} ForwardsAreAdmissions(dir: Directory, calls: seq<Call>, tables: seq<Table>,
                                                 answers: seq<Recipient>, id: nat)
    requires InTurn(dir, calls, tables, answers) && UniqueAddresses(tables[0]) && id in tables[0].aliases
    requires ReachesAlias(dir, tables[0].aliases[id].address)
    ensures var a, end := tables[0].aliases[id], tables[|calls|];
      && UniqueAddresses(end) && id in end.aliases
      && end.aliases[id] == AfterDeliveries(a, TimesTo(calls, a.address))
      && end.aliases[id].address == a.address && end.aliases[id].user == a.user
      && ForwardedTo(calls, answers, a.address) ==
           if a.user in dir.users.Values then AdmittedOf(a, TimesTo(calls, a.address)) else 0
    decreases |calls|
  {
    if calls != [] {
      var n := |calls| - 1;
      var a := tables[0].aliases[id];
      LastCall(dir, calls, tables, answers);
      ForwardsAreAdmissions(dir, calls[..n], tables[..n + 1], answers[..n], id);
      CallStep(dir, tables[n], calls[n], answers[n], tables[n + 1], id);
      DeliveredTo(a, TimesTo(calls[..n], a.address), calls[n].now);
      assert TimesTo(calls[..n], a.address) + [] == TimesTo(calls[..n], a.address);
    }
  }

  lemma {:induction false} AdmittedBound(a: Alias, nows: seq<int>)
    requires a.max.Some? && a.count <= a.max.value
    ensures AfterDeliveries(a, nows).max == a.max
    ensures AfterDeliveries(a, nows).count == a.count + AdmittedOf(a, nows) <= a.max.value
  {
    if nows != [] {
      AdmittedBound(a, nows[..|nows| - 1]);
    }
  }

  /** So they never pass its limit. */
  lemma ForwardsWithinLimit(dir: Directory, calls: seq<Call>, tables: seq<Table>, answers: seq<Recipient>, id: nat)
    requires InTurn(dir, calls, tables, answers) && UniqueAddresses(tables[0]) && id in tables[0].aliases
    requires ReachesAlias(dir, tables[0].aliases[id].address)
    ensures var a := tables[0].aliases[id];
      a.max.Some? && a.count <= a.max.value ==> a.count + ForwardedTo(calls, answers, a.address) <= a.max.value
  {
    var a := tables[0].aliases[id];
    ForwardsAreAdmissions(dir, calls, tables, answers, id);
    if a.max.Some? && a.count <= a.max.value {
      AdmittedBound(a, TimesTo(calls, a.address));
    }
  }
}
