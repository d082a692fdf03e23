/** The mailboxes and messages tables of internal/storage, with every SQL statement or
    transaction one step.  Allocating a UID and using it are separate steps, so any
    number of sessions interleave between them. */
module MailStore {
  import opened Collections
  import opened Flags

  datatype Mailbox = Mailbox(user: nat, name: string, specialUse: string, uidNext: nat)

  /** A row of messages.  `content` stands for all the columns that are never rewritten. */
  datatype Message = Message(mailbox: nat, uid: nat, content: string, flags: string, expires: Option<int>)

  /** AUTOINCREMENT: `nextMailbox` and `nextMessage` exceed every id ever used. */
  datatype Store = Store(mailboxes: map<nat, Mailbox>, messages: map<nat, Message>, nextMailbox: nat, nextMessage: nat)

  datatype Draft = Draft(content: string, flags: string, expires: Option<int>)

  /** A UID a session holds but has not used: to insert a message, or to move one. */
  datatype Claim =
    | ToInsert(mailbox: nat, uid: nat, draft: Draft)
    | ToMove(mailbox: nat, uid: nat, id: nat)

  /** `issued` are the UIDs ever given out, `contents` the content of every message ever
      stored; `condemned` are the messages some session has decided to delete for good, and
      `replaced` those a MOVE has decided to delete because it made a copy. */
  datatype Sys = Sys(db: Store, claims: map<nat, Claim>, issued: set<(nat, nat)>, contents: map<nat, string>,
                     condemned: set<nat>, replaced: set<nat>)

  const EMPTY: Sys := Sys(Store(map[], map[], 1, 1), map[], {}, map[], {}, {})

  // --------------------------------------------------------------- statements

  function Slot(m: Message): (nat, nat) {
    (m.mailbox, m.uid)
  }

  /** NextUID: hand out uid_next and increment it. */
  function Bumped(db: Store, mailbox: nat): Store
    requires mailbox in db.mailboxes
  {
    var mb := db.mailboxes[mailbox];
    db.(mailboxes := db.mailboxes[mailbox := mb.(uidNext := mb.uidNext + 1)])
  }

  predicate SlotTaken(db: Store, slot: (nat, nat)) {
    exists id <- db.messages :: Slot(db.messages[id]) == slot
  }

  function Inserted(db: Store, mailbox: nat, uid: nat, draft: Draft): Store {
    db.(messages := db.messages[db.nextMessage := Message(mailbox, uid, draft.content, draft.flags, draft.expires)],
        nextMessage := db.nextMessage + 1)
  }

  function Relocated(db: Store, id: nat, mailbox: nat, uid: nat): Store {
    if id in db.messages then
      db.(messages := db.messages[id := db.messages[id].(mailbox := mailbox, uid := uid)])
    else db
  }

  function Flagged(db: Store, id: nat, flags: string): Store {
    if id in db.messages then db.(messages := db.messages[id := db.messages[id].(flags := flags)]) else db
  }

  function Deleted(db: Store, id: nat): Store {
    db.(messages := db.messages - {id})
  }

  predicate Expired(m: Message, now: int) {
    m.expires.Some? && m.expires.value <= now
  }

  function Swept(db: Store, now: int): Store {
    db.(messages := map id | id in db.messages && !Expired(db.messages[id], now) :: db.messages[id])
  }

  predicate InMailboxNamed(db: Store, m: Message, name: string) {
    m.mailbox in db.mailboxes && db.mailboxes[m.mailbox].name == name
  }

  /** setTTLForMailbox: a date for every message of the mailboxes of that name without one. */
  function Dated(db: Store, name: string, at: int): Store {
    db.(messages := map id | id in db.messages ::
          var m := db.messages[id];
          if m.expires.None? && InMailboxNamed(db, m, name) then m.(expires := Some(at)) else m)
  }

  /** Removing a mailbox row; with `cascade` its messages go too. */
  function WithoutMailbox(db: Store, mailbox: nat, cascade: bool): Store {
    db.(mailboxes := db.mailboxes - {mailbox},
        messages := if cascade then map id | id in db.messages && db.messages[id].mailbox != mailbox :: db.messages[id]
                    else db.messages)
  }

  /** IMAP MOVE of one message into another mailbox, as one step: store a copy under a
      new id and UID, delete the original. */
  function MovedOver(db: Store, id: nat, dest: nat): Store
    requires id in db.messages && dest in db.mailboxes
  {
    var m := db.messages[id];
    Deleted(Inserted(Bumped(db, dest), dest, db.mailboxes[dest].uidNext, Draft(m.content, m.flags, m.expires)), id)
  }

  // ---------------------------------------------------------- webmail deletion

  predicate IsTrash(mb: Mailbox) {
    mb.specialUse == "\\Trash" || mb.name == "Trash"
  }

  /** The trash mailbox the delete handler settles on: the last that fits in the listing. */
  function TrashOf(db: Store, listing: seq<nat>): (trash: Option<nat>)
    ensures trash.Some? ==> trash.value in db.mailboxes && trash.value in listing
  {
    if listing == [] then None
    else
      var last := listing[|listing| - 1];
      if last in db.mailboxes && IsTrash(db.mailboxes[last]) then Some(last)
      else TrashOf(db, listing[..|listing| - 1])
  }

  ghost predicate IsListing(db: Store, user: nat, listing: seq<nat>) {
    && NoDup(listing)
    && forall mb :: mb in listing <==> mb in db.mailboxes && db.mailboxes[mb].user == user
  }

  datatype Verdict = Erase | MoveTo(trash: nat)

  /** What a webmail delete does to a message of `mailbox`. */
  function DeleteVerdict(db: Store, listing: seq<nat>, mailbox: nat): Verdict {
    var trash := TrashOf(db, listing);
    if mailbox in db.mailboxes && db.mailboxes[mailbox].name == "Trash" then Erase
    else if trash == Some(mailbox) then Erase
    else if trash.Some? then MoveTo(trash.value)
    else Erase
  }

  lemma {:induction false} TrashOfIs(db: Store, listing: seq<nat>) returns (i: nat)
    requires forall mb <- listing :: mb in db.mailboxes
    ensures TrashOf(db, listing).None? <==> forall mb <- listing :: !IsTrash(db.mailboxes[mb])
    ensures TrashOf(db, listing).Some? ==>
      && i < |listing| && listing[i] == TrashOf(db, listing).value && IsTrash(db.mailboxes[listing[i]])
      && forall j | i < j < |listing| :: !IsTrash(db.mailboxes[listing[j]])
  {
    i := 0;
    if listing != [] {
      var n := |listing| - 1;
      assert listing == listing[..n] + [listing[n]];
      if IsTrash(db.mailboxes[listing[n]]) {
        i := n;
      } else {
        i := TrashOfIs(db, listing[..n]);
      }
    }
  }

  /** The handler erases a message exactly when its mailbox is named Trash, or the user has no
      trash mailbox by special use or name, or this one is the last such in the listing; else
      it moves it to the last such. */
  lemma VerdictIs(db: Store, user: nat, listing: seq<nat>, mailbox: nat)
    requires IsListing(db, user, listing) && mailbox in db.mailboxes && db.mailboxes[mailbox].user == user
    ensures DeleteVerdict(db, listing, mailbox).Erase? <==>
      || db.mailboxes[mailbox].name == "Trash"
      || (forall mb <- db.mailboxes :: db.mailboxes[mb].user == user ==>
            db.mailboxes[mb].specialUse != "\\Trash" && db.mailboxes[mb].name != "Trash")
      || (exists i | 0 <= i < |listing| ::
            && listing[i] == mailbox && db.mailboxes[mailbox].specialUse == "\\Trash"
            && forall j | i < j < |listing| ::
                 db.mailboxes[listing[j]].specialUse != "\\Trash" && db.mailboxes[listing[j]].name != "Trash")
    ensures DeleteVerdict(db, listing, mailbox).MoveTo? ==>
      exists i | 0 <= i < |listing| ::
        && listing[i] == DeleteVerdict(db, listing, mailbox).trash
        && (db.mailboxes[listing[i]].specialUse == "\\Trash" || db.mailboxes[listing[i]].name == "Trash")
        && forall j | i < j < |listing| ::
             db.mailboxes[listing[j]].specialUse != "\\Trash" && db.mailboxes[listing[j]].name != "Trash"
  {
    var i := TrashOfIs(db, listing);
    if k :| 0 <= k < |listing| && listing[k] == mailbox && IsTrash(db.mailboxes[mailbox]) &&
            forall j | k < j < |listing| :: !IsTrash(db.mailboxes[listing[j]]) {
      assert i == k;
    }
  }

  /** Why a session may decide to delete a message for good, at the time it looks. */
  datatype Reason =
    | MarkedDeleted                      // EXPUNGE lists it with \Deleted
    | Discarded(listing: seq<nat>)       // a webmail delete finds it in trash, or no trash

  ghost predicate Justified(db: Store, id: nat, why: Reason) {
    && id in db.messages
    && match why
       case MarkedDeleted => HasFlag(db.messages[id].flags, "\\Deleted")
       case Discarded(listing) =>
         var mb := db.messages[id].mailbox;
         && mb in db.mailboxes
         && IsListing(db, db.mailboxes[mb].user, listing)
         && (|| db.mailboxes[mb].name == "Trash"
             || (forall other <- listing ::
                   db.mailboxes[other].specialUse != "\\Trash" && db.mailboxes[other].name != "Trash")
             || (exists i | 0 <= i < |listing| ::
                   && listing[i] == mb && db.mailboxes[mb].specialUse == "\\Trash"
                   && forall j | i < j < |listing| ::
                        db.mailboxes[listing[j]].specialUse != "\\Trash" && db.mailboxes[listing[j]].name != "Trash"))
  }

  // --------------------------------------------------------------------- steps

  datatype Event =
    | ClaimInsert(session: nat, mailbox: nat, draft: Draft)
    | ClaimMove(session: nat, id: nat, mailbox: nat)
    | Use(session: nat)
    | Abandon(session: nat)
    | SetFlags(id: nat, flags: string)
    | MoveOver(id: nat, dest: nat)
    | Condemn(id: nat, why: Reason)
    | Replace(id: nat, copy: nat)
    | Delete(id: nat)
    | SetDates(name: string, at: int)
    | Sweep(now: int)
    | CreateMailbox(mb: Mailbox)
    | RenameMailbox(mailbox: nat, name: string)
    | DeleteMailbox(mailbox: nat, cascade: bool)

  /** Another message, stored after `id`, has or had the content. */
  predicate IsLaterCopy(contents: map<nat, string>, content: string, id: nat, copy: nat) {
    id < copy && copy in contents && contents[copy] == content
  }

  ghost predicate Enabled(s: Sys, ev: Event) {
    match ev
    case ClaimInsert(session, _, _) => session !in s.claims
    case ClaimMove(session, id, _) => session !in s.claims && id < s.db.nextMessage
    case Use(session) => session in s.claims
    case MoveOver(id, dest) =>
      id in s.db.messages && dest in s.db.mailboxes && s.db.messages[id].mailbox != dest
    case Condemn(id, why) => Justified(s.db, id, why)
    case Replace(id, copy) => id in s.db.messages && IsLaterCopy(s.contents, s.db.messages[id].content, id, copy)
    case Delete(id) => id in s.condemned || id in s.replaced
    case _ => true
  }

  function Take(s: Sys, session: nat, claim: Claim): Sys
    requires claim.mailbox in s.db.mailboxes
  {
    s.(db := Bumped(s.db, claim.mailbox), claims := s.claims[session := claim],
       issued := s.issued + {(claim.mailbox, claim.uid)})
  }

  ghost function Apply(s: Sys, ev: Event): Sys
    requires Enabled(s, ev)
  {
    match ev
    case ClaimInsert(session, mailbox, draft) =>
      if mailbox !in s.db.mailboxes then s
      else Take(s, session, ToInsert(mailbox, s.db.mailboxes[mailbox].uidNext, draft))
    case ClaimMove(session, id, mailbox) =>
      if mailbox !in s.db.mailboxes then s
      else Take(s, session, ToMove(mailbox, s.db.mailboxes[mailbox].uidNext, id))
    case Use(session) =>
      // UNIQUE(mailbox_id, uid) makes the statement fail; UniqueNeverFires shows it never does
      var c := s.claims[session];
      var done := s.(claims := s.claims - {session});
      if SlotTaken(s.db, (c.mailbox, c.uid)) then done
      else if c.ToMove? then done.(db := Relocated(s.db, c.id, c.mailbox, c.uid))
      else done.(db := Inserted(s.db, c.mailbox, c.uid, c.draft),
                 contents := s.contents[s.db.nextMessage := c.draft.content])
    case Abandon(session) => s.(claims := s.claims - {session})
    case SetFlags(id, flags) => s.(db := Flagged(s.db, id, flags))
    case MoveOver(id, dest) =>
      s.(db := MovedOver(s.db, id, dest), issued := s.issued + {(dest, s.db.mailboxes[dest].uidNext)},
         contents := s.contents[s.db.nextMessage := s.db.messages[id].content])
    case Condemn(id, _) => s.(condemned := s.condemned + {id})
    case Replace(id, _) => s.(replaced := s.replaced + {id})
    case Delete(id) => s.(db := Deleted(s.db, id))
    case SetDates(name, at) => s.(db := Dated(s.db, name, at))
    case Sweep(now) => s.(db := Swept(s.db, now))
    case CreateMailbox(mb) =>
      s.(db := s.db.(mailboxes := s.db.mailboxes[s.db.nextMailbox := mb], nextMailbox := s.db.nextMailbox + 1))
    case RenameMailbox(mailbox, name) =>
      if mailbox !in s.db.mailboxes then s
      else s.(db := s.db.(mailboxes := s.db.mailboxes[mailbox := s.db.mailboxes[mailbox].(name := name)]))
    case DeleteMailbox(mailbox, cascade) => s.(db := WithoutMailbox(s.db, mailbox, cascade))
  }

  ghost predicate Legal(s: Sys, evs: seq<Event>)
    decreases |evs|
  {
    evs == [] || (Enabled(s, evs[0]) && Legal(Apply(s, evs[0]), evs[1..]))
  }

  ghost function Exec(s: Sys, evs: seq<Event>): Sys
    requires Legal(s, evs)
    decreases |evs|
  {
    if evs == [] then s else Exec(Apply(s, evs[0]), evs[1..])
  }

  lemma {:induction false} ExecSnoc(s: Sys, evs: seq<Event>, ev: Event)
    requires Legal(s, evs) && Enabled(Exec(s, evs), ev)
    ensures Legal(s, evs + [ev]) && Exec(s, evs + [ev]) == Apply(Exec(s, evs), ev)
    decreases |evs|
  {
    if evs == [] {
      assert [ev][1..] == [] && evs + [ev] == [ev];
      assert Legal(Apply(s, ev), []);
    } else {
      assert (evs + [ev])[1..] == evs[1..] + [ev];
      ExecSnoc(Apply(s, evs[0]), evs[1..], ev);
    }
  }

  lemma {:induction false} ExecConcat(s: Sys, a: seq<Event>, b: seq<Event>)
    requires Legal(s, a) && Legal(Exec(s, a), b)
    ensures Legal(s, a + b) && Exec(s, a + b) == Exec(Exec(s, a), b)
    decreases |a|
  {
    if a == [] {
      assert a + b == b;
    } else {
      assert (a + b)[0] == a[0] && (a + b)[1..] == a[1..] + b;
      ExecConcat(Apply(s, a[0]), a[1..], b);
    }
  }

  lemma TwoSteps(s: Sys, a: Event, b: Event)
    requires Enabled(s, a) && Enabled(Apply(s, a), b)
    ensures Legal(s, [a, b]) && Exec(s, [a, b]) == Apply(Apply(s, a), b)
  {
    var next := Apply(s, a);
    assert [a, b][1..] == [b] && [b][1..] == [];
    assert Legal(Apply(next, b), []) && Exec(Apply(next, b), []) == Apply(next, b);
    assert Legal(next, [b]) && Exec(next, [b]) == Apply(next, b);
  }

  // ------------------------------------------------------------ UID discipline

  function ClaimSlot(c: Claim): (nat, nat) {
    (c.mailbox, c.uid)
  }

  ghost predicate Inv(s: Sys) {
    && (forall mb <- s.db.mailboxes :: mb < s.db.nextMailbox)
    && (forall id <- s.db.messages :: id < s.db.nextMessage)
    && (forall id <- s.condemned :: id < s.db.nextMessage)
    && (forall slot <- s.issued :: slot.0 < s.db.nextMailbox)
    && (forall slot <- s.issued :: slot.0 in s.db.mailboxes ==> slot.1 < s.db.mailboxes[slot.0].uidNext)
    && (forall id <- s.db.messages :: Slot(s.db.messages[id]) in s.issued)
    && (forall w <- s.claims :: ClaimSlot(s.claims[w]) in s.issued)
    && (forall w <- s.claims :: s.claims[w].ToMove? ==> s.claims[w].id < s.db.nextMessage)
    && (forall a, b | a in s.db.messages && b in s.db.messages && a != b ::
          Slot(s.db.messages[a]) != Slot(s.db.messages[b]))
    && (forall v, w | v in s.claims && w in s.claims && v != w :: ClaimSlot(s.claims[v]) != ClaimSlot(s.claims[w]))
    && (forall id, w | id in s.db.messages && w in s.claims :: Slot(s.db.messages[id]) != ClaimSlot(s.claims[w]))
  }

  /** What a session that runs alone can rely on. */
  ghost predicate Wf(db: Store) {
    && (forall id <- db.messages :: id < db.nextMessage)
    && (forall id <- db.messages :: db.messages[id].mailbox in db.mailboxes ==>
          db.messages[id].uid < db.mailboxes[db.messages[id].mailbox].uidNext)
    && (forall a, b | a in db.messages && b in db.messages && a != b :: Slot(db.messages[a]) != Slot(db.messages[b]))
  }

  lemma InvGivesWf(s: Sys)
    requires Inv(s)
    ensures Wf(s.db)
  {
    forall id <- s.db.messages ensures Slot(s.db.messages[id]) in s.issued {
    }
  }

  lemma InvClaim(s: Sys, ev: Event)
    requires Inv(s) && Enabled(s, ev) && (ev.ClaimInsert? || ev.ClaimMove?)
    ensures Inv(Apply(s, ev))
  {
  }

  lemma InvUse(s: Sys, session: nat)
    requires Inv(s) && Enabled(s, Use(session))
    ensures Inv(Apply(s, Use(session)))
  {
    if s.claims[session].ToMove? {
      InvUseMove(s, session);
    } else {
      InvUseInsert(s, session);
    }
  }

  lemma InvUseMove(s: Sys, session: nat)
    requires Inv(s) && session in s.claims && s.claims[session].ToMove?
    ensures Inv(Apply(s, Use(session)))
  {
  }

  lemma InvUseInsert(s: Sys, session: nat)
    requires Inv(s) && session in s.claims && s.claims[session].ToInsert?
    ensures Inv(Apply(s, Use(session)))
  {
  }

  lemma InvMoveOver(s: Sys, id: nat, dest: nat)
    requires Inv(s) && Enabled(s, MoveOver(id, dest))
    ensures Inv(Apply(s, MoveOver(id, dest)))
  {
  }

  lemma InvDates(s: Sys, name: string, at: int)
    requires Inv(s)
    ensures Inv(Apply(s, SetDates(name, at)))
  {
    assert forall id <- s.db.messages :: Slot(Dated(s.db, name, at).messages[id]) == Slot(s.db.messages[id]);
  }

  lemma InvMessages(s: Sys, ev: Event)
    requires Inv(s) && Enabled(s, ev)
    requires ev.SetFlags? || ev.Delete? || ev.Sweep? || ev.Condemn? || ev.Replace? || ev.Abandon?
    ensures Inv(Apply(s, ev))
  {
    if ev.Delete? || ev.Sweep? {
      InvFewer(s, ev);
    } else if ev.SetFlags? {
      InvFlags(s, ev.id, ev.flags);
    }
  }

  lemma InvFlags(s: Sys, id: nat, flags: string)
    requires Inv(s)
    ensures Inv(Apply(s, SetFlags(id, flags)))
  {
  }

  lemma InvFewer(s: Sys, ev: Event)
    requires Inv(s) && Enabled(s, ev) && (ev.Delete? || ev.Sweep?)
    ensures Inv(Apply(s, ev))
  {
  }

  lemma InvMailboxes(s: Sys, ev: Event)
    requires Inv(s) && Enabled(s, ev)
    requires ev.CreateMailbox? || ev.RenameMailbox? || ev.DeleteMailbox?
    ensures Inv(Apply(s, ev))
  {
  }

  lemma InvKept(s: Sys, ev: Event)
    requires Inv(s) && Enabled(s, ev)
    ensures Inv(Apply(s, ev))
  {
    match ev
    case ClaimInsert(_, _, _) => InvClaim(s, ev);
    case ClaimMove(_, _, _) => InvClaim(s, ev);
    case Use(session) => InvUse(s, session);
    case MoveOver(id, dest) => InvMoveOver(s, id, dest);
    case SetDates(name, at) => InvDates(s, name, at);
    case CreateMailbox(_) => InvMailboxes(s, ev);
    case RenameMailbox(_, _) => InvMailboxes(s, ev);
    case DeleteMailbox(_, _) => InvMailboxes(s, ev);
    case _ => InvMessages(s, ev);
  }

  lemma {:induction false} InvAlways(s: Sys, evs: seq<Event>)
    requires Inv(s) && Legal(s, evs)
    ensures Inv(Exec(s, evs))
    decreases |evs|
  {
    if evs != [] {
      InvKept(s, evs[0]);
      InvAlways(Apply(s, evs[0]), evs[1..]);
    }
  }

  /** UNIQUE(mailbox_id, uid) never fires: no live message and no other session has the
      UID a session holds, so using it always takes effect. */
  lemma UniqueNeverFires(evs: seq<Event>, session: nat)
    requires Legal(EMPTY, evs) && session in Exec(EMPTY, evs).claims
    ensures var s := Exec(EMPTY, evs);
      && !SlotTaken(s.db, ClaimSlot(s.claims[session]))
      && (forall w <- s.claims :: w != session ==> ClaimSlot(s.claims[w]) != ClaimSlot(s.claims[session]))
  {
    InvAlways(EMPTY, evs);
  }

  /** The UID a step gives out, if any. */
  ghost function GivenOut(s: Sys, ev: Event): Option<(nat, nat)>
    requires Enabled(s, ev)
  {
    match ev
    case ClaimInsert(_, mailbox, _) =>
      if mailbox in s.db.mailboxes then Some((mailbox, s.db.mailboxes[mailbox].uidNext)) else None
    case ClaimMove(_, _, mailbox) =>
      if mailbox in s.db.mailboxes then Some((mailbox, s.db.mailboxes[mailbox].uidNext)) else None
    case MoveOver(_, dest) => Some((dest, s.db.mailboxes[dest].uidNext))
    case _ => None
  }

  lemma {:induction false} IssuedGrows(s: Sys, evs: seq<Event>)
    requires Legal(s, evs)
    ensures s.issued <= Exec(s, evs).issued
    decreases |evs|
  {
    if evs != [] {
      IssuedGrows(Apply(s, evs[0]), evs[1..]);
    }
  }

  /** Within a mailbox every UID given out exceeds all given out before it, so no UID is
      ever given out twice, whatever sessions do in between. */
  lemma UidsAscend(s: Sys, first: Event, evs: seq<Event>, second: Event)
    requires Inv(s) && Enabled(s, first) && Legal(Apply(s, first), evs)
    requires Enabled(Exec(Apply(s, first), evs), second)
    ensures var a := GivenOut(s, first);
      var b := GivenOut(Exec(Apply(s, first), evs), second);
      a.Some? && b.Some? && a.value.0 == b.value.0 ==> a.value.1 < b.value.1
  {
    var after := Apply(s, first);
    InvKept(s, first);
    InvAlways(after, evs);
    IssuedGrows(after, evs);
    var a := GivenOut(s, first);
    if a.Some? {
      assert a.value in Exec(after, evs).issued;
    }
  }

  // --------------------------------------------------------- order of additions

  lemma {:induction false} NotIssuedAgain(s: Sys, evs: seq<Event>, slot: (nat, nat))
    requires Legal(s, evs) && slot !in s.issued && slot.0 !in s.db.mailboxes && slot.0 < s.db.nextMailbox
    ensures slot !in Exec(s, evs).issued
    decreases |evs|
  {
    if evs != [] {
      NotIssuedAgain(Apply(s, evs[0]), evs[1..], slot);
    }
  }

  lemma IssueStep(s: Sys, ev: Event, slot: (nat, nat))
    requires Inv(s) && Enabled(s, ev) && slot !in s.issued && slot.0 in s.db.mailboxes
    ensures var next := Apply(s, ev);
      && (slot in next.issued ==> slot.1 >= s.db.mailboxes[slot.0].uidNext)
      && slot.0 < next.db.nextMailbox
      && (slot.0 in next.db.mailboxes ==> next.db.mailboxes[slot.0].uidNext >= s.db.mailboxes[slot.0].uidNext)
  {
  }

  /** A UID given out during a run is not below the uid_next the run began with. */
  lemma {:induction false} IssuedAbove(s: Sys, evs: seq<Event>, slot: (nat, nat))
    requires Inv(s) && Legal(s, evs) && slot !in s.issued && slot in Exec(s, evs).issued
    requires slot.0 in s.db.mailboxes
    ensures slot.1 >= s.db.mailboxes[slot.0].uidNext
    decreases |evs|
  {
    if evs != [] {
      var next := Apply(s, evs[0]);
      IssueStep(s, evs[0], slot);
      InvKept(s, evs[0]);
      if slot !in next.issued {
        if slot.0 in next.db.mailboxes {
          IssuedAbove(next, evs[1..], slot);
        } else {
          NotIssuedAgain(next, evs[1..], slot);
        }
      }
    }
  }

  /** The slot is above every message of its mailbox. */
  ghost predicate Highest(db: Store, slot: (nat, nat)) {
    forall id <- db.messages :: db.messages[id].mailbox == slot.0 ==> db.messages[id].uid < slot.1
  }

  /** A message of the mailbox has a UID that was not yet given out. */
  ghost predicate Overtaken(db: Store, mailbox: nat, issued: set<(nat, nat)>) {
    exists id <- db.messages :: db.messages[id].mailbox == mailbox && Slot(db.messages[id]) !in issued
  }

  /** Right after `mine` is given out, exactly the UIDs given out so far are up to it. */
  lemma BelowIff(s: Sys, evs: seq<Event>, mine: (nat, nat), other: (nat, nat))
    requires Inv(s) && Legal(s, evs) && mine.0 in s.db.mailboxes && s.db.mailboxes[mine.0].uidNext == mine.1 + 1
    requires other in Exec(s, evs).issued && other.0 == mine.0 && other != mine
    ensures other.1 < mine.1 <==> other in s.issued
  {
    if other !in s.issued {
      IssuedAbove(s, evs, other);
    }
  }

  /** Section 2.3.1.1 of RFC 3501 wants a message added to a mailbox to get a UID above all
      that are there.  A session that took its UID and uses it after a run gives it so
      exactly when no message there got its UID during the run. */
  lemma AddedHighestIff(s: Sys, first: Event, evs: seq<Event>, session: nat)
    requires Inv(s) && Enabled(s, first) && (first.ClaimInsert? || first.ClaimMove?) && first.session == session
    requires first.mailbox in s.db.mailboxes && Legal(Apply(s, first), evs)
    requires var claims := Exec(Apply(s, first), evs).claims;
      session in claims && claims[session] == Apply(s, first).claims[session]
    ensures var after := Apply(s, first);
      var end := Exec(after, evs);
      Highest(end.db, ClaimSlot(end.claims[session])) <==> !Overtaken(end.db, first.mailbox, after.issued)
  {
    var after := Apply(s, first);
    var end := Exec(after, evs);
    InvKept(s, first);
    InvAlways(after, evs);
    var slot := ClaimSlot(end.claims[session]);
    assert slot == (first.mailbox, s.db.mailboxes[first.mailbox].uidNext);
    forall id | id in end.db.messages && end.db.messages[id].mailbox == slot.0
      ensures end.db.messages[id].uid < slot.1 <==> Slot(end.db.messages[id]) in after.issued
    {
      assert Slot(end.db.messages[id]) in end.issued && Slot(end.db.messages[id]) != slot;
      BelowIff(after, evs, slot, Slot(end.db.messages[id]));
    }
  }

  /** No two sessions hold UIDs of one mailbox, and what is held is above what is there. */
  ghost predicate Calm(s: Sys) {
    && (forall v, w | v in s.claims && w in s.claims && v != w :: s.claims[v].mailbox != s.claims[w].mailbox)
    && (forall w <- s.claims :: Highest(s.db, ClaimSlot(s.claims[w])))
  }

  /** The step takes no UID of a mailbox of which a session holds one. */
  ghost predicate Waits(s: Sys, ev: Event) {
    match ev
    case ClaimInsert(_, mailbox, _) => forall w <- s.claims :: s.claims[w].mailbox != mailbox
    case ClaimMove(_, _, mailbox) => forall w <- s.claims :: s.claims[w].mailbox != mailbox
    case MoveOver(_, dest) => forall w <- s.claims :: s.claims[w].mailbox != dest
    case _ => true
  }

  ghost predicate AllWait(s: Sys, evs: seq<Event>)
    requires Legal(s, evs)
    decreases |evs|
  {
    evs != [] ==> Waits(s, evs[0]) && AllWait(Apply(s, evs[0]), evs[1..])
  }

  /** A message the step puts into a mailbox gets a UID above all that are there. */
  ghost predicate AddsHighest(s: Sys, ev: Event)
    requires Enabled(s, ev)
  {
    match ev
    case Use(session) => Highest(s.db, ClaimSlot(s.claims[session]))
    case MoveOver(_, dest) => Highest(s.db, (dest, s.db.mailboxes[dest].uidNext))
    case _ => true
  }

  ghost predicate AllAddHighest(s: Sys, evs: seq<Event>)
    requires Legal(s, evs)
    decreases |evs|
  {
    evs != [] ==> AddsHighest(s, evs[0]) && AllAddHighest(Apply(s, evs[0]), evs[1..])
  }

  lemma NextIsHighest(s: Sys, mailbox: nat)
    requires Inv(s) && mailbox in s.db.mailboxes
    ensures Highest(s.db, (mailbox, s.db.mailboxes[mailbox].uidNext))
  {
    forall id | id in s.db.messages && s.db.messages[id].mailbox == mailbox
      ensures s.db.messages[id].uid < s.db.mailboxes[mailbox].uidNext
    {
      assert Slot(s.db.messages[id]) in s.issued;
    }
  }

  lemma CalmClaim(s: Sys, ev: Event)
    requires Inv(s) && Calm(s) && Enabled(s, ev) && Waits(s, ev) && (ev.ClaimInsert? || ev.ClaimMove?)
    ensures Calm(Apply(s, ev))
  {
    if ev.mailbox in s.db.mailboxes {
      NextIsHighest(s, ev.mailbox);
    }
  }

  lemma CalmAdd(s: Sys, ev: Event)
    requires Inv(s) && Calm(s) && Enabled(s, ev) && Waits(s, ev) && (ev.Use? || ev.MoveOver?)
    ensures Calm(Apply(s, ev))
  {
    var next := Apply(s, ev);
    forall w | w in next.claims ensures Highest(next.db, ClaimSlot(next.claims[w])) {
      assert Highest(s.db, ClaimSlot(s.claims[w]));
    }
  }

  lemma CalmStep(s: Sys, ev: Event)
    requires Inv(s) && Calm(s) && Enabled(s, ev) && Waits(s, ev)
    requires !ev.ClaimInsert? && !ev.ClaimMove? && !ev.Use? && !ev.MoveOver?
    ensures Calm(Apply(s, ev))
  {
    var next := Apply(s, ev);
    forall w | w in next.claims ensures Highest(next.db, ClaimSlot(next.claims[w])) {
      assert Highest(s.db, ClaimSlot(s.claims[w]));
    }
  }

  /** When sessions take turns on each mailbox, every addition gets the highest UID. */
  lemma {:induction false} SerialAdditionsAscend(s: Sys, evs: seq<Event>)
    requires Inv(s) && Calm(s) && Legal(s, evs) && AllWait(s, evs)
    ensures AllAddHighest(s, evs) && Calm(Exec(s, evs))
    decreases |evs|
  {
    if evs != [] {
      InvKept(s, evs[0]);
      if evs[0].MoveOver? {
        NextIsHighest(s, evs[0].dest);
      }
      if evs[0].ClaimInsert? || evs[0].ClaimMove? {
        CalmClaim(s, evs[0]);
      } else if evs[0].Use? || evs[0].MoveOver? {
        CalmAdd(s, evs[0]);
      } else {
        CalmStep(s, evs[0]);
      }
      SerialAdditionsAscend(Apply(s, evs[0]), evs[1..]);
    }
  }

  /** Two sessions that do not: UID 2 is in the mailbox before UID 1 is added. */
  lemma AdditionsOutOfOrder(draft: Draft)
    ensures var create := CreateMailbox(Mailbox(1, "INBOX", "", 1));
      var evs := [create] + ([ClaimInsert(1, 1, draft), ClaimInsert(2, 1, draft)] + [Use(2)]);
      && Legal(EMPTY, evs) && Enabled(Exec(EMPTY, evs), Use(1))
      && SlotTaken(Exec(EMPTY, evs).db, (1, 2)) && !SlotTaken(Exec(EMPTY, evs).db, (1, 1))
      && SlotTaken(Apply(Exec(EMPTY, evs), Use(1)).db, (1, 1))
  {
    var create := CreateMailbox(Mailbox(1, "INBOX", "", 1));
    var s1 := Apply(EMPTY, create);
    assert [create][1..] == [] && Legal(s1, []) && Exec(EMPTY, [create]) == s1;
    var c1, c2 := ClaimInsert(1, 1, draft), ClaimInsert(2, 1, draft);
    TwoSteps(s1, c1, c2);
    var s3 := Apply(Apply(s1, c1), c2);
    var s4 := Apply(s3, Use(2));
    assert s4.db.messages[1] == Message(1, 2, draft.content, draft.flags, draft.expires);
    assert [Use(2)][1..] == [] && Legal(s4, []) && Exec(s3, [Use(2)]) == s4;
    ExecConcat(s1, [c1, c2], [Use(2)]);
    ExecConcat(EMPTY, [create], [c1, c2] + [Use(2)]);
    assert Apply(s4, Use(1)).db.messages[2].uid == 1;
  }

  // ------------------------------------------------------------------- no loss

  /** The step is one that is allowed to remove the message, and it is there to be removed. */
  ghost predicate MayRemove(s: Sys, ev: Event, id: nat) {
    id in s.db.messages &&
    match ev
    case Delete(d) => d == id && id in s.condemned
    case Sweep(now) => s.db.messages[id].expires.Some? && s.db.messages[id].expires.value <= now
    case DeleteMailbox(mb, cascade) => cascade && s.db.messages[id].mailbox == mb
    case _ => false
  }

  /** Some step of the run was allowed to remove the message. */
  ghost predicate Accounted(s: Sys, evs: seq<Event>, id: nat)
    requires Legal(s, evs)
    decreases |evs|
  {
    evs != [] && (MayRemove(s, evs[0], id) || Accounted(Apply(s, evs[0]), evs[1..], id))
  }

  /** The step is the last one of a MOVE of the message, which is there to be removed. */
  ghost predicate MovesAway(s: Sys, ev: Event, id: nat) {
    id in s.db.messages &&
    match ev
    case MoveOver(d, _) => d == id
    case Delete(d) => d == id && id in s.replaced
    case _ => false
  }

  ghost predicate MovedAway(s: Sys, evs: seq<Event>, id: nat)
    requires Legal(s, evs)
    decreases |evs|
  {
    evs != [] && (MovesAway(s, evs[0], id) || MovedAway(Apply(s, evs[0]), evs[1..], id))
  }

  /** `contents` is right, and what was replaced has a later copy. */
  ghost predicate History(s: Sys) {
    && (forall id <- s.contents :: id < s.db.nextMessage)
    && (forall id <- s.db.messages :: id in s.contents && s.contents[id] == s.db.messages[id].content)
    && (forall id <- s.replaced :: id in s.contents && exists copy :: IsLaterCopy(s.contents, s.contents[id], id, copy))
  }

  lemma HistoryStep(s: Sys, ev: Event)
    requires History(s) && Enabled(s, ev)
    ensures History(Apply(s, ev))
  {
    var next := Apply(s, ev);
    forall id | id in next.replaced
      ensures id in next.contents && exists copy :: IsLaterCopy(next.contents, next.contents[id], id, copy)
    {
      if id in s.replaced {
        var copy :| IsLaterCopy(s.contents, s.contents[id], id, copy);
        assert IsLaterCopy(next.contents, next.contents[id], id, copy);
      } else {
        assert IsLaterCopy(next.contents, next.contents[id], id, ev.copy);
      }
    }
  }

  lemma {:induction false} HistoryAlways(s: Sys, evs: seq<Event>)
    requires History(s) && Legal(s, evs)
    ensures History(Exec(s, evs))
    ensures forall id <- s.contents :: id in Exec(s, evs).contents && Exec(s, evs).contents[id] == s.contents[id]
    decreases |evs|
  {
    if evs != [] {
      HistoryStep(s, evs[0]);
      HistoryAlways(Apply(s, evs[0]), evs[1..]);
    }
  }

  lemma FateStep(s: Sys, ev: Event, id: nat)
    requires History(s) && Enabled(s, ev) && (id in s.contents ==> id in s.db.messages)
    ensures var next := Apply(s, ev);
      id in next.contents ==> id in next.db.messages || MayRemove(s, ev, id) || MovesAway(s, ev, id)
  {
  }

  lemma {:induction false} Fate(s: Sys, evs: seq<Event>, id: nat)
    requires History(s) && Legal(s, evs) && id in Exec(s, evs).contents
    requires id in s.contents ==> id in s.db.messages
    ensures id in Exec(s, evs).db.messages || Accounted(s, evs, id) || MovedAway(s, evs, id)
    decreases |evs|
  {
    if evs != [] {
      FateStep(s, evs[0], id);
      HistoryStep(s, evs[0]);
      var next := Apply(s, evs[0]);
      if id in next.contents ==> id in next.db.messages {
        Fate(next, evs[1..], id);
      }
    }
  }

  lemma MoveHasCopy(s: Sys, ev: Event, id: nat) returns (copy: nat)
    requires History(s) && Enabled(s, ev) && MovesAway(s, ev, id)
    ensures var next := Apply(s, ev);
      id in next.contents && next.contents[id] == s.contents[id] && IsLaterCopy(next.contents, s.contents[id], id, copy)
  {
    if ev.MoveOver? {
      copy := s.db.nextMessage;
    } else {
      copy :| IsLaterCopy(s.contents, s.contents[id], id, copy);
    }
  }

  /** What was moved away has a later copy. */
  lemma {:induction false} MovedHasCopy(s: Sys, evs: seq<Event>, id: nat)
    requires History(s) && Legal(s, evs) && MovedAway(s, evs, id)
    ensures var contents := Exec(s, evs).contents;
      id in contents && exists copy :: IsLaterCopy(contents, contents[id], id, copy)
    decreases |evs|
  {
    var next := Apply(s, evs[0]);
    HistoryStep(s, evs[0]);
    if MovesAway(s, evs[0], id) {
      var copy := MoveHasCopy(s, evs[0], id);
      HistoryAlways(next, evs[1..]);
      assert IsLaterCopy(Exec(s, evs).contents, next.contents[id], id, copy);
    } else {
      MovedHasCopy(next, evs[1..], id);
    }
  }

  /** Of all messages that ever had the content this is the latest. */
  ghost predicate IsLatest(contents: map<nat, string>, content: string, id: nat) {
    id in contents && contents[id] == content && forall copy :: !IsLaterCopy(contents, content, id, copy)
  }

  lemma {:induction false} LatestExists(contents: map<nat, string>, id: nat, bound: nat) returns (last: nat)
    requires id in contents && forall other <- contents :: other < bound
    ensures IsLatest(contents, contents[id], last)
    decreases bound - id
  {
    if copy :| IsLaterCopy(contents, contents[id], id, copy) {
      last := LatestExists(contents, copy, bound);
    } else {
      last := id;
    }
  }

  /** No loss: every message ever stored is there with its content, or was removed by a step
      allowed to remove it (its deletion when condemned, a sweep after its expiry, or the
      deletion of its mailbox), or by a MOVE, and then a later message got its content. */
  lemma NoLoss(evs: seq<Event>, id: nat)
    requires Legal(EMPTY, evs) && id in Exec(EMPTY, evs).contents
    ensures var end := Exec(EMPTY, evs);
      || (id in end.db.messages && end.db.messages[id].content == end.contents[id])
      || Accounted(EMPTY, evs, id)
      || (MovedAway(EMPTY, evs, id) && exists copy :: IsLaterCopy(end.contents, end.contents[id], id, copy))
  {
    HistoryAlways(EMPTY, evs);
    Fate(EMPTY, evs, id);
    if MovedAway(EMPTY, evs, id) {
      MovedHasCopy(EMPTY, evs, id);
    }
  }

  /** So of the messages that ever had some content the latest is there, or it was removed by
      a step allowed to remove it. */
  lemma LatestNotLost(evs: seq<Event>, content: string) returns (id: nat)
    requires Legal(EMPTY, evs) && content in Exec(EMPTY, evs).contents.Values
    ensures var end := Exec(EMPTY, evs);
      && IsLatest(end.contents, content, id)
      && ((id in end.db.messages && end.db.messages[id].content == content) || Accounted(EMPTY, evs, id))
  {
    var end := Exec(EMPTY, evs);
    HistoryAlways(EMPTY, evs);
    var some :| some in end.contents && end.contents[some] == content;
    id := LatestExists(end.contents, some, end.db.nextMessage);
    NoLoss(evs, id);
  }

  /** A condemned message was condemned by a step of the run, and then it had the flag \Deleted
      (EXPUNGE listed it), or was in the trash, or its owner had no trash mailbox (a webmail
      delete found it so). */
  lemma {:induction false} CondemnedForAReason(s: Sys, evs: seq<Event>, id: nat) returns (n: nat)
    requires Legal(s, evs) && id in Exec(s, evs).condemned
    ensures id in s.condemned ||
      (&& n < |evs| && evs[n].Condemn? && evs[n].id == id && Legal(s, evs[..n])
       && var db := Exec(s, evs[..n]).db;
       && Justified(db, id, evs[n].why)
       && (|| HasFlag(db.messages[id].flags, "\\Deleted")
           || (&& db.messages[id].mailbox in db.mailboxes
               && var mb := db.mailboxes[db.messages[id].mailbox];
               || mb.name == "Trash" || mb.specialUse == "\\Trash"
               || forall other <- db.mailboxes :: db.mailboxes[other].user == mb.user ==>
                    db.mailboxes[other].specialUse != "\\Trash" && db.mailboxes[other].name != "Trash")))
    decreases |evs|
  {
    n := 0;
    if evs != [] && id !in s.condemned {
      if evs[0].Condemn? && evs[0].id == id {
        assert evs[..0] == [];
      } else {
        n := CondemnedForAReason(Apply(s, evs[0]), evs[1..], id);
        assert evs[1..][..n] == evs[..n + 1][1..];
        n := n + 1;
      }
    }
  }

  /** MoveMessage keeps every message in exactly one mailbox: neither of its two steps,
      nor stopping between them, removes, adds or alters any message otherwise. */
  lemma MoveKeepsMessages(s: Sys, ev: Event, id: nat)
    requires Inv(s) && Enabled(s, ev) && id in s.db.messages
    requires ev.ClaimMove? || ev.Abandon? || (ev.Use? && s.claims[ev.session].ToMove?)
    ensures var next := Apply(s, ev);
      && next.db.messages.Keys == s.db.messages.Keys
      && next.db.messages[id].(mailbox := 0, uid := 0) == s.db.messages[id].(mailbox := 0, uid := 0)
      && (next.db.messages[id] != s.db.messages[id] ==>
            ev.Use? && id == s.claims[ev.session].id && next.db.messages[id].mailbox == s.claims[ev.session].mailbox)
  {
  }
}
