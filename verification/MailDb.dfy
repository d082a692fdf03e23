/** The imperative form of the mail store and of the IMAP commands over it
    (internal/storage, internal/imap/fetch.go), for one session at a time. */
module MailDb {
  import opened Collections
  import opened Flags
  import opened MailStore
  import opened ExpungeStream
  import opened Copying

  class Database {
    var mailboxes: map<nat, Mailbox>
    var messages: map<nat, Message>
    var nextMailbox: nat
    var nextMessage: nat

    constructor ()
      ensures State() == EMPTY.db
    {
      mailboxes, messages, nextMailbox, nextMessage := map[], map[], 1, 1;
    }

    function State(): Store
      reads this
    {
      Store(mailboxes, messages, nextMailbox, nextMessage)
    }

    method NextUID(mailbox: nat) returns (uid: Option<nat>)
      modifies this`mailboxes
      ensures mailbox !in old(mailboxes) ==> uid == None && State() == old(State())
      ensures mailbox in old(mailboxes) ==>
        uid == Some(old(mailboxes)[mailbox].uidNext) && State() == Bumped(old(State()), mailbox)
    {
      if mailbox !in mailboxes {
        return None;
      }
      var next := mailboxes[mailbox].uidNext;
      mailboxes := mailboxes[mailbox := mailboxes[mailbox].(uidNext := next + 1)];
      return Some(next);
    }

    /** Stores a message under the next UID; the UNIQUE constraint cannot reject it. */
    method StoreMessage(mailbox: nat, draft: Draft) returns (uid: Option<nat>)
      requires Wf(State())
      modifies this
      ensures mailbox !in old(mailboxes) ==> uid == None && State() == old(State())
      ensures mailbox in old(mailboxes) ==>
        uid == Some(old(mailboxes)[mailbox].uidNext) && State() == StoredInto(old(State()), mailbox, draft)
    {
      uid := NextUID(mailbox);
      if uid.None? {
        return;
      }
      if SlotTaken(State(), (mailbox, uid.value)) {
        assert false;
        return None;
      }
      messages := messages[nextMessage := Message(mailbox, uid.value, draft.content, draft.flags, draft.expires)];
      nextMessage := nextMessage + 1;
    }

    method MoveMessage(id: nat, dest: nat) returns (ok: bool)
      requires Wf(State())
      modifies this`mailboxes, this`messages
      ensures ok == (dest in old(mailboxes))
      ensures State() == if !ok then old(State())
                         else Relocated(Bumped(old(State()), dest), id, dest, old(mailboxes)[dest].uidNext)
    {
      var uid := NextUID(dest);
      if uid.None? {
        return false;
      }
      if id in messages {
        messages := messages[id := messages[id].(mailbox := dest, uid := uid.value)];
      }
      return true;
    }

    method UpdateFlags(id: nat, flags: string)
      modifies this`messages
      ensures State() == Flagged(old(State()), id, flags)
    {
      if id in messages {
        messages := messages[id := messages[id].(flags := flags)];
      }
    }

    method DeleteMessage(id: nat)
      modifies this`messages
      ensures State() == Deleted(old(State()), id)
    {
      messages := messages - {id};
    }

    method DeleteExpiredMessages(now: int) returns (count: nat)
      modifies this`messages
      ensures State() == Swept(old(State()), now)
      ensures count == |set id | id in old(messages) && Expired(old(messages)[id], now)|
      ensures forall id <- old(messages) ::
        id !in messages <==> old(messages)[id].expires.Some? && old(messages)[id].expires.value <= now
    {
      var gone := set id | id in messages && Expired(messages[id], now);
      count := |gone|;
      messages := map id | id in messages && !Expired(messages[id], now) :: messages[id];
    }

    method LeastUid(ids: set<nat>) returns (least: nat)
      requires ids != {} && ids <= messages.Keys
      ensures least in ids && forall id <- ids :: messages[least].uid <= messages[id].uid
    {
      least :| least in ids;
      var rest := ids - {least};
      while rest != {}
        invariant rest <= ids && least in ids
        invariant forall id <- ids - rest :: messages[least].uid <= messages[id].uid
        decreases rest
      {
        var id :| id in rest;
        if messages[id].uid < messages[least].uid {
          least := id;
        }
        rest := rest - {id};
      }
    }

    method ListMessages(mailbox: nat) returns (ids: seq<nat>)
      requires Wf(State())
      ensures IsUidListing(State(), mailbox, ids)
    {
      ids := [];
      var left := set id | id in messages && messages[id].mailbox == mailbox;
      while left != {}
        invariant forall id <- left :: id in messages && messages[id].mailbox == mailbox
        invariant forall id :: id in ids || id in left <==> id in messages && messages[id].mailbox == mailbox
        invariant forall i | 0 <= i < |ids| :: ids[i] in messages && ids[i] !in left
        invariant forall i, j | 0 <= i < j < |ids| :: messages[ids[i]].uid < messages[ids[j]].uid
        invariant forall i, id | 0 <= i < |ids| && id in left :: messages[ids[i]].uid < messages[id].uid
        decreases left
      {
        var id := LeastUid(left);
        forall other | other in left && other != id ensures messages[id].uid < messages[other].uid {
          assert Slot(messages[id]) != Slot(messages[other]);
        }
        ids := ids + [id];
        left := left - {id};
      }
    }
  }

  /** Messages an EXPUNGE takes: marked \Deleted and, for UID EXPUNGE, in the set. */
  function ExpungeMarks(db: Store, ids: seq<nat>, uids: Option<nat -> bool>): seq<bool>
    requires forall i | 0 <= i < |ids| :: ids[i] in db.messages
  {
    seq(|ids|, i requires 0 <= i < |ids| =>
      var m := db.messages[ids[i]];
      HasFlag(m.flags, DELETED) && (uids.None? || uids.value(m.uid)))
  }

  /** What an EXPUNGE is to take: of the mailbox, flagged \Deleted and, for UID EXPUNGE, in the
      set. */
  lemma ExpungedAre(was: Store, mailbox: nat, ids: seq<nat>, uids: Option<nat -> bool>, stop: nat)
    requires IsUidListing(was, mailbox, ids) && stop <= |ids|
    ensures var after := Erased(was, ids, ExpungeMarks(was, ids, uids), stop);
      && (forall id <- was.messages :: id !in after.messages ==>
            && was.messages[id].mailbox == mailbox && HasFlag(was.messages[id].flags, "\\Deleted")
            && (uids.Some? ==> uids.value(was.messages[id].uid)))
      && (stop == 0 ==> forall id <- was.messages |
            && was.messages[id].mailbox == mailbox && HasFlag(was.messages[id].flags, "\\Deleted")
            && (uids.Some? ==> uids.value(was.messages[id].uid)) :: id !in after.messages)
      && (forall id <- after.messages :: id in was.messages && after.messages[id] == was.messages[id])
  {
    forall id | id in was.messages && was.messages[id].mailbox == mailbox
      ensures exists i | 0 <= i < |ids| :: ids[i] == id
    {
      assert id in ids;
    }
  }

  /** Flags of every chosen message rewritten by a STORE. */
  function StoredFlags(db: Store, chosen: set<nat>, sf: StoreFlags): Store {
    db.(messages := map id | id in db.messages ::
          if id in chosen then db.messages[id].(flags := Stored(db.messages[id].flags, sf)) else db.messages[id])
  }

  lemma EraseDown(was: Store, ids: seq<nat>, marks: seq<bool>, i: nat)
    requires NoDup(ids) && |marks| == |ids| && i < |ids| && forall k | 0 <= k < |ids| :: ids[k] in was.messages
    ensures var above := Erased(was, ids, marks, i + 1);
      && ids[i] in above.messages
      && Erased(was, ids, marks, i) == if marks[i] then Deleted(above, ids[i]) else above
  {
    var above := Erased(was, ids, marks, i + 1);
    assert GoneIds(ids, marks, i) == GoneIds(ids, marks, i + 1) + (if marks[i] then {ids[i]} else {});
    assert Deleted(above, ids[i]).messages == was.messages - (GoneIds(ids, marks, i + 1) + {ids[i]});
  }

  lemma EraseNone(was: Store, ids: seq<nat>, marks: seq<bool>)
    requires |marks| == |ids|
    ensures Erased(was, ids, marks, |ids|) == was
  {
    assert GoneIds(ids, marks, |ids|) == {};
    assert was.messages - {} == was.messages;
  }

  /** The messages a map of sequence numbers names. */
  function Named(found: map<nat, nat>, numbers: set<nat>): set<nat> {
    set n | n in numbers && n in found :: found[n]
  }

  ghost predicate Injective(found: map<nat, nat>) {
    forall m, n | m in found && n in found && m != n :: found[m] != found[n]
  }

  lemma NamedAreMarked(ids: seq<nat>, marks: seq<bool>, found: map<nat, nat>)
    requires NoDup(ids) && |marks| == |ids|
    requires forall n :: n in found <==> 1 <= n <= |ids| && marks[n - 1]
    requires forall n <- found :: found[n] == ids[n - 1]
    ensures Injective(found) && Named(found, found.Keys) == GoneIds(ids, marks, 0)
  {
    forall i | 0 <= i < |ids| && marks[i] ensures ids[i] in Named(found, found.Keys) {
      assert i + 1 in found;
    }
  }

  lemma MarksAre(db: Store, ids: seq<nat>, ns: NumSet)
    requires forall i | 0 <= i < |ids| :: ids[i] in db.messages
    ensures forall i | 0 <= i < |ids| :: SelectMarks(db, ids, ns)[i] == Selected(db, ids, ns, i)
  {
  }

  lemma ExtendCopy(was: Store, src: seq<nat>, dest: nat, id: nat)
    requires Wf(was) && dest in was.mailboxes && id in was.messages &&
      forall i | 0 <= i < |src| :: src[i] in was.messages
    ensures var copied := CopyAll(was, src, dest);
      && Wf(copied) && id in copied.messages && copied.messages[id] == was.messages[id]
      && copied.mailboxes[dest].uidNext == was.mailboxes[dest].uidNext + |src|
      && CopyAll(was, src + [id], dest) == StoredInto(copied, dest, DraftOf(was.messages[id]))
  {
    assert (src + [id])[..|src|] == src;
    CopyIsBijection(was, src, dest);
  }

  lemma ExtendLists(was: Store, src: seq<nat>, start: nat, id: nat)
    requires id in was.messages && forall i | 0 <= i < |src| :: src[i] in was.messages
    requires NoDup(src) && id !in Range(src)
    ensures NoDup(src + [id]) && Range(src + [id]) == Range(src) + {id}
    ensures forall i | 0 <= i < |src + [id]| :: (src + [id])[i] in was.messages
    ensures UidsOf(was, src + [id]) == UidsOf(was, src) + [was.messages[id].uid]
    ensures Block(start, |src + [id]|) == Block(start, |src|) + [start + |src|]
  {
    assert id !in src;
  }

  lemma NamedOneMore(found: map<nat, nat>, numbers: set<nat>, n: nat)
    requires Injective(found) && n in found && n !in numbers && numbers <= found.Keys
    ensures Named(found, numbers + {n}) == Named(found, numbers) + {found[n]}
    ensures found[n] !in Named(found, numbers)
  {
  }

  lemma StoredOneMore(was: Store, chosen: set<nat>, id: nat, sf: StoreFlags)
    requires id in was.messages && id !in chosen
    ensures id in StoredFlags(was, chosen, sf).messages
    ensures StoredFlags(was, chosen, sf).messages[id] == was.messages[id]
    ensures StoredFlags(was, chosen + {id}, sf)
         == Flagged(StoredFlags(was, chosen, sf), id, Stored(was.messages[id].flags, sf))
  {
  }

  /** What storing a copy runs into: nothing, no UID, or a UID and no insertion. */
  datatype Fault = Fine | NoUid | NoInsert

  /** `now` is `was` with some of the chosen messages copied in some order: with all of them
      exactly when none has a fault, else with those before the fault and, when only the
      insertion failed, one UID used up. */
  ghost predicate CopiedUpTo(was: Store, now: Store, src: seq<nat>, dest: nat, chosen: set<nat>,
                             faults: nat -> Fault, ok: bool) {
    && dest in was.mailboxes && NoDup(src) && Range(src) <= chosen
    && (forall i | 0 <= i < |src| :: src[i] in was.messages && faults(src[i]).Fine?)
    && (ok <==> forall id <- chosen :: faults(id).Fine?)
    && (ok ==> Range(src) == chosen)
    && (now == CopyAll(was, src, dest) || (!ok && now == Bumped(CopyAll(was, src, dest), dest)))
  }

  /** `done` are all the chosen exactly when no update fails, else some without a failure. */
  ghost predicate StoredUpTo(chosen: set<nat>, done: set<nat>, fails: nat -> bool, ok: bool) {
    && done <= chosen && (forall id <- done :: !fails(id))
    && (ok <==> forall id <- chosen :: !fails(id))
    && (ok ==> done == chosen)
  }

  class ImapSession {
    const db: Database
    var selected: Option<nat>

    constructor (db: Database)
      ensures this.db == db && selected == None
    {
      this.db, selected := db, None;
    }

    /** EXPUNGE as written.  `fails(id)` says that deleting a row fails, which ends the
        command with the messages at index `stop` and above done.  */
    method Expunge(uids: Option<nat -> bool>, fails: nat -> bool)
      returns (stream: seq<int>, ok: bool, ghost ids: seq<nat>, ghost stop: nat)
      requires Wf(db.State())
      modifies db`messages
      ensures selected.None? ==> !ok && stream == [] && db.State() == old(db.State())
      ensures selected.Some? ==>
        && IsUidListing(old(db.State()), selected.value, ids) && stop <= |ids| && (ok ==> stop == 0)
        && stream == Written(ExpungeMarks(old(db.State()), ids, uids), stop)
        && db.State() == Erased(old(db.State()), ids, ExpungeMarks(old(db.State()), ids, uids), stop)
      ensures forall id <- old(db.messages) :: id !in db.messages ==>
        && selected == Some(old(db.messages)[id].mailbox) && HasFlag(old(db.messages)[id].flags, "\\Deleted")
        && (uids.Some? ==> uids.value(old(db.messages)[id].uid))
      ensures ok ==> forall id <- old(db.messages) |
        && selected == Some(old(db.messages)[id].mailbox) && HasFlag(old(db.messages)[id].flags, "\\Deleted")
        && (uids.Some? ==> uids.value(old(db.messages)[id].uid)) :: id !in db.messages
      ensures forall id <- db.messages :: id in old(db.messages) && db.messages[id] == old(db.messages)[id]
    {
      stream, ids, stop := [], [], 0;
      if selected.None? {
        return stream, false, ids, stop;
      }
      var msgs := db.ListMessages(selected.value);
      ids := msgs;
      ListingNoDup(db.State(), selected.value, ids);
      stream, ok, stop := ExpungeListed(msgs, uids, fails);
      ExpungedAre(old(db.State()), selected.value, ids, uids, stop);
    }

    method ExpungeListed(msgs: seq<nat>, uids: Option<nat -> bool>, fails: nat -> bool)
      returns (stream: seq<int>, ok: bool, ghost stop: nat)
      requires NoDup(msgs) && forall i | 0 <= i < |msgs| :: msgs[i] in db.messages
      modifies db`messages
      ensures stop <= |msgs| && (ok ==> stop == 0)
      ensures stream == Written(ExpungeMarks(old(db.State()), msgs, uids), stop)
      ensures db.State() == Erased(old(db.State()), msgs, ExpungeMarks(old(db.State()), msgs, uids), stop)
    {
      ghost var was := db.State();
      ghost var marks := ExpungeMarks(was, msgs, uids);
      EraseNone(was, msgs, marks);
      stream := [];
      var deleted := 0;
      var i := |msgs|;
      while i > 0
        invariant 0 <= i <= |msgs|
        invariant deleted == Count(marks, i)
        invariant stream == Written(marks, i)
        invariant db.State() == Erased(was, msgs, marks, i)
      {
        i := i - 1;
        EraseDown(was, msgs, marks, i);
        var id := msgs[i];
        var m := db.messages[id];
        if !HasFlag(m.flags, DELETED) {
          continue;
        }
        if uids.Some? && !uids.value(m.uid) {
          continue;
        }
        var seqNum := i + 1 - deleted;
        if fails(id) {
          return stream, false, i + 1;
        }
        db.DeleteMessage(id);
        stream := stream + [seqNum];
        deleted := deleted + 1;
      }
      return stream, true, 0;
    }

    /** The selected messages by sequence number. */
    method ResolveNumSet(ids: seq<nat>, ns: NumSet) returns (found: map<nat, nat>)
      requires forall i | 0 <= i < |ids| :: ids[i] in db.messages
      ensures forall n :: n in found <==> 1 <= n <= |ids| && Selected(db.State(), ids, ns, n - 1)
      ensures forall n <- found :: found[n] == ids[n - 1]
    {
      found := map[];
      for i := 0 to |ids|
        invariant forall n :: n in found <==> 1 <= n <= i && Selected(db.State(), ids, ns, n - 1)
        invariant forall n <- found :: found[n] == ids[n - 1]
      {
        if Selected(db.State(), ids, ns, i) {
          found := found[i + 1 := ids[i]];
        }
      }
    }

    /** List and resolve: the selected messages of the mailbox, by sequence number. */
    method ListSelected(mailbox: nat, ns: NumSet) returns (matching: map<nat, nat>, ghost ids: seq<nat>)
      requires Wf(db.State())
      ensures IsUidListing(db.State(), mailbox, ids) && Injective(matching)
      ensures forall n <- matching :: matching[n] in db.messages
      ensures Named(matching, matching.Keys) == GoneIds(ids, SelectMarks(db.State(), ids, ns), 0)
    {
      var msgs := db.ListMessages(mailbox);
      ids := msgs;
      ListingNoDup(db.State(), mailbox, ids);
      matching := ResolveNumSet(msgs, ns);
      NamedAreMarked(ids, SelectMarks(db.State(), ids, ns), matching);
    }

    /** COPY: the map of selected messages is walked in an arbitrary order; `src` are those
        copied.  `faults` says for which messages storing the copy fails, and where. */
    method Copy(ns: NumSet, dest: nat, faults: nat -> Fault)
      returns (srcUids: seq<nat>, destUids: seq<nat>, ok: bool, ghost ids: seq<nat>, ghost src: seq<nat>)
      requires Wf(db.State())
      modifies db
      ensures selected.None? || dest !in old(db.mailboxes) ==> !ok && db.State() == old(db.State())
      ensures selected.Some? && dest in old(db.mailboxes) ==>
        && IsUidListing(old(db.State()), selected.value, ids)
        && var chosen := GoneIds(ids, SelectMarks(old(db.State()), ids, ns), 0);
        && CopiedUpTo(old(db.State()), db.State(), src, dest, chosen, faults, ok)
        && (ok ==> Selects(old(db.State()), ids, ns, src))
      ensures ok ==>
        && db.State() == CopyAll(old(db.State()), src, dest)
        && srcUids == UidsOf(old(db.State()), src)
        && destUids == Block(old(db.mailboxes)[dest].uidNext, |src|)
      ensures !ok ==> srcUids == [] && destUids == []
    {
      srcUids, destUids, ids, src := [], [], [], [];
      if selected.None? || dest !in db.mailboxes {
        return srcUids, destUids, false, ids, src;
      }
      var matching;
      matching, ids := ListSelected(selected.value, ns);
      srcUids, destUids, ok, src := CopyNamed(matching, dest, faults);
    }

    method CopyNamed(matching: map<nat, nat>, dest: nat, faults: nat -> Fault)
      returns (srcUids: seq<nat>, destUids: seq<nat>, ok: bool, ghost src: seq<nat>)
      requires Wf(db.State()) && Injective(matching) && dest in db.mailboxes
      requires forall n <- matching :: matching[n] in db.messages
      modifies db
      ensures CopiedUpTo(old(db.State()), db.State(), src, dest, Named(matching, matching.Keys), faults, ok)
      ensures ok ==>
        && Range(src) == Named(matching, matching.Keys)
        && srcUids == UidsOf(old(db.State()), src)
        && destUids == Block(old(db.mailboxes)[dest].uidNext, |src|)
      ensures !ok ==> srcUids == [] && destUids == []
    {
      srcUids, destUids, src := [], [], [];
      ghost var was := db.State();
      var left := matching.Keys;
      ghost var done := {};
      while left != {}
        invariant done !! left && done + left == matching.Keys
        invariant NoDup(src) && Range(src) == Named(matching, done)
        invariant forall i | 0 <= i < |src| :: src[i] in was.messages && faults(src[i]).Fine?
        invariant db.State() == CopyAll(was, src, dest)
        invariant srcUids == UidsOf(was, src)
        invariant destUids == Block(was.mailboxes[dest].uidNext, |src|)
        decreases left
      {
        var n :| n in left;
        var id := matching[n];
        NamedOneMore(matching, done, n);
        match faults(id) {
          case Fine =>
            ExtendLists(was, src, was.mailboxes[dest].uidNext, id);
            var srcUid, destUid := CopyOne(id, dest, was, src);
            src := src + [id];
            srcUids := srcUids + [srcUid];
            destUids := destUids + [destUid];
            left, done := left - {n}, done + {n};
          case NoInsert =>
            var uid := db.NextUID(dest);
            assert id in Named(matching, matching.Keys);
            return [], [], false, src;
          case NoUid =>
            assert id in Named(matching, matching.Keys);
            return [], [], false, src;
        }
      }
      assert done == matching.Keys;
      ok := true;
    }

    method CopyOne(id: nat, dest: nat, ghost was: Store, ghost src: seq<nat>) returns (srcUid: nat, destUid: nat)
      requires Wf(was) && dest in was.mailboxes && id in was.messages
      requires forall i | 0 <= i < |src| :: src[i] in was.messages
      requires db.State() == CopyAll(was, src, dest)
      modifies db
      ensures db.State() == CopyAll(was, src + [id], dest)
      ensures srcUid == was.messages[id].uid && destUid == was.mailboxes[dest].uidNext + |src|
    {
      ExtendCopy(was, src, dest, id);
      var m := db.messages[id];
      srcUid := m.uid;
      var uid := db.StoreMessage(dest, Draft(m.content, m.flags, m.expires));
      destUid := uid.value;
    }

    /** MOVE: copy, resolve the set again, delete from the highest position down to index
        `stop`, where a failing deletion ends the command. */
    method Move(ns: NumSet, dest: nat, faults: nat -> Fault, fails: nat -> bool)
      returns (stream: seq<int>, copied: bool, ok: bool,
               ghost ids: seq<nat>, ghost src: seq<nat>, ghost again: seq<nat>, ghost stop: nat)
      requires Wf(db.State())
      modifies db
      ensures selected.None? || dest !in old(db.mailboxes) ==> !copied && db.State() == old(db.State())
      ensures !copied ==> stream == [] && !ok
      ensures selected.Some? && dest in old(db.mailboxes) && !copied ==>
        && IsUidListing(old(db.State()), selected.value, ids)
        && var chosen := GoneIds(ids, SelectMarks(old(db.State()), ids, ns), 0);
        && CopiedUpTo(old(db.State()), db.State(), src, dest, chosen, faults, false)
      ensures copied ==>
        && selected.Some? && dest in old(db.mailboxes)
        && IsUidListing(old(db.State()), selected.value, ids) && Selects(old(db.State()), ids, ns, src)
        && (forall i | 0 <= i < |src| :: src[i] in old(db.messages))
        && var middle := CopyAll(old(db.State()), src, dest);
        && IsUidListing(middle, selected.value, again) && stop <= |again|
        && stream == Descending(SelectMarks(middle, again, ns), stop)
        && db.State() == Erased(middle, again, SelectMarks(middle, again, ns), stop)
      ensures ok ==> copied && db.State() == MoveResult(old(db.State()), src, dest, ns, again)
    {
      stream, ok, again, stop := [], false, [], 0;
      ghost var was := db.State();
      var srcUids, destUids;
      srcUids, destUids, copied, ids, src := Copy(ns, dest, faults);
      if !copied {
        return;
      }
      CopyIsBijection(was, src, dest);
      stream, ok, again, stop := DeleteSelected(selected.value, ns, fails);
    }

    /** The second half of MOVE: list, resolve, delete. */
    method DeleteSelected(mailbox: nat, ns: NumSet, fails: nat -> bool)
      returns (stream: seq<int>, ok: bool, ghost again: seq<nat>, ghost stop: nat)
      requires Wf(db.State())
      modifies db`messages
      ensures IsUidListing(old(db.State()), mailbox, again) && stop <= |again| && (ok ==> stop == 0)
      ensures stream == Descending(SelectMarks(old(db.State()), again, ns), stop)
      ensures db.State() == Erased(old(db.State()), again, SelectMarks(old(db.State()), again, ns), stop)
    {
      var msgs := db.ListMessages(mailbox);
      again := msgs;
      var matching := ResolveNumSet(msgs, ns);
      ghost var marks := SelectMarks(db.State(), again, ns);
      MarksAre(db.State(), again, ns);
      assert NoDup(again) by { ListingNoDup(db.State(), mailbox, again); }
      stream, ok, stop := DeleteDescending(msgs, matching, marks, fails);
    }

    /** The keys in descending order, each message deleted and its position reported. */
    method DeleteDescending(ids: seq<nat>, matching: map<nat, nat>, ghost marks: seq<bool>, fails: nat -> bool)
      returns (stream: seq<int>, ok: bool, ghost stop: nat)
      requires |marks| == |ids| && forall n :: n in matching <==> 1 <= n <= |ids| && marks[n - 1]
      requires forall n <- matching :: matching[n] == ids[n - 1]
      requires NoDup(ids) && forall i | 0 <= i < |ids| :: ids[i] in db.messages
      modifies db`messages
      ensures stop <= |ids| && (ok ==> stop == 0)
      ensures stream == Descending(marks, stop)
      ensures db.State() == Erased(old(db.State()), ids, marks, stop)
    {
      ghost var was := db.State();
      EraseNone(was, ids, marks);
      stream := [];
      var n := |ids|;
      while n > 0
        invariant 0 <= n <= |ids|
        invariant stream == Descending(marks, n)
        invariant db.State() == Erased(was, ids, marks, n)
      {
        EraseDown(was, ids, marks, n - 1);
        if n in matching {
          if fails(matching[n]) {
            return stream, false, n;
          }
          db.DeleteMessage(matching[n]);
          stream := stream + [n];
        }
        n := n - 1;
      }
      return stream, true, 0;
    }

    /** STORE: the flags of every selected message, in an arbitrary order, until an update
        fails; `done` are those rewritten. */
    method StoreCommand(ns: NumSet, sf: StoreFlags, fails: nat -> bool)
      returns (ok: bool, ghost ids: seq<nat>, ghost done: set<nat>)
      requires Wf(db.State())
      modifies db`messages
      ensures selected.None? ==> !ok && db.State() == old(db.State())
      ensures selected.Some? ==>
        && IsUidListing(old(db.State()), selected.value, ids)
        && var chosen := GoneIds(ids, SelectMarks(old(db.State()), ids, ns), 0);
        && StoredUpTo(chosen, done, fails, ok)
        && db.State() == StoredFlags(old(db.State()), done, sf)
      ensures db.messages.Keys == old(db.messages).Keys
      ensures forall id <- db.messages ::
        db.messages[id] == old(db.messages)[id].(flags :=
          if id in done then Stored(old(db.messages)[id].flags, sf) else old(db.messages)[id].flags)
    {
      ids, done := [], {};
      if selected.None? {
        return false, ids, done;
      }
      var matching;
      matching, ids := ListSelected(selected.value, ns);
      ok, done := StoreNamed(matching, sf, fails);
    }

    method StoreNamed(matching: map<nat, nat>, sf: StoreFlags, fails: nat -> bool)
      returns (ok: bool, ghost done: set<nat>)
      requires Injective(matching) && forall n <- matching :: matching[n] in db.messages
      modifies db`messages
      ensures StoredUpTo(Named(matching, matching.Keys), done, fails, ok)
      ensures db.State() == StoredFlags(old(db.State()), done, sf)
    {
      ghost var was := db.State();
      var left := matching.Keys;
      ghost var numbers := {};
      done := {};
      while left != {}
        invariant numbers !! left && numbers + left == matching.Keys
        invariant done == Named(matching, numbers) && forall id <- done :: !fails(id)
        invariant db.State() == StoredFlags(was, done, sf)
        decreases left
      {
        var n :| n in left;
        var id := matching[n];
        NamedOneMore(matching, numbers, n);
        StoredOneMore(was, done, id, sf);
        var flags := ApplyStoreFlags(db.messages[id].flags, sf);
        if fails(id) {
          assert id in Named(matching, matching.Keys);
          return false, done;
        }
        db.UpdateFlags(id, flags);
        left, numbers, done := left - {n}, numbers + {n}, done + {id};
      }
      assert numbers == matching.Keys;
      ok := true;
    }
  }

  predicate IsNamed(db: Store, mailbox: nat, user: nat, name: string) {
    mailbox in db.mailboxes && db.mailboxes[mailbox].user == user && db.mailboxes[mailbox].name == name
  }

  /** What a webmail delete comes to, by name and special use of the user's mailboxes. */
  lemma DeletedOrMoved(was: Store, now: Store, user: nat, listing: seq<nat>, mailbox: nat, gone: nat)
    requires mailbox in was.mailboxes && was.mailboxes[mailbox].user == user && IsListing(was, user, listing)
    requires gone in was.messages && was.messages[gone].mailbox == mailbox
    requires match DeleteVerdict(was, listing, mailbox)
             case Erase => now == Deleted(was, gone)
             case MoveTo(trash) =>
               trash in was.mailboxes && now == Relocated(Bumped(was, trash), gone, trash, was.mailboxes[trash].uidNext)
    ensures var boxes := was.mailboxes;
      (gone !in now.messages <==>
        || boxes[mailbox].name == "Trash"
        || (forall mb <- boxes :: boxes[mb].user == user ==>
              boxes[mb].specialUse != "\\Trash" && boxes[mb].name != "Trash")
        || (exists i | 0 <= i < |listing| ::
              && listing[i] == mailbox && boxes[mailbox].specialUse == "\\Trash"
              && forall j | i < j < |listing| ::
                   boxes[listing[j]].specialUse != "\\Trash" && boxes[listing[j]].name != "Trash"))
    ensures gone in now.messages ==>
      var boxes := was.mailboxes;
      && now.messages[gone].(mailbox := 0, uid := 0) == was.messages[gone].(mailbox := 0, uid := 0)
      && exists i | 0 <= i < |listing| ::
           && listing[i] == now.messages[gone].mailbox
           && (boxes[listing[i]].specialUse == "\\Trash" || boxes[listing[i]].name == "Trash")
           && forall j | i < j < |listing| ::
                boxes[listing[j]].specialUse != "\\Trash" && boxes[listing[j]].name != "Trash"
    ensures DeleteVerdict(was, listing, mailbox).Erase? ==> Justified(was, gone, Discarded(listing))
    ensures now.messages.Keys + {gone} == was.messages.Keys
    ensures forall id <- now.messages :: id != gone ==> now.messages[id] == was.messages[id]
  {
    VerdictIs(was, user, listing, mailbox);
  }

  /** The move, flags and delete handlers of internal/webmail/api_message.go. */
  class Webmail {
    const db: Database

    constructor (db: Database)
      ensures this.db == db
    {
      this.db := db;
    }

    /** A user's mailboxes, in some order. */
    method ListMailboxes(user: nat) returns (listing: seq<nat>)
      ensures IsListing(db.State(), user, listing)
    {
      listing := [];
      var left := set mb | mb in db.mailboxes && db.mailboxes[mb].user == user;
      while left != {}
        invariant forall mb :: mb in listing || mb in left <==> mb in db.mailboxes && db.mailboxes[mb].user == user
        invariant NoDup(listing) && forall mb <- left :: mb !in listing
        decreases left
      {
        var mb :| mb in left;
        NoDupAppend(listing, mb);
        listing := listing + [mb];
        left := left - {mb};
      }
    }

    predicate Owns(user: nat, mailbox: nat)
      reads db
    {
      mailbox in db.mailboxes && db.mailboxes[mailbox].user == user
    }

    /** The move handler: one message, to the user's mailbox of that name. */
    method HandleMove(user: nat, mailbox: nat, uid: nat, name: string)
      returns (ok: bool, ghost moved: nat, ghost dest: nat)
      requires Wf(db.State())
      modifies db`mailboxes, db`messages
      ensures ok <==> old(Owns(user, mailbox)) && SlotTaken(old(db.State()), (mailbox, uid))
                      && exists mb <- old(db.mailboxes) :: IsNamed(old(db.State()), mb, user, name)
      ensures !ok ==> db.State() == old(db.State())
      ensures ok ==>
        && moved in old(db.messages) && Slot(old(db.messages)[moved]) == (mailbox, uid)
        && dest in old(db.mailboxes) && IsNamed(old(db.State()), dest, user, name)
        && old(db.mailboxes)[dest].user == user && old(db.mailboxes)[dest].name == name
        && db.State() == Relocated(Bumped(old(db.State()), dest), moved, dest, old(db.mailboxes)[dest].uidNext)
        && db.messages == old(db.messages)[moved :=
             old(db.messages)[moved].(mailbox := dest, uid := old(db.mailboxes)[dest].uidNext)]
    {
      moved, dest := 0, 0;
      if !Owns(user, mailbox) || !(exists mb <- db.mailboxes :: IsNamed(db.State(), mb, user, name))
         || !SlotTaken(db.State(), (mailbox, uid)) {
        return false, moved, dest;
      }
      var mb :| mb in db.mailboxes && IsNamed(db.State(), mb, user, name);
      var id :| id in db.messages && Slot(db.messages[id]) == (mailbox, uid);
      moved, dest := id, mb;
      ok := db.MoveMessage(id, mb);
    }

    /** The flags handler: adds, then removes; as sets, union and then difference. */
    method HandleUpdateFlags(user: nat, mailbox: nat, uid: nat, add: seq<string>, remove: seq<string>)
      returns (ok: bool, flags: string, ghost id: nat)
      requires Wf(db.State())
      modifies db`messages
      ensures ok <==> Owns(user, mailbox) && SlotTaken(old(db.State()), (mailbox, uid))
      ensures !ok ==> db.State() == old(db.State())
      ensures ok ==>
        && id in old(db.messages) && Slot(old(db.messages)[id]) == (mailbox, uid)
        && db.State() == Flagged(old(db.State()), id, flags)
        && db.messages == old(db.messages)[id := old(db.messages)[id].(flags := flags)]
        && ((forall f <- add :: IsFlag(f)) ==>
              FlagSet(flags) == FlagSet(old(db.messages)[id].flags) + FoldedSet(add) - FoldedSet(remove))
    {
      flags, id := "", 0;
      if !Owns(user, mailbox) || !SlotTaken(db.State(), (mailbox, uid)) {
        return false, flags, id;
      }
      var found :| found in db.messages && Slot(db.messages[found]) == (mailbox, uid);
      id := found;
      var added := ApplyStoreFlags(db.messages[found].flags, StoreFlags(Add, add));
      flags := ApplyStoreFlags(added, StoreFlags(Del, remove));
      if forall f <- add :: IsFlag(f) {
        AddAllIsUnion(db.messages[found].flags, add);
      }
      RemoveAllIsDifference(added, remove);
      db.UpdateFlags(found, flags);
      ok := true;
    }

    /** Erase a message that is in trash (or when there is no trash), else move it there. */
    method HandleDelete(user: nat, mailbox: nat, uid: nat)
      returns (found: bool, ghost listing: seq<nat>, ghost gone: nat)
      requires Wf(db.State())
      modifies db`mailboxes, db`messages
      ensures found <==> old(Owns(user, mailbox)) && SlotTaken(old(db.State()), (mailbox, uid))
      ensures !found ==> db.State() == old(db.State())
      ensures found ==>
        && IsListing(old(db.State()), user, listing)
        && gone in old(db.messages) && Slot(old(db.messages)[gone]) == (mailbox, uid)
        && match DeleteVerdict(old(db.State()), listing, mailbox)
           case Erase =>
             && db.State() == Deleted(old(db.State()), gone)
             && Justified(old(db.State()), gone, Discarded(listing))
           case MoveTo(trash) =>
             && trash in old(db.mailboxes)
             && db.State() == Relocated(Bumped(old(db.State()), trash), gone, trash, old(db.mailboxes)[trash].uidNext)
      ensures found ==>
        var boxes := old(db.mailboxes);
        (gone !in db.messages <==>
          || boxes[mailbox].name == "Trash"
          || (forall mb <- boxes :: boxes[mb].user == user ==>
                boxes[mb].specialUse != "\\Trash" && boxes[mb].name != "Trash")
          || (exists i | 0 <= i < |listing| ::
                && listing[i] == mailbox && boxes[mailbox].specialUse == "\\Trash"
                && forall j | i < j < |listing| ::
                     boxes[listing[j]].specialUse != "\\Trash" && boxes[listing[j]].name != "Trash"))
      ensures found && gone in db.messages ==>
        var boxes := old(db.mailboxes);
        && db.messages[gone].(mailbox := 0, uid := 0) == old(db.messages)[gone].(mailbox := 0, uid := 0)
        && exists i | 0 <= i < |listing| ::
             && listing[i] == db.messages[gone].mailbox
             && (boxes[listing[i]].specialUse == "\\Trash" || boxes[listing[i]].name == "Trash")
             && forall j | i < j < |listing| ::
                  boxes[listing[j]].specialUse != "\\Trash" && boxes[listing[j]].name != "Trash"
      ensures found ==>
        && db.messages.Keys + {gone} == old(db.messages).Keys
        && forall id <- db.messages :: id != gone ==> db.messages[id] == old(db.messages)[id]
    {
      listing, gone := [], 0;
      if mailbox !in db.mailboxes || db.mailboxes[mailbox].user != user || !SlotTaken(db.State(), (mailbox, uid)) {
        return false, listing, gone;
      }
      var id :| id in db.messages && Slot(db.messages[id]) == (mailbox, uid);
      gone := id;
      listing := EraseOrMove(user, mailbox, id);
      found := true;
      DeletedOrMoved(old(db.State()), db.State(), user, listing, mailbox, gone);
    }

    /** The part of the handler after its checks. */
    method EraseOrMove(user: nat, mailbox: nat, id: nat) returns (ghost listing: seq<nat>)
      requires Wf(db.State()) && Owns(user, mailbox) && id in db.messages && db.messages[id].mailbox == mailbox
      modifies db`mailboxes, db`messages
      ensures IsListing(old(db.State()), user, listing)
      ensures match DeleteVerdict(old(db.State()), listing, mailbox)
              case Erase => db.State() == Deleted(old(db.State()), id)
              case MoveTo(trash) =>
                && trash in old(db.mailboxes)
                && db.State() == Relocated(Bumped(old(db.State()), trash), id, trash, old(db.mailboxes)[trash].uidNext)
    {
      var boxes := ListMailboxes(user);
      listing := boxes;
      var trash, current := FindTrash(boxes, mailbox);
      if current == "Trash" || (trash.Some? && mailbox == trash.value) {
        db.DeleteMessage(id);
      } else if trash.Some? {
        var moved := db.MoveMessage(id, trash.value);
      } else {
        db.DeleteMessage(id);
      }
    }

    /** The handler's loop over the listing. */
    method FindTrash(boxes: seq<nat>, mailbox: nat) returns (trash: Option<nat>, current: string)
      requires forall mb <- boxes :: mb in db.mailboxes
      ensures trash == TrashOf(db.State(), boxes)
      ensures current == if mailbox in boxes then db.mailboxes[mailbox].name else ""
    {
      trash, current := None, "";
      for i := 0 to |boxes|
        invariant trash == TrashOf(db.State(), boxes[..i])
        invariant current == if mailbox in boxes[..i] then db.mailboxes[mailbox].name else ""
      {
        var mb := db.mailboxes[boxes[i]];
        assert boxes[..i + 1] == boxes[..i] + [boxes[i]];
        if mb.specialUse == "\\Trash" || mb.name == "Trash" {
          trash := Some(boxes[i]);
        }
        if boxes[i] == mailbox {
          current := mb.name;
        }
      }
      assert boxes[..|boxes|] == boxes;
    }
  }
}
