/** The commands of MailDb as runs of the interleaved store: EXPUNGE, COPY, delivery and the
    webmail handlers take only the steps that MailStore allows, so what is proved of its
    runs holds of them. */
module MailRuns {
  import opened Collections
  import opened Flags
  import opened MailStore
  import opened ExpungeStream
  import opened Copying
  import opened MailDb

  // ------------------------------------------------------------------- expunge

  /** EXPUNGE decides, when it lists the mailbox, on the first n messages ... */
  function CondemnSteps(ids: seq<nat>, marks: seq<bool>, n: nat): seq<Event>
    requires |marks| == |ids| && n <= |ids|
  {
    if n == 0 then []
    else CondemnSteps(ids, marks, n - 1) + (if marks[n - 1] then [Condemn(ids[n - 1], MarkedDeleted)] else [])
  }

  /** ... and deletes from the highest down to index `stop`. */
  function DeleteSteps(ids: seq<nat>, marks: seq<bool>, stop: nat): seq<Event>
    requires |marks| == |ids| && stop <= |ids|
    decreases |ids| - stop
  {
    if stop == |ids| then []
    else DeleteSteps(ids, marks, stop + 1) + (if marks[stop] then [Delete(ids[stop])] else [])
  }

  function ExpungeSteps(ids: seq<nat>, marks: seq<bool>, stop: nat): seq<Event>
    requires |marks| == |ids| && stop <= |ids|
  {
    CondemnSteps(ids, marks, |ids|) + DeleteSteps(ids, marks, stop)
  }

  lemma {:induction false} CondemnRun(s: Sys, ids: seq<nat>, marks: seq<bool>, n: nat)
    requires |marks| == |ids| && n <= |ids|
    requires forall i | 0 <= i < |ids| && marks[i] :: Justified(s.db, ids[i], MarkedDeleted)
    ensures Legal(s, CondemnSteps(ids, marks, n))
    ensures var r := Exec(s, CondemnSteps(ids, marks, n));
      r.db == s.db && r.claims == s.claims && forall i | 0 <= i < n && marks[i] :: ids[i] in r.condemned
  {
    if n > 0 {
      CondemnRun(s, ids, marks, n - 1);
      var before := CondemnSteps(ids, marks, n - 1);
      if marks[n - 1] {
        ExecSnoc(s, before, Condemn(ids[n - 1], MarkedDeleted));
      } else {
        assert before + [] == before;
      }
    }
  }

  lemma {:induction false} DeleteRun(s: Sys, ids: seq<nat>, marks: seq<bool>, stop: nat)
    requires NoDup(ids) && |marks| == |ids| && stop <= |ids| && forall i | 0 <= i < |ids| :: ids[i] in s.db.messages
    requires forall i | 0 <= i < |ids| && marks[i] :: ids[i] in s.condemned
    ensures Legal(s, DeleteSteps(ids, marks, stop))
    ensures var r := Exec(s, DeleteSteps(ids, marks, stop));
      r.db == Erased(s.db, ids, marks, stop) && r.condemned == s.condemned && r.claims == s.claims
    decreases |ids| - stop
  {
    if stop == |ids| {
      EraseNone(s.db, ids, marks);
    } else {
      DeleteRun(s, ids, marks, stop + 1);
      EraseDown(s.db, ids, marks, stop);
      var before := DeleteSteps(ids, marks, stop + 1);
      if marks[stop] {
        ExecSnoc(s, before, Delete(ids[stop]));
      } else {
        assert before + [] == before;
      }
    }
  }

  /** EXPUNGE is a run: every message it deletes was listed with \Deleted. */
  lemma ExpungeIsRun(s: Sys, mailbox: nat, ids: seq<nat>, uids: Option<nat -> bool>, stop: nat)
    requires IsUidListing(s.db, mailbox, ids) && stop <= |ids|
    ensures var marks := ExpungeMarks(s.db, ids, uids);
      && Legal(s, ExpungeSteps(ids, marks, stop))
      && Exec(s, ExpungeSteps(ids, marks, stop)).db == Erased(s.db, ids, marks, stop)
  {
    var marks := ExpungeMarks(s.db, ids, uids);
    ListingNoDup(s.db, mailbox, ids);
    CondemnRun(s, ids, marks, |ids|);
    var looked := Exec(s, CondemnSteps(ids, marks, |ids|));
    DeleteRun(looked, ids, marks, stop);
    ExecConcat(s, CondemnSteps(ids, marks, |ids|), DeleteSteps(ids, marks, stop));
  }

  // ------------------------------------------------------------ stores and moves

  function StoreSteps(session: nat, mailbox: nat, draft: Draft): seq<Event> {
    [ClaimInsert(session, mailbox, draft), Use(session)]
  }

  /** StoreMessage without anything between its two steps. */
  lemma StoreIsRun(s: Sys, session: nat, mailbox: nat, draft: Draft)
    requires Inv(s) && session !in s.claims && mailbox in s.db.mailboxes
    ensures Legal(s, StoreSteps(session, mailbox, draft))
    ensures var r := Exec(s, StoreSteps(session, mailbox, draft));
      && r.db == StoredInto(s.db, mailbox, draft) && r.claims == s.claims && r.condemned == s.condemned
      && r.contents == s.contents[s.db.nextMessage := draft.content]
  {
    ClaimThenUse(s, session, mailbox, draft);
    TwoSteps(s, ClaimInsert(session, mailbox, draft), Use(session));
  }

  lemma ClaimThenUse(s: Sys, session: nat, mailbox: nat, draft: Draft)
    requires Inv(s) && session !in s.claims && mailbox in s.db.mailboxes
    ensures var held := Apply(s, ClaimInsert(session, mailbox, draft));
      && Enabled(held, Use(session))
      && var r := Apply(held, Use(session));
      && r.db == StoredInto(s.db, mailbox, draft) && r.claims == s.claims && r.condemned == s.condemned
      && r.contents == s.contents[s.db.nextMessage := draft.content]
  {
    var held := Apply(s, ClaimInsert(session, mailbox, draft));
    InvKept(s, ClaimInsert(session, mailbox, draft));
    UseInserts(held, session);
    assert held.claims - {session} == s.claims;
  }

  lemma UseInserts(s: Sys, session: nat)
    requires Inv(s) && session in s.claims && s.claims[session].ToInsert?
    ensures var c := s.claims[session];
      Apply(s, Use(session)) == s.(claims := s.claims - {session}, db := Inserted(s.db, c.mailbox, c.uid, c.draft),
                                   contents := s.contents[s.db.nextMessage := c.draft.content])
  {
    assert !SlotTaken(s.db, ClaimSlot(s.claims[session]));
  }

  function MoveMessageSteps(session: nat, id: nat, dest: nat): seq<Event> {
    [ClaimMove(session, id, dest), Use(session)]
  }

  /** MoveMessage without anything between its two steps. */
  lemma MoveMessageIsRun(s: Sys, session: nat, id: nat, dest: nat)
    requires Inv(s) && session !in s.claims && dest in s.db.mailboxes && id in s.db.messages
    ensures Legal(s, MoveMessageSteps(session, id, dest))
    ensures var r := Exec(s, MoveMessageSteps(session, id, dest));
      r.db == Relocated(Bumped(s.db, dest), id, dest, s.db.mailboxes[dest].uidNext)
  {
    var first, second := ClaimMove(session, id, dest), Use(session);
    var held := Apply(s, first);
    InvKept(s, first);
    assert !SlotTaken(held.db, ClaimSlot(held.claims[session]));
    TwoSteps(s, first, second);
  }

  /** The steps of the webmail delete handler. */
  function HandleDeleteSteps(db: Store, session: nat, listing: seq<nat>, mailbox: nat, id: nat): seq<Event> {
    match DeleteVerdict(db, listing, mailbox)
    case Erase => [Condemn(id, Discarded(listing)), Delete(id)]
    case MoveTo(trash) => MoveMessageSteps(session, id, trash)
  }

  /** A webmail delete is a run: it erases only what it found in trash, or when it found no
      trash, and otherwise moves. */
  lemma HandleDeleteIsRun(s: Sys, session: nat, mailbox: nat, listing: seq<nat>, id: nat)
    requires Inv(s) && session !in s.claims && mailbox in s.db.mailboxes
    requires IsListing(s.db, s.db.mailboxes[mailbox].user, listing)
    requires id in s.db.messages && s.db.messages[id].mailbox == mailbox
    ensures var evs := HandleDeleteSteps(s.db, session, listing, mailbox, id);
      && Legal(s, evs)
      && Exec(s, evs).db == match DeleteVerdict(s.db, listing, mailbox)
                            case Erase => Deleted(s.db, id)
                            case MoveTo(trash) =>
                              Relocated(Bumped(s.db, trash), id, trash, s.db.mailboxes[trash].uidNext)
  {
    match DeleteVerdict(s.db, listing, mailbox)
    case Erase =>
      VerdictIs(s.db, s.db.mailboxes[mailbox].user, listing, mailbox);
      TwoSteps(s, Condemn(id, Discarded(listing)), Delete(id));
    case MoveTo(trash) => MoveMessageIsRun(s, session, id, trash);
  }

  function CopySteps(db: Store, session: nat, src: seq<nat>, dest: nat): seq<Event>
    requires forall i | 0 <= i < |src| :: src[i] in db.messages
  {
    if src == [] then []
    else
      var k := |src| - 1;
      CopySteps(db, session, src[..k], dest) + StoreSteps(session, dest, DraftOf(db.messages[src[k]]))
  }

  predicate HasContent(contents: map<nat, string>, id: nat, content: string) {
    id in contents && contents[id] == content
  }

  /** The k-th copy is recorded under the k-th new id. */
  ghost predicate Recorded(contents: map<nat, string>, db: Store, src: seq<nat>)
    requires forall i | 0 <= i < |src| :: src[i] in db.messages
  {
    forall k: nat | k < |src| :: HasContent(contents, db.nextMessage + k, db.messages[src[k]].content)
  }

  lemma RecordedOneMore(contents: map<nat, string>, db: Store, src: seq<nat>)
    requires (forall i | 0 <= i < |src| :: src[i] in db.messages) && src != []
    requires Recorded(contents, db, src[..|src| - 1])
    ensures var k := |src| - 1; Recorded(contents[db.nextMessage + k := db.messages[src[k]].content], db, src)
  {
    var k := |src| - 1;
    var more := contents[db.nextMessage + k := db.messages[src[k]].content];
    forall j: nat | j < |src| ensures HasContent(more, db.nextMessage + j, db.messages[src[j]].content) {
      if j < k {
        assert src[..k][j] == src[j];
        assert HasContent(contents, db.nextMessage + j, db.messages[src[..k][j]].content);
      }
    }
  }

  lemma BeforeLastCopy(s: Sys, session: nat, init: seq<nat>, dest: nat)
    requires Inv(s) && session !in s.claims && dest in s.db.mailboxes
    requires forall i | 0 <= i < |init| :: init[i] in s.db.messages
    ensures Legal(s, CopySteps(s.db, session, init, dest))
    ensures var r := Exec(s, CopySteps(s.db, session, init, dest));
      Inv(r) && session !in r.claims && dest in r.db.mailboxes && r.db.nextMessage == s.db.nextMessage + |init|
  {
    CopyIsRun(s, session, init, dest);
    InvAlways(s, CopySteps(s.db, session, init, dest));
  }

  lemma {:induction false} CopiesRecorded(s: Sys, session: nat, src: seq<nat>, dest: nat)
    requires Inv(s) && session !in s.claims && dest in s.db.mailboxes
    requires forall i | 0 <= i < |src| :: src[i] in s.db.messages
    ensures Legal(s, CopySteps(s.db, session, src, dest))
    ensures Recorded(Exec(s, CopySteps(s.db, session, src, dest)).contents, s.db, src)
    decreases |src|
  {
    if src != [] {
      var init := src[..|src| - 1];
      CopiesRecorded(s, session, init, dest);
      NextCopy(s, session, src, dest);
      RecordedOneMore(Exec(s, CopySteps(s.db, session, init, dest)).contents, s.db, src);
    }
  }

  lemma NextCopy(s: Sys, session: nat, src: seq<nat>, dest: nat)
    requires Inv(s) && session !in s.claims && dest in s.db.mailboxes
    requires (forall i | 0 <= i < |src| :: src[i] in s.db.messages) && src != []
    ensures var k := |src| - 1;
      && Legal(s, CopySteps(s.db, session, src[..k], dest)) && Legal(s, CopySteps(s.db, session, src, dest))
      && Exec(s, CopySteps(s.db, session, src, dest)).contents ==
         Exec(s, CopySteps(s.db, session, src[..k],
           dest)).contents[s.db.nextMessage + k := s.db.messages[src[k]].content]
  {
    BeforeLastCopy(s, session, src[..|src| - 1], dest);
    LastCopy(s, CopySteps(s.db, session, src[..|src| - 1], dest), session, src, dest);
  }

  lemma LastCopy(s: Sys, before: seq<Event>, session: nat, src: seq<nat>, dest: nat)
    requires (forall i | 0 <= i < |src| :: src[i] in s.db.messages) && src != []
    requires before == CopySteps(s.db, session, src[..|src| - 1], dest) && Legal(s, before)
    requires Inv(Exec(s, before)) && session !in Exec(s, before).claims && dest in Exec(s, before).db.mailboxes
    requires Exec(s, before).db.nextMessage == s.db.nextMessage + |src| - 1
    ensures var k := |src| - 1;
      && Legal(s, CopySteps(s.db, session, src, dest))
      && Exec(s, CopySteps(s.db, session, src, dest)).contents ==
         Exec(s, before).contents[s.db.nextMessage + k := s.db.messages[src[k]].content]
  {
    var draft := DraftOf(s.db.messages[src[|src| - 1]]);
    StoreIsRun(Exec(s, before), session, dest, draft);
    ExecConcat(s, before, StoreSteps(session, dest, draft));
  }

  /** COPY, in whatever order, is a run of insertions. */
  lemma {:induction false} CopyIsRun(s: Sys, session: nat, src: seq<nat>, dest: nat)
    requires Inv(s) && session !in s.claims && dest in s.db.mailboxes
    requires forall i | 0 <= i < |src| :: src[i] in s.db.messages
    ensures Legal(s, CopySteps(s.db, session, src, dest))
    ensures var r := Exec(s, CopySteps(s.db, session, src, dest));
      r.db == CopyAll(s.db, src, dest) && r.claims == s.claims && r.condemned == s.condemned
    decreases |src|
  {
    if src != [] {
      var k := |src| - 1;
      var before := CopySteps(s.db, session, src[..k], dest);
      CopyIsRun(s, session, src[..k], dest);
      InvAlways(s, before);
      var draft := DraftOf(s.db.messages[src[k]]);
      StoreIsRun(Exec(s, before), session, dest, draft);
      ExecConcat(s, before, StoreSteps(session, dest, draft));
    }
  }
}
