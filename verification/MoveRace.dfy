/** MOVE with other sessions at work between its two listings (internal/imap/fetch.go:255-288).
    What the second listing selects is deleted; it is safe when the first had selected, and
    so copied, the same messages. */
module MoveRace {
  import opened Collections
  import opened Flags
  import opened Text
  import opened MailStore
  import opened Copying
  import opened MailDb
  import opened MailRuns

  // --------------------------------------------------------------------- UID sets

  /** A message of the mailbox that the UID set selects. */
  predicate UidSelected(db: Store, mailbox: nat, uids: nat -> bool, id: nat) {
    id in db.messages && db.messages[id].mailbox == mailbox && uids(db.messages[id].uid)
  }

  /** After the steps `first` and whatever sessions do then, the mailbox holds no message of
      the set but those it held at the start. */
  ghost predicate UidSetSafe(s: Sys, first: seq<Event>, mailbox: nat, uids: nat -> bool) {
    forall evs, id | Legal(s, first + evs) && UidSelected(Exec(s, first + evs).db, mailbox, uids, id) ::
      UidSelected(s.db, mailbox, uids, id)
  }

  /** A session about to use a UID of the set can only move a message selected already, or
      one that is gone. */
  predicate ClaimHarmless(s: Sys, db: Store, mailbox: nat, uids: nat -> bool, c: Claim) {
    c.mailbox == mailbox && uids(c.uid) ==>
      c.ToMove? && (c.id !in db.messages || UidSelected(s.db, mailbox, uids, c.id))
  }

  /** The set holds only UIDs given out before, and none that is still to be used. */
  ghost predicate UidsSettled(s: Sys, mailbox: nat, uids: nat -> bool)
    requires mailbox in s.db.mailboxes
  {
    && (forall uid: nat | uids(uid) :: uid < s.db.mailboxes[mailbox].uidNext)
    && (forall w <- s.claims :: ClaimHarmless(s, s.db, mailbox, uids, s.claims[w]))
  }

  /** What a run from s keeps. */
  ghost predicate StillSettled(s: Sys, t: Sys, mailbox: nat, uids: nat -> bool) {
    && mailbox < t.db.nextMailbox
    && (mailbox in t.db.mailboxes ==> forall uid: nat | uids(uid) :: uid < t.db.mailboxes[mailbox].uidNext)
    && (forall w <- t.claims :: ClaimHarmless(s, t.db, mailbox, uids, t.claims[w]))
    && (forall id <- t.db.messages :: UidSelected(t.db, mailbox, uids, id) ==> UidSelected(s.db, mailbox, uids, id))
  }

  lemma SettledUse(s: Sys, t: Sys, session: nat, mailbox: nat, uids: nat -> bool)
    requires Inv(t) && StillSettled(s, t, mailbox, uids) && Enabled(t, Use(session))
    ensures StillSettled(s, Apply(t, Use(session)), mailbox, uids)
  {
    var next := Apply(t, Use(session));
    assert ClaimHarmless(s, t.db, mailbox, uids, t.claims[session]);
    forall w | w in next.claims ensures ClaimHarmless(s, next.db, mailbox, uids, next.claims[w]) {
      assert ClaimHarmless(s, t.db, mailbox, uids, t.claims[w]);
    }
  }

  lemma SettledClaim(s: Sys, t: Sys, ev: Event, mailbox: nat, uids: nat -> bool)
    requires Inv(t) && StillSettled(s, t, mailbox, uids) && Enabled(t, ev) && (ev.ClaimInsert? || ev.ClaimMove?)
    ensures StillSettled(s, Apply(t, ev), mailbox, uids)
  {
    var next := Apply(t, ev);
    forall w | w in next.claims ensures ClaimHarmless(s, next.db, mailbox, uids, next.claims[w]) {
      if w in t.claims {
        assert ClaimHarmless(s, t.db, mailbox, uids, t.claims[w]);
      }
    }
    forall id | id in next.db.messages && UidSelected(next.db, mailbox, uids, id)
      ensures UidSelected(s.db, mailbox, uids, id)
    {
      assert UidSelected(t.db, mailbox, uids, id);
    }
  }

  lemma SettledStep(s: Sys, t: Sys, ev: Event, mailbox: nat, uids: nat -> bool)
    requires Inv(t) && StillSettled(s, t, mailbox, uids) && Enabled(t, ev)
    requires !ev.Use? && !ev.ClaimInsert? && !ev.ClaimMove?
    ensures StillSettled(s, Apply(t, ev), mailbox, uids)
  {
    var next := Apply(t, ev);
    forall w | w in next.claims && w in t.claims && next.claims[w] == t.claims[w]
      ensures ClaimHarmless(s, next.db, mailbox, uids, next.claims[w])
    {
      assert ClaimHarmless(s, t.db, mailbox, uids, t.claims[w]);
    }
    forall id | id in next.db.messages && UidSelected(next.db, mailbox, uids, id)
      ensures UidSelected(s.db, mailbox, uids, id)
    {
      assert UidSelected(t.db, mailbox, uids, id);
    }
  }

  lemma {:induction false} SettledRun(s: Sys, t: Sys, evs: seq<Event>, mailbox: nat, uids: nat -> bool)
    requires Inv(t) && StillSettled(s, t, mailbox, uids) && Legal(t, evs)
    ensures StillSettled(s, Exec(t, evs), mailbox, uids)
    decreases |evs|
  {
    if evs != [] {
      InvKept(t, evs[0]);
      if evs[0].Use? {
        SettledUse(s, t, evs[0].session, mailbox, uids);
      } else if evs[0].ClaimInsert? || evs[0].ClaimMove? {
        SettledClaim(s, t, evs[0], mailbox, uids);
      } else {
        SettledStep(s, t, evs[0], mailbox, uids);
      }
      SettledRun(s, Apply(t, evs[0]), evs[1..], mailbox, uids);
    }
  }

  // ------------------------------------------------- runs that defeat other sets

  lemma FreshSession(claims: map<nat, Claim>) returns (session: nat)
    ensures session !in claims
  {
    if claims.Keys == {} {
      session := 0;
    } else {
      var top := Greatest(claims.Keys);
      session := top + 1;
    }
  }

  /** A session can take UIDs and not use them. */
  lemma {:induction false} BurnUids(s: Sys, session: nat, mailbox: nat, n: nat) returns (evs: seq<Event>)
    requires Inv(s) && session !in s.claims && mailbox in s.db.mailboxes
    ensures Legal(s, evs)
    ensures var r := Exec(s, evs);
      && session !in r.claims && mailbox in r.db.mailboxes && r.db.messages == s.db.messages
      && r.db.nextMessage == s.db.nextMessage
      && r.db.mailboxes[mailbox].uidNext == s.db.mailboxes[mailbox].uidNext + n
    decreases n
  {
    if n == 0 {
      evs := [];
    } else {
      var take, drop := ClaimInsert(session, mailbox, Draft("", "", None)), Abandon(session);
      TwoSteps(s, take, drop);
      var next := Exec(s, [take, drop]);
      InvAlways(s, [take, drop]);
      var rest := BurnUids(next, session, mailbox, n - 1);
      ExecConcat(s, [take, drop], rest);
      evs := [take, drop] + rest;
    }
  }

  /** A UID not yet given out: a delivery that gets it comes in between. */
  lemma DeliveryGetsIn(s: Sys, mailbox: nat, uids: nat -> bool, uid: nat) returns (evs: seq<Event>)
    requires Inv(s) && mailbox in s.db.mailboxes && uids(uid) && uid >= s.db.mailboxes[mailbox].uidNext
    ensures Legal(s, evs) && UidSelected(Exec(s, evs).db, mailbox, uids, s.db.nextMessage)
    ensures !UidSelected(s.db, mailbox, uids, s.db.nextMessage)
  {
    var session := FreshSession(s.claims);
    var burn := BurnUids(s, session, mailbox, uid - s.db.mailboxes[mailbox].uidNext);
    InvAlways(s, burn);
    var draft := Draft("", "", None);
    StoreIsRun(Exec(s, burn), session, mailbox, draft);
    ExecConcat(s, burn, StoreSteps(session, mailbox, draft));
    evs := burn + StoreSteps(session, mailbox, draft);
  }

  /** A UID still to be used: it is used in between. */
  lemma ClaimGetsIn(s: Sys, t: Sys, mailbox: nat, uids: nat -> bool, w: nat) returns (id: nat)
    requires Inv(s) && Inv(t) && s.db.nextMessage <= t.db.nextMessage
    requires w in t.claims && !ClaimHarmless(s, t.db, mailbox, uids, t.claims[w])
    ensures Legal(t, [Use(w)])
    ensures UidSelected(Exec(t, [Use(w)]).db, mailbox, uids, id) && !UidSelected(s.db, mailbox, uids, id)
  {
    var c := t.claims[w];
    var next := Apply(t, Use(w));
    assert !SlotTaken(t.db, ClaimSlot(c));
    assert [Use(w)][1..] == [] && Legal(next, []) && Exec(t, [Use(w)]) == next;
    id := if c.ToInsert? then t.db.nextMessage else c.id;
  }

  /** What COPY leaves, when nothing happens in between. */
  lemma AfterCopies(s: Sys, session: nat, src: seq<nat>, dest: nat)
    requires Inv(s) && session !in s.claims && dest in s.db.mailboxes
    requires forall i | 0 <= i < |src| :: src[i] in s.db.messages
    ensures Legal(s, CopySteps(s.db, session, src, dest))
    ensures var r := Exec(s, CopySteps(s.db, session, src, dest));
      Inv(r) && r.db == CopyAll(s.db, src, dest) && r.claims == s.claims && r.db.nextMessage >= s.db.nextMessage
    ensures Wf(s.db)
  {
    CopyIsRun(s, session, src, dest);
    InvAlways(s, CopySteps(s.db, session, src, dest));
    InvGivesWf(s);
  }

  /** A copy that gets a UID of the set is itself selected by the second listing. */
  lemma CopyGetsIn(db: Store, src: seq<nat>, mailbox: nat, dest: nat, uids: nat -> bool, uid: nat)
    requires Wf(db) && mailbox in db.mailboxes && dest in db.mailboxes && uids(uid)
    requires forall i | 0 <= i < |src| :: src[i] in db.messages
    requires var r := CopyAll(db, src, dest);
      mailbox in r.mailboxes && db.mailboxes[mailbox].uidNext <= uid < r.mailboxes[mailbox].uidNext
    ensures exists id :: UidSelected(CopyAll(db, src, dest), mailbox, uids, id) && !UidSelected(db, mailbox, uids, id)
  {
    CopyIsBijection(db, src, dest);
    assert mailbox == dest;
    var k := uid - db.mailboxes[dest].uidNext;
    assert CopyAll(db, src, dest).messages[db.nextMessage + k].uid == uid;
    assert UidSelected(CopyAll(db, src, dest), mailbox, uids, db.nextMessage + k);
  }

  lemma NewUidDefeats(s: Sys, session: nat, src: seq<nat>, mailbox: nat, dest: nat, uids: nat -> bool, uid: nat)
    requires Inv(s) && session !in s.claims && mailbox in s.db.mailboxes && dest in s.db.mailboxes
    requires forall i | 0 <= i < |src| :: src[i] in s.db.messages
    requires uids(uid) && uid >= s.db.mailboxes[mailbox].uidNext
    ensures !UidSetSafe(s, CopySteps(s.db, session, src, dest), mailbox, uids)
  {
    var first := CopySteps(s.db, session, src, dest);
    AfterCopies(s, session, src, dest);
    var r := Exec(s, first);
    assert mailbox in r.db.mailboxes by {
      CopyIsBijection(s.db, src, dest);
    }
    if uid < r.db.mailboxes[mailbox].uidNext {
      CopyGetsIn(s.db, src, mailbox, dest, uids, uid);
      assert first + [] == first;
      assert Legal(s, first + []);
    } else {
      var evs := DeliveryGetsIn(r, mailbox, uids, uid);
      ExecConcat(s, first, evs);
      assert !UidSelected(s.db, mailbox, uids, r.db.nextMessage);
    }
  }

  lemma HeldUidDefeats(s: Sys, session: nat, src: seq<nat>, mailbox: nat, dest: nat, uids: nat -> bool, w: nat)
    requires Inv(s) && session !in s.claims && mailbox in s.db.mailboxes && dest in s.db.mailboxes
    requires forall i | 0 <= i < |src| :: src[i] in s.db.messages
    requires w in s.claims && !ClaimHarmless(s, s.db, mailbox, uids, s.claims[w])
    ensures !UidSetSafe(s, CopySteps(s.db, session, src, dest), mailbox, uids)
  {
    var first := CopySteps(s.db, session, src, dest);
    AfterCopies(s, session, src, dest);
    var r := Exec(s, first);
    assert !ClaimHarmless(s, r.db, mailbox, uids, r.claims[w]) by {
      CopyIsBijection(s.db, src, dest);
    }
    var id := ClaimGetsIn(s, r, mailbox, uids, w);
    ExecConcat(s, first, [Use(w)]);
    assert UidSelected(Exec(s, first + [Use(w)]).db, mailbox, uids, id);
  }

  /** A MOVE by UID deletes nothing it did not copy, whatever other sessions do between its
      copies and its second listing, exactly when its UIDs had all been given out and none was
      still to be used.  Then it is safe wherever its steps fall among theirs. */
  lemma UidMoveSafeIff(s: Sys, session: nat, src: seq<nat>, mailbox: nat, dest: nat, uids: nat -> bool)
    requires Inv(s) && session !in s.claims && mailbox in s.db.mailboxes && dest in s.db.mailboxes
    requires forall i | 0 <= i < |src| :: src[i] in s.db.messages
    ensures UidSetSafe(s, CopySteps(s.db, session, src, dest), mailbox, uids) <==> UidsSettled(s, mailbox, uids)
    ensures UidsSettled(s, mailbox, uids) ==> UidSetSafe(s, [], mailbox, uids)
  {
    if UidsSettled(s, mailbox, uids) {
      SettledSafe(s, CopySteps(s.db, session, src, dest), mailbox, uids);
      SettledSafe(s, [], mailbox, uids);
    } else if uid: nat :| uids(uid) && uid >= s.db.mailboxes[mailbox].uidNext {
      NewUidDefeats(s, session, src, mailbox, dest, uids, uid);
    } else {
      var w :| w in s.claims && !ClaimHarmless(s, s.db, mailbox, uids, s.claims[w]);
      HeldUidDefeats(s, session, src, mailbox, dest, uids, w);
    }
  }

  lemma SettledSafe(s: Sys, first: seq<Event>, mailbox: nat, uids: nat -> bool)
    requires Inv(s) && mailbox in s.db.mailboxes && UidsSettled(s, mailbox, uids)
    ensures UidSetSafe(s, first, mailbox, uids)
  {
    forall evs, id | Legal(s, first + evs) && UidSelected(Exec(s, first + evs).db, mailbox, uids, id)
      ensures UidSelected(s.db, mailbox, uids, id)
    {
      SettledRun(s, s, first + evs, mailbox, uids);
    }
  }

  /** A message keeps its content, and what was stored stays recorded. */
  lemma ContentKept(s: Sys, evs: seq<Event>, id: nat, copy: nat)
    requires History(s) && Legal(s, evs) && copy in s.contents
    requires id in s.db.messages && id in Exec(s, evs).db.messages
    ensures Exec(s, evs).db.messages[id].content == s.db.messages[id].content
    ensures HasContent(Exec(s, evs).contents, copy, s.contents[copy])
  {
    HistoryAlways(s, evs);
  }

  lemma CopyKnown(s: Sys, session: nat, src: seq<nat>, dest: nat, evs: seq<Event>, k: nat)
    requires Inv(s) && History(s) && session !in s.claims && dest in s.db.mailboxes
    requires (forall i | 0 <= i < |src| :: src[i] in s.db.messages) && k < |src|
    requires Legal(s, CopySteps(s.db, session, src, dest) + evs)
    ensures HasContent(Exec(s, CopySteps(s.db, session, src, dest) + evs).contents, s.db.nextMessage + k,
                       s.db.messages[src[k]].content)
  {
    var copies := CopySteps(s.db, session, src, dest);
    CopiesRecorded(s, session, src, dest);
    HistoryAlways(s, copies);
    LegalSuffix(s, copies, evs);
    HistoryAlways(Exec(s, copies), evs);
    assert HasContent(Exec(s, copies).contents, s.db.nextMessage + k, s.db.messages[src[k]].content);
  }

  /** What such a MOVE deletes it may delete without loss, as NoLoss has it: every message the
      second listing selects was copied, and neither changed its content since. */
  lemma UidMoveIsAllowed(s: Sys, session: nat, mailbox: nat, uids: nat -> bool, src: seq<nat>, dest: nat,
                         evs: seq<Event>, id: nat) returns (copy: nat)
    requires Inv(s) && History(s) && session !in s.claims && mailbox in s.db.mailboxes && dest in s.db.mailboxes
    requires UidsSettled(s, mailbox, uids) && forall m :: m in src <==> UidSelected(s.db, mailbox, uids, m)
    requires forall i | 0 <= i < |src| :: src[i] in s.db.messages
    requires Legal(s, CopySteps(s.db, session, src, dest) + evs)
    requires UidSelected(Exec(s, CopySteps(s.db, session, src, dest) + evs).db, mailbox, uids, id)
    ensures Enabled(Exec(s, CopySteps(s.db, session, src, dest) + evs), Replace(id, copy))
  {
    var all := CopySteps(s.db, session, src, dest) + evs;
    assert UidSelected(s.db, mailbox, uids, id) by { SettledRun(s, s, all, mailbox, uids); }
    var k: nat :| k < |src| && src[k] == id;
    copy := s.db.nextMessage + k;
    CopyKnown(s, session, src, dest, evs, k);
    ContentKept(s, all, id, id);
  }

  lemma {:induction false} LegalSuffix(s: Sys, a: seq<Event>, b: seq<Event>)
    requires Legal(s, a) && Legal(s, a + b)
    ensures Legal(Exec(s, a), b) && Exec(s, a + b) == Exec(Exec(s, a), b)
    decreases |a|
  {
    if a == [] {
      assert a + b == b;
    } else {
      assert (a + b)[0] == a[0] && (a + b)[1..] == a[1..] + b;
      LegalSuffix(Apply(s, a[0]), a[1..], b);
    }
  }
}
