/** Sequence numbers while other sessions are at work: STORE, COPY and MOVE look them up in a
    listing of their own (internal/imap/fetch.go), not in the one the client was shown. */
module SeqNumbers {
  import opened Collections
  import opened ExpungeStream
  import opened Flags
  import opened Text
  import opened MailStore
  import opened Copying
  import opened MailDb
  import opened MailRuns
  import opened MoveRace

  // ------------------------------------------------------ whatever others do

  /** Does the set name the message at index n of a listing? */
  predicate NamesIndex(numbers: nat -> bool, n: nat) {
    numbers(n + 1)
  }

  /** After the steps `first` and whatever sessions do then, a position the set names holds a
      message that the first listing held, at some position the set names. */
  ghost predicate SeqSetSafe(s: Sys, first: seq<Event>, mailbox: nat, numbers: nat -> bool) {
    forall evs, ids, again, n: nat | Legal(s, first + evs) && Relisted(s, first + evs, mailbox, ids, again, n) &&
      NamesIndex(numbers, n) ::
      exists i: nat | i < |ids| :: ids[i] == again[n] && NamesIndex(numbers, i)
  }

  /** The two listings, and an index of the second. */
  ghost predicate Relisted(s: Sys, evs: seq<Event>, mailbox: nat, ids: seq<nat>, again: seq<nat>, n: nat)
    requires Legal(s, evs)
  {
    IsUidListing(s.db, mailbox, ids) && IsUidListing(Exec(s, evs).db, mailbox, again) && n < |again|
  }

  lemma DeletedIsSet()
    ensures HasFlag(DELETED, DELETED)
  {
    forall c | c in DELETED ensures !IsSpace(c) {
    }
    FieldsOfFlag(DELETED);
    assert Fields(DELETED)[0] == DELETED;
  }

  /** Another session marks the listed messages \Deleted ... */
  lemma {:induction false} MarkAll(s: Sys, ids: seq<nat>) returns (evs: seq<Event>)
    requires forall i | 0 <= i < |ids| :: ids[i] in s.db.messages
    ensures Legal(s, evs)
    ensures var r := Exec(s, evs);
      && r.claims == s.claims && r.db.messages.Keys == s.db.messages.Keys
      && r.db == s.db.(messages := r.db.messages)
      && (forall id <- s.db.messages :: Slot(r.db.messages[id]) == Slot(s.db.messages[id]))
      && (forall i | 0 <= i < |ids| :: r.db.messages[ids[i]].flags == DELETED)
    decreases |ids|
  {
    if ids == [] {
      evs := [];
    } else {
      var k := |ids| - 1;
      var before := MarkAll(s, ids[..k]);
      ExecSnoc(s, before, SetFlags(ids[k], DELETED));
      evs := before + [SetFlags(ids[k], DELETED)];
    }
  }

  /** ... expunges them ... */
  lemma ClearMailbox(s: Sys, mailbox: nat, ids: seq<nat>) returns (evs: seq<Event>)
    requires IsUidListing(s.db, mailbox, ids)
    ensures Legal(s, evs)
    ensures var r := Exec(s, evs);
      && r.db.nextMessage == s.db.nextMessage && r.db.mailboxes == s.db.mailboxes
      && IsUidListing(r.db, mailbox, [])
  {
    var mark := MarkAll(s, ids);
    var marked := Exec(s, mark);
    var all := ExpungeMarks(marked.db, ids, None);
    DeletedIsSet();
    ExpungeIsRun(marked, mailbox, ids, None, 0);
    ExecConcat(s, mark, ExpungeSteps(ids, all, 0));
    evs := mark + ExpungeSteps(ids, all, 0);
    forall id | id in ids ensures id in GoneIds(ids, all, 0) {
      var i :| 0 <= i < |ids| && ids[i] == id;
      assert all[i];
    }
  }

  lemma ListingAfterStore(db: Store, mailbox: nat, ids: seq<nat>, draft: Draft)
    requires Wf(db) && mailbox in db.mailboxes && IsUidListing(db, mailbox, ids)
    ensures IsUidListing(StoredInto(db, mailbox, draft), mailbox, ids + [db.nextMessage])
  {
    assert forall i | 0 <= i < |ids| :: ids[i] in ids;
  }

  /** ... and n messages are delivered. */
  lemma {:induction false} DeliverMany(s: Sys, mailbox: nat, n: nat) returns (evs: seq<Event>, ids: seq<nat>)
    requires Inv(s) && mailbox in s.db.mailboxes && IsUidListing(s.db, mailbox, [])
    ensures Legal(s, evs) && |ids| == n && IsUidListing(Exec(s, evs).db, mailbox, ids)
    ensures mailbox in Exec(s, evs).db.mailboxes && Exec(s, evs).db.nextMessage == s.db.nextMessage + n
    ensures forall i | 0 <= i < n :: ids[i] >= s.db.nextMessage
    decreases n
  {
    if n == 0 {
      evs, ids := [], [];
    } else {
      var before, some := DeliverMany(s, mailbox, n - 1);
      var r := Exec(s, before);
      var draft := Draft("", "", None);
      InvAlways(s, before);
      InvGivesWf(r);
      var session := FreshSession(r.claims);
      StoreIsRun(r, session, mailbox, draft);
      ExecConcat(s, before, StoreSteps(session, mailbox, draft));
      ListingAfterStore(r.db, mailbox, some, draft);
      evs := before + StoreSteps(session, mailbox, draft);
      ids := some + [r.db.nextMessage];
    }
  }

  /** Other sessions bring a message that was not listed to any position. */
  lemma PositionTaken(s: Sys, first: seq<Event>, mailbox: nat, ids: seq<nat>, there: seq<nat>, n: nat)
    returns (evs: seq<Event>, again: seq<nat>)
    requires Inv(s) && Legal(s, first) && IsUidListing(s.db, mailbox, ids)
    requires var r := Exec(s, first);
      s.db.nextMessage <= r.db.nextMessage && mailbox in r.db.mailboxes && IsUidListing(r.db, mailbox, there)
    ensures Legal(s, first + evs) && Relisted(s, first + evs, mailbox, ids, again, n) && again[n] !in ids
  {
    var r := Exec(s, first);
    InvAlways(s, first);
    var clear := ClearMailbox(r, mailbox, there);
    InvAlways(r, clear);
    var deliver, found := DeliverMany(Exec(r, clear), mailbox, n + 1);
    ExecConcat(r, clear, deliver);
    ExecConcat(s, first, clear + deliver);
    evs, again := clear + deliver, found;
    assert forall id | id in ids :: id < s.db.nextMessage;
  }

  lemma SeqSafeOnlyIf(s: Sys, first: seq<Event>, mailbox: nat, ids: seq<nat>, there: seq<nat>, numbers: nat -> bool)
    requires Inv(s) && Legal(s, first) && IsUidListing(s.db, mailbox, ids)
    requires var r := Exec(s, first);
      s.db.nextMessage <= r.db.nextMessage && mailbox in r.db.mailboxes && IsUidListing(r.db, mailbox, there)
    ensures SeqSetSafe(s, first, mailbox, numbers) <==> forall n: nat :: !NamesIndex(numbers, n)
  {
    if n: nat :| NamesIndex(numbers, n) {
      var evs, again := PositionTaken(s, first, mailbox, ids, there, n);
      assert !exists i: nat | i < |ids| :: ids[i] == again[n] && NamesIndex(numbers, i);
    }
  }

  /** A STORE, COPY or MOVE that names positions of the listing the client was shown hits only
      messages it named, whatever other sessions do meanwhile, only if it names none at all. */
  lemma SeqCommandSafeIff(s: Sys, mailbox: nat, ids: seq<nat>, numbers: nat -> bool)
    requires Inv(s) && mailbox in s.db.mailboxes && IsUidListing(s.db, mailbox, ids)
    ensures SeqSetSafe(s, [], mailbox, numbers) <==> forall n: nat :: !NamesIndex(numbers, n)
  {
    SeqSafeOnlyIf(s, [], mailbox, ids, ids, numbers);
  }

  /** Nor does the second listing of a MOVE, after its copies: for any position it names, other
      sessions can bring a message there that was never copied. */
  lemma SeqMoveSafeIff(s: Sys, session: nat, mailbox: nat, ids: seq<nat>, src: seq<nat>, dest: nat,
                       numbers: nat -> bool)
    requires Inv(s) && session !in s.claims && mailbox in s.db.mailboxes && dest in s.db.mailboxes
    requires IsUidListing(s.db, mailbox, ids) && forall i | 0 <= i < |src| :: src[i] in s.db.messages
    ensures SeqSetSafe(s, CopySteps(s.db, session, src, dest), mailbox, numbers) <==>
            forall n: nat :: !NamesIndex(numbers, n)
  {
    AfterCopies(s, session, src, dest);
    var there := ListingAfterCopies(s.db, mailbox, ids, src, dest);
    SeqSafeOnlyIf(s, CopySteps(s.db, session, src, dest), mailbox, ids, there, numbers);
  }

  lemma ListingAfterCopies(db: Store, mailbox: nat, ids: seq<nat>, src: seq<nat>, dest: nat) returns (there: seq<nat>)
    requires Wf(db) && mailbox in db.mailboxes && dest in db.mailboxes && IsUidListing(db, mailbox, ids)
    requires forall i | 0 <= i < |src| :: src[i] in db.messages
    ensures mailbox in CopyAll(db, src, dest).mailboxes && IsUidListing(CopyAll(db, src, dest), mailbox, there)
  {
    CopyIsBijection(db, src, dest);
    if mailbox == dest {
      ListingAfterCopyHere(db, mailbox, ids, src);
      there := ids + Block(db.nextMessage, |src|);
    } else {
      ListingUnchanged(db, src, dest, mailbox, ids);
      there := ids;
    }
  }

  // ----------------------------------------------------- after an EXPUNGE of others

  /** The position still holds the message. */
  predicate SameAt(again: seq<nat>, ids: seq<nat>, n: nat)
    requires n < |ids|
  {
    n < |again| && again[n] == ids[n]
  }

  /** What is at a position of the survivors was at that position or a later one. */
  lemma {:induction false} SurvivorFrom(ids: seq<nat>, marks: seq<bool>, n: nat) returns (j: nat)
    requires |marks| == |ids| && n < |Survivors(ids, marks)|
    ensures n <= j < |ids| && Survivors(ids, marks)[n] == ids[j] && !marks[j]
    ensures (exists i | 0 <= i <= n :: marks[i]) ==> n < j
    ensures (forall i | 0 <= i <= n :: !marks[i]) ==> n == j
    decreases |ids|
  {
    if marks[0] {
      j := SurvivorFrom(ids[1..], marks[1..], n);
      j := j + 1;
    } else if n == 0 {
      j := 0;
    } else {
      j := SurvivorFrom(ids[1..], marks[1..], n - 1);
      j := j + 1;
      assert forall i | 0 < i <= n :: marks[i] == marks[1..][i - 1];
      if i :| 0 <= i <= n && marks[i] {
        assert marks[1..][i - 1];
      }
    }
  }

  lemma {:induction false} KeptInFront(ids: seq<nat>, marks: seq<bool>, n: nat)
    requires |marks| == |ids| && n < |ids| && forall i | 0 <= i <= n :: !marks[i]
    ensures n < |Survivors(ids, marks)|
    decreases |ids|
  {
    if n > 0 {
      KeptInFront(ids[1..], marks[1..], n - 1);
    }
  }

  /** After another session's EXPUNGE a number names the message the client means exactly when
      neither that one nor any before it was expunged; else it names a later one, or none. */
  lemma ExpungeShiftsIff(s: Sys, mailbox: nat, ids: seq<nat>, uids: Option<nat -> bool>, again: seq<nat>, n: nat)
    requires IsUidListing(s.db, mailbox, ids) && n < |ids|
    requires var evs := ExpungeSteps(ids, ExpungeMarks(s.db, ids, uids), 0);
      Legal(s, evs) ==> IsUidListing(Exec(s, evs).db, mailbox, again)
    ensures var marks := ExpungeMarks(s.db, ids, uids);
      && Legal(s, ExpungeSteps(ids, marks, 0))
      && (SameAt(again, ids, n) <==> forall i | 0 <= i <= n :: !marks[i])
      && (n < |again| && !SameAt(again, ids, n) ==> exists j | n < j < |ids| :: again[n] == ids[j])
  {
    var marks := ExpungeMarks(s.db, ids, uids);
    ExpungeIsRun(s, mailbox, ids, uids, 0);
    ListingAfterErase(s.db, mailbox, ids, marks, 0);
    ListingUnique(Erased(s.db, ids, marks, 0), mailbox, again, Left(ids, marks, 0));
    assert ids[0..] == ids && marks[0..] == marks && Left(ids, marks, 0) == Survivors(ids, marks);
    ListingNoDup(s.db, mailbox, ids);
    if n < |again| {
      var j := SurvivorFrom(ids, marks, n);
    } else if forall i | 0 <= i <= n :: !marks[i] {
      KeptInFront(ids, marks, n);
      assert false;
    }
  }

  // --------------------------------------------------------- when positions are kept

  /** What the client was shown is there, in that order, and everything else comes after. */
  ghost predicate StillInFront(db: Store, mailbox: nat, view: seq<nat>) {
    && UidAscending(db, view)
    && (forall id | id in view && id in db.messages :: db.messages[id].mailbox == mailbox)
    && (forall v, id | v in view && v in db.messages && id in db.messages && id !in view ::
          db.messages[id].mailbox == mailbox ==> db.messages[v].uid < db.messages[id].uid)
  }

  lemma OthersAfter(db: Store, mailbox: nat, view: seq<nat>, again: seq<nat>)
    requires IsUidListing(db, mailbox, again) && StillInFront(db, mailbox, view)
    ensures view <= again
  {
    var marks := seq(|again|, i requires 0 <= i < |again| => again[i] in view);
    var others := Survivors(again, marks);
    SurvivorsSorted(db, again, marks);
    forall id ensures id in others <==> id in again && id !in view {
      SurvivorsAre(again, marks, id);
    }
    UidAscendingConcat(db, view, others);
    assert forall id :: id in view + others <==> id in view || id in others;
    assert forall i | 0 <= i < |view| :: view[i] in view && view[i] in db.messages;
    ListingUnique(db, mailbox, again, view + others);
  }

  /** All positions the client was shown still hold the same messages exactly when these are
      still there in their order and every other one has a higher UID. */
  lemma PositionsKeptIff(db: Store, mailbox: nat, view: seq<nat>, again: seq<nat>)
    requires IsUidListing(db, mailbox, again)
    ensures (forall n: nat | n < |view| :: SameAt(again, view, n)) <==> StillInFront(db, mailbox, view)
  {
    if StillInFront(db, mailbox, view) {
      OthersAfter(db, mailbox, view, again);
    } else if forall n: nat | n < |view| :: SameAt(again, view, n) {
      InFrontOf(db, mailbox, view, again);
      assert false;
    }
  }

  lemma InFrontOf(db: Store, mailbox: nat, view: seq<nat>, again: seq<nat>)
    requires IsUidListing(db, mailbox, again) && forall n: nat | n < |view| :: SameAt(again, view, n)
    ensures StillInFront(db, mailbox, view)
  {
    assert |view| > |again| ==> !SameAt(again, view, |again|);
    forall i: nat | i < |view| ensures view[i] == again[i] && view[i] in again {
      assert SameAt(again, view, i);
    }
    forall v, id | v in view && id in db.messages && id !in view && db.messages[id].mailbox == mailbox
      ensures db.messages[v].uid < db.messages[id].uid
    {
      var i :| 0 <= i < |view| && view[i] == v;
      var j :| 0 <= j < |again| && again[j] == id;
      NotAmong(view, again, j);
    }
  }

  lemma NotAmong(view: seq<nat>, again: seq<nat>, j: nat)
    requires view <= again && j < |again| && again[j] !in view
    ensures j >= |view|
  {
    assert forall i | 0 <= i < |view| :: view[i] in view;
  }

  /** No step of the run takes a message of the view away or gives it another UID. */
  ghost predicate ViewStays(s: Sys, evs: seq<Event>, view: seq<nat>)
    requires Legal(s, evs)
    decreases |evs|
  {
    evs != [] ==>
      var next := Apply(s, evs[0]);
      && (forall id | id in view && id in s.db.messages ::
            id in next.db.messages && Slot(next.db.messages[id]) == Slot(s.db.messages[id]))
      && ViewStays(next, evs[1..], view)
  }

  lemma AddedAbove(s: Sys, ev: Event, id: nat)
    requires Enabled(s, ev) && AddsHighest(s, ev) && id in Apply(s, ev).db.messages
    ensures var next := Apply(s, ev);
      || (id in s.db.messages && Slot(next.db.messages[id]) == Slot(s.db.messages[id]))
      || Highest(s.db, Slot(next.db.messages[id]))
  {
  }

  lemma FrontStep(s: Sys, ev: Event, mailbox: nat, view: seq<nat>)
    requires StillInFront(s.db, mailbox, view) && Enabled(s, ev) && AddsHighest(s, ev)
    requires forall id | id in view && id in s.db.messages ::
      id in Apply(s, ev).db.messages && Slot(Apply(s, ev).db.messages[id]) == Slot(s.db.messages[id])
    ensures StillInFront(Apply(s, ev).db, mailbox, view)
  {
    var next := Apply(s, ev);
    forall i | 0 <= i < |view| ensures view[i] in next.db.messages &&
      Slot(next.db.messages[view[i]]) == Slot(s.db.messages[view[i]]) {
      assert view[i] in view;
    }
    forall v, id | v in view && v in next.db.messages && id in next.db.messages && id !in view
      ensures next.db.messages[id].mailbox == mailbox ==> next.db.messages[v].uid < next.db.messages[id].uid
    {
      assert v in s.db.messages;
      AddedAbove(s, ev, id);
    }
  }

  /** So they are when sessions leave these messages alone and every addition gets the highest
      UID, as it does when sessions take turns. */
  lemma {:induction false} PositionsKept(s: Sys, evs: seq<Event>, mailbox: nat, view: seq<nat>)
    requires StillInFront(s.db, mailbox, view) && Legal(s, evs) && AllAddHighest(s, evs) && ViewStays(s, evs, view)
    ensures StillInFront(Exec(s, evs).db, mailbox, view)
    decreases |evs|
  {
    if evs != [] {
      FrontStep(s, evs[0], mailbox, view);
      PositionsKept(Apply(s, evs[0]), evs[1..], mailbox, view);
    }
  }
}
