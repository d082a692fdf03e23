/** Listing a mailbox, IMAP COPY and MOVE (internal/imap/fetch.go) as functions of the
    tables, for sessions running one after the other. */
module Copying {
  import opened Collections
  import opened MailStore
  import opened ExpungeStream

  // ------------------------------------------------------------------ listings

  /** The ids of a mailbox's messages in ascending UID order, as ListMessages gives them. */
  ghost predicate IsUidListing(db: Store, mailbox: nat, ids: seq<nat>) {
    && (forall id :: id in ids <==> id in db.messages && db.messages[id].mailbox == mailbox)
    && (forall i | 0 <= i < |ids| :: ids[i] in db.messages)
    && (forall i, j | 0 <= i < j < |ids| :: db.messages[ids[i]].uid < db.messages[ids[j]].uid)
  }

  lemma HeadNotInTail(a: seq<nat>, rank: nat -> int)
    requires a != [] && forall i, j | 0 <= i < j < |a| :: rank(a[i]) < rank(a[j])
    ensures a[0] !in a[1..]
  {
    forall i | 0 <= i < |a[1..]| ensures a[1..][i] != a[0] {
      assert a[1..][i] == a[i + 1];
    }
  }

  /** `rank` is any strictly ascending measure along the two sequences. */
  lemma {:induction false} SortedUnique(a: seq<nat>, b: seq<nat>, rank: nat -> int)
    requires forall i, j | 0 <= i < j < |a| :: rank(a[i]) < rank(a[j])
    requires forall i, j | 0 <= i < j < |b| :: rank(b[i]) < rank(b[j])
    requires forall x :: x in a <==> x in b
    ensures a == b
  {
    assert a != [] ==> a[0] in b;
    assert b != [] ==> b[0] in a;
    if a != [] && b != [] {
      var i :| 0 <= i < |b| && b[i] == a[0];
      var j :| 0 <= j < |a| && a[j] == b[0];
      assert a[0] == b[0];
      HeadNotInTail(a, rank);
      HeadNotInTail(b, rank);
      forall x ensures x in a[1..] <==> x in b[1..] {
        assert a == [a[0]] + a[1..] && b == [b[0]] + b[1..];
        assert x in a <==> x in b;
      }
      SortedUnique(a[1..], b[1..], rank);
    }
  }

  lemma ListingUnique(db: Store, mailbox: nat, a: seq<nat>, b: seq<nat>)
    requires IsUidListing(db, mailbox, a) && IsUidListing(db, mailbox, b)
    ensures a == b
  {
    SortedUnique(a, b, id => if id in db.messages then db.messages[id].uid else 0);
  }

  lemma ListingNoDup(db: Store, mailbox: nat, ids: seq<nat>)
    requires IsUidListing(db, mailbox, ids)
    ensures NoDup(ids)
  {
  }

  // ------------------------------------------------------------------- erasing

  function GoneIds(ids: seq<nat>, marks: seq<bool>, stop: nat): set<nat>
    requires |marks| == |ids|
  {
    set i | stop <= i < |ids| && marks[i] :: ids[i]
  }

  /** The tables after the marked messages at index `stop` and above are deleted. */
  function Erased(db: Store, ids: seq<nat>, marks: seq<bool>, stop: nat): Store
    requires |marks| == |ids|
  {
    db.(messages := db.messages - GoneIds(ids, marks, stop))
  }

  /** The list a client holds after an expunge stopped at `stop`. */
  function Left(ids: seq<nat>, marks: seq<bool>, stop: nat): seq<nat>
    requires |marks| == |ids| && stop <= |ids|
  {
    ids[..stop] + Survivors(ids[stop..], marks[stop..])
  }

  lemma LeftAre(ids: seq<nat>, marks: seq<bool>, stop: nat, id: nat)
    requires |marks| == |ids| && stop <= |ids|
    ensures id in Left(ids, marks, stop) <==> exists i | 0 <= i < |ids| :: ids[i] == id && (i < stop || !marks[i])
  {
    var rest, restMarks := ids[stop..], marks[stop..];
    SurvivorsAre(rest, restMarks, id);
    if id in ids[..stop] {
      var i :| 0 <= i < stop && ids[..stop][i] == id;
      assert ids[i] == id;
    }
    if i :| 0 <= i < |rest| && !restMarks[i] && rest[i] == id {
      assert ids[stop + i] == id && !marks[stop + i];
    }
    if i :| 0 <= i < |ids| && ids[i] == id && (i < stop || !marks[i]) {
      assert i < stop ==> ids[..stop][i] == id;
      assert i >= stop ==> rest[i - stop] == id && (restMarks[i - stop] <==> marks[i]);
    }
  }

  lemma LeftSorted(db: Store, ids: seq<nat>, marks: seq<bool>, stop: nat)
    requires UidAscending(db, ids) && |marks| == |ids| && stop <= |ids|
    ensures UidAscending(db, Left(ids, marks, stop))
  {
    SurvivorsSorted(db, ids[stop..], marks[stop..]);
    forall x, y | x in ids[..stop] && y in Survivors(ids[stop..], marks[stop..])
      ensures db.messages[x].uid < db.messages[y].uid
    {
      SurvivorsListed(ids[stop..], marks[stop..], y);
      var i :| 0 <= i < stop && ids[..stop][i] == x;
      var j :| 0 <= j < |ids| - stop && ids[stop..][j] == y;
      assert ids[i] == x && ids[stop + j] == y;
    }
    UidAscendingConcat(db, ids[..stop], Survivors(ids[stop..], marks[stop..]));
  }

  lemma LeftOrGone(ids: seq<nat>, marks: seq<bool>, stop: nat, id: nat)
    requires NoDup(ids) && |marks| == |ids| && stop <= |ids|
    ensures id in Left(ids, marks, stop) <==> id in ids && id !in GoneIds(ids, marks, stop)
  {
    LeftAre(ids, marks, stop, id);
    if id in ids {
      var i :| 0 <= i < |ids| && ids[i] == id;
      assert id in GoneIds(ids, marks, stop) <==> stop <= i && marks[i];
    }
  }

  /** Stopped anywhere, an expunge leaves listed exactly what the client's list holds. */
  lemma ListingAfterErase(db: Store, mailbox: nat, ids: seq<nat>, marks: seq<bool>, stop: nat)
    requires IsUidListing(db, mailbox, ids) && |marks| == |ids| && stop <= |ids|
    ensures IsUidListing(Erased(db, ids, marks, stop), mailbox, Left(ids, marks, stop))
  {
    var after := Erased(db, ids, marks, stop);
    ListingNoDup(db, mailbox, ids);
    forall id ensures id in Left(ids, marks, stop) <==> id in after.messages && after.messages[id].mailbox == mailbox {
      LeftOrGone(ids, marks, stop, id);
      assert id in ids <==> id in db.messages && db.messages[id].mailbox == mailbox;
    }
    LeftSorted(db, ids, marks, stop);
    forall i | 0 <= i < |Left(ids, marks, stop)| ensures Left(ids, marks, stop)[i] in after.messages {
      assert Left(ids, marks, stop)[i] in Left(ids, marks, stop);
    }
  }

  ghost predicate UidAscending(db: Store, ids: seq<nat>) {
    && (forall i | 0 <= i < |ids| :: ids[i] in db.messages)
    && (forall i, j | 0 <= i < j < |ids| :: db.messages[ids[i]].uid < db.messages[ids[j]].uid)
  }

  lemma UidAscendingConcat(db: Store, a: seq<nat>, b: seq<nat>)
    requires UidAscending(db, a) && UidAscending(db, b)
    requires forall x, y | x in a && y in b && x in db.messages && y in db.messages ::
      db.messages[x].uid < db.messages[y].uid
    ensures UidAscending(db, a + b)
  {
    var c := a + b;
    forall i, j | 0 <= i < j < |c| ensures db.messages[c[i]].uid < db.messages[c[j]].uid {
      if i < |a| <= j {
        assert c[i] in a && c[j] == b[j - |a|] && c[j] in b;
      }
    }
  }

  lemma {:induction false} SurvivorsSorted(db: Store, ids: seq<nat>, marks: seq<bool>)
    requires |marks| == |ids| && UidAscending(db, ids)
    ensures UidAscending(db, Survivors(ids, marks))
    decreases |ids|
  {
    if ids != [] {
      var rest := Survivors(ids[1..], marks[1..]);
      SurvivorsSorted(db, ids[1..], marks[1..]);
      if !marks[0] {
        forall y | y in rest ensures db.messages[ids[0]].uid < db.messages[y].uid {
          SurvivorsListed(ids[1..], marks[1..], y);
        }
        UidAscendingConcat(db, [ids[0]], rest);
      } else {
        assert [] + rest == rest;
      }
    }
  }

  lemma SurvivorsListed(ids: seq<nat>, marks: seq<bool>, id: nat)
    requires |marks| == |ids| && id in Survivors(ids, marks)
    ensures id in ids
  {
    SurvivorsAre(ids, marks, id);
  }

  // ---------------------------------------------------------------------- copy

  function DraftOf(m: Message): Draft {
    Draft(m.content, m.flags, m.expires)
  }

  /** StoreMessage by a session running alone. */
  function StoredInto(db: Store, mailbox: nat, draft: Draft): Store
    requires mailbox in db.mailboxes
  {
    Inserted(Bumped(db, mailbox), mailbox, db.mailboxes[mailbox].uidNext, draft)
  }

  /** COPY of the messages `ids`, in that order, into `dest`. */
  function CopyAll(db: Store, ids: seq<nat>, dest: nat): (r: Store)
    requires dest in db.mailboxes && forall i | 0 <= i < |ids| :: ids[i] in db.messages
    ensures dest in r.mailboxes && r.nextMessage == db.nextMessage + |ids|
  {
    if ids == [] then db
    else
      var k := |ids| - 1;
      StoredInto(CopyAll(db, ids[..k], dest), dest, DraftOf(db.messages[ids[k]]))
  }

  /** `r` is `db` with the k-th of `ids` copied under the k-th UID of the block that
      starts at the old uid_next, with equal content, flags and expiry. */
  ghost predicate IsCopyOf(db: Store, r: Store, ids: seq<nat>, dest: nat)
    requires dest in db.mailboxes && forall i | 0 <= i < |ids| :: ids[i] in db.messages
  {
    && r.nextMessage == db.nextMessage + |ids| && r.nextMailbox == db.nextMailbox
    && r.mailboxes == db.mailboxes[dest := db.mailboxes[dest].(uidNext := db.mailboxes[dest].uidNext + |ids|)]
    && (forall id :: id in r.messages <==> id in db.messages || db.nextMessage <= id < db.nextMessage + |ids|)
    && (forall id <- db.messages :: r.messages[id] == db.messages[id])
    && (forall id | db.nextMessage <= id < db.nextMessage + |ids| :: r.messages[id]
          == db.messages[ids[id - db.nextMessage]].(
               mailbox := dest, uid := db.mailboxes[dest].uidNext + (id - db.nextMessage)))
  }

  lemma OneMoreCopy(db: Store, prev: Store, ids: seq<nat>, dest: nat)
    requires Wf(db) && dest in db.mailboxes && forall i | 0 <= i < |ids| :: ids[i] in db.messages
    requires ids != [] && IsCopyOf(db, prev, ids[..|ids| - 1], dest)
    ensures IsCopyOf(db, StoredInto(prev, dest, DraftOf(db.messages[ids[|ids| - 1]])), ids, dest)
  {
  }

  lemma CopyWf(db: Store, r: Store, ids: seq<nat>, dest: nat)
    requires Wf(db) && dest in db.mailboxes && forall i | 0 <= i < |ids| :: ids[i] in db.messages
    requires IsCopyOf(db, r, ids, dest)
    ensures Wf(r)
  {
    forall a, b | a in r.messages && b in r.messages && a != b ensures Slot(r.messages[a]) != Slot(r.messages[b]) {
      if a in db.messages && b in db.messages {
        assert Slot(db.messages[a]) != Slot(db.messages[b]);
      }
    }
  }

  /** Copy is a bijection onto the block of fresh UIDs, whatever the order. */
  lemma {:induction false} CopyIsBijection(db: Store, ids: seq<nat>, dest: nat)
    requires Wf(db) && dest in db.mailboxes && forall i | 0 <= i < |ids| :: ids[i] in db.messages
    ensures IsCopyOf(db, CopyAll(db, ids, dest), ids, dest) && Wf(CopyAll(db, ids, dest))
    decreases |ids|
  {
    if ids != [] {
      CopyIsBijection(db, ids[..|ids| - 1], dest);
      OneMoreCopy(db, CopyAll(db, ids[..|ids| - 1], dest), ids, dest);
    }
    CopyWf(db, CopyAll(db, ids, dest), ids, dest);
  }

  // -------------------------------------------------------------- COPYUID pairs

  function UidsOf(db: Store, ids: seq<nat>): seq<nat>
    requires forall i | 0 <= i < |ids| :: ids[i] in db.messages
  {
    seq(|ids|, i requires 0 <= i < |ids| => db.messages[ids[i]].uid)
  }

  ghost predicate IsSorting(s: seq<nat>, of: seq<nat>) {
    Ascending(s) && |s| == |of| && forall x :: x in s <==> x in of
  }

  ghost predicate Copied(src: seq<nat>, dst: seq<nat>, from: nat, to: nat)
    requires |src| == |dst|
  {
    exists i | 0 <= i < |src| :: src[i] == from && dst[i] == to
  }

  /** Section 3 of RFC 4315: a client pairs the k-th least source UID with the k-th
      least destination UID.  `src[k]` was really copied to `dst[k]`. */
  ghost predicate PairsRight(src: seq<nat>, dst: seq<nat>)
    requires |src| == |dst|
  {
    forall s: seq<nat>, d: seq<nat>, k | IsSorting(s, src) && IsSorting(d, dst) && 0 <= k < |src| ::
      Copied(src, dst, s[k], d[k])
  }

  lemma AscendingPairsRight(src: seq<nat>, dst: seq<nat>)
    requires |src| == |dst| && Ascending(src) && Ascending(dst)
    ensures PairsRight(src, dst)
  {
    forall s: seq<nat>, d: seq<nat>, k | IsSorting(s, src) && IsSorting(d, dst) && 0 <= k < |src|
      ensures Copied(src, dst, s[k], d[k])
    {
      SortedUnique(s, src, (x: nat) => x);
      SortedUnique(d, dst, (x: nat) => x);
      assert src[k] == s[k] && dst[k] == d[k];
    }
  }

  /** The COPYUID answer pairs right exactly when the copies were made in ascending order. */
  lemma CopyUidRightIff(src: seq<nat>, dst: seq<nat>, sorted: seq<nat>)
    requires |src| == |dst| && Ascending(dst) && IsSorting(sorted, src)
    ensures PairsRight(src, dst) <==> Ascending(src)
  {
    if Ascending(src) {
      AscendingPairsRight(src, dst);
    }
    if PairsRight(src, dst) {
      assert IsSorting(dst, dst);
      forall k | 0 <= k < |src| ensures src[k] == sorted[k] {
        assert Copied(src, dst, sorted[k], dst[k]);
        var i :| 0 <= i < |src| && src[i] == sorted[k] && dst[i] == dst[k];
        assert i == k;
      }
      assert src == sorted;
    }
  }

  // ---------------------------------------------------------------------- move

  datatype NumSet =
    | SeqSet(contains: nat -> bool)
    | UidSet(contains: nat -> bool)

  /** Is the message at index i of a listing in the set? */
  predicate Selected(db: Store, ids: seq<nat>, ns: NumSet, i: nat)
    requires i < |ids| && ids[i] in db.messages
  {
    match ns
    case SeqSet(contains) => contains(i + 1)
    case UidSet(contains) => contains(db.messages[ids[i]].uid)
  }

  function SelectMarks(db: Store, ids: seq<nat>, ns: NumSet): seq<bool>
    requires forall i | 0 <= i < |ids| :: ids[i] in db.messages
  {
    seq(|ids|, i requires 0 <= i < |ids| => Selected(db, ids, ns, i))
  }

  /** `src` are the selected messages of the listing `ids`, in any order. */
  ghost predicate Selects(db: Store, ids: seq<nat>, ns: NumSet, src: seq<nat>)
    requires forall i | 0 <= i < |ids| :: ids[i] in db.messages
  {
    NoDup(src) && Range(src) == GoneIds(ids, SelectMarks(db, ids, ns), 0)
  }

  /** An order in which COPY may walk its map. */
  ghost predicate IsCopyOrder(db: Store, ids: seq<nat>, ns: NumSet, src: seq<nat>)
    requires forall i | 0 <= i < |ids| :: ids[i] in db.messages
  {
    (forall i | 0 <= i < |src| :: src[i] in db.messages) && Selects(db, ids, ns, src)
  }

  lemma UidsDistinct(db: Store, mailbox: nat, ids: seq<nat>, ns: NumSet, src: seq<nat>)
    requires IsUidListing(db, mailbox, ids) && IsCopyOrder(db, ids, ns, src)
    ensures NoDup(UidsOf(db, src))
  {
    forall i, j | 0 <= i < j < |src| ensures db.messages[src[i]].uid != db.messages[src[j]].uid {
      assert src[i] in Range(src) && src[j] in Range(src);
      var a :| 0 <= a < |ids| && ids[a] == src[i];
      var b :| 0 <= b < |ids| && ids[b] == src[j];
      assert a != b;
    }
  }

  lemma CopyOrderRightIff(db: Store, mailbox: nat, ids: seq<nat>, ns: NumSet, src: seq<nat>, start: nat)
    requires IsUidListing(db, mailbox, ids) && IsCopyOrder(db, ids, ns, src)
    ensures PairsRight(UidsOf(db, src), Block(start, |src|)) <==> Ascending(UidsOf(db, src))
  {
    var uids := UidsOf(db, src);
    UidsDistinct(db, mailbox, ids, ns, src);
    NoDupCard(uids);
    var sorted := Sorted(Range(uids));
    assert forall x :: x in sorted <==> x in Range(sorted);
    CopyUidRightIff(uids, Block(start, |src|), sorted);
  }

  lemma WrongOrder(db: Store, mailbox: nat, ids: seq<nat>, ns: NumSet) returns (src: seq<nat>)
    requires IsUidListing(db, mailbox, ids) && |GoneIds(ids, SelectMarks(db, ids, ns), 0)| > 1
    ensures IsCopyOrder(db, ids, ns, src) && !Ascending(UidsOf(db, src))
  {
    var chosen := GoneIds(ids, SelectMarks(db, ids, ns), 0);
    var x, y := TwoOf(chosen);
    if db.messages[x].uid < db.messages[y].uid {
      src := BeginningWith(chosen, y, x);
    } else {
      src := BeginningWith(chosen, x, y);
    }
    assert forall i | 0 <= i < |src| :: src[i] in Range(src);
    assert UidsOf(db, src)[0] >= UidsOf(db, src)[1];
  }

  lemma FewSelected(db: Store, ids: seq<nat>, ns: NumSet, src: seq<nat>)
    requires forall i | 0 <= i < |ids| :: ids[i] in db.messages
    requires IsCopyOrder(db, ids, ns, src) && |GoneIds(ids, SelectMarks(db, ids, ns), 0)| <= 1
    ensures Ascending(UidsOf(db, src))
  {
    NoDupCard(src);
  }

  /** What a caller can rely on: COPYUID pairs right, whatever the order of the map, exactly
      when at most one message is selected. */
  lemma CopyUidAlwaysRightIff(db: Store, mailbox: nat, ids: seq<nat>, ns: NumSet, start: nat)
    requires IsUidListing(db, mailbox, ids)
    ensures (forall src | IsCopyOrder(db, ids, ns, src) :: PairsRight(UidsOf(db, src), Block(start, |src|))) <==>
            |GoneIds(ids, SelectMarks(db, ids, ns), 0)| <= 1
  {
    if |GoneIds(ids, SelectMarks(db, ids, ns), 0)| <= 1 {
      forall src | IsCopyOrder(db, ids, ns, src) ensures PairsRight(UidsOf(db, src), Block(start, |src|)) {
        FewSelected(db, ids, ns, src);
        CopyOrderRightIff(db, mailbox, ids, ns, src, start);
      }
    } else {
      var src := WrongOrder(db, mailbox, ids, ns);
      CopyOrderRightIff(db, mailbox, ids, ns, src, start);
    }
  }

  /** Moving one by one, each as one step. */
  function MovedAll(db: Store, src: seq<nat>, dest: nat): (r: Store)
    requires dest in db.mailboxes && NoDup(src)
    requires forall i | 0 <= i < |src| :: src[i] in db.messages && src[i] < db.nextMessage
    ensures dest in r.mailboxes && r.nextMessage >= db.nextMessage
    ensures forall id <- db.messages :: id < db.nextMessage && id !in src ==>
      id in r.messages && r.messages[id] == db.messages[id]
    decreases |src|
  {
    if src == [] then db
    else
      var k := |src| - 1;
      var prev := MovedAll(db, src[..k], dest);
      assert src[k] !in src[..k];
      MovedOver(prev, src[k], dest)
  }

  lemma EraseStep(c: Store, gone: set<nat>, x: nat, dest: nat)
    requires dest in c.mailboxes && x in c.messages && x !in gone && c.nextMessage !in gone && x != c.nextMessage
    ensures var kept := c.(messages := c.messages - gone);
      var whole := StoredInto(c, dest, DraftOf(c.messages[x]));
      MovedOver(kept, x, dest) == whole.(messages := whole.messages - (gone + {x}))
  {
    var kept := c.(messages := c.messages - gone);
    var whole := StoredInto(c, dest, DraftOf(c.messages[x]));
    assert MovedOver(kept, x, dest).messages == whole.messages - (gone + {x});
  }

  lemma RangeInit(src: seq<nat>)
    requires NoDup(src) && src != []
    ensures var k := |src| - 1;
      Range(src) == Range(src[..k]) + {src[k]} && src[k] !in Range(src[..k]) && NoDup(src[..k])
  {
    assert src == src[..|src| - 1] + [src[|src| - 1]];
  }

  /** The copy made last, in the state before it. */
  lemma CopiedSoFar(db: Store, src: seq<nat>, dest: nat)
    requires Wf(db) && dest in db.mailboxes && src != [] && forall i | 0 <= i < |src| :: src[i] in db.messages
    ensures var k := |src| - 1;
      var c := CopyAll(db, src[..k], dest);
      && src[k] in c.messages && src[k] != c.nextMessage && c.nextMessage !in Range(src[..k])
      && CopyAll(db, src, dest) == StoredInto(c, dest, DraftOf(c.messages[src[k]]))
  {
    CopyIsBijection(db, src[..|src| - 1], dest);
  }

  lemma NextMove(db: Store, src: seq<nat>, dest: nat)
    requires dest in db.mailboxes && NoDup(src) && src != []
    requires forall i | 0 <= i < |src| :: src[i] in db.messages && src[i] < db.nextMessage
    ensures var k := |src| - 1;
      var prev := MovedAll(db, src[..k], dest);
      && src[k] in prev.messages && prev.messages[src[k]] == db.messages[src[k]] && dest in prev.mailboxes
      && MovedAll(db, src, dest) == MovedOver(prev, src[k], dest)
  {
    assert src[|src| - 1] !in src[..|src| - 1];
  }

  lemma EraseOneMore(db: Store, src: seq<nat>, dest: nat, prev: Store)
    requires Wf(db) && dest in db.mailboxes && NoDup(src) && src != [] &&
      forall i | 0 <= i < |src| :: src[i] in db.messages
    requires var c := CopyAll(db, src[..|src| - 1], dest);
      prev == c.(messages := c.messages - Range(src[..|src| - 1])) && src[|src| - 1] in prev.messages
    ensures var whole := CopyAll(db, src, dest);
      dest in prev.mailboxes && MovedOver(prev, src[|src| - 1], dest) == whole.(messages := whole.messages - Range(src))
  {
    var k := |src| - 1;
    RangeInit(src);
    CopiedSoFar(db, src, dest);
    EraseStep(CopyAll(db, src[..k], dest), Range(src[..k]), src[k], dest);
  }

  lemma {:induction false} CopyThenEraseIsMove(db: Store, src: seq<nat>, dest: nat)
    requires Wf(db) && dest in db.mailboxes && NoDup(src) && forall i | 0 <= i < |src| :: src[i] in db.messages
    ensures MovedAll(db, src, dest) == CopyAll(db, src, dest).(messages := CopyAll(db, src, dest).messages - Range(src))
    decreases |src|
  {
    if src == [] {
      assert Range(src) == {};
      assert db.messages - {} == db.messages;
    } else {
      var k := |src| - 1;
      var init := src[..k];
      CopyThenEraseIsMove(db, init, dest);
      NextMove(db, src, dest);
      EraseOneMore(db, src, dest, MovedAll(db, init, dest));
    }
  }

  /** Copying into another mailbox does not change what is listed here. */
  lemma ListingUnchanged(db: Store, src: seq<nat>, dest: nat, mailbox: nat, ids: seq<nat>)
    requires Wf(db) && dest in db.mailboxes && forall i | 0 <= i < |src| :: src[i] in db.messages
    requires IsUidListing(db, mailbox, ids) && mailbox != dest
    ensures IsUidListing(CopyAll(db, src, dest), mailbox, ids)
  {
    CopyIsBijection(db, src, dest);
    var r := CopyAll(db, src, dest);
  }

  /** What MOVE leaves: copies, then the set resolved again in the new listing and deleted. */
  function MoveResult(db: Store, src: seq<nat>, dest: nat, ns: NumSet, again: seq<nat>): Store
    requires dest in db.mailboxes && forall i | 0 <= i < |src| :: src[i] in db.messages
    requires forall i | 0 <= i < |again| :: again[i] in CopyAll(db, src, dest).messages
  {
    var copied := CopyAll(db, src, dest);
    Erased(copied, again, SelectMarks(copied, again, ns), 0)
  }

  /** Into another mailbox, MOVE moves exactly the selected messages, each at once. */
  lemma MoveIntoOther(db: Store, mailbox: nat, ids: seq<nat>, ns: NumSet, src: seq<nat>, dest: nat, again: seq<nat>)
    requires Wf(db) && dest in db.mailboxes && dest != mailbox
    requires IsUidListing(db, mailbox, ids) && Selects(db, ids, ns, src)
    requires forall i | 0 <= i < |src| :: src[i] in db.messages
    requires IsUidListing(CopyAll(db, src, dest), mailbox, again)
    ensures again == ids
    ensures MoveResult(db, src, dest, ns, again) == MovedAll(db, src, dest)
  {
    var copied := CopyAll(db, src, dest);
    ListingUnchanged(db, src, dest, mailbox, ids);
    ListingUnique(copied, mailbox, ids, again);
    CopyIsBijection(db, src, dest);
    assert SelectMarks(copied, ids, ns) == SelectMarks(db, ids, ns);
    CopyThenEraseIsMove(db, src, dest);
  }

  function MoveSteps(src: seq<nat>, dest: nat): seq<Event> {
    seq(|src|, i requires 0 <= i < |src| => MoveOver(src[i], dest))
  }

  lemma MoveOverStep(s: Sys, id: nat, dest: nat)
    requires id in s.db.messages && dest in s.db.mailboxes && s.db.messages[id].mailbox != dest
    ensures Enabled(s, MoveOver(id, dest)) && Apply(s, MoveOver(id, dest)).db == MovedOver(s.db, id, dest)
  {
  }

  lemma MoveOneMore(s: Sys, src: seq<nat>, dest: nat, init: seq<Event>)
    requires dest in s.db.mailboxes && NoDup(src) && src != []
    requires forall i | 0 <= i < |src| :: src[i] in s.db.messages && src[i] < s.db.nextMessage
    requires s.db.messages[src[|src| - 1]].mailbox != dest
    requires Legal(s, init) && Exec(s, init).db == MovedAll(s.db, src[..|src| - 1], dest)
    ensures var evs := init + [MoveOver(src[|src| - 1], dest)];
      Legal(s, evs) && Exec(s, evs).db == MovedAll(s.db, src, dest)
  {
    var k := |src| - 1;
    NextMove(s.db, src, dest);
    MoveOverStep(Exec(s, init), src[k], dest);
    ExecSnoc(s, init, MoveOver(src[k], dest));
  }

  lemma MoveStepsSnoc(src: seq<nat>, dest: nat)
    requires src != []
    ensures MoveSteps(src, dest) == MoveSteps(src[..|src| - 1], dest) + [MoveOver(src[|src| - 1], dest)]
  {
  }

  /** ... so that it is a run of the interleaved store, and loses nothing. */
  lemma {:induction false} MoveIsRun(s: Sys, src: seq<nat>, dest: nat)
    requires dest in s.db.mailboxes && NoDup(src)
    requires forall i | 0 <= i < |src| :: src[i] in s.db.messages && src[i] < s.db.nextMessage
    requires forall i | 0 <= i < |src| :: s.db.messages[src[i]].mailbox != dest
    ensures Legal(s, MoveSteps(src, dest))
    ensures Exec(s, MoveSteps(src, dest)).db == MovedAll(s.db, src, dest)
    decreases |src|
  {
    if src == [] {
      assert MoveSteps(src, dest) == [];
    } else {
      var k := |src| - 1;
      MoveIsRun(s, src[..k], dest);
      MoveOneMore(s, src, dest, MoveSteps(src[..k], dest));
      MoveStepsSnoc(src, dest);
    }
  }

  /** The n numbers from `start` on: the ids, or the UIDs, that n copies get. */
  function Block(start: nat, n: nat): seq<nat> {
    seq(n, i requires 0 <= i => start + i)
  }

  lemma CopiesAscend(db: Store, src: seq<nat>, dest: nat)
    requires Wf(db) && dest in db.mailboxes && forall i | 0 <= i < |src| :: src[i] in db.messages
    ensures UidAscending(CopyAll(db, src, dest), Block(db.nextMessage, |src|))
  {
    CopyIsBijection(db, src, dest);
  }

  lemma ListedStayAscending(db: Store, mailbox: nat, ids: seq<nat>, src: seq<nat>, dest: nat)
    requires Wf(db) && dest in db.mailboxes && forall i | 0 <= i < |src| :: src[i] in db.messages
    requires UidAscending(db, ids)
    ensures UidAscending(CopyAll(db, src, dest), ids)
  {
    CopyIsBijection(db, src, dest);
  }

  lemma InBlock(start: nat, n: nat, x: nat)
    ensures x in Block(start, n) <==> start <= x < start + n
  {
    if start <= x < start + n {
      assert Block(start, n)[x - start] == x;
    }
  }

  /** Copying into the listed mailbox appends the copies to the listing. */
  lemma ListingAfterCopyHere(db: Store, mailbox: nat, ids: seq<nat>, src: seq<nat>)
    requires Wf(db) && mailbox in db.mailboxes && IsUidListing(db, mailbox, ids)
    requires forall i | 0 <= i < |src| :: src[i] in db.messages
    ensures IsUidListing(CopyAll(db, src, mailbox), mailbox, ids + Block(db.nextMessage, |src|))
  {
    var r, new_ := CopyAll(db, src, mailbox), Block(db.nextMessage, |src|);
    CopiesAscend(db, src, mailbox);
    ListedStayAscending(db, mailbox, ids, src, mailbox);
    CopyIsBijection(db, src, mailbox);
    forall id: nat ensures id in new_ <==> db.nextMessage <= id < db.nextMessage + |src| {
      InBlock(db.nextMessage, |src|, id);
    }
    UidAscendingConcat(r, ids, new_);
  }

  /** Does the set name this position, or this UID? */
  predicate NamesNumbers(ns: NumSet, position: nat, uid: nat) {
    match ns
    case SeqSet(contains) => contains(position)
    case UidSet(contains) => contains(uid)
  }

  /** Does the set name the k-th of the next positions, or of the next UIDs, of a mailbox? */
  predicate NamesNext(db: Store, mailbox: nat, ids: seq<nat>, ns: NumSet, k: nat)
    requires mailbox in db.mailboxes
  {
    NamesNumbers(ns, |ids| + k + 1, db.mailboxes[mailbox].uidNext + k)
  }

  /** What the second listing selects of the old messages is what the first did. */
  lemma OldSelectedAgain(db: Store, mailbox: nat, ids: seq<nat>, ns: NumSet, src: seq<nat>, again: seq<nat>, i: nat)
    requires Wf(db) && mailbox in db.mailboxes && IsUidListing(db, mailbox, ids) && i < |ids|
    requires forall i | 0 <= i < |src| :: src[i] in db.messages
    requires IsUidListing(CopyAll(db, src, mailbox), mailbox, again)
    ensures i < |again| && again[i] == ids[i]
    ensures Selected(CopyAll(db, src, mailbox), again, ns, i) == Selected(db, ids, ns, i)
  {
    ListingAfterCopyHere(db, mailbox, ids, src);
    ListingUnique(CopyAll(db, src, mailbox), mailbox, ids + Block(db.nextMessage, |src|), again);
    CopyIsBijection(db, src, mailbox);
  }

  lemma AppendedAt(ids: seq<nat>, start: nat, n: nat, k: nat)
    requires k < n
    ensures |ids + Block(start, n)| == |ids| + n && (ids + Block(start, n))[|ids| + k] == start + k
  {
  }

  lemma SecondListing(db: Store, mailbox: nat, ids: seq<nat>, src: seq<nat>, again: seq<nat>)
    requires Wf(db) && mailbox in db.mailboxes && IsUidListing(db, mailbox, ids)
    requires forall i | 0 <= i < |src| :: src[i] in db.messages
    requires IsUidListing(CopyAll(db, src, mailbox), mailbox, again)
    ensures again == ids + Block(db.nextMessage, |src|)
  {
    ListingAfterCopyHere(db, mailbox, ids, src);
    ListingUnique(CopyAll(db, src, mailbox), mailbox, ids + Block(db.nextMessage, |src|), again);
  }

  lemma CopyUid(db: Store, src: seq<nat>, dest: nat, k: nat)
    requires Wf(db) && dest in db.mailboxes && k < |src| && forall i | 0 <= i < |src| :: src[i] in db.messages
    ensures CopyKept(db, CopyAll(db, src, dest), k)
    ensures CopyAll(db, src, dest).messages[db.nextMessage + k].uid == db.mailboxes[dest].uidNext + k
  {
    CopyIsBijection(db, src, dest);
  }

  /** Deleting the selected messages of a listing takes exactly those. */
  lemma SelectedGoes(db: Store, mailbox: nat, ids: seq<nat>, ns: NumSet, i: nat, id: nat)
    requires IsUidListing(db, mailbox, ids) && i < |ids| && ids[i] == id
    ensures id in Erased(db, ids, SelectMarks(db, ids, ns), 0).messages <==> !Selected(db, ids, ns, i)
  {
    ListingNoDup(db, mailbox, ids);
    assert SelectMarks(db, ids, ns)[i] == Selected(db, ids, ns, i);
  }

  /** The k-th message copied, in the id its copy got, is there afterwards. */
  predicate CopyKept(db: Store, after: Store, k: nat) {
    db.nextMessage + k in after.messages
  }

  lemma AppendedKept(was: Store, db: Store, mailbox: nat, ids: seq<nat>, ns: NumSet, again: seq<nat>, k: nat)
    requires mailbox in was.mailboxes && IsUidListing(db, mailbox, again) && |ids| + k < |again|
    requires again[|ids| + k] == was.nextMessage + k && CopyKept(was, db, k)
    requires db.messages[was.nextMessage + k].uid == was.mailboxes[mailbox].uidNext + k
    ensures CopyKept(was, Erased(db, again, SelectMarks(db, again, ns), 0), k) <==> !NamesNext(was, mailbox, ids, ns, k)
  {
    SelectedGoes(db, mailbox, again, ns, |ids| + k, was.nextMessage + k);
  }

  /** MOVE into the selected mailbox itself keeps the copy of the k-th message exactly when
      the set does not name the k-th position, or UID, after those there are. */
  lemma MoveKeepsCopyIff(db: Store, mailbox: nat, ids: seq<nat>, ns: NumSet, src: seq<nat>, again: seq<nat>, k: nat)
    requires Wf(db) && mailbox in db.mailboxes && IsUidListing(db, mailbox, ids) && k < |src|
    requires forall i | 0 <= i < |src| :: src[i] in db.messages
    requires IsUidListing(CopyAll(db, src, mailbox), mailbox, again)
    ensures CopyKept(db, MoveResult(db, src, mailbox, ns, again), k) <==> !NamesNext(db, mailbox, ids, ns, k)
  {
    assert |ids| + k < |again| && again[|ids| + k] == db.nextMessage + k by {
      SecondListing(db, mailbox, ids, src, again);
      AppendedAt(ids, db.nextMessage, |src|, k);
    }
    CopyUid(db, src, mailbox, k);
    AppendedKept(db, CopyAll(db, src, mailbox), mailbox, ids, ns, again, k);
  }

  /** Every message there was is still there, or its copy is. */
  ghost predicate NothingLost(db: Store, src: seq<nat>, after: Store) {
    forall id <- db.messages ::
      id in after.messages || exists k: nat | k < |src| :: CopyKept(db, after, k) && src[k] == id
  }

  lemma OriginalGoes(db: Store, mailbox: nat, ids: seq<nat>, ns: NumSet, src: seq<nat>, again: seq<nat>, id: nat)
    requires Wf(db) && mailbox in db.mailboxes && IsUidListing(db, mailbox, ids) && Selects(db, ids, ns, src)
    requires forall i | 0 <= i < |src| :: src[i] in db.messages
    requires IsUidListing(CopyAll(db, src, mailbox), mailbox, again) && id in src
    ensures id !in MoveResult(db, src, mailbox, ns, again).messages
  {
    assert id in GoneIds(ids, SelectMarks(db, ids, ns), 0);
    var i :| 0 <= i < |ids| && SelectMarks(db, ids, ns)[i] && ids[i] == id;
    var copied := CopyAll(db, src, mailbox);
    OldSelectedAgain(db, mailbox, ids, ns, src, again, i);
    SelectedGoes(copied, mailbox, again, ns, i, id);
  }

  lemma OthersStay(db: Store, mailbox: nat, ids: seq<nat>, ns: NumSet, src: seq<nat>, again: seq<nat>, id: nat)
    requires Wf(db) && mailbox in db.mailboxes && IsUidListing(db, mailbox, ids) && Selects(db, ids, ns, src)
    requires forall i | 0 <= i < |src| :: src[i] in db.messages
    requires IsUidListing(CopyAll(db, src, mailbox), mailbox, again) && id in db.messages && id !in src
    ensures id in MoveResult(db, src, mailbox, ns, again).messages
  {
    var copied := CopyAll(db, src, mailbox);
    CopyIsBijection(db, src, mailbox);
    assert id in copied.messages && copied.messages[id] == db.messages[id];
    if id in ids {
      var i :| 0 <= i < |ids| && ids[i] == id;
      assert id !in GoneIds(ids, SelectMarks(db, ids, ns), 0);
      OldSelectedAgain(db, mailbox, ids, ns, src, again, i);
      SelectedGoes(copied, mailbox, again, ns, i, id);
    } else {
      assert id !in again;
    }
  }

  /** A whole MOVE into the selected mailbox itself loses nothing exactly when the set names
      none of the next |src| positions, or UIDs. */
  lemma MoveIntoItselfSafeIff(db: Store, mailbox: nat, ids: seq<nat>, ns: NumSet, src: seq<nat>, again: seq<nat>)
    requires Wf(db) && mailbox in db.mailboxes && IsUidListing(db, mailbox, ids) && Selects(db, ids, ns, src)
    requires forall i | 0 <= i < |src| :: src[i] in db.messages
    requires IsUidListing(CopyAll(db, src, mailbox), mailbox, again)
    ensures NothingLost(db, src, MoveResult(db, src, mailbox, ns, again)) <==>
      forall k: nat | k < |src| :: !NamesNext(db, mailbox, ids, ns, k)
  {
    var after := MoveResult(db, src, mailbox, ns, again);
    forall k: nat | k < |src| ensures CopyKept(db, after, k) <==> !NamesNext(db, mailbox, ids, ns, k) {
      MoveKeepsCopyIff(db, mailbox, ids, ns, src, again, k);
    }
    if forall k: nat | k < |src| :: CopyKept(db, after, k) {
      EveryCopyKept(db, mailbox, ids, ns, src, again);
    }
    if NothingLost(db, src, after) {
      forall k: nat | k < |src| ensures CopyKept(db, after, k) {
        assert src[k] in src && src[k] in db.messages;
        OriginalGoes(db, mailbox, ids, ns, src, again, src[k]);
        var j: nat :| j < |src| && CopyKept(db, after, j) && src[j] == src[k];
        assert j == k;
      }
    }
  }

  lemma EveryCopyKept(db: Store, mailbox: nat, ids: seq<nat>, ns: NumSet, src: seq<nat>, again: seq<nat>)
    requires Wf(db) && mailbox in db.mailboxes && IsUidListing(db, mailbox, ids) && Selects(db, ids, ns, src)
    requires forall i | 0 <= i < |src| :: src[i] in db.messages
    requires IsUidListing(CopyAll(db, src, mailbox), mailbox, again)
    requires forall k: nat | k < |src| :: CopyKept(db, MoveResult(db, src, mailbox, ns, again), k)
    ensures NothingLost(db, src, MoveResult(db, src, mailbox, ns, again))
  {
    var after := MoveResult(db, src, mailbox, ns, again);
    forall id | id in db.messages
      ensures id in after.messages || exists k: nat | k < |src| :: CopyKept(db, after, k) && src[k] == id
    {
      if id in src {
        var k: nat :| k < |src| && src[k] == id;
        assert CopyKept(db, after, k);
      } else {
        OthersStay(db, mailbox, ids, ns, src, again, id);
      }
    }
  }

  /** MOVE 1:* from a mailbox into itself loses everything in it. */
  lemma MoveIntoItselfLoses(db: Store, mailbox: nat, ids: seq<nat>, src: seq<nat>, again: seq<nat>)
    requires Wf(db) && mailbox in db.mailboxes
    requires IsUidListing(db, mailbox, ids) && Selects(db, ids, SeqSet(n => n >= 1), src)
    requires forall i | 0 <= i < |src| :: src[i] in db.messages
    requires IsUidListing(CopyAll(db, src, mailbox), mailbox, again)
    ensures IsUidListing(MoveResult(db, src, mailbox, SeqSet(n => n >= 1), again), mailbox, [])
  {
    var ns := SeqSet(n => n >= 1);
    var copied := CopyAll(db, src, mailbox);
    forall id | id in copied.messages && copied.messages[id].mailbox == mailbox
      ensures id in GoneIds(again, SelectMarks(copied, again, ns), 0)
    {
      var i :| 0 <= i < |again| && again[i] == id;
      assert SelectMarks(copied, again, ns)[i];
    }
  }
}
