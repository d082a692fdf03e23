/** IMAP SEARCH (internal/imap/search.go): the recursive matcher against the meaning of
    section 6.4.4 of RFC 3501, where a message matches when every search key does and
    string keys match in any case. */
module ImapSearch {
  import opened Collections
  import opened Copying
  import opened Flags
  import opened MailDb
  import opened MailStore
  import opened Text
  import opened EmptyLines
  import Headers

  /** What the matcher reads of a message besides its UID and flags.  Dates are instants;
      `data` is the whole message as stored; `header` gives all values of a field, in order. */
  datatype Facts = Facts(internalDate: int, sentDate: int, size: int, data: string, header: string -> seq<string>)

  /** SearchCriteria; `Everything` stands for nil, a date of None the zero time. */
  datatype Criteria =
    | Everything
    | Criteria(flag: seq<string>, notFlag: seq<string>,
               since: Option<int>, before: Option<int>, sentSince: Option<int>, sentBefore: Option<int>,
               larger: int, smaller: int, uid: seq<nat -> bool>,
               header: seq<(string, string)>, body: seq<string>, text: seq<string>,
               not: seq<Criteria>, or: seq<(Criteria, Criteria)>)

  const BLANK: Criteria := Criteria([], [], None, None, None, None, 0, 0, [], [], [], [], [], [])

  predicate Contains(s: string, sub: string) {
    Headers.IndexFrom(s, sub, 0).Some?
  }

  predicate ContainsFold(s: string, sub: string) {
    Contains(ToLower(s), ToLower(sub))
  }

  /** The first value of a field, or nothing. */
  function FirstValue(values: seq<string>): string {
    if values == [] then "" else values[0]
  }

  predicate HeaderContains(f: Facts, name: string, value: string) {
    if value == "" then FirstValue(f.header(name)) != "" else ContainsFold(FirstValue(f.header(name)), value)
  }

  // ------------------------------------------------------------ as it is written

  predicate FlagsMatch(c: Criteria, m: Message)
    requires c.Criteria?
  {
    && (forall i | 0 <= i < |c.flag| :: HasFlag(m.flags, c.flag[i]))
    && (forall i | 0 <= i < |c.notFlag| :: !HasFlag(m.flags, c.notFlag[i]))
  }

  predicate DatesMatch(c: Criteria, f: Facts)
    requires c.Criteria?
  {
    && (c.since.Some? ==> c.since.value <= f.internalDate)
    && (c.before.Some? ==> f.internalDate < c.before.value)
    && (c.sentSince.Some? ==> c.sentSince.value <= f.sentDate)
    && (c.sentBefore.Some? ==> f.sentDate < c.sentBefore.value)
  }

  predicate SizesMatch(c: Criteria, f: Facts)
    requires c.Criteria?
  {
    (c.larger > 0 ==> c.larger < f.size) && (c.smaller > 0 ==> f.size < c.smaller)
  }

  /** One of the UID sets is enough. */
  predicate UidsMatch(c: Criteria, m: Message)
    requires c.Criteria?
  {
    c.uid != [] ==> exists i | 0 <= i < |c.uid| :: c.uid[i](m.uid)
  }

  predicate HeadersMatch(c: Criteria, f: Facts)
    requires c.Criteria?
  {
    forall i | 0 <= i < |c.header| :: HeaderContains(f, c.header[i].0, c.header[i].1)
  }

  predicate TextsMatch(c: Criteria, f: Facts)
    requires c.Criteria?
  {
    && (forall i | 0 <= i < |c.body| :: Contains(f.data, c.body[i]))
    && (forall i | 0 <= i < |c.text| :: Contains(f.data, c.text[i]))
  }

  predicate Matches(c: Criteria, m: Message, f: Facts)
    decreases c
  {
    c.Everything? ||
    (&& FlagsMatch(c, m) && DatesMatch(c, f) && SizesMatch(c, f) && UidsMatch(c, m)
     && HeadersMatch(c, f) && TextsMatch(c, f)
     && (forall i | 0 <= i < |c.not| :: !Matches(c.not[i], m, f))
     && (forall i | 0 <= i < |c.or| :: Matches(c.or[i].0, m, f) || Matches(c.or[i].1, m, f)))
  }

  /** The first loops of the matcher: a false is its early return. */
  method CheckFlags(c: Criteria, m: Message) returns (ok: bool)
    requires c.Criteria?
    ensures ok == FlagsMatch(c, m)
  {
    for i := 0 to |c.flag|
      invariant forall j | 0 <= j < i :: HasFlag(m.flags, c.flag[j])
    {
      if !HasFlag(m.flags, c.flag[i]) {
        return false;
      }
    }
    for i := 0 to |c.notFlag|
      invariant forall j | 0 <= j < i :: !HasFlag(m.flags, c.notFlag[j])
    {
      if HasFlag(m.flags, c.notFlag[i]) {
        return false;
      }
    }
    return true;
  }

  method CheckUids(c: Criteria, m: Message) returns (ok: bool)
    requires c.Criteria?
    ensures ok == UidsMatch(c, m)
  {
    if |c.uid| > 0 {
      var matched := false;
      for i := 0 to |c.uid|
        invariant !matched && forall j | 0 <= j < i :: !c.uid[j](m.uid)
      {
        if c.uid[i](m.uid) {
          matched := true;
          break;
        }
      }
      if !matched {
        return false;
      }
    }
    return true;
  }

  method CheckTexts(c: Criteria, f: Facts) returns (ok: bool)
    requires c.Criteria?
    ensures ok == (HeadersMatch(c, f) && TextsMatch(c, f))
  {
    for i := 0 to |c.header|
      invariant forall j | 0 <= j < i :: HeaderContains(f, c.header[j].0, c.header[j].1)
    {
      if !HeaderContains(f, c.header[i].0, c.header[i].1) {
        return false;
      }
    }
    for i := 0 to |c.body|
      invariant forall j | 0 <= j < i :: Contains(f.data, c.body[j])
    {
      if !Contains(f.data, c.body[i]) {
        return false;
      }
    }
    for i := 0 to |c.text|
      invariant forall j | 0 <= j < i :: Contains(f.data, c.text[j])
    {
      if !Contains(f.data, c.text[i]) {
        return false;
      }
    }
    return true;
  }

  method MatchesCriteria(c: Criteria, m: Message, f: Facts) returns (ok: bool)
    ensures ok == Matches(c, m, f)
    decreases c
  {
    if c.Everything? {
      return true;
    }
    var flags := CheckFlags(c, m);
    if !flags {
      return false;
    }
    if (c.since.Some? && f.internalDate < c.since.value) || (c.before.Some? && !(f.internalDate < c.before.value)) {
      return false;
    }
    if (c.sentSince.Some? && f.sentDate < c.sentSince.value)
       || (c.sentBefore.Some? && !(f.sentDate < c.sentBefore.value)) {
      return false;
    }
    if (c.larger > 0 && f.size <= c.larger) || (c.smaller > 0 && f.size >= c.smaller) {
      return false;
    }
    var uids := CheckUids(c, m);
    if !uids {
      return false;
    }
    var texts := CheckTexts(c, f);
    if !texts {
      return false;
    }
    for i := 0 to |c.not|
      invariant forall j | 0 <= j < i :: !Matches(c.not[j], m, f)
    {
      var inner := MatchesCriteria(c.not[i], m, f);
      if inner {
        return false;
      }
    }
    for i := 0 to |c.or|
      invariant forall j | 0 <= j < i :: Matches(c.or[j].0, m, f) || Matches(c.or[j].1, m, f)
    {
      var left := MatchesCriteria(c.or[i].0, m, f);
      if !left {
        var right := MatchesCriteria(c.or[i].1, m, f);
        if !right {
          return false;
        }
      }
    }
    return true;
  }

  // ------------------------------------------------------------- as it is meant

  /** A search key.  Flags, UIDs and strings have the meaning of section 6.4.4: strings match
      in any case, BODY looks in the body alone, HEADER at every field of the name.  Dates
      are the program's own instants (MidnightsCompareDays). */
  datatype Key =
    | Keyword(flag: string) | Unkeyword(flag: string)
    | Since(date: int) | Before(date: int) | SentSince(date: int) | SentBefore(date: int)
    | Larger(n: int) | Smaller(n: int)
    | Uid(set_: nat -> bool)
    | Header(name: string, value: string) | Body(text: string) | Text(text: string)
    | Not(keys: seq<Key>) | Or(left: seq<Key>, right: seq<Key>)

  predicate InSomeValue(values: seq<string>, value: string) {
    exists i | 0 <= i < |values| :: ContainsFold(values[i], value)
  }

  predicate Holds(k: Key, m: Message, f: Facts)
    decreases k
  {
    match k
    case Keyword(flag) => HasFlag(m.flags, flag)
    case Unkeyword(flag) => !HasFlag(m.flags, flag)
    case Since(date) => f.internalDate >= date
    case Before(date) => f.internalDate < date
    case SentSince(date) => f.sentDate >= date
    case SentBefore(date) => f.sentDate < date
    case Larger(n) => f.size > n
    case Smaller(n) => f.size < n
    case Uid(uids) => uids(m.uid)
    case Header(name, value) => InSomeValue(f.header(name), value)
    case Body(text) => ContainsFold(BodyOf(f.data), text)
    case Text(text) => ContainsFold(f.data, text)
    case Not(keys) => !forall i | 0 <= i < |keys| :: Holds(keys[i], m, f)
    case Or(left, right) =>
      (forall i | 0 <= i < |left| :: Holds(left[i], m, f)) || (forall i | 0 <= i < |right| :: Holds(right[i], m, f))
  }

  predicate AllHold(keys: seq<Key>, m: Message, f: Facts) {
    forall i | 0 <= i < |keys| :: Holds(keys[i], m, f)
  }

  function FlagKeys(c: Criteria): seq<Key>
    requires c.Criteria?
  {
    seq(|c.flag|, i requires 0 <= i < |c.flag| => Keyword(c.flag[i]))
    + seq(|c.notFlag|, i requires 0 <= i < |c.notFlag| => Unkeyword(c.notFlag[i]))
  }

  function OneKey(asked: bool, k: Key): seq<Key> {
    if asked then [k] else []
  }

  function DateKeys(c: Criteria): seq<Key>
    requires c.Criteria?
  {
    OneKey(c.since.Some?, Since(c.since.GetOr(0)))
    + OneKey(c.before.Some?, Before(c.before.GetOr(0)))
    + OneKey(c.sentSince.Some?, SentSince(c.sentSince.GetOr(0)))
    + OneKey(c.sentBefore.Some?, SentBefore(c.sentBefore.GetOr(0)))
  }

  function SizeKeys(c: Criteria): seq<Key>
    requires c.Criteria?
  {
    OneKey(c.larger > 0, Larger(c.larger)) + OneKey(c.smaller > 0, Smaller(c.smaller))
  }

  function UidKeys(c: Criteria): seq<Key>
    requires c.Criteria?
  {
    seq(|c.uid|, i requires 0 <= i < |c.uid| => Uid(c.uid[i]))
  }

  function HeaderKeys(c: Criteria): seq<Key>
    requires c.Criteria?
  {
    seq(|c.header|, i requires 0 <= i < |c.header| => Header(c.header[i].0, c.header[i].1))
  }

  function TextKeys(c: Criteria): seq<Key>
    requires c.Criteria?
  {
    BodyKeys(c.body) + AnywhereKeys(c.text)
  }

  function BodyKeys(texts: seq<string>): seq<Key> {
    seq(|texts|, i requires 0 <= i < |texts| => Body(texts[i]))
  }

  function AnywhereKeys(texts: seq<string>): seq<Key> {
    seq(|texts|, i requires 0 <= i < |texts| => Text(texts[i]))
  }

  /** All the keys a criteria tree holds. */
  function KeysOf(c: Criteria): seq<Key>
    decreases c
  {
    if c.Everything? then []
    else
      FlagKeys(c) + DateKeys(c) + SizeKeys(c) + UidKeys(c) + HeaderKeys(c) + TextKeys(c)
      + NotKeys(c) + OrKeys(c)
  }

  function NotKeys(c: Criteria): seq<Key>
    requires c.Criteria?
    decreases c, 0
  {
    seq(|c.not|, i requires 0 <= i < |c.not| => Not(KeysOf(c.not[i])))
  }

  function OrKeys(c: Criteria): seq<Key>
    requires c.Criteria?
    decreases c, 0
  {
    seq(|c.or|, i requires 0 <= i < |c.or| => Or(KeysOf(c.or[i].0), KeysOf(c.or[i].1)))
  }

  lemma AllHoldConcat(a: seq<Key>, b: seq<Key>, m: Message, f: Facts)
    ensures AllHold(a + b, m, f) <==> AllHold(a, m, f) && AllHold(b, m, f)
  {
    var all := a + b;
    assert forall i | 0 <= i < |a| :: all[i] == a[i];
    assert forall i | 0 <= i < |b| :: all[|a| + i] == b[i];
  }

  lemma OneKeyMeans(asked: bool, k: Key, m: Message, f: Facts)
    ensures AllHold(OneKey(asked, k), m, f) <==> (asked ==> Holds(k, m, f))
  {
    if asked {
      assert OneKey(asked, k)[0] == k;
    }
  }

  lemma FlagKeysMean(c: Criteria, m: Message, f: Facts)
    requires c.Criteria?
    ensures AllHold(FlagKeys(c), m, f) <==> FlagsMatch(c, m)
  {
    var a := seq(|c.flag|, i requires 0 <= i < |c.flag| => Keyword(c.flag[i]));
    var b := seq(|c.notFlag|, i requires 0 <= i < |c.notFlag| => Unkeyword(c.notFlag[i]));
    AllHoldConcat(a, b, m, f);
    assert forall i | 0 <= i < |c.flag| :: a[i] == Keyword(c.flag[i]);
    assert forall i | 0 <= i < |c.notFlag| :: b[i] == Unkeyword(c.notFlag[i]);
  }

  lemma DateKeysMean(c: Criteria, m: Message, f: Facts)
    requires c.Criteria?
    ensures AllHold(DateKeys(c), m, f) <==> DatesMatch(c, f)
  {
    var k0, k1 := Since(c.since.GetOr(0)), Before(c.before.GetOr(0));
    var k2, k3 := SentSince(c.sentSince.GetOr(0)), SentBefore(c.sentBefore.GetOr(0));
    var a0, a1 := OneKey(c.since.Some?, k0), OneKey(c.before.Some?, k1);
    var a2, a3 := OneKey(c.sentSince.Some?, k2), OneKey(c.sentBefore.Some?, k3);
    AllHoldConcat(a0, a1, m, f);
    AllHoldConcat(a0 + a1, a2, m, f);
    AllHoldConcat(a0 + a1 + a2, a3, m, f);
    OneKeyMeans(c.since.Some?, k0, m, f);
    OneKeyMeans(c.before.Some?, k1, m, f);
    OneKeyMeans(c.sentSince.Some?, k2, m, f);
    OneKeyMeans(c.sentBefore.Some?, k3, m, f);
  }

  lemma SizeKeysMean(c: Criteria, m: Message, f: Facts)
    requires c.Criteria?
    ensures AllHold(SizeKeys(c), m, f) <==> SizesMatch(c, f)
  {
    AllHoldConcat(OneKey(c.larger > 0, Larger(c.larger)), OneKey(c.smaller > 0, Smaller(c.smaller)), m, f);
    OneKeyMeans(c.larger > 0, Larger(c.larger), m, f);
    OneKeyMeans(c.smaller > 0, Smaller(c.smaller), m, f);
  }

  // ------------------------------------------------------- where the two agree

  lemma VerbatimFolds(s: string, sub: string)
    requires Contains(s, sub)
    ensures ContainsFold(s, sub)
  {
    var i := Headers.IndexFrom(s, sub, 0).value;
    assert ToLower(s)[i..i + |sub|] == ToLower(s[i..i + |sub|]);
    assert Headers.At(ToLower(s), ToLower(sub), i);
  }

  /** A day's first instant compares as the day does, in UTC. */
  lemma MidnightsCompareDays(t: int, date: int)
    requires date % DAY == 0
    ensures t >= date <==> t / DAY >= date / DAY
  {
  }

  const DAY: int := 86_400 * 1_000_000_000

  /** At this node the UID sets agree about the message: all hold it, or none does. */
  predicate UidSetsAgree(c: Criteria, uid: nat)
    requires c.Criteria?
  {
    forall i, j | 0 <= i < |c.uid| && 0 <= j < |c.uid| :: c.uid[i](uid) == c.uid[j](uid)
  }

  /** The field is there with the string, but not in its first value; or the field is there,
      nothing more is asked, and its first value is empty. */
  predicate HeaderMissed(f: Facts, name: string, value: string) {
    InSomeValue(f.header(name), value) &&
    (if value == "" then f.header(name)[0] == "" else !ContainsFold(f.header(name)[0], value))
  }

  /** The string is there in another case only. */
  predicate OtherCaseOnly(f: Facts, text: string) {
    ContainsFold(f.data, text) && !Contains(f.data, text)
  }

  predicate BodyMissed(f: Facts, text: string) {
    ContainsFold(BodyOf(f.data), text) && !Contains(f.data, text)
  }

  /** The string is there, but not in the body. */
  predicate OutsideBody(f: Facts, text: string) {
    Contains(f.data, text) && !ContainsFold(BodyOf(f.data), text)
  }

  /** A key of the node that the message meets fails. */
  predicate RejectsWrongly(c: Criteria, f: Facts)
    requires c.Criteria?
  {
    || (exists i | 0 <= i < |c.header| :: HeaderMissed(f, c.header[i].0, c.header[i].1))
    || (exists i | 0 <= i < |c.body| :: BodyMissed(f, c.body[i]))
    || (exists i | 0 <= i < |c.text| :: OtherCaseOnly(f, c.text[i]))
  }

  /** A key of the node that the message does not meet holds. */
  predicate AcceptsWrongly(c: Criteria, m: Message, f: Facts)
    requires c.Criteria?
  {
    || !UidSetsAgree(c, m.uid)
    || (exists i | 0 <= i < |c.body| :: OutsideBody(f, c.body[i]))
  }

  /** Some key of the node fails both as written and as meant. */
  predicate FailsAnyway(c: Criteria, m: Message, f: Facts)
    requires c.Criteria?
  {
    || !RestMatches(c, m, f)
    || !UidsMatch(c, m)
    || (exists i | 0 <= i < |c.header| :: !InSomeValue(f.header(c.header[i].0), c.header[i].1))
    || (exists i | 0 <= i < |c.body| :: !Contains(f.data, c.body[i]) && !ContainsFold(BodyOf(f.data), c.body[i]))
    || (exists i | 0 <= i < |c.text| :: !ContainsFold(f.data, c.text[i]))
  }

  /** At every node of the tree no key is answered wrongly. */
  predicate RightThroughout(c: Criteria, m: Message, f: Facts)
    decreases c
  {
    c.Criteria? ==>
      && !RejectsWrongly(c, f) && !AcceptsWrongly(c, m, f)
      && (forall i | 0 <= i < |c.not| :: RightThroughout(c.not[i], m, f))
      && (forall i | 0 <= i < |c.or| :: RightThroughout(c.or[i].0, m, f) && RightThroughout(c.or[i].1, m, f))
  }

  predicate AtMostOneUidSet(c: Criteria)
    decreases c
  {
    c.Criteria? ==>
      && |c.uid| <= 1
      && (forall i | 0 <= i < |c.not| :: AtMostOneUidSet(c.not[i]))
      && (forall i | 0 <= i < |c.or| :: AtMostOneUidSet(c.or[i].0) && AtMostOneUidSet(c.or[i].1))
  }

  /** At every node the strings are answered rightly about the message. */
  predicate StringsRight(c: Criteria, f: Facts)
    decreases c
  {
    c.Criteria? ==>
      && !RejectsWrongly(c, f) && (forall i | 0 <= i < |c.body| :: !OutsideBody(f, c.body[i]))
      && (forall i | 0 <= i < |c.not| :: StringsRight(c.not[i], f))
      && (forall i | 0 <= i < |c.or| :: StringsRight(c.or[i].0, f) && StringsRight(c.or[i].1, f))
  }

  predicate NoStrings(c: Criteria)
    decreases c
  {
    c.Criteria? ==>
      && c.header == [] && c.body == [] && c.text == []
      && (forall i | 0 <= i < |c.not| :: NoStrings(c.not[i]))
      && (forall i | 0 <= i < |c.or| :: NoStrings(c.or[i].0) && NoStrings(c.or[i].1))
  }

  /** The two meanings of a tree give the same answer about a message. */
  predicate Agree(c: Criteria, m: Message, f: Facts) {
    Matches(c, m, f) == AllHold(KeysOf(c), m, f)
  }

  /** The keys of a node that are written as they are meant. */
  predicate RestMatches(c: Criteria, m: Message, f: Facts)
    requires c.Criteria?
  {
    && FlagsMatch(c, m) && DatesMatch(c, f) && SizesMatch(c, f)
    && (forall i | 0 <= i < |c.not| :: !Matches(c.not[i], m, f))
    && (forall i | 0 <= i < |c.or| :: Matches(c.or[i].0, m, f) || Matches(c.or[i].1, m, f))
  }

  ghost predicate BranchesAgree(c: Criteria, m: Message, f: Facts)
    requires c.Criteria?
  {
    && (forall i | 0 <= i < |c.not| :: Agree(c.not[i], m, f))
    && (forall i | 0 <= i < |c.or| :: Agree(c.or[i].0, m, f) && Agree(c.or[i].1, m, f))
  }

  lemma BranchKeysMean(c: Criteria, m: Message, f: Facts)
    requires c.Criteria? && BranchesAgree(c, m, f)
    ensures AllHold(NotKeys(c), m, f) <==> forall i | 0 <= i < |c.not| :: !Matches(c.not[i], m, f)
    ensures AllHold(OrKeys(c), m, f) <==>
      forall i | 0 <= i < |c.or| :: Matches(c.or[i].0, m, f) || Matches(c.or[i].1, m, f)
  {
    forall i | 0 <= i < |c.not| ensures Holds(NotKeys(c)[i], m, f) == !Matches(c.not[i], m, f) {
      assert Agree(c.not[i], m, f);
      assert NotKeys(c)[i] == Not(KeysOf(c.not[i]));
    }
    forall i | 0 <= i < |c.or|
      ensures Holds(OrKeys(c)[i], m, f) == (Matches(c.or[i].0, m, f) || Matches(c.or[i].1, m, f))
    {
      assert Agree(c.or[i].0, m, f) && Agree(c.or[i].1, m, f);
      assert OrKeys(c)[i] == Or(KeysOf(c.or[i].0), KeysOf(c.or[i].1));
    }
  }

  /** The string keys of a node as they are meant. */
  predicate StringsMeant(c: Criteria, f: Facts)
    requires c.Criteria?
  {
    && (forall i | 0 <= i < |c.header| :: InSomeValue(f.header(c.header[i].0), c.header[i].1))
    && (forall i | 0 <= i < |c.body| :: ContainsFold(BodyOf(f.data), c.body[i]))
    && (forall i | 0 <= i < |c.text| :: ContainsFold(f.data, c.text[i]))
  }

  lemma HeaderKeysMean(c: Criteria, m: Message, f: Facts)
    requires c.Criteria?
    ensures AllHold(HeaderKeys(c), m, f) <==>
      forall i | 0 <= i < |c.header| :: InSomeValue(f.header(c.header[i].0), c.header[i].1)
  {
    forall i | 0 <= i < |c.header|
      ensures Holds(HeaderKeys(c)[i], m, f) == InSomeValue(f.header(c.header[i].0), c.header[i].1)
    {
      assert HeaderKeys(c)[i] == Header(c.header[i].0, c.header[i].1);
    }
  }

  lemma BodyKeysMean(texts: seq<string>, m: Message, f: Facts)
    ensures AllHold(BodyKeys(texts), m, f) <==>
      forall i | 0 <= i < |texts| :: ContainsFold(BodyOf(f.data), texts[i])
  {
    forall i | 0 <= i < |texts| ensures Holds(BodyKeys(texts)[i], m, f) == ContainsFold(BodyOf(f.data),
      texts[i]) {
      assert BodyKeys(texts)[i] == Body(texts[i]);
    }
  }

  lemma AnywhereKeysMean(texts: seq<string>, m: Message, f: Facts)
    ensures AllHold(AnywhereKeys(texts), m, f) <==> forall i | 0 <= i < |texts| :: ContainsFold(f.data, texts[i])
  {
    forall i | 0 <= i < |texts| ensures Holds(AnywhereKeys(texts)[i], m, f) == ContainsFold(f.data, texts[i]) {
      assert AnywhereKeys(texts)[i] == Text(texts[i]);
    }
  }

  lemma TextKeysMean(c: Criteria, m: Message, f: Facts)
    requires c.Criteria?
    ensures AllHold(HeaderKeys(c), m, f) && AllHold(TextKeys(c), m, f) <==> StringsMeant(c, f)
  {
    HeaderKeysMean(c, m, f);
    AllHoldConcat(BodyKeys(c.body), AnywhereKeys(c.text), m, f);
    BodyKeysMean(c.body, m, f);
    AnywhereKeysMean(c.text, m, f);
  }

  /** A node whose branches are right: its keys are its UID keys, its strings and the rest. */
  lemma KeysMean(c: Criteria, m: Message, f: Facts)
    requires c.Criteria? && BranchesAgree(c, m, f)
    ensures AllHold(KeysOf(c), m, f) <==> AllHold(UidKeys(c), m, f) && StringsMeant(c, f) && RestMatches(c, m, f)
  {
    var k1 := FlagKeys(c) + DateKeys(c);
    var k2 := k1 + SizeKeys(c);
    var k3 := k2 + UidKeys(c);
    var k4 := k3 + HeaderKeys(c);
    var k5 := k4 + TextKeys(c);
    AllHoldConcat(FlagKeys(c), DateKeys(c), m, f);
    AllHoldConcat(k1, SizeKeys(c), m, f);
    AllHoldConcat(k2, UidKeys(c), m, f);
    AllHoldConcat(k3, HeaderKeys(c), m, f);
    AllHoldConcat(k4, TextKeys(c), m, f);
    AllHoldConcat(k5, NotKeys(c), m, f);
    AllHoldConcat(k5 + NotKeys(c), OrKeys(c), m, f);
    FlagKeysMean(c, m, f);
    DateKeysMean(c, m, f);
    SizeKeysMean(c, m, f);
    TextKeysMean(c, m, f);
    BranchKeysMean(c, m, f);
  }

  lemma UidKeysMean(c: Criteria, m: Message, f: Facts)
    requires c.Criteria?
    ensures AllHold(UidKeys(c), m, f) ==> UidsMatch(c, m)
    ensures UidsMatch(c, m) == AllHold(UidKeys(c), m, f) <==> UidSetsAgree(c, m.uid)
  {
    assert forall i | 0 <= i < |c.uid| :: UidKeys(c)[i] == Uid(c.uid[i]);
    assert AllHold(UidKeys(c), m, f) <==> forall i | 0 <= i < |c.uid| :: c.uid[i](m.uid);
    if c.uid != [] && UidSetsAgree(c, m.uid) {
      assert forall i | 0 <= i < |c.uid| :: c.uid[i](m.uid) == c.uid[0](m.uid);
      assert UidsMatch(c, m) == c.uid[0](m.uid);
    }
  }

  /** What the matcher answers for one string key, against what is meant. */
  lemma HeaderAnswer(f: Facts, name: string, value: string)
    ensures HeaderContains(f, name, value) <==> InSomeValue(f.header(name), value) && !HeaderMissed(f, name, value)
  {
    var values := f.header(name);
    if values != [] && value == "" {
      VerbatimFolds(values[0], "");
    }
  }

  lemma TextAnswer(f: Facts, text: string)
    ensures Contains(f.data, text) <==> ContainsFold(f.data, text) && !OtherCaseOnly(f, text)
  {
    if Contains(f.data, text) {
      VerbatimFolds(f.data, text);
    }
  }

  /** The written strings hold exactly when none is missed and each is found where it is
      meant, or, for BODY, outside the body. */
  lemma StringsWritten(c: Criteria, f: Facts)
    requires c.Criteria?
    ensures HeadersMatch(c, f) <==>
      forall i | 0 <= i < |c.header| ::
        InSomeValue(f.header(c.header[i].0), c.header[i].1) && !HeaderMissed(f, c.header[i].0, c.header[i].1)
    ensures TextsMatch(c, f) <==>
      && (forall i | 0 <= i < |c.body| :: Contains(f.data, c.body[i]))
      && (forall i | 0 <= i < |c.text| :: ContainsFold(f.data, c.text[i]) && !OtherCaseOnly(f, c.text[i]))
  {
    forall i | 0 <= i < |c.header|
      ensures HeaderContains(f, c.header[i].0, c.header[i].1) <==>
        InSomeValue(f.header(c.header[i].0), c.header[i].1) && !HeaderMissed(f, c.header[i].0, c.header[i].1)
    {
      HeaderAnswer(f, c.header[i].0, c.header[i].1);
    }
    forall i | 0 <= i < |c.text|
      ensures Contains(f.data, c.text[i]) <==> ContainsFold(f.data, c.text[i]) && !OtherCaseOnly(f, c.text[i])
    {
      TextAnswer(f, c.text[i]);
    }
  }

  /** A node whose branches are right gives the right answer about a message exactly when
      some key fails both as written and as meant, or it wrongly rejects by one key and
      wrongly accepts by another, or it does neither. */
  lemma NodeRightIff(c: Criteria, m: Message, f: Facts)
    requires c.Criteria? && BranchesAgree(c, m, f)
    ensures Agree(c, m, f) <==> FailsAnyway(c, m, f) || (RejectsWrongly(c, f) <==> AcceptsWrongly(c, m, f))
  {
    if FailsAnyway(c, m, f) {
      BothFail(c, m, f);
    } else {
      WrittenRejects(c, m, f);
      MeantRejects(c, m, f);
    }
  }

  lemma BothFail(c: Criteria, m: Message, f: Facts)
    requires c.Criteria? && BranchesAgree(c, m, f) && FailsAnyway(c, m, f)
    ensures !Matches(c, m, f) && !AllHold(KeysOf(c), m, f)
  {
    KeysMean(c, m, f);
    UidKeysMean(c, m, f);
    StringsWritten(c, f);
  }

  lemma WrittenRejects(c: Criteria, m: Message, f: Facts)
    requires c.Criteria? && !FailsAnyway(c, m, f)
    ensures Matches(c, m, f) <==> !RejectsWrongly(c, f)
  {
    StringsWritten(c, f);
  }

  lemma MeantRejects(c: Criteria, m: Message, f: Facts)
    requires c.Criteria? && BranchesAgree(c, m, f) && !FailsAnyway(c, m, f)
    ensures AllHold(KeysOf(c), m, f) <==> !AcceptsWrongly(c, m, f)
  {
    KeysMean(c, m, f);
    UidKeysMean(c, m, f);
  }

  /** On every NOT/OR tree the matcher computes the conjunction of keys, for each message
      about which no node answers a key wrongly. */
  lemma {:induction false} MatcherIsConjunction(c: Criteria, m: Message, f: Facts)
    requires RightThroughout(c, m, f)
    ensures Matches(c, m, f) == AllHold(KeysOf(c), m, f)
    decreases c
  {
    if c.Criteria? {
      forall i | 0 <= i < |c.not| ensures Agree(c.not[i], m, f) {
        MatcherIsConjunction(c.not[i], m, f);
      }
      forall i | 0 <= i < |c.or| ensures Agree(c.or[i].0, m, f) && Agree(c.or[i].1, m, f) {
        MatcherIsConjunction(c.or[i].0, m, f);
        MatcherIsConjunction(c.or[i].1, m, f);
      }
      NodeRightIff(c, m, f);
    }
  }

  /** So it does when no node has more than one UID set and the strings are answered rightly ... */
  lemma {:induction false} OneSetAgrees(c: Criteria, m: Message, f: Facts)
    requires AtMostOneUidSet(c) && StringsRight(c, f)
    ensures RightThroughout(c, m, f)
    decreases c
  {
    if c.Criteria? {
      forall i | 0 <= i < |c.not| ensures RightThroughout(c.not[i], m, f) {
        OneSetAgrees(c.not[i], m, f);
      }
      forall i | 0 <= i < |c.or| ensures RightThroughout(c.or[i].0, m, f) && RightThroughout(c.or[i].1, m, f) {
        OneSetAgrees(c.or[i].0, m, f);
        OneSetAgrees(c.or[i].1, m, f);
      }
    }
  }

  /** ... as they are when there are none. */
  lemma {:induction false} NoStringsRight(c: Criteria, f: Facts)
    requires NoStrings(c)
    ensures StringsRight(c, f)
    decreases c
  {
    if c.Criteria? {
      forall i | 0 <= i < |c.not| ensures StringsRight(c.not[i], f) {
        NoStringsRight(c.not[i], f);
      }
      forall i | 0 <= i < |c.or| ensures StringsRight(c.or[i].0, f) && StringsRight(c.or[i].1, f) {
        NoStringsRight(c.or[i].0, f);
        NoStringsRight(c.or[i].1, f);
      }
    }
  }

  lemma CharAbsent(s: string, c: char)
    requires c !in s
    ensures !Contains(s, [c])
  {
    forall i: nat ensures !Headers.At(s, [c], i) {
      if i < |s| {
        assert s[i..i + 1][0] == s[i] && s[i] in s;
      }
    }
  }

  lemma OnlyBody(text: string, m: Message, f: Facts)
    ensures Matches(BLANK.(body := [text]), m, f) == Contains(f.data, text)
    ensures AllHold(KeysOf(BLANK.(body := [text])), m, f) == ContainsFold(BodyOf(f.data), text)
  {
    var c := BLANK.(body := [text]);
    assert c.body[0] == text;
    assert Matches(c, m, f) == Contains(f.data, text);
    OnlyBodyMeans(c, text, m, f);
  }

  lemma OnlyBodyMeans(c: Criteria, text: string, m: Message, f: Facts)
    requires c == BLANK.(body := [text])
    ensures AllHold(KeysOf(c), m, f) == ContainsFold(BodyOf(f.data), text)
  {
    KeysMean(c, m, f);
    assert RestMatches(c, m, f) && AllHold(UidKeys(c), m, f);
    assert c.body[0] == text;
  }

  /** BODY "H" misses a message whose body is "h". */
  lemma BodyCaseExample(m: Message, f: Facts)
    requires f.data == "\r\n\r\nh"
    ensures var c := BLANK.(body := ["H"]); !Matches(c, m, f) && AllHold(KeysOf(c), m, f)
  {
    assert BodyOf(f.data) == "\r\nh" by {
      BodyAtOnce("\r", "\r\nh");
      assert f.data == "\r" + ['\n'] + "\r\nh";
    }
    LowerCaseFound();
    OtherCaseMissed(m, f, 'H');
  }

  lemma OtherCaseMissed(m: Message, f: Facts, c: char)
    requires ContainsFold(BodyOf(f.data), [c]) && c !in f.data
    ensures !Matches(BLANK.(body := [[c]]), m, f) && AllHold(KeysOf(BLANK.(body := [[c]])), m, f)
  {
    CharAbsent(f.data, c);
    OnlyBody([c], m, f);
  }

  lemma LowerCaseFound()
    ensures ContainsFold("\r\nh", "H")
  {
    assert ToLower("\r\nh")[2..3] == "h" == ToLower("H");
    assert Headers.At(ToLower("\r\nh"), "h", 2);
  }

  /** BODY "A" finds a message that has it in its header only. */
  lemma BodyInHeaderExample(m: Message, f: Facts)
    requires f.data == "A\r\n\r\nb"
    ensures var c := BLANK.(body := ["A"]); Matches(c, m, f) && !AllHold(KeysOf(c), m, f)
  {
    assert Contains(f.data, "A") by {
      assert f.data[0..1] == "A";
      assert Headers.At(f.data, "A", 0);
    }
    assert BodyOf(f.data) == "b" by {
      var line := "A" + ['\r'];
      Headers.RawLinesOne(line);
      Headers.BlankWithCR("A");
      BodyBehind(line, "\r", "b");
      assert f.data == line + ['\n'] + ("\r" + ['\n'] + "b");
    }
    assert ToLower("b") == "b" && ToLower("A") == "a";
    CharAbsent("b", 'a');
    OnlyBody("A", m, f);
  }

  // --------------------------------------------- which strings are always searched rightly

  predicate IsLetter(c: char) {
    'A' <= c <= 'Z' || 'a' <= c <= 'z'
  }

  function UpperChar(c: char): char {
    if 'a' <= c <= 'z' then (c as int - 32) as char else c
  }

  function ToUpper(s: string): string {
    seq(|s|, i requires 0 <= i < |s| => UpperChar(s[i]))
  }

  predicate NoLetter(s: string) {
    forall c <- s :: !IsLetter(c)
  }

  function OnlyTexts(texts: seq<string>): Criteria {
    BLANK.(text := texts)
  }

  lemma OnlyTextsMean(texts: seq<string>, m: Message, f: Facts)
    ensures Matches(OnlyTexts(texts), m, f) <==> forall i | 0 <= i < |texts| :: Contains(f.data, texts[i])
    ensures AllHold(KeysOf(OnlyTexts(texts)), m, f) <==> forall i | 0 <= i < |texts| :: ContainsFold(f.data, texts[i])
  {
    KeysMean(OnlyTexts(texts), m, f);
  }

  /** Case does not matter to a string without letters. */
  lemma NoLetterVerbatim(s: string, sub: string)
    requires NoLetter(sub)
    ensures ContainsFold(s, sub) <==> Contains(s, sub)
  {
    if Contains(s, sub) {
      VerbatimFolds(s, sub);
    }
    if ContainsFold(s, sub) {
      FoldedVerbatim(s, sub);
    }
  }

  lemma FoldedVerbatim(s: string, sub: string)
    requires NoLetter(sub) && ContainsFold(s, sub)
    ensures Contains(s, sub)
  {
    var i := Headers.IndexFrom(ToLower(s), ToLower(sub), 0).value;
    forall k | 0 <= k < |sub| ensures s[i + k] == sub[k] {
      assert ToLower(s)[i..i + |sub|][k] == ToLower(sub)[k] && sub[k] in sub;
    }
    assert s[i..i + |sub|] == sub;
    assert Headers.At(s, sub, i);
  }

  lemma FoldedContains(s: string, sub: string, t: string)
    requires Contains(s, sub) && ToLower(t) == ToLower(s)
    ensures ContainsFold(t, sub)
  {
    VerbatimFolds(s, sub);
  }

  lemma CharNeeded(s: string, sub: string, c: char)
    requires Contains(s, sub) && c in sub
    ensures c in s
  {
    var i := Headers.IndexFrom(s, sub, 0).value;
    var k :| 0 <= k < |sub| && sub[k] == c;
    assert s[i..i + |sub|][k] == s[i + k];
  }

  lemma CasesFold(s: string)
    ensures ToLower(ToLower(s)) == ToLower(s) == ToLower(ToUpper(s))
    ensures forall c <- ToLower(s) :: !('A' <= c <= 'Z')
    ensures forall c <- ToUpper(s) :: !('a' <= c <= 'z')
  {
  }

  /** All the strings one after another contain each of them. */
  lemma {:induction false} ConcatContains(texts: seq<string>, i: nat)
    requires i < |texts|
    ensures Contains(Join(texts, ""), texts[i])
  {
    var s := Join(texts, "");
    if |texts| == 1 {
      assert s[0..|s|] == s;
      assert Headers.At(s, texts[0], 0);
    } else {
      var rest := Join(texts[1..], "");
      assert s == texts[0] + rest;
      if i == 0 {
        assert s[0..|texts[0]|] == texts[0];
        assert Headers.At(s, texts[0], 0);
      } else {
        ConcatContains(texts[1..], i - 1);
        var k := Headers.IndexFrom(rest, texts[i], 0).value;
        assert s[|texts[0]| + k..|texts[0]| + k + |texts[i]|] == rest[k..k + |texts[i]|];
        assert Headers.At(s, texts[i], |texts[0]| + k);
      }
    }
  }

  /** A message that has all the strings, one of them in another case only. */
  lemma CaseShows(texts: seq<string>, i: nat, c: char) returns (data: string)
    requires i < |texts| && c in texts[i] && IsLetter(c)
    ensures forall j | 0 <= j < |texts| :: ContainsFold(data, texts[j])
    ensures !Contains(data, texts[i])
  {
    var all := Join(texts, "");
    data := if 'A' <= c <= 'Z' then ToLower(all) else ToUpper(all);
    CasesFold(all);
    forall j | 0 <= j < |texts| ensures ContainsFold(data, texts[j]) {
      ConcatContains(texts, j);
      FoldedContains(all, texts[j], data);
    }
    if Contains(data, texts[i]) {
      CharNeeded(data, texts[i], c);
    }
  }

  function SomeMessage(): Message {
    Message(0, 0, "", "", None)
  }

  /** TEXT strings are right about all messages exactly when none of them has a letter. */
  lemma TextsRightIff(texts: seq<string>)
    ensures (forall m: Message, f: Facts :: Agree(OnlyTexts(texts), m, f)) <==> forall t <- texts :: NoLetter(t)
  {
    if forall t <- texts :: NoLetter(t) {
      forall m: Message, f: Facts ensures Agree(OnlyTexts(texts), m, f) {
        OnlyTextsMean(texts, m, f);
        forall i | 0 <= i < |texts| ensures ContainsFold(f.data, texts[i]) <==> Contains(f.data, texts[i]) {
          NoLetterVerbatim(f.data, texts[i]);
        }
      }
    } else {
      var t :| t in texts && !NoLetter(t);
      var i :| 0 <= i < |texts| && texts[i] == t;
      var c :| c in t && IsLetter(c);
      var data := CaseShows(texts, i, c);
      var f := Facts(0, 0, 0, data, name => []);
      OnlyTextsMean(texts, SomeMessage(), f);
      assert !Agree(OnlyTexts(texts), SomeMessage(), f);
    }
  }

  /** A BODY string is right about all messages only when it is empty: the message that is
      the string itself has it, but has not all of it in its body. */
  lemma BodyRightIff(text: string)
    ensures (forall m: Message, f: Facts :: Agree(BLANK.(body := [text]), m, f)) <==> text == ""
  {
    if text == "" {
      forall m: Message, f: Facts ensures Agree(BLANK.(body := [text]), m, f) {
        EmptyBodyRight(m, f);
      }
    } else {
      var f := Facts(0, 0, 0, text, name => []);
      BodyIsNotAll(text, SomeMessage(), f);
    }
  }

  lemma EmptyBodyRight(m: Message, f: Facts)
    ensures Agree(BLANK.(body := [""]), m, f)
  {
    OnlyBody("", m, f);
    assert Headers.At(f.data, "", 0) && Headers.At(ToLower(BodyOf(f.data)), ToLower(""), 0);
  }

  lemma BodyIsNotAll(text: string, m: Message, f: Facts)
    requires text != "" && f.data == text
    ensures !Agree(BLANK.(body := [text]), m, f)
  {
    OnlyBody(text, m, f);
    ContainsItself(text);
    assert |BodyOf(text)| < |text|;
  }

  lemma OnlyHeader(name: string, value: string, m: Message, f: Facts)
    ensures Matches(BLANK.(header := [(name, value)]), m, f) == HeaderContains(f, name, value)
    ensures AllHold(KeysOf(BLANK.(header := [(name, value)])), m, f) == InSomeValue(f.header(name), value)
  {
    var c := BLANK.(header := [(name, value)]);
    assert c.header[0] == (name, value);
    assert Matches(c, m, f) == HeaderContains(f, name, value);
    OnlyHeaderMeans(c, name, value, m, f);
  }

  lemma OnlyHeaderMeans(c: Criteria, name: string, value: string, m: Message, f: Facts)
    requires c == BLANK.(header := [(name, value)])
    ensures AllHold(KeysOf(c), m, f) == InSomeValue(f.header(name), value)
  {
    KeysMean(c, m, f);
    assert RestMatches(c, m, f) && AllHold(UidKeys(c), m, f);
    assert c.header[0] == (name, value);
  }

  lemma ContainsItself(s: string)
    ensures Contains(s, s) && ContainsFold(s, s)
  {
    assert s[0..|s|] == s;
    assert Headers.At(s, s, 0);
    VerbatimFolds(s, s);
  }

  /** A HEADER string is never right about all messages: a field may come twice, or be empty. */
  lemma HeaderNeverAlwaysRight(name: string, value: string)
    ensures exists m: Message, f: Facts :: !Agree(BLANK.(header := [(name, value)]), m, f)
  {
    var values := ["", value];
    var f := Facts(0, 0, 0, "", n => values);
    assert f.header(name) == values;
    OnlyHeader(name, value, SomeMessage(), f);
    ContainsItself(value);
    assert ContainsFold(values[1], value);
    assert InSomeValue(f.header(name), value);
    assert !HeaderContains(f, name, value) by {
      assert FirstValue(values) == "";
    }
    assert !Agree(BLANK.(header := [(name, value)]), SomeMessage(), f);
  }

  function OnlyUids(sets: seq<nat -> bool>): Criteria {
    BLANK.(uid := sets)
  }

  lemma OnlyUidsRightIff(sets: seq<nat -> bool>, m: Message, f: Facts)
    ensures Agree(OnlyUids(sets), m, f) <==> UidSetsAgree(OnlyUids(sets), m.uid)
  {
    var c := OnlyUids(sets);
    NodeRightIff(c, m, f);
    UidKeysMean(c, m, f);
    KeysMean(c, m, f);
  }

  /** Several UID sets alone are searched rightly exactly when they are the same set. */
  lemma UidSetsRightIff(sets: seq<nat -> bool>)
    ensures (forall m: Message, f: Facts :: Agree(OnlyUids(sets), m, f)) <==>
            forall uid: nat, i, j | 0 <= i < |sets| && 0 <= j < |sets| :: sets[i](uid) == sets[j](uid)
  {
    var c := OnlyUids(sets);
    forall m: Message, f: Facts ensures Agree(c, m, f) <==> UidSetsAgree(c, m.uid) {
      OnlyUidsRightIff(sets, m, f);
    }
    if forall m: Message, f: Facts :: Agree(c, m, f) {
      var f := Facts(0, 0, 0, "", name => []);
      forall uid: nat, i, j | 0 <= i < |sets| && 0 <= j < |sets| ensures sets[i](uid) == sets[j](uid) {
        var m := Message(0, uid, "", "", None);
        assert Agree(c, m, f);
        assert c.uid[i](m.uid) == c.uid[j](m.uid);
      }
    }
  }

  /** UID 1 UID 2 finds message 1, though no message has both UIDs. */
  lemma TwoUidSetsExample(m: Message, f: Facts)
    requires m.uid == 1
    ensures var c := OnlyUids([(u: nat) => u == 1, (u: nat) => u == 2]);
      Matches(c, m, f) && !AllHold(KeysOf(c), m, f)
  {
    var sets := [(u: nat) => u == 1, (u: nat) => u == 2];
    assert sets[0](m.uid) && !sets[1](m.uid);
    TwoSetsDiffer(sets, m, f);
  }

  lemma TwoSetsDiffer(sets: seq<nat -> bool>, m: Message, f: Facts)
    requires |sets| == 2 && sets[0](m.uid) && !sets[1](m.uid)
    ensures Matches(OnlyUids(sets), m, f) && !AllHold(KeysOf(OnlyUids(sets)), m, f)
  {
    OnlyUidsRightIff(sets, m, f);
  }

  // -------------------------------------------------------------- the command

  datatype Kind = SeqNumbers | Uids

  datatype Options = Options(returnMin: bool, returnMax: bool, returnAll: bool, returnCount: bool)

  /** What is not asked for stays zero or None. */
  datatype SearchData = SearchData(min: nat, max: nat, count: nat, all: Option<set<nat>>)

  function NumberOf(kind: Kind, db: Store, ids: seq<nat>, i: nat): nat
    requires i < |ids| && ids[i] in db.messages
  {
    if kind.SeqNumbers? then i + 1 else db.messages[ids[i]].uid
  }

  /** The numbers of the messages among the first n of a listing that match. */
  function Hits(kind: Kind, db: Store, ids: seq<nat>, c: Criteria, look: string -> Facts, n: nat): set<nat>
    requires n <= |ids| && forall i | 0 <= i < |ids| :: ids[i] in db.messages
  {
    set i | 0 <= i < n && Matches(c, db.messages[ids[i]], look(db.messages[ids[i]].content)) ::
      NumberOf(kind, db, ids, i)
  }

  /** By sequence number a hit is the 1-based position of a matching message, by UID its UID. */
  lemma HitsAre(kind: Kind, db: Store, ids: seq<nat>, c: Criteria, look: string -> Facts)
    requires forall i | 0 <= i < |ids| :: ids[i] in db.messages
    ensures forall n :: n in Hits(kind, db, ids, c, look, |ids|) <==> exists i | 0 <= i < |ids| ::
      && var m := db.messages[ids[i]];
      && Matches(c, m, look(m.content))
      && n == match kind { case SeqNumbers => i + 1 case Uids => m.uid }
  {
    forall i | 0 <= i < |ids|
      ensures NumberOf(kind, db, ids, i) == match kind { case SeqNumbers => i + 1 case Uids => db.messages[ids[i]].uid }
    {
    }
  }

  lemma HitsNext(kind: Kind, db: Store, ids: seq<nat>, c: Criteria, look: string -> Facts, n: nat)
    requires n < |ids| && forall i | 0 <= i < |ids| :: ids[i] in db.messages
    ensures Hits(kind, db, ids, c, look, n + 1) == Hits(kind, db, ids, c, look, n) +
      if Matches(c, db.messages[ids[n]], look(db.messages[ids[n]].content)) then {NumberOf(kind, db, ids, n)} else {}
  {
  }

  predicate AllAsked(options: Option<Options>) {
    options.None? || options.value.returnAll ||
    (!options.value.returnCount && !options.value.returnMin && !options.value.returnMax)
  }

  /** Every field that is asked for describes the one set of hits. */
  ghost predicate Describes(data: SearchData, hits: set<nat>, options: Option<Options>) {
    && data.all == (if AllAsked(options) then Some(hits) else None)
    && data.count == (if options.Some? && options.value.returnCount then |hits| else 0)
    && (if options.Some? && options.value.returnMin && hits != {}
        then data.min in hits && forall n <- hits :: data.min <= n
        else data.min == 0)
    && (if options.Some? && options.value.returnMax && hits != {}
        then data.max in hits && forall n <- hits :: n <= data.max
        else data.max == 0)
  }

  method Search(session: ImapSession, kind: Kind, c: Criteria, options: Option<Options>, look: string -> Facts)
    returns (data: SearchData, ok: bool, ghost ids: seq<nat>)
    requires Wf(session.db.State())
    ensures ok == session.selected.Some?
    ensures ok ==>
      && IsUidListing(session.db.State(), session.selected.value, ids)
      && Describes(data, Hits(kind, session.db.State(), ids, c, look, |ids|), options)
    ensures ok && (options.None? || options.value.returnAll ||
                   !(options.value.returnCount || options.value.returnMin || options.value.returnMax)) ==>
      && data.all.Some?
      && forall n :: n in data.all.value <==> exists i | 0 <= i < |ids| ::
           && var m := session.db.messages[ids[i]];
           && Matches(c, m, look(m.content))
           && n == match kind { case SeqNumbers => i + 1 case Uids => m.uid }
  {
    if session.selected.None? {
      return SearchData(0, 0, 0, None), false, [];
    }
    var msgs := session.db.ListMessages(session.selected.value);
    var allNums := CollectNumbers(session.db, kind, msgs, c, look);
    data := Summary(allNums, options);
    HitsAre(kind, session.db.State(), msgs, c, look);
    return data, true, msgs;
  }

  method Summary(allNums: seq<nat>, options: Option<Options>) returns (data: SearchData)
    requires forall i, j | 0 <= i < j < |allNums| :: allNums[i] < allNums[j]
    ensures Describes(data, Range(allNums), options)
  {
    data := SearchData(0, 0, 0, None);
    if options.Some? && options.value.returnCount {
      NoDupCard(allNums);
      data := data.(count := |allNums|);
    }
    assert |allNums| > 0 ==> allNums[0] in Range(allNums);
    if options.Some? && options.value.returnMin && |allNums| > 0 {
      data := data.(min := allNums[0]);
    }
    if options.Some? && options.value.returnMax && |allNums| > 0 {
      data := data.(max := allNums[|allNums| - 1]);
    }
    if AllAsked(options) {
      data := data.(all := Some(Range(allNums)));
    }
  }

  method CollectNumbers(db: Database, kind: Kind, msgs: seq<nat>, c: Criteria, look: string -> Facts)
    returns (nums: seq<nat>)
    requires forall i | 0 <= i < |msgs| :: msgs[i] in db.messages
    requires forall i, j | 0 <= i < j < |msgs| :: db.messages[msgs[i]].uid < db.messages[msgs[j]].uid
    ensures Range(nums) == Hits(kind, db.State(), msgs, c, look, |msgs|)
    ensures forall i, j | 0 <= i < j < |nums| :: nums[i] < nums[j]
  {
    nums := [];
    for i := 0 to |msgs|
      invariant Range(nums) == Hits(kind, db.State(), msgs, c, look, i)
      invariant forall j, k | 0 <= j < k < |nums| :: nums[j] < nums[k]
      invariant i < |msgs| ==> forall j | 0 <= j < |nums| :: nums[j] < NumberOf(kind, db.State(), msgs, i)
    {
      HitsNext(kind, db.State(), msgs, c, look, i);
      var m := db.messages[msgs[i]];
      var matched := MatchesCriteria(c, m, look(m.content));
      if matched {
        var n := if kind.SeqNumbers? then i + 1 else m.uid;
        assert Range(nums + [n]) == Range(nums) + {n};
        nums := nums + [n];
      }
    }
  }
}
