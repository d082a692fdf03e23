/** The blind search index: token rows of internal/storage/searchindex.go, written when a
    message is delivered (internal/crypto/searchindex.go) and read by the search handler
    (internal/webmail/api_search.go).  HMAC is a constructor, so it is injective for each
    key and never equal for two keys. */
module SearchIndex {
  import opened Collections
  import opened MailStore
  import opened MailDb
  import opened Tokenizer
  import opened Copying

  datatype Hash = Hmac(key: nat, term: string)

  datatype Token = Token(hash: Hash, field: nat)

  datatype Row = Row(message: nat, token: Token)

  datatype MailText = MailText(subject: string, from: string, to: string, body: string)

  const FIELDS: nat := 4

  function FieldText(t: MailText, field: nat): string {
    if field == 0 then t.subject else if field == 1 then t.from else if field == 2 then t.to else t.body
  }

  // ----------------------------------------------------------------- generation

  function Hashed(key: nat, words: seq<string>, field: nat): seq<Token> {
    seq(|words|, i requires 0 <= i < |words| => Token(Hmac(key, words[i]), field))
  }

  /** The index words of each field. */
  function FieldWords(t: MailText): (words: seq<seq<string>>)
    ensures |words| == FIELDS
  {
    seq(FIELDS, field requires 0 <= field < FIELDS => IndexTokens(FieldText(t, field)))
  }

  /** The tokens field by field. */
  function Generated(key: nat, words: seq<seq<string>>): seq<Token> {
    if words == [] then []
    else
      var n := |words| - 1;
      Generated(key, words[..n]) + Hashed(key, words[n], n)
  }

  function Dedup(tokens: seq<Token>): seq<Token> {
    if tokens == [] then []
    else
      var before, last := Dedup(tokens[..|tokens| - 1]), tokens[|tokens| - 1];
      if last in before then before else before + [last]
  }

  function SearchTokens(key: nat, t: MailText): seq<Token> {
    Dedup(Generated(key, FieldWords(t)))
  }

  /** A token of a message: the hash of an index word of one of its fields. */
  predicate IsTokenOf(tok: Token, key: nat, t: MailText) {
    tok.field < FIELDS && tok.hash.key == key && tok.hash.term in IndexTokens(FieldText(t, tok.field))
  }

  lemma HashedHas(key: nat, words: seq<string>, field: nat, tok: Token)
    ensures tok in Hashed(key, words, field) <==> tok.field == field && tok.hash.key == key && tok.hash.term in words
  {
    if tok.field == field && tok.hash.key == key && tok.hash.term in words {
      var i :| 0 <= i < |words| && words[i] == tok.hash.term;
      assert Hashed(key, words, field)[i] == tok;
    }
  }

  lemma HashedNoDup(key: nat, words: seq<string>, field: nat)
    requires NoDup(words)
    ensures NoDup(Hashed(key, words, field))
  {
    var tokens := Hashed(key, words, field);
    forall i, j | 0 <= i < j < |tokens| ensures tokens[i] != tokens[j] {
      assert tokens[i].hash.term == words[i] && tokens[j].hash.term == words[j];
    }
  }

  lemma {:induction false} GeneratedHas(key: nat, words: seq<seq<string>>, tok: Token)
    ensures tok in Generated(key, words) <==>
      tok.field < |words| && tok.hash.key == key && tok.hash.term in words[tok.field]
  {
    if words != [] {
      var n := |words| - 1;
      GeneratedHas(key, words[..n], tok);
      HashedHas(key, words[n], n, tok);
    }
  }

  lemma NoDupConcat<T>(a: seq<T>, b: seq<T>)
    requires NoDup(a) && NoDup(b) && forall x <- a :: x !in b
    ensures NoDup(a + b)
  {
    var c := a + b;
    forall i, j | 0 <= i < j < |c| ensures c[i] != c[j] {
      if i < |a| <= j {
        assert c[i] in a && c[j] == b[j - |a|];
      }
    }
  }

  lemma {:induction false} GeneratedNoDup(key: nat, words: seq<seq<string>>)
    requires forall i | 0 <= i < |words| :: NoDup(words[i])
    ensures NoDup(Generated(key, words))
  {
    if words != [] {
      var n := |words| - 1;
      GeneratedNoDup(key, words[..n]);
      HashedNoDup(key, words[n], n);
      forall tok | tok in Generated(key, words[..n]) ensures tok !in Hashed(key, words[n], n) {
        GeneratedHas(key, words[..n], tok);
        HashedHas(key, words[n], n, tok);
      }
      NoDupConcat(Generated(key, words[..n]), Hashed(key, words[n], n));
    }
  }

  lemma IndexTokensNoDup(text: string)
    ensures NoDup(IndexTokens(text))
  {
    DistinctAre(NormalizeAll(Text.FieldsFunc(Text.ToLower(text), IndexSep)), IndexOk);
  }

  lemma {:induction false} DedupNoDup(tokens: seq<Token>)
    requires NoDup(tokens)
    ensures Dedup(tokens) == tokens
  {
    if tokens != [] {
      DedupNoDup(tokens[..|tokens| - 1]);
      assert tokens == tokens[..|tokens| - 1] + [tokens[|tokens| - 1]];
    }
  }

  /** A message's tokens are, without repetition, the hashes of its index words by field;
      the final dedup of the source has nothing left to do. */
  lemma SearchTokensAre(key: nat, t: MailText)
    ensures SearchTokens(key, t) == Generated(key, FieldWords(t)) && NoDup(SearchTokens(key, t))
    ensures forall tok :: tok in SearchTokens(key, t) <==> IsTokenOf(tok, key, t)
  {
    var words := FieldWords(t);
    forall i | 0 <= i < |words| ensures NoDup(words[i]) {
      IndexTokensNoDup(FieldText(t, i));
    }
    GeneratedNoDup(key, words);
    DedupNoDup(Generated(key, words));
    forall tok ensures tok in Generated(key, words) <==> IsTokenOf(tok, key, t) {
      GeneratedHas(key, words, tok);
    }
  }

  /** Field by field: which words of which part of a message are stored. */
  lemma StoredByField(key: nat, t: MailText, w: string)
    ensures var tokens := SearchTokens(key, t);
      && (Token(Hmac(key, w), 0) in tokens <==> w in IndexTokens(t.subject))
      && (Token(Hmac(key, w), 1) in tokens <==> w in IndexTokens(t.from))
      && (Token(Hmac(key, w), 2) in tokens <==> w in IndexTokens(t.to))
      && (Token(Hmac(key, w), 3) in tokens <==> w in IndexTokens(t.body))
    ensures forall tok <- SearchTokens(key, t) :: tok.hash.key == key && tok.field <= 3
  {
    SearchTokensAre(key, t);
    forall field: nat | field < FIELDS
      ensures Token(Hmac(key, w), field) in SearchTokens(key, t) <==> w in IndexTokens(FieldText(t, field))
    {
      assert IsTokenOf(Token(Hmac(key, w), field), key, t) <==> w in IndexTokens(FieldText(t, field));
    }
  }

  /** dedup with its `seen` set. */
  method DedupTokens(tokens: seq<Token>) returns (result: seq<Token>)
    ensures result == Dedup(tokens)
  {
    var seen: set<Token> := {};
    result := [];
    for i := 0 to |tokens|
      invariant result == Dedup(tokens[..i]) && seen == Range(result)
    {
      assert tokens[..i + 1][..i] == tokens[..i];
      if tokens[i] in seen {
        continue;
      }
      seen := seen + {tokens[i]};
      result := result + [tokens[i]];
    }
    assert tokens[..|tokens|] == tokens;
  }

  lemma GeneratedNext(key: nat, words: seq<seq<string>>, n: nat)
    requires n < |words|
    ensures Generated(key, words[..n + 1]) == Generated(key, words[..n]) + Hashed(key, words[n], n)
  {
    assert words[..n + 1][..n] == words[..n];
  }

  method AppendHashed(tokens: seq<Token>, key: nat, words: seq<string>, field: nat) returns (more: seq<Token>)
    ensures more == tokens + Hashed(key, words, field)
  {
    more := tokens;
    for i := 0 to |words|
      invariant more == tokens + Hashed(key, words, field)[..i]
    {
      more := more + [Token(Hmac(key, words[i]), field)];
    }
  }

  /** A message's tokens are, without repetition, the hashes of its index words by field. */
  method GenerateSearchTokens(key: nat, t: MailText) returns (tokens: seq<Token>)
    ensures NoDup(tokens) && forall tok :: tok in tokens <==> IsTokenOf(tok, key, t)
    ensures tokens == SearchTokens(key, t)
  {
    var all := [];
    for field := 0 to FIELDS
      invariant all == Generated(key, FieldWords(t)[..field])
    {
      var words := TokenizeForIndex(FieldText(t, field));
      all := AppendHashed(all, key, words, field);
      GeneratedNext(key, FieldWords(t), field);
    }
    assert FieldWords(t)[..FIELDS] == FieldWords(t);
    SearchTokensAre(key, t);
    tokens := DedupTokens(all);
  }

  // --------------------------------------------------------------------- queries

  const ANY_FIELD: int := -1

  /** Some row gives the message this hash, in the given field unless that is negative. */
  predicate HasRow(rows: seq<Row>, hash: Hash, field: int, id: nat) {
    exists r <- rows :: r.message == id && r.token.hash == hash && (field < 0 || r.token.field == field)
  }

  predicate HasAll(rows: seq<Row>, hashes: seq<Hash>, id: nat) {
    forall i | 0 <= i < |hashes| :: HasRow(rows, hashes[i], ANY_FIELD, id)
  }

  lemma HasAllAppend(rows: seq<Row>, hashes: seq<Hash>, h: Hash, id: nat)
    ensures HasAll(rows, hashes + [h], id) <==> HasAll(rows, hashes, id) && HasRow(rows, h, ANY_FIELD, id)
  {
    var more := hashes + [h];
    assert more[|hashes|] == h && forall i | 0 <= i < |hashes| :: more[i] == hashes[i];
  }

  lemma HasRowAppend(rows: seq<Row>, r: Row, hash: Hash, field: int, id: nat)
    ensures HasRow(rows + [r], hash, field, id) <==>
      || HasRow(rows, hash, field, id)
      || (r.message == id && r.token.hash == hash && (field < 0 || r.token.field == field))
  {
    assert forall x :: x in rows + [r] <==> x in rows || x == r;
    assert r in rows + [r];
  }

  function QueryHashes(key: nat, query: string): seq<Hash> {
    var terms := QueryTokens(query);
    seq(|terms|, i requires 0 <= i < |terms| => Hmac(key, Normalize(terms[i])))
  }

  lemma QueryHashesAre(key: nat, query: string)
    ensures forall h :: h in QueryHashes(key, query) <==> h.key == key && h.term in QueryTokens(query)
  {
    var terms := QueryTokens(query);
    var words := Text.FieldsFunc(Text.ToLower(query), QuerySep);
    DistinctAre(words, QueryOk);
    ToLowerIsLower(query);
    FieldsLower(Text.ToLower(query), QuerySep);
    forall w | w in terms ensures Normalize(w) == w {
      NormalizeWord(w, QuerySep);
    }
    forall h: Hash | h.key == key && h.term in terms ensures h in QueryHashes(key, query) {
      var i :| 0 <= i < |terms| && terms[i] == h.term;
      assert QueryHashes(key, query)[i] == h;
    }
  }

  method HashQuery(key: nat, query: string) returns (hashes: seq<Hash>)
    ensures hashes == QueryHashes(key, query)
  {
    var terms := TokenizeQuery(query);
    hashes := [];
    for i := 0 to |terms|
      invariant hashes == QueryHashes(key, query)[..i]
    {
      hashes := hashes + [Hmac(key, Normalize(terms[i]))];
    }
  }

  /** What a message was indexed with. */
  datatype Indexed = Indexed(key: nat, text: MailText)

  /** Scanning: every query word is an index word of some field, under the same key. */
  predicate ScanHit(m: Indexed, key: nat, query: string) {
    && m.key == key
    && forall w <- QueryTokens(query) :: exists f | 0 <= f < FIELDS :: w in IndexTokens(FieldText(m.text, f))
  }

  /** The rows of a message hit all query hashes exactly when a scan of it would. */
  lemma RowsEqualScan(rows: seq<Row>, id: nat, m: Indexed, key: nat, query: string)
    requires forall tok :: Row(id, tok) in rows <==> tok in SearchTokens(m.key, m.text)
    requires QueryTokens(query) != []
    ensures HasAll(rows, QueryHashes(key, query), id) <==> ScanHit(m, key, query)
  {
    SearchTokensAre(m.key, m.text);
    QueryHashesAre(key, query);
    forall h | h in QueryHashes(key, query)
      ensures HasRow(rows, h, ANY_FIELD, id) <==>
        m.key == key && exists f | 0 <= f < FIELDS :: h.term in IndexTokens(FieldText(m.text, f))
    {
      if f :| m.key == key && 0 <= f < FIELDS && h.term in IndexTokens(FieldText(m.text, f)) {
        assert Row(id, Token(h, f)) in rows;
      }
      if HasRow(rows, h, ANY_FIELD, id) {
        var r :| r in rows && r.message == id && r.token.hash == h;
        assert r == Row(id, r.token);
        assert IsTokenOf(r.token, m.key, m.text);
      }
    }
    var hashes := QueryHashes(key, query);
    assert forall i | 0 <= i < |hashes| :: hashes[i] in hashes;
    forall w | w in QueryTokens(query) ensures Hmac(key, w) in hashes {
    }
    assert hashes[0] in hashes;
  }

  /** Some field of the message has the word standing alone, with no '.' or '@' beside it. */
  predicate InSomeField(t: MailText, w: string) {
    exists f | 0 <= f < FIELDS :: Text.StandsAlone(Text.ToLower(FieldText(t, f)), IndexSep, w)
  }

  /** A scan hits exactly when no query word is a stop word of the index and each stands alone
      in some field. */
  lemma ScanHitIff(m: Indexed, key: nat, query: string)
    ensures ScanHit(m, key, query) <==>
      m.key == key && forall w <- QueryTokens(query) :: w !in INDEX_STOPS && InSomeField(m.text, w)
  {
    forall w, f | w in QueryTokens(query) && 0 <= f < FIELDS
      ensures w in IndexTokens(FieldText(m.text, f)) <==>
        w !in INDEX_STOPS && Text.StandsAlone(Text.ToLower(FieldText(m.text, f)), IndexSep, w)
    {
      QueryWordHitIff(query, FieldText(m.text, f), w);
    }
  }

  /** The same by the parts of a message. */
  lemma ScanHitByParts(m: Indexed, key: nat, query: string)
    ensures ScanHit(m, key, query) <==>
      m.key == key && forall w <- QueryTokens(query) ::
        && w !in INDEX_STOPS
        && (|| Text.StandsAlone(Text.ToLower(m.text.subject), IndexSep, w)
            || Text.StandsAlone(Text.ToLower(m.text.from), IndexSep, w)
            || Text.StandsAlone(Text.ToLower(m.text.to), IndexSep, w)
            || Text.StandsAlone(Text.ToLower(m.text.body), IndexSep, w))
  {
    ScanHitIff(m, key, query);
    forall w ensures InSomeField(m.text, w) <==>
      || Text.StandsAlone(Text.ToLower(m.text.subject), IndexSep, w)
      || Text.StandsAlone(Text.ToLower(m.text.from), IndexSep, w)
      || Text.StandsAlone(Text.ToLower(m.text.to), IndexSep, w)
      || Text.StandsAlone(Text.ToLower(m.text.body), IndexSep, w)
    {
      assert FieldText(m.text, 0) == m.text.subject && FieldText(m.text, 1) == m.text.from;
      assert FieldText(m.text, 2) == m.text.to && FieldText(m.text, 3) == m.text.body;
    }
  }

  /** A query with a stop word of the index hits no message. */
  lemma StopWordHitsNothing(query: string, w: string)
    requires w in QueryTokens(query) && w in INDEX_STOPS
    ensures forall m: Indexed, key :: !ScanHit(m, key, query)
  {
    forall m: Indexed, key ensures !ScanHit(m, key, query) {
      ScanHitIff(m, key, query);
    }
  }

  /** When the dots of a field stand alone, a query made of its words hits the message unless
      one of them is a stop word of the index. */
  lemma OwnWordsHitMessage(m: Indexed, key: nat, query: string, field: nat)
    requires field < FIELDS && forall w <- QueryTokens(query) :: w in QueryTokens(FieldText(m.text, field))
    ensures DotsIsolated(Text.ToLower(FieldText(m.text, field))) ==>
      (ScanHit(m, key, query) <==> m.key == key && forall w <- QueryTokens(query) :: w !in INDEX_STOPS)
  {
    ScanHitIff(m, key, query);
    if DotsIsolated(Text.ToLower(FieldText(m.text, field))) {
      forall w | w in QueryTokens(query) && w !in INDEX_STOPS ensures InSomeField(m.text, w) {
        OwnWordsAlone(FieldText(m.text, field), w);
      }
    }
  }

  /** The query "world" misses a message whose body is "hello world.". */
  lemma SentenceEndMissed(m: Indexed, key: nat)
    requires m.text == MailText("", "", "", SENTENCE)
    ensures !ScanHit(m, key, "world")
  {
    WordQuery();
    SentenceEndExample();
    EmptyFieldHasNone("world");
    var w := "world";
    assert w in QueryTokens("world");
    forall f | 0 <= f < FIELDS ensures w !in IndexTokens(FieldText(m.text, f)) {
      assert FieldText(m.text, f) == if f == 3 then SENTENCE else "";
    }
  }

  lemma WordQuery()
    ensures "world" in QueryTokens("world")
  {
    assert Text.ToLower("world") == "world";
    Text.FieldsOfWord("world", QuerySep);
    DistinctOne("world", QueryOk);
  }

  lemma EmptyFieldHasNone(w: string)
    ensures w !in IndexTokens("")
  {
    assert Text.ToLower("") == "" && NormalizeAll([]) == [];
  }

  method Intersect(a: seq<nat>, b: seq<nat>) returns (result: seq<nat>)
    requires NoDup(a)
    ensures NoDup(result) && forall id :: id in result <==> id in a && id in b
  {
    var present := Range(b);
    result := [];
    for i := 0 to |a|
      invariant NoDup(result) && forall id :: id in result <==> id in a[..i] && id in b
    {
      assert a[..i + 1] == a[..i] + [a[i]];
      if a[i] in present {
        result := result + [a[i]];
      }
    }
    assert a[..|a|] == a;
  }

  datatype Reply = BadRequest | Unavailable | Found(messages: seq<nat>)

  /** The mailbox a search is limited to: none for an empty or unknown name. */
  ghost predicate IsFilter(db: Store, user: nat, name: string, filter: Option<nat>) {
    match filter
    case Some(mb) => name != "" && mb in db.mailboxes && db.mailboxes[mb].user == user && db.mailboxes[mb].name == name
    case None => name == "" || forall mb <- db.mailboxes :: db.mailboxes[mb].user == user ==>
      db.mailboxes[mb].name != name
  }

  /** Messages the handler may show: live, in a mailbox of the user, in the chosen one. */
  predicate Visible(db: Store, user: nat, filter: Option<nat>, id: nat) {
    && id in db.messages
    && db.messages[id].mailbox in db.mailboxes
    && db.mailboxes[db.messages[id].mailbox].user == user
    && (filter.Some? ==> db.messages[id].mailbox == filter.value)
  }

  class Index {
    const db: Database
    const web: Webmail
    var rows: seq<Row>
    ghost var texts: map<nat, Indexed>   // what every message was indexed with, for ever
    ghost var purged: set<nat>           // messages whose tokens were deleted

    /** Rows are exactly the tokens of the messages indexed and not purged; message ids
        are never used again. */
    ghost predicate Valid()
      reads this, db`nextMessage
    {
      && web.db == db
      && (forall id <- texts :: id < db.nextMessage)
      && (forall r <- rows :: r.message in texts && r.message !in purged)
      && (forall id <- texts :: id !in purged ==>
            forall tok :: Row(id, tok) in rows <==> tok in SearchTokens(texts[id].key, texts[id].text))
    }

    constructor (db: Database, web: Webmail)
      requires web.db == db
      ensures this.db == db && this.web == web && Valid() && texts == map[]
    {
      this.db, this.web, rows, texts, purged := db, web, [], map[], {};
    }

    /** The index holds what the message was indexed with. */
    ghost predicate Indexes(id: nat)
      reads this
    {
      id in texts && id !in purged
    }

    method StoreSearchTokens(id: nat, tokens: seq<Token>)
      modifies this`rows
      ensures forall r :: r in rows <==> r in old(rows) || (r.message == id && r.token in tokens)
    {
      for i := 0 to |tokens|
        invariant forall r :: r in rows <==> r in old(rows) || (r.message == id && r.token in tokens[..i])
      {
        assert tokens[..i + 1] == tokens[..i] + [tokens[i]];
        rows := rows + [Row(id, tokens[i])];
      }
      assert tokens[..|tokens|] == tokens;
    }

    /** Delivery to an INBOX: store the message, then index it if the user has a search key. */
    method Deliver(mailbox: nat, draft: Draft, key: Option<nat>, text: MailText) returns (ok: bool)
      requires Valid() && Wf(db.State())
      modifies this, db
      ensures Valid() && ok == (mailbox in old(db.mailboxes))
      ensures !ok ==> db.State() == old(db.State()) && texts == old(texts) && rows == old(rows)
      ensures ok ==> db.State() == StoredInto(old(db.State()), mailbox, draft)
      ensures ok ==> texts == if key.None? then old(texts)
                              else old(texts)[old(db.nextMessage) := Indexed(key.value, text)]
    {
      var id := db.nextMessage;
      var uid := db.StoreMessage(mailbox, draft);
      if uid.None? {
        return false;
      }
      if key.Some? {
        var tokens := GenerateSearchTokens(key.value, text);
        StoreSearchTokens(id, tokens);
        texts := texts[id := Indexed(key.value, text)];
        purged := purged - {id};
      }
      return true;
    }

    method DeleteSearchTokens(id: nat)
      requires Valid()
      modifies this`rows, this`purged
      ensures Valid() && purged == old(purged) + {id}
      ensures forall r :: r in rows <==> r in old(rows) && r.message != id
    {
      var kept := [];
      for i := 0 to |rows|
        invariant rows == old(rows)
        invariant forall r :: r in kept <==> r in rows[..i] && r.message != id
      {
        assert rows[..i + 1] == rows[..i] + [rows[i]];
        if rows[i].message != id {
          kept := kept + [rows[i]];
        }
      }
      assert rows[..|rows|] == rows;
      rows := kept;
      purged := purged + {id};
    }

    /** SELECT DISTINCT message_id, over any field if `field` is negative. */
    method SearchByToken(hash: Hash, field: int) returns (ids: seq<nat>)
      ensures NoDup(ids) && forall id :: id in ids <==> HasRow(rows, hash, field, id)
      ensures forall id :: id in ids <==>
        exists r <- rows :: r.message == id && r.token.hash == hash && (field < 0 || r.token.field == field)
    {
      ids := [];
      for i := 0 to |rows|
        invariant NoDup(ids) && forall id :: id in ids <==> HasRow(rows[..i], hash, field, id)
      {
        var r := rows[i];
        assert rows[..i + 1] == rows[..i] + [r];
        forall id ensures HasRow(rows[..i + 1], hash, field, id) <==>
            || HasRow(rows[..i], hash, field, id)
            || (r.message == id && r.token.hash == hash && (field < 0 || r.token.field == field))
        {
          HasRowAppend(rows[..i], r, hash, field, id);
        }
        if r.token.hash == hash && (field < 0 || r.token.field == field) && r.message !in ids {
          ids := ids + [r.message];
        }
      }
      assert rows[..|rows|] == rows;
    }

    /** Messages that have every hash: iterated intersection with early exit. */
    method SearchByTokens(hashes: seq<Hash>) returns (results: seq<nat>)
      ensures NoDup(results)
      ensures forall id :: id in results <==> hashes != [] && HasAll(rows, hashes, id)
    {
      if hashes == [] {
        return [];
      }
      results := SearchByToken(hashes[0], ANY_FIELD);
      var i := 1;
      assert hashes[..1] == [hashes[0]];
      while i < |hashes|
        invariant 1 <= i <= |hashes| && NoDup(results)
        invariant forall id :: id in results <==> HasAll(rows, hashes[..i], id)
      {
        var next := SearchByToken(hashes[i], ANY_FIELD);
        assert hashes[..i + 1] == hashes[..i] + [hashes[i]];
        forall id ensures HasAll(rows, hashes[..i + 1], id) <==>
          HasAll(rows, hashes[..i], id) && HasRow(rows, hashes[i], ANY_FIELD, id) {
          HasAllAppend(rows, hashes[..i], hashes[i], id);
        }
        results := Intersect(results, next);
        i := i + 1;
        if results == [] {
          break;
        }
      }
      forall id | HasAll(rows, hashes, id) ensures HasAll(rows, hashes[..i], id) {
      }
      assert i == |hashes| ==> hashes[..i] == hashes;
    }

    /** The index answers a query exactly as a scan of all indexed messages would. */
    method SearchMessages(key: nat, query: string) returns (ids: seq<nat>)
      requires Valid()
      ensures NoDup(ids)
      ensures forall id :: id in ids <==>
        QueryTokens(query) != [] && Indexes(id) && ScanHit(texts[id], key, query)
    {
      var hashes := HashQuery(key, query);
      ids := SearchByTokens(hashes);
      if QueryTokens(query) != [] {
        assert QueryHashes(key, query)[0] in QueryHashes(key, query);
        forall id: nat ensures id in ids <==> Indexes(id) && ScanHit(texts[id], key, query) {
          if Indexes(id) {
            RowsEqualScan(rows, id, texts[id], key, query);
          }
        }
      }
    }

    /** The search handler: the first fifty live, owned matches. */
    method HandleSearch(user: nat, key: Option<nat>, query: string, mailbox: string)
      returns (reply: Reply, ghost filter: Option<nat>)
      requires Valid()
      ensures IsFilter(db.State(), user, mailbox, filter)
      ensures reply.BadRequest? <==> query == ""
      ensures reply.Unavailable? <==> query != "" && key.None?
      ensures reply.Found? ==>
        && NoDup(reply.messages) && |reply.messages| <= 50
        && (forall id <- reply.messages ::
              Visible(db.State(), user, filter, id) && Indexes(id) && ScanHit(texts[id], key.value, query))
        && (|reply.messages| < 50 && QueryTokens(query) != [] ==>
              forall id <- texts | Visible(db.State(), user, filter, id) && Indexes(id) ::
                ScanHit(texts[id], key.value, query) ==> id in reply.messages)
        && (forall id <- reply.messages ::
              && id in db.messages && db.messages[id].mailbox in db.mailboxes
              && db.mailboxes[db.messages[id].mailbox].user == user
              && (filter.Some? ==> db.messages[id].mailbox == filter.value)
              && (filter.Some? ==> db.mailboxes[filter.value].name == mailbox))
    {
      var listing := web.ListMailboxes(user);
      var chosen := ChooseFilter(user, listing, mailbox);
      filter := chosen;
      if query == "" {
        return BadRequest, filter;
      }
      if key.None? {
        return Unavailable, filter;
      }
      if QueryTokens(query) == [] {
        return Found([]), filter;
      }
      var ids := SearchMessages(key.value, query);
      var shown := ShowFirst(user, chosen, ids);
      return Found(shown), filter;
    }

    method ChooseFilter(user: nat, listing: seq<nat>, name: string) returns (filter: Option<nat>)
      requires IsListing(db.State(), user, listing)
      ensures IsFilter(db.State(), user, name, filter)
    {
      filter := None;
      for i := 0 to |listing|
        invariant filter.Some? ==> filter.value in listing && IsFilter(db.State(), user, name, filter)
        invariant filter.None? ==> name == "" || forall mb <- listing[..i] :: db.mailboxes[mb].name != name
      {
        assert listing[..i + 1] == listing[..i] + [listing[i]];
        assert listing[i] in listing;
        if name != "" && db.mailboxes[listing[i]].name == name {
          filter := Some(listing[i]);
        }
      }
      assert listing[..|listing|] == listing;
    }

    method ShowFirst(user: nat, filter: Option<nat>, ids: seq<nat>) returns (shown: seq<nat>)
      requires NoDup(ids)
      ensures NoDup(shown) && |shown| <= 50
      ensures forall id <- shown :: id in ids && Visible(db.State(), user, filter, id)
      ensures |shown| < 50 ==> forall id <- ids :: Visible(db.State(), user, filter, id) ==> id in shown
    {
      shown := [];
      var i := 0;
      while i < |ids|
        invariant 0 <= i <= |ids| && NoDup(shown) && |shown| < 50
        invariant forall id :: id in shown <==> id in ids[..i] && Visible(db.State(), user, filter, id)
      {
        assert ids[..i + 1] == ids[..i] + [ids[i]];
        i := i + 1;
        if !Visible(db.State(), user, filter, ids[i - 1]) {
          continue;
        }
        shown := shown + [ids[i - 1]];
        if |shown| >= 50 {
          assert forall id <- shown :: id in ids;
          return;
        }
      }
      assert ids[..i] == ids;
    }
  }
}
