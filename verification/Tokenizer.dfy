/** The two tokenizers of the blind search index: the one that indexes a message
    (internal/crypto/searchindex.go) and the one that splits a query
    (internal/webmail/api_search.go), on ASCII text. */
module Tokenizer {
  import opened Collections
  import opened Text

  predicate IsAlnum(c: char) {
    'a' <= c <= 'z' || 'A' <= c <= 'Z' || '0' <= c <= '9'
  }

  predicate IsDot(c: char) {
    c == '.' || c == '@'
  }

  /** Separators of the index tokenizer: it keeps '.' and '@'. */
  predicate IndexSep(c: char) {
    !IsAlnum(c) && !IsDot(c)
  }

  predicate QuerySep(c: char) {
    !('a' <= c <= 'z' || '0' <= c <= '9')
  }

  const INDEX_STOPS: set<string> := {
    "the", "a", "an", "is", "are", "was", "were", "be", "been", "being", "have", "has", "had",
    "do", "does", "did", "will", "would", "could", "should", "may", "might", "shall", "can",
    "to", "of", "in", "for", "on", "with", "at", "by", "from", "as", "it", "its", "this", "that",
    "or", "and", "but", "if", "not"
  }

  const QUERY_STOPS: set<string> := {
    "the", "a", "an", "and", "or", "is", "are", "was", "were", "be", "to", "of", "in", "for", "on",
    "with", "at", "by", "it", "this", "that", "from", "not", "but", "has"
  }

  function Normalize(s: string): string {
    TrimSpace(ToLower(s))
  }

  predicate IndexOk(w: string) {
    |w| >= 2 && w !in INDEX_STOPS
  }

  predicate QueryOk(w: string) {
    |w| >= 2 && w !in QUERY_STOPS
  }

  /** The acceptable words, each at its first occurrence. */
  function Distinct(words: seq<string>, ok: string -> bool): seq<string> {
    if words == [] then []
    else
      var before, w := Distinct(words[..|words| - 1], ok), words[|words| - 1];
      if ok(w) && w !in before then before + [w] else before
  }

  function Filter(words: seq<string>, p: string -> bool): seq<string> {
    if words == [] then [] else (if p(words[0]) then [words[0]] else []) + Filter(words[1..], p)
  }

  function NormalizeAll(words: seq<string>): seq<string> {
    seq(|words|, i requires 0 <= i < |words| => Normalize(words[i]))
  }

  function IndexTokens(text: string): seq<string> {
    Distinct(NormalizeAll(FieldsFunc(ToLower(text), IndexSep)), IndexOk)
  }

  function QueryTokens(text: string): seq<string> {
    Distinct(FieldsFunc(ToLower(text), QuerySep), QueryOk)
  }

  // --------------------------------------------------------------- basic facts

  lemma {:induction false} DistinctAre(words: seq<string>, ok: string -> bool)
    ensures NoDup(Distinct(words, ok))
    ensures forall w :: w in Distinct(words, ok) <==> w in words && ok(w)
  {
    if words != [] {
      DistinctAre(words[..|words| - 1], ok);
      assert words == words[..|words| - 1] + [words[|words| - 1]];
    }
  }

  predicate IsLower(s: string) {
    forall i | 0 <= i < |s| :: !('A' <= s[i] <= 'Z')
  }

  lemma ToLowerIsLower(s: string)
    ensures IsLower(ToLower(s))
  {
  }

  lemma NormalizeWord(w: string, sep: char -> bool)
    requires IsWord(w, sep) && IsLower(w) && forall c :: IsSpace(c) ==> sep(c)
    ensures Normalize(w) == w
  {
    assert forall i | 0 <= i < |w| :: w[i] in w;
    assert ToLower(w) == w;
  }

  lemma {:induction false} FieldsLower(s: string, sep: char -> bool)
    requires IsLower(s)
    ensures forall w <- FieldsFunc(s, sep) :: IsLower(w)
    decreases |s|
  {
    if s != "" {
      if sep(s[0]) {
        FieldsLower(s[1..], sep);
      } else {
        FieldsLower(s[WordLength(s, sep)..], sep);
      }
    }
  }

  /** Normalizing the index tokenizer's words changes nothing. */
  lemma IndexWordsNormal(text: string)
    ensures NormalizeAll(FieldsFunc(ToLower(text), IndexSep)) == FieldsFunc(ToLower(text), IndexSep)
  {
    var words := FieldsFunc(ToLower(text), IndexSep);
    ToLowerIsLower(text);
    FieldsLower(ToLower(text), IndexSep);
    forall i | 0 <= i < |words| ensures Normalize(words[i]) == words[i] {
      NormalizeWord(words[i], IndexSep);
    }
  }

  // ------------------------------------------------------------ filters commute

  lemma {:induction false} FilterAppend(words: seq<string>, w: string, p: string -> bool)
    ensures Filter(words + [w], p) == Filter(words, p) + (if p(w) then [w] else [])
  {
    if words == [] {
      assert [w][1..] == [] && words + [w] == [w];
    } else {
      assert (words + [w])[1..] == words[1..] + [w];
      FilterAppend(words[1..], w, p);
    }
  }

  lemma {:induction false} FilterAre(words: seq<string>, p: string -> bool)
    ensures forall w :: w in Filter(words, p) <==> w in words && p(w)
  {
    if words != [] {
      FilterAre(words[1..], p);
      assert words == [words[0]] + words[1..];
    }
  }

  /** Dropping words before or after removing repetitions is the same. */
  lemma {:induction false} DistinctThenFilter(words: seq<string>, ok: string -> bool, p: string -> bool,
                                              both: string -> bool)
    requires forall w :: both(w) <==> ok(w) && p(w)
    ensures Distinct(words, both) == Filter(Distinct(words, ok), p)
  {
    if words != [] {
      var init, w := words[..|words| - 1], words[|words| - 1];
      DistinctThenFilter(init, ok, p, both);
      FilterAre(Distinct(init, ok), p);
      FilterAppend(Distinct(init, ok), w, p);
    }
  }

  /** Words the filter rejects anyway may be dropped first. */
  lemma {:induction false} DistinctDrops(words: seq<string>, p: string -> bool, ok: string -> bool)
    requires forall w <- words :: ok(w) ==> p(w)
    ensures Distinct(words, ok) == Distinct(Filter(words, p), ok)
  {
    if words != [] {
      var init, w := words[..|words| - 1], words[|words| - 1];
      assert words == init + [w];
      DistinctDrops(init, p, ok);
      FilterAppend(init, w, p);
      if p(w) {
        assert (Filter(init, p) + [w])[..|Filter(init, p)|] == Filter(init, p);
      } else {
        assert Filter(init, p) + [] == Filter(init, p);
      }
    }
  }

  // ------------------------------------------------------------- dots and words

  predicate NoDots(w: string) {
    forall c <- w :: !IsDot(c)
  }

  /** Every '.' and '@' stands alone between separators. */
  predicate DotsIsolated(s: string) {
    forall i | 0 <= i < |s| && IsDot(s[i]) ::
      && (i > 0 ==> IndexSep(s[i - 1]))
      && (i + 1 < |s| ==> IndexSep(s[i + 1]))
  }

  lemma IsolatedSuffix(s: string, n: nat)
    requires n <= |s| && DotsIsolated(s)
    ensures DotsIsolated(s[n..])
  {
    forall i | 0 <= i < |s[n..]| ensures s[n..][i] == s[n + i] {
    }
  }

  /** A word of the index is a lone dot or a word of the query. */
  lemma FirstWord(s: string)
    requires IsLower(s) && DotsIsolated(s) && s != "" && !IndexSep(s[0])
    ensures var n := WordLength(s, IndexSep);
      && n > 0
      && (if IsDot(s[0]) then n == 1 else NoDots(s[..n]) && WordLength(s, QuerySep) == n)
  {
    var n := WordLength(s, IndexSep);
    var w := s[..n];
    assert forall i | 0 <= i < n :: w[i] == s[i] && w[i] in w;
    if !IsDot(s[0]) {
      forall i | 0 <= i < n ensures !IsDot(s[i]) {
        assert i > 0 ==> !IndexSep(s[i - 1]);
      }
      assert Within(w, QuerySep);
      WordLengthIs(s, QuerySep, n);
    }
  }

  /** With isolated dots the query's words are the index's words without dots. */
  lemma {:induction false} IsolatedWords(s: string)
    requires IsLower(s) && DotsIsolated(s)
    ensures Filter(FieldsFunc(s, IndexSep), NoDots) == FieldsFunc(s, QuerySep)
    ensures forall w <- FieldsFunc(s, IndexSep) :: NoDots(w) || |w| == 1
    decreases |s|
  {
    if s != "" {
      if IndexSep(s[0]) {
        IsolatedSuffix(s, 1);
        IsolatedWords(s[1..]);
      } else {
        var n := WordLength(s, IndexSep);
        FirstWord(s);
        IsolatedSuffix(s, n);
        IsolatedWords(s[n..]);
        var rest := FieldsFunc(s[n..], IndexSep);
        assert ([s[..n]] + rest)[1..] == rest;
        if IsDot(s[0]) {
          assert s[..n][0] == s[0] && s[0] in s[..n];
          assert [] + Filter(rest, NoDots) == Filter(rest, NoDots);
        }
      }
    }
  }

  /** Neighbouring characters that are not separators share a word. */
  lemma {:induction false} NeighboursShareWord(s: string, sep: char -> bool, i: nat) returns (w: string)
    requires i + 1 < |s| && !sep(s[i]) && !sep(s[i + 1])
    ensures w in FieldsFunc(s, sep) && |w| >= 2 && s[i] in w && s[i + 1] in w
    decreases |s|
  {
    if sep(s[0]) {
      w := NeighboursShareWord(s[1..], sep, i - 1);
    } else {
      var n := WordLength(s, sep);
      if i + 1 < n {
        w := s[..n];
        assert s[..n][i] == s[i] && s[..n][i + 1] == s[i + 1];
      } else {
        assert i != n - 1 by {
          assert n < |s| ==> sep(s[n]);
        }
        w := NeighboursShareWord(s[n..], sep, i - n);
      }
    }
  }

  lemma StopsHaveNoDots(w: string)
    requires w in INDEX_STOPS
    ensures NoDots(w)
  {
  }

  lemma QueryTokensHaveNoDots(text: string)
    ensures forall w <- QueryTokens(text) :: NoDots(w)
  {
    DistinctAre(FieldsFunc(ToLower(text), QuerySep), QueryOk);
    forall w | w in QueryTokens(text) ensures NoDots(w) {
      assert IsWord(w, QuerySep);
    }
  }

  // ------------------------------------------------------------------- agreement

  predicate NotIndexStop(w: string) {
    w !in INDEX_STOPS
  }

  lemma QueryStopsAreIndexStops()
    ensures QUERY_STOPS <= INDEX_STOPS
  {
  }

  lemma IsolatedAgree(text: string)
    requires DotsIsolated(ToLower(text))
    ensures IndexTokens(text) == Filter(QueryTokens(text), NotIndexStop)
  {
    var s := ToLower(text);
    ToLowerIsLower(text);
    IndexWordsNormal(text);
    IsolatedWords(s);
    DistinctDrops(FieldsFunc(s, IndexSep), NoDots, IndexOk);
    QueryStopsAreIndexStops();
    DistinctThenFilter(FieldsFunc(s, QuerySep), QueryOk, NotIndexStop, IndexOk);
  }

  /** An index word with a dot in it is not a query word. */
  lemma DottedWordDiffers(text: string, w: string)
    requires w in FieldsFunc(ToLower(text), IndexSep) && |w| >= 2 && !NoDots(w)
    ensures w in IndexTokens(text) && w !in Filter(QueryTokens(text), NotIndexStop)
  {
    if w in INDEX_STOPS {
      StopsHaveNoDots(w);
    }
    IndexWordsNormal(text);
    DistinctAre(FieldsFunc(ToLower(text), IndexSep), IndexOk);
    QueryTokensHaveNoDots(text);
    FilterAre(QueryTokens(text), NotIndexStop);
  }

  lemma JoinedDottedWord(s: string) returns (w: string)
    requires !DotsIsolated(s)
    ensures w in FieldsFunc(s, IndexSep) && |w| >= 2 && !NoDots(w)
  {
    var i :| 0 <= i < |s| && IsDot(s[i]) && !((i > 0 ==> IndexSep(s[i - 1])) && (i + 1 < |s| ==> IndexSep(s[i + 1])));
    w := NeighboursShareWord(s, IndexSep, if i > 0 && !IndexSep(s[i - 1]) then i - 1 else i);
    assert s[i] in w;
  }

  /** The index tokenizer's output is the query tokenizer's, less the stop words only the
      index has, in the same order, exactly when every '.' and '@' is isolated. */
  lemma TokenizersAgreeIff(text: string)
    ensures IndexTokens(text) == Filter(QueryTokens(text), NotIndexStop) <==> DotsIsolated(ToLower(text))
  {
    if DotsIsolated(ToLower(text)) {
      IsolatedAgree(text);
    } else {
      var w := JoinedDottedWord(ToLower(text));
      DottedWordDiffers(text, w);
    }
  }

  /** What is indexed of a text: the words that stand alone in it, '.' and '@' being part of a
      word, less stop words and single characters. */
  lemma IndexedIff(text: string, w: string)
    ensures w in IndexTokens(text) <==> IndexOk(w) && IsWord(w, IndexSep) && StandsAlone(ToLower(text), IndexSep, w)
  {
    var words := FieldsFunc(ToLower(text), IndexSep);
    IndexWordsNormal(text);
    DistinctAre(words, IndexOk);
    FieldsAre(ToLower(text), IndexSep, w);
  }

  /** A query word finds a text exactly when it is no stop word of the index and stands alone
      in the text, with no '.' or '@' beside it. */
  lemma QueryWordHitIff(query: string, text: string, w: string)
    requires w in QueryTokens(query)
    ensures w in IndexTokens(text) <==> w !in INDEX_STOPS && StandsAlone(ToLower(text), IndexSep, w)
  {
    IndexedIff(text, w);
    DistinctAre(FieldsFunc(ToLower(query), QuerySep), QueryOk);
    assert forall c <- w :: !IndexSep(c);
  }

  /** With isolated dots a text's own words all stand alone. */
  lemma OwnWordsAlone(text: string, w: string)
    requires DotsIsolated(ToLower(text)) && w in QueryTokens(text)
    ensures w !in INDEX_STOPS ==> StandsAlone(ToLower(text), IndexSep, w)
  {
    TokenizersAgreeIff(text);
    FilterAre(QueryTokens(text), NotIndexStop);
    IndexedIff(text, w);
  }

  const SENTENCE: string := "hello world."

  /** The last word of a sentence is not found: the full stop is part of it. */
  lemma SentenceEndExample()
    ensures "world" in QueryTokens(SENTENCE) && "world" !in IndexTokens(SENTENCE)
  {
    assert ToLower(SENTENCE) == SENTENCE;
    IndexedIff(SENTENCE, "world");
    WorldNotAlone();
    WorldIsQueryWord();
  }

  lemma WorldNotAlone()
    ensures !StandsAlone(SENTENCE, IndexSep, "world")
  {
    forall i | 0 <= i <= |SENTENCE| ensures !AloneAt(SENTENCE, IndexSep, "world", i) {
      if i + 5 < |SENTENCE| && SENTENCE[i..i + 5] == "world" {
        assert SENTENCE[i..i + 5][0] == SENTENCE[i];
      }
    }
  }

  lemma WorldIsQueryWord()
    ensures "world" in QueryTokens(SENTENCE)
  {
    var w := "world";
    assert ToLower(SENTENCE) == SENTENCE;
    assert SENTENCE[6..11] == "world";
    assert AloneAt(SENTENCE, QuerySep, w, 6);
    WorldIsWord(w);
    FieldsAre(SENTENCE, QuerySep, w);
    DistinctAre(FieldsFunc(SENTENCE, QuerySep), QueryOk);
  }

  lemma WorldIsWord(w: string)
    requires w == "world"
    ensures IsWord(w, QuerySep) && QueryOk(w)
  {
  }

  lemma WordIsOneToken(w: string)
    requires IsWord(w, IndexSep) && IsLower(w) && IndexOk(w)
    ensures IndexTokens(w) == [w]
  {
    assert ToLower(w) == w;
    FieldsOfWord(w, IndexSep);
    IndexWordsNormal(w);
    DistinctOne(w, IndexOk);
  }

  lemma DistinctOne(w: string, ok: string -> bool)
    requires ok(w)
    ensures Distinct([w], ok) == [w]
  {
    assert [w][..0] == [];
    assert [] + [w] == [w];
  }

  /** A word with a dot or at-sign, such as an address, is one index token that no query
      produces. */
  lemma AddressNeverFound(address: string, query: string)
    requires IsWord(address, IndexSep) && |address| >= 2 && !NoDots(address)
    ensures IndexTokens(address) == [ToLower(address)]
    ensures ToLower(address) !in QueryTokens(query)
  {
    var w := ToLower(address);
    LowerIsWord(address);
    if w in INDEX_STOPS {
      StopsHaveNoDots(w);
    }
    ToLowerIsLower(address);
    WordIsOneToken(w);
    assert ToLower(w) == w;
    QueryTokensHaveNoDots(query);
  }

  lemma LowerIsWord(s: string)
    requires IsWord(s, IndexSep)
    ensures IsWord(ToLower(s), IndexSep) && (NoDots(ToLower(s)) ==> NoDots(s))
  {
    var w := ToLower(s);
    forall c | c in w ensures !IndexSep(c) {
      var i :| 0 <= i < |w| && w[i] == c;
      assert s[i] in s;
    }
    forall c | c in s ensures NoDots(w) ==> !IsDot(c) {
      var i :| 0 <= i < |s| && s[i] == c;
      assert w[i] in w;
    }
  }

  lemma DistinctNext(words: seq<string>, i: nat, ok: string -> bool)
    requires i < |words|
    ensures Distinct(words[..i + 1], ok) ==
      var before := Distinct(words[..i], ok);
      if ok(words[i]) && words[i] !in before then before + [words[i]] else before
  {
    assert words[..i + 1][..i] == words[..i];
  }

  // ---------------------------------------------------------- imperative form

  method TokenizeForIndex(text: string) returns (result: seq<string>)
    ensures result == IndexTokens(text)
  {
    result := [];
    var words := FieldsFunc(ToLower(text), IndexSep);
    var seen: set<string> := {};
    ghost var normal := NormalizeAll(words);
    for i := 0 to |words|
      invariant result == Distinct(normal[..i], IndexOk) && seen == Range(result)
    {
      var w := Normalize(words[i]);
      DistinctNext(normal, i, IndexOk);
      if w == "" || |w| < 2 {
        continue;
      }
      if w in INDEX_STOPS {
        continue;
      }
      if w in seen {
        continue;
      }
      seen := seen + {w};
      result := result + [w];
    }
    assert normal[..|words|] == normal;
  }

  method TokenizeQuery(text: string) returns (result: seq<string>)
    ensures result == QueryTokens(text)
  {
    var words := FieldsFunc(ToLower(text), QuerySep);
    var seen: set<string> := {};
    result := [];
    for i := 0 to |words|
      invariant result == Distinct(words[..i], QueryOk) && seen == Range(result)
    {
      var w := words[i];
      DistinctNext(words, i, QueryOk);
      if |w| < 2 || w in QUERY_STOPS || w in seen {
        continue;
      }
      seen := seen + {w};
      result := result + [w];
    }
    assert words[..|words|] == words;
  }
}
