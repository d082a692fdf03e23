/** The string operations of Go's standard library that the mail server relies on,
    over ASCII: a `char` stands for a byte and case folding is that of ASCII. */
module Text {

  function LowerChar(c: char): char {
    if 'A' <= c <= 'Z' then (c as int + 32) as char else c
  }

  /** strings.ToLower */
  function ToLower(s: string): (r: string)
    ensures |r| == |s|
  {
    seq(|s|, i requires 0 <= i < |s| => LowerChar(s[i]))
  }

  /** strings.EqualFold */
  predicate EqualFold(a: string, b: string) {
    ToLower(a) == ToLower(b)
  }

  /** unicode.IsSpace, on ASCII */
  predicate IsSpace(c: char) {
    c in [' ', '\t', '\n', '\U{0B}', '\U{0C}', '\r']
  }

  predicate HasPrefix(s: string, prefix: string) {
    |prefix| <= |s| && s[..|prefix|] == prefix
  }

  function TrimLeft(s: string): string {
    if s != "" && IsSpace(s[0]) then TrimLeft(s[1..]) else s
  }

  function TrimRight(s: string): string {
    if s != "" && IsSpace(s[|s| - 1]) then TrimRight(s[..|s| - 1]) else s
  }

  /** strings.TrimSpace */
  function TrimSpace(s: string): string {
    TrimRight(TrimLeft(s))
  }

  // ------------------------------------------------------------------- fields

  predicate Within(s: string, sep: char -> bool) {
    forall c <- s :: !sep(c)
  }

  /** A field: not empty and free of separators. */
  predicate IsWord(s: string, sep: char -> bool) {
    s != "" && Within(s, sep)
  }

  /** Length of the longest prefix without separators. */
  function WordLength(s: string, sep: char -> bool): (n: nat)
    ensures n <= |s| && Within(s[..n], sep)
    ensures n < |s| ==> sep(s[n])
  {
    if s == "" || sep(s[0]) then 0
    else
      var n := 1 + WordLength(s[1..], sep);
      assert s[..n] == [s[0]] + s[1..][..n - 1];
      n
  }

  /** strings.FieldsFunc: the maximal runs of characters that are not separators. */
  function FieldsFunc(s: string, sep: char -> bool): (words: seq<string>)
    ensures forall w <- words :: IsWord(w, sep)
    decreases |s|
  {
    if s == "" then []
    else if sep(s[0]) then FieldsFunc(s[1..], sep)
    else
      var n := WordLength(s, sep);
      [s[..n]] + FieldsFunc(s[n..], sep)
  }

  /** strings.Fields */
  function Fields(s: string): seq<string> {
    FieldsFunc(s, IsSpace)
  }

  lemma WordLengthIs(s: string, sep: char -> bool, n: nat)
    requires n <= |s| && Within(s[..n], sep) && (n < |s| ==> sep(s[n]))
    ensures WordLength(s, sep) == n
  {
    var m := WordLength(s, sep);
    assert forall i | 0 <= i < n :: s[..n][i] == s[i];
    assert forall i | 0 <= i < m :: s[..m][i] == s[i];
  }

  /** A separator splits the work. */
  lemma {:induction false} FieldsSplit(a: string, x: char, b: string, sep: char -> bool)
    requires sep(x)
    ensures FieldsFunc(a + [x] + b, sep) == FieldsFunc(a, sep) + FieldsFunc(b, sep)
    decreases |a|
  {
    var s := a + [x] + b;
    if a == "" {
      assert s[1..] == b;
    } else if sep(a[0]) {
      assert s[1..] == a[1..] + [x] + b;
      FieldsSplit(a[1..], x, b, sep);
    } else {
      var n := WordLength(a, sep);
      assert s[..n] == a[..n];
      WordLengthIs(s, sep, n);
      assert s[n..] == a[n..] + [x] + b;
      FieldsSplit(a[n..], x, b, sep);
    }
  }

  lemma FieldsOfWord(w: string, sep: char -> bool)
    requires IsWord(w, sep)
    ensures FieldsFunc(w, sep) == [w]
  {
    assert w[..|w|] == w;
    WordLengthIs(w, sep, |w|);
    assert w[|w|..] == "";
  }

  /** At i the text has w, with a separator or an end of the text on both sides. */
  predicate AloneAt(s: string, sep: char -> bool, w: string, i: nat) {
    && i + |w| <= |s| && s[i..i + |w|] == w
    && (i > 0 ==> sep(s[i - 1])) && (i + |w| < |s| ==> sep(s[i + |w|]))
  }

  predicate StandsAlone(s: string, sep: char -> bool, w: string) {
    exists i | 0 <= i <= |s| :: AloneAt(s, sep, w, i)
  }

  lemma AloneInSuffix(s: string, sep: char -> bool, w: string, i: nat, n: nat)
    requires n <= |s| && IsWord(w, sep) && (n > 0 ==> sep(s[n - 1]) || (n < |s| ==> sep(s[n])))
    ensures AloneAt(s[n..], sep, w, i) ==> AloneAt(s, sep, w, n + i)
    ensures i > 0 && AloneAt(s, sep, w, n + i) ==> AloneAt(s[n..], sep, w, i)
  {
    if n + i + |w| <= |s| {
      assert s[n..][i..i + |w|] == s[n + i..n + i + |w|];
      assert w[0] in w && (s[n + i..n + i + |w|] == w ==> s[n + i] == w[0]);
    }
  }

  lemma AloneAtStart(s: string, sep: char -> bool, w: string)
    requires IsWord(w, sep) && AloneAt(s, sep, w, 0)
    ensures w in FieldsFunc(s, sep)
  {
    assert s[..|w|][0] == s[0] && w[0] in w;
    WordLengthIs(s, sep, |w|);
  }

  lemma {:induction false} AloneIsField(s: string, sep: char -> bool, w: string, i: nat)
    requires IsWord(w, sep) && AloneAt(s, sep, w, i)
    ensures w in FieldsFunc(s, sep)
    decreases |s|
  {
    if i == 0 {
      AloneAtStart(s, sep, w);
    } else if sep(s[0]) {
      assert s[1..][i - 1..i - 1 + |w|] == s[i..i + |w|];
      AloneIsField(s[1..], sep, w, i - 1);
    } else {
      var n := WordLength(s, sep);
      assert n < i by {
        assert forall k | 0 <= k < n :: s[..n][k] == s[k] && s[..n][k] in s[..n];
      }
      AloneInSuffix(s, sep, w, i - n, n);
      AloneIsField(s[n..], sep, w, i - n);
    }
  }

  lemma {:induction false} FieldIsAlone(s: string, sep: char -> bool, w: string) returns (i: nat)
    requires w in FieldsFunc(s, sep)
    ensures AloneAt(s, sep, w, i)
    decreases |s|
  {
    if sep(s[0]) {
      i := FieldIsAlone(s[1..], sep, w);
      AloneInSuffix(s, sep, w, i, 1);
      i := i + 1;
    } else {
      var n := WordLength(s, sep);
      if w == s[..n] {
        i := 0;
      } else {
        i := FieldIsAlone(s[n..], sep, w);
        AloneInSuffix(s, sep, w, i, n);
        i := n + i;
      }
    }
  }

  /** The fields are the words that stand alone. */
  lemma FieldsAre(s: string, sep: char -> bool, w: string)
    ensures w in FieldsFunc(s, sep) <==> IsWord(w, sep) && StandsAlone(s, sep, w)
  {
    if w in FieldsFunc(s, sep) {
      var i := FieldIsAlone(s, sep, w);
      assert AloneAt(s, sep, w, i);
    } else if IsWord(w, sep) && StandsAlone(s, sep, w) {
      var i :| 0 <= i <= |s| && AloneAt(s, sep, w, i);
      AloneIsField(s, sep, w, i);
    }
  }

  // --------------------------------------------------------------------- join

  /** strings.Join */
  function Join(parts: seq<string>, glue: string): string {
    if parts == [] then ""
    else if |parts| == 1 then parts[0]
    else parts[0] + glue + Join(parts[1..], glue)
  }

  lemma {:induction false} JoinAppend(parts: seq<string>, last: string, glue: string)
    ensures Join(parts + [last], glue) == if parts == [] then last else Join(parts, glue) + glue + last
  {
    if parts == [] {
      assert parts + [last] == [last];
    } else {
      assert (parts + [last])[1..] == parts[1..] + [last];
      JoinAppend(parts[1..], last, glue);
      if |parts| == 1 {
        assert parts[1..] == [];
      }
    }
  }

  /** Join with one separator, then split: the fields of the parts, in order. */
  lemma {:induction false} FieldsOfJoin(parts: seq<string>, x: char, sep: char -> bool)
    requires sep(x)
    ensures FieldsFunc(Join(parts, [x]), sep) == FieldsOfAll(parts, sep)
  {
    if |parts| == 1 {
      assert FieldsOfAll(parts[1..], sep) == [];
      assert FieldsFunc(parts[0], sep) + [] == FieldsFunc(parts[0], sep);
    } else if parts != [] {
      FieldsSplit(parts[0], x, Join(parts[1..], [x]), sep);
      FieldsOfJoin(parts[1..], x, sep);
    }
  }

  function FieldsOfAll(parts: seq<string>, sep: char -> bool): seq<string> {
    if parts == [] then [] else FieldsFunc(parts[0], sep) + FieldsOfAll(parts[1..], sep)
  }

  lemma {:induction false} FieldsOfWords(parts: seq<string>, sep: char -> bool)
    requires forall p <- parts :: IsWord(p, sep)
    ensures FieldsOfAll(parts, sep) == parts
  {
    if parts != [] {
      FieldsOfWord(parts[0], sep);
      FieldsOfWords(parts[1..], sep);
      assert [parts[0]] + parts[1..] == parts;
    }
  }

  lemma LowerKeepsWords(a: string, b: string)
    requires ToLower(a) == ToLower(b) && IsWord(a, IsSpace)
    ensures IsWord(b, IsSpace)
  {
    assert |a| == |b|;
    forall c | c in b ensures !IsSpace(c) {
      var i :| 0 <= i < |b| && b[i] == c;
      assert ToLower(a)[i] == ToLower(b)[i];
      assert a[i] in a;
    }
  }
}
