/** Where a message's header section ends: at its first empty line, one that ends in LF and
    holds nothing but CRs, the very first line included.  The strippers look for CRLF CRLF
    or LF LF instead (`HeaderEnd`); when is what they write read as it was meant? */
module EmptyLines {
  import opened Collections
  import opened Text
  import opened Headers

  // ------------------------------------------------------------ the first empty line

  /** Where the first empty line among these begins; past the last line if there is none. */
  function EmptyIn(raw: seq<string>): nat
    requires raw != []
  {
    if |raw| == 1 then |raw[0]|
    else if IsBlank(raw[0]) then 0
    else |raw[0]| + 1 + EmptyIn(raw[1..])
  }

  function EmptyLine(s: string): (i: nat)
    ensures i <= |s|
  {
    EmptyInBelow(RawLines(s));
    LengthOfRaw(s);
    EmptyIn(RawLines(s))
  }

  /** The length of lines with their LFs. */
  function Length(raw: seq<string>): nat {
    if raw == [] then 0 else |raw[0]| + 1 + Length(raw[1..])
  }

  lemma {:induction false} EmptyInBelow(raw: seq<string>)
    requires raw != []
    ensures EmptyIn(raw) < Length(raw)
  {
    if |raw| > 1 {
      EmptyInBelow(raw[1..]);
    }
  }

  lemma {:induction false} LengthOfRaw(s: string)
    ensures Length(RawLines(s)) == |s| + 1
  {
    if s != "" {
      LengthOfRaw(s[1..]);
      var rest := RawLines(s[1..]);
      if s[0] == '\n' {
        assert ([""] + rest)[1..] == rest;
      } else {
        assert ([[s[0]] + rest[0]] + rest[1..])[1..] == rest[1..];
      }
    }
  }

  /** The header part of a message: the lines before its first empty line. */
  function HeaderPart(data: string): string {
    data[..EmptyLine(data)]
  }

  /** The rest, from the empty line on. */
  function BodyPart(data: string): string {
    data[EmptyLine(data)..]
  }

  /** The body proper: what follows the empty line. */
  function BodyOf(data: string): string {
    var end := IndexFrom(BodyPart(data), "\n", 0);
    if end.None? || |BodyPart(data)| <= end.value then "" else BodyPart(data)[end.value + 1..]
  }

  /** Someone who reads `out` finds these logical header lines and this rest. */
  predicate ReadsAs(out: string, headers: seq<string>, rest: string) {
    LogicalLines(HeaderPart(out)) == headers && BodyPart(out) == rest
  }

  /** No line of the text is empty; an empty text is one empty line. */
  predicate NoBlankLine(s: string) {
    forall line <- RawLines(s) :: !IsBlank(line)
  }

  predicate FirstLineBlank(s: string) {
    IsBlank(RawLines(s)[0])
  }

  // ----------------------------------------------------------- lines put together

  lemma {:induction false} EmptyInConcat(a: seq<string>, b: seq<string>)
    requires b != [] && forall line <- a :: !IsBlank(line)
    ensures EmptyIn(a + b) == Length(a) + EmptyIn(b)
  {
    if a == [] {
      assert a + b == b;
    } else {
      assert (a + b)[1..] == a[1..] + b;
      EmptyInConcat(a[1..], b);
    }
  }

  /** Lines that are not empty in front: the first empty line is found behind them. */
  lemma EmptyLineBehind(s: string, t: string)
    requires NoBlankLine(s)
    ensures EmptyLine(s + ['\n'] + t) == |s| + 1 + EmptyLine(t)
  {
    RawLinesConcat(s, t);
    EmptyInConcat(RawLines(s), RawLines(t));
    LengthOfRaw(s);
  }

  /** An empty line among them: it is found, or an earlier one. */
  lemma {:induction false} EmptyInWithin(a: seq<string>, b: seq<string>)
    requires b != [] && exists line <- a :: IsBlank(line)
    ensures EmptyIn(a + b) == EmptyIn(a + b[..1]) < Length(a)
  {
    assert (a + b)[1..] == a[1..] + b && (a + b[..1])[1..] == a[1..] + b[..1];
    if !IsBlank(a[0]) {
      assert exists line <- a[1..] :: IsBlank(line);
      EmptyInWithin(a[1..], b);
    }
  }

  lemma EmptyLineWithin(s: string, t: string)
    requires !NoBlankLine(s)
    ensures EmptyLine(s + ['\n'] + t) <= |s|
  {
    RawLinesConcat(s, t);
    EmptyInWithin(RawLines(s), RawLines(t));
    LengthOfRaw(s);
  }

  /** An empty first line, its LF included, ends the headers at once. */
  lemma EmptyLineFirst(s: string, t: string)
    requires FirstLineBlank(s)
    ensures EmptyLine(s + ['\n'] + t) == 0
  {
    RawLinesConcat(s, t);
    assert (RawLines(s) + RawLines(t))[0] == RawLines(s)[0];
  }

  lemma BeginsBlank(blank: string, t: string)
    requires blank == "" || blank == "\r"
    ensures FirstLineBlank(blank + ['\n'] + t) && EmptyLine(blank + ['\n'] + t) == 0
  {
    RawLinesOne(blank);
    RawLinesConcat(blank, t);
    assert blank == "\r" ==> blank[..0] == "";
    assert IsBlank(blank);
    assert (RawLines(blank) + RawLines(t))[0] == blank;
    EmptyLineFirst(blank, t);
  }

  /** The body is what stands behind the empty line. */
  lemma BodyAtOnce(blank: string, body: string)
    requires blank == "" || blank == "\r"
    ensures BodyOf(blank + ['\n'] + body) == body
  {
    var s := blank + ['\n'] + body;
    BeginsBlank(blank, body);
    assert BodyPart(s) == s && s[|blank|..|blank| + 1] == "\n";
    FirstIndex(s, "\n", |blank|);
  }

  lemma BodyBehind(lines: string, blank: string, body: string)
    requires NoBlankLine(lines) && (blank == "" || blank == "\r")
    ensures BodyOf(lines + ['\n'] + (blank + ['\n'] + body)) == body
  {
    var s := blank + ['\n'] + body;
    BeginsBlank(blank, body);
    EmptyLineBehind(lines, s);
    BodyAtOnce(blank, body);
    assert BodyPart(s) == s == BodyPart(lines + ['\n'] + s);
  }

  /** The first line ends at the first LF. */
  lemma {:induction false} FirstRaw(s: string)
    ensures var n := |RawLines(s)[0]|;
      && n <= |s| && s[..n] == RawLines(s)[0]
      && (n == |s| ==> |RawLines(s)| == 1)
      && (n < |s| ==> s[n] == '\n' && RawLines(s) == [s[..n]] + RawLines(s[n + 1..]))
  {
    if s != "" && s[0] != '\n' {
      FirstRaw(s[1..]);
      var m := |RawLines(s[1..])[0]|;
      assert s[..m + 1] == [s[0]] + s[1..][..m];
      if m < |s[1..]| {
        assert s[1..][m + 1..] == s[m + 2..];
        assert RawLines(s[1..])[1..] == RawLines(s[m + 2..]);
      }
    } else if s != "" {
      assert s[..0] == "";
    }
  }

  lemma {:induction false} BlankIff(line: string)
    ensures IsBlank(line) <==> forall c <- line :: c == '\r'
  {
    if line != "" {
      var n := |line| - 1;
      assert line == line[..n] + [line[n]] && line[n] in line;
      if line[n] == '\r' {
        BlankIff(line[..n]);
        assert forall c :: c in line <==> c in line[..n] || c == '\r';
      }
    }
  }

  /** The text from its first empty line on begins with it; so does any part of that. */
  lemma {:induction false} EmptyLineBegins(s: string)
    ensures FirstLineBlank(s[EmptyLine(s)..])
    decreases |s|
  {
    FirstRaw(s);
    var n := |RawLines(s)[0]|;
    if n == |s| {
      assert s[EmptyLine(s)..] == "";
    } else if IsBlank(RawLines(s)[0]) {
      assert s[0..] == s;
    } else {
      EmptyLineBegins(s[n + 1..]);
      assert RawLines(s)[1..] == RawLines(s[n + 1..]);
      assert s[n + 1..][EmptyLine(s[n + 1..])..] == s[EmptyLine(s)..];
    }
  }

  lemma PartBegins(s: string, k: nat)
    requires FirstLineBlank(s) && k <= |s|
    ensures FirstLineBlank(s[..k])
  {
    FirstRaw(s);
    FirstRaw(s[..k]);
    var n, m := |RawLines(s)[0]|, |RawLines(s[..k])[0]|;
    NoLFInRaw(s[..k]);
    assert forall i | 0 <= i < m :: s[i] == s[..k][..m][i] && s[..k][..m][i] in s[..k][..m];
    assert m <= n;
    BlankIff(s[..n]);
    BlankIff(s[..k][..m]);
    assert forall i | 0 <= i < m :: s[..k][..m][i] == s[..n][i] && s[..n][i] in s[..n];
  }

  lemma NoLFInRaw(s: string)
    ensures '\n' !in RawLines(s)[0]
  {
    RawLinesHaveNoLF(s);
  }

  // ------------------------------------------------------ in front of a separator

  /** The line end before the separator's empty line. */
  function LineEndAt(data: string, e: nat): string
    requires e < |data|
  {
    if data[e] == '\r' then CRLF else "\n"
  }

  lemma SeparatorIs(data: string, e: nat)
    requires HeaderEnd(data) == Some(e)
    ensures e < |data| && e + |LineEndAt(data, e)| <= |data|
    ensures data[e..e + |LineEndAt(data, e)|] == LineEndAt(data, e)
    ensures var rest := data[e + |LineEndAt(data, e)|..]; |rest| >= 1 && EmptyLine(rest) == 0
  {
    var crlf := IndexFrom(data, "\r\n\r\n", 0);
    var end := LineEndAt(data, e);
    if crlf.Some? {
      assert data[e..e + 4] == "\r\n\r\n";
      assert data[e..e + 4][0] == data[e] == '\r';
      assert data[e..e + 4][..2] == data[e..e + 2] == "\r\n";
      var rest := data[e + 2..];
      assert rest[..2] == data[e..e + 4][2..] == "\r\n";
      assert rest == "\r" + ['\n'] + rest[2..];
      RawLinesOne("\r");
      assert "\r"[..0] == "";
      EmptyLineFirst("\r", rest[2..]);
    } else {
      assert data[e..e + 2] == "\n\n";
      assert data[e..e + 2][0] == data[e] == '\n';
      assert data[e..e + 1] == "\n";
      var rest := data[e + 1..];
      assert rest[0] == data[e..e + 2][1] == '\n';
      assert rest == "" + ['\n'] + rest[1..];
      EmptyLineFirst("", rest[1..]);
    }
  }

  lemma NoBlankWithCR(s: string)
    ensures NoBlankLine(s + ['\r']) == NoBlankLine(s)
    ensures FirstLineBlank(s + ['\r']) == FirstLineBlank(s)
  {
    var raw := RawLines(s);
    var n := |raw| - 1;
    RawLinesCR(s);
    BlankWithCR(raw[n]);
    assert raw == raw[..n] + [raw[n]];
  }

  /** A section in front of a separator: where the whole has its first empty line. */
  lemma EmptyLineOfWhole(section: string, end: string, rest: string)
    requires (end == CRLF || end == "\n") && EmptyLine(rest) == 0
    ensures NoBlankLine(section) ==> EmptyLine(section + end + rest) == |section| + |end|
    ensures !NoBlankLine(section) ==> EmptyLine(section + end + rest) <= |section|
    ensures FirstLineBlank(section) ==> EmptyLine(section + end + rest) == 0
  {
    var front := if end == CRLF then section + ['\r'] else section;
    assert section + end + rest == front + ['\n'] + rest;
    NoBlankWithCR(section);
    if NoBlankLine(section) {
      EmptyLineBehind(front, rest);
    } else {
      EmptyLineWithin(front, rest);
      WithinSection(section, end, rest);
    }
    if FirstLineBlank(section) {
      EmptyLineFirst(front, rest);
    }
  }

  lemma WithinSection(section: string, end: string, rest: string)
    requires (end == CRLF || end == "\n") && !NoBlankLine(section)
    ensures EmptyLine(section + end + rest) <= |section|
  {
    if end == CRLF {
      assert section + end + rest == (section + ['\r']) + ['\n'] + rest;
      RawLinesConcat(section + ['\r'], rest);
      RawLinesCR(section);
      NoBlankWithCR(section);
      var raw := LastPlus(RawLines(section), '\r');
      EmptyInWithin(raw, RawLines(rest));
      EmptyInLast(raw, RawLines(rest));
      LengthOfRaw(section + ['\r']);
    } else {
      assert section + end + rest == section + ['\n'] + rest;
      EmptyLineWithin(section, rest);
    }
  }

  /** The empty line begins no later than the last line of the front does. */
  lemma {:induction false} EmptyInLast(a: seq<string>, b: seq<string>)
    requires b != [] && exists line <- a :: IsBlank(line)
    ensures EmptyIn(a + b) + |a[|a| - 1]| + 1 <= Length(a)
  {
    assert (a + b)[1..] == a[1..] + b;
    if IsBlank(a[0]) {
      LengthAtLeast(a);
    } else {
      assert exists line <- a[1..] :: IsBlank(line);
      EmptyInLast(a[1..], b);
    }
  }

  lemma {:induction false} LengthAtLeast(a: seq<string>)
    requires a != []
    ensures |a[|a| - 1]| + 1 <= Length(a)
  {
    if |a| > 1 {
      LengthAtLeast(a[1..]);
    }
  }

  lemma LogicalWithEnd(section: string, end: string)
    requires end == CRLF || end == "\n"
    ensures LogicalLines(section + end) == LogicalLines(section)
  {
    var front := if end == CRLF then section + ['\r'] else section;
    assert section + end == front + ['\n'] + "";
    RawLinesConcat(front, "");
    NonBlankConcat(RawLines(front), [""]);
    CleanDropsCR(section);
    assert NonBlank([""]) == [] && Clean(section) + [] == Clean(section);
  }

  // ---------------------------------------------------------------- the exact condition

  /** A joined section has an empty line only if it begins with one. */
  lemma JoinedNoBlank(hs: seq<Header>)
    requires WfHeaders(hs)
    ensures NoBlankLine(Join(Rendered(hs), CRLF)) <==> !FirstLineBlank(Join(Rendered(hs), CRLF))
  {
    JoinedIsTight(hs);
    var raw := RawLines(Join(Rendered(hs), CRLF));
    if !IsBlank(raw[0]) {
      forall line | line in raw ensures !IsBlank(line) {
        var i :| 0 <= i < |raw| && raw[i] == line;
      }
    }
  }

  /** Some line is left and the first does not begin with a folded line (which comes out with
      a line end in front). */
  predicate OpensWell(lines: seq<string>) {
    lines != [] && !HasPrefix(lines[0], CRLF)
  }

  lemma JoinBegins(hs: seq<Header>)
    requires WfHeaders(hs) && hs != []
    ensures HasPrefix(Join(Rendered(hs), CRLF), Render(hs[0]))
    ensures HasPrefix(Render(hs[0]), if hs[0].head == "" then CRLF else hs[0].head)
  {
    var parts := [hs[0].head] + hs[0].folds;
    assert parts[1..] == hs[0].folds;
  }

  lemma JoinedOpensIff(hs: seq<Header>)
    requires WfHeaders(hs)
    ensures !FirstLineBlank(Join(Rendered(hs), CRLF)) <==> OpensWell(Rendered(hs))
  {
    var s := Join(Rendered(hs), CRLF);
    if hs != [] {
      JoinBegins(hs);
      FirstRaw(s);
      NoLFInRaw(s);
      var first := RawLines(s)[0];
      BlankIff(first);
      var head := hs[0].head;
      if head == "" {
        assert s[..2] == CRLF && s[1] == s[..2][1] == '\n';
        assert forall i | 0 <= i < |first| :: s[..|first|][i] == s[i] && first[i] in first;
      } else {
        assert s[..|head|] == head && head[|head| - 1] == s[|head| - 1];
        assert forall i | 0 <= i < |head| :: head[i] == s[i] && head[i] in head;
        assert |first| >= |head| && first[|head| - 1] == s[|head| - 1] && first[|head| - 1] in first;
        assert |Render(hs[0])| >= |head| && Render(hs[0])[..|head|] == head;
        NotCRLF(Render(hs[0]), head);
      }
    }
  }

  lemma NotCRLF(line: string, head: string)
    requires Solid(head) && HasPrefix(line, head)
    ensures !HasPrefix(line, CRLF)
  {
    assert forall i | 0 <= i < |head| :: line[i] == line[..|head|][i] && head[i] in head;
    assert |line| >= 2 ==> line[..2][0] == line[0] && line[..2][1] == line[1];
  }

  /** What a stripper writes: the joined section, and the old message from its separator on. */
  function Written(hs: seq<Header>, data: string, e: nat): string
    requires e <= |data|
  {
    Join(Rendered(hs), CRLF) + data[e..]
  }

  lemma WrittenRight(data: string, e: nat, hs: seq<Header>)
    requires HeaderEnd(data) == Some(e) && WfHeaders(hs) && NoBlankLine(data[..e])
    ensures ReadsAs(Written(hs, data, e), Rendered(hs), BodyPart(data)) <==> !FirstLineBlank(Join(Rendered(hs), CRLF))
  {
    SeparatorIs(data, e);
    var head, end := Join(Rendered(hs), CRLF), LineEndAt(data, e);
    var rest := data[e + |end|..];
    var out := Written(hs, data, e);
    assert data == data[..e] + end + rest && out == head + end + rest;
    EmptyLineOfWhole(data[..e], end, rest);
    EmptyLineOfWhole(head, end, rest);
    JoinedNoBlank(hs);
    assert BodyPart(data) == rest;
    if FirstLineBlank(head) {
      assert BodyPart(out) == out && |out| > |rest|;
    } else {
      assert HeaderPart(out) == head + end && BodyPart(out) == rest;
      LogicalWithEnd(head, end);
      SplitInvertsJoin(hs);
    }
  }

  lemma WrittenWithBlank(data: string, e: nat, hs: seq<Header>, wanted: seq<string>)
    requires HeaderEnd(data) == Some(e) && WfHeaders(hs) && !NoBlankLine(data[..e])
    ensures EmptyLine(data) <= e
    ensures ReadsAs(Written(hs, data, e), wanted, BodyPart(data)) <==>
            Join(Rendered(hs), CRLF) == data[EmptyLine(data)..e] && wanted == []
  {
    SeparatorIs(data, e);
    var head, end := Join(Rendered(hs), CRLF), LineEndAt(data, e);
    var rest := data[e + |end|..];
    var out := Written(hs, data, e);
    assert data == data[..e] + end + rest && out == head + end + rest;
    EmptyLineOfWhole(data[..e], end, rest);
    EmptyLineOfWhole(head, end, rest);
    JoinedNoBlank(hs);
    if FirstLineBlank(head) {
      AllIsRest(data, e, head, wanted);
    } else {
      assert BodyPart(out) == rest && |BodyPart(data)| > |rest|;
      BlankSection(data, e);
    }
  }

  lemma AllIsRest(data: string, e: nat, head: string, wanted: seq<string>)
    requires EmptyLine(data) <= e <= |data| && EmptyLine(head + data[e..]) == 0
    ensures ReadsAs(head + data[e..], wanted, BodyPart(data)) <==> head == data[EmptyLine(data)..e] && wanted == []
  {
    var i, out := EmptyLine(data), head + data[e..];
    assert BodyPart(data) == data[i..e] + data[e..];
    assert HeaderPart(out) == "" && BodyPart(out) == out;
    assert RawLines("") == [""] && NonBlank([""]) == [] && LogicalLines("") == [];
    if BodyPart(out) == BodyPart(data) {
      assert head == BodyPart(out)[..|head|] && data[i..e] == BodyPart(data)[..e - i];
    }
  }

  lemma BlankSection(data: string, e: nat)
    requires EmptyLine(data) <= e <= |data|
    ensures FirstLineBlank(data[EmptyLine(data)..e])
  {
    var i := EmptyLine(data);
    EmptyLineBegins(data);
    PartBegins(data[i..], e - i);
    assert data[i..][..e - i] == data[i..e];
  }

  /** A stripper's output is read as meant, with these headers and the old rest, exactly when
      the section holds no empty line and comes out beginning with none; or when nothing was
      to be kept before the first empty line and the section came out as what follows it. */
  lemma WrittenReadsIff(data: string, e: nat, hs: seq<Header>, wanted: seq<string>)
    requires HeaderEnd(data) == Some(e) && WfHeaders(hs)
    requires NoBlankLine(data[..e]) ==> wanted == Rendered(hs)
    ensures !NoBlankLine(data[..e]) ==> EmptyLine(data) <= e
    ensures ReadsAs(Written(hs, data, e), wanted, BodyPart(data)) <==>
      if NoBlankLine(data[..e]) then !FirstLineBlank(Join(Rendered(hs), CRLF))
      else Join(Rendered(hs), CRLF) == data[EmptyLine(data)..e] && wanted == []
  {
    if NoBlankLine(data[..e]) {
      WrittenRight(data, e, hs);
    } else {
      WrittenWithBlank(data, e, hs, wanted);
    }
  }

  /** Whoever reads it finds the headers written, or none at all. */
  lemma WrittenHeaders(data: string, e: nat, hs: seq<Header>)
    requires HeaderEnd(data) == Some(e) && WfHeaders(hs)
    ensures var headers := LogicalLines(HeaderPart(Written(hs, data, e))); headers == Rendered(hs) || headers == []
  {
    SeparatorIs(data, e);
    var head, end := Join(Rendered(hs), CRLF), LineEndAt(data, e);
    var rest := data[e + |end|..];
    var out := Written(hs, data, e);
    assert data == data[..e] + end + rest && out == head + end + rest;
    EmptyLineOfWhole(head, end, rest);
    JoinedNoBlank(hs);
    if FirstLineBlank(head) {
      assert HeaderPart(out) == "";
      assert RawLines("") == [""] && NonBlank([""]) == [] && LogicalLines("") == [];
    } else {
      assert HeaderPart(out) == head + end;
      LogicalWithEnd(head, end);
      SplitInvertsJoin(hs);
    }
  }

  /** The header part of a message whose section holds no empty line is that section. */
  lemma SectionIsHeaderPart(data: string, e: nat)
    requires HeaderEnd(data) == Some(e) && NoBlankLine(data[..e])
    ensures LogicalLines(HeaderPart(data)) == LogicalLines(data[..e])
  {
    SeparatorIs(data, e);
    var end := LineEndAt(data, e);
    var rest := data[e + |end|..];
    assert data == data[..e] + end + rest;
    EmptyLineOfWhole(data[..e], end, rest);
    assert HeaderPart(data) == data[..e] + end;
    LogicalWithEnd(data[..e], end);
  }
}
