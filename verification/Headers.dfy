/** Header rewriting: internal/smtp/headers.go and internal/dkim/verifier.go.  Both split
    a header section into logical lines, drop some and join the rest with CRLF; their
    splitters are the same code.  A `char` stands for a byte. */
module Headers {
  import opened Collections
  import opened Text

  const CRLF := "\r\n"

  // ------------------------------------------------------------ the separator

  predicate At(s: string, pat: string, i: nat) {
    i + |pat| <= |s| && s[i..i + |pat|] == pat
  }

  /** bytes.Index: the first occurrence. */
  function IndexFrom(s: string, pat: string, from: nat): (r: Option<nat>)
    ensures r.Some? ==> from <= r.value && At(s, pat, r.value) && forall i | from <= i < r.value :: !At(s, pat, i)
    ensures r.None? ==> forall i | from <= i :: !At(s, pat, i)
    decreases |s| - from
  {
    if |s| < from + |pat| then None
    else if At(s, pat, from) then Some(from)
    else if from == |s| then None
    else IndexFrom(s, pat, from + 1)
  }

  /** Where the header section ends: the first CRLF CRLF, or else the first LF LF. */
  function HeaderEnd(data: string): (r: Option<nat>)
    ensures r.Some? ==> r.value <= |data|
  {
    var crlf := IndexFrom(data, "\r\n\r\n", 0);
    if crlf.Some? then crlf else IndexFrom(data, "\n\n", 0)
  }

  // -------------------------------------------------------------- raw lines

  /** strings.Split(s, "\n") */
  function RawLines(s: string): (lines: seq<string>)
    ensures lines != []
  {
    if s == "" then [""]
    else if s[0] == '\n' then [""] + RawLines(s[1..])
    else
      var rest := RawLines(s[1..]);
      [[s[0]] + rest[0]] + rest[1..]
  }

  /** strings.TrimRight(line, "\r") */
  function TrimCR(line: string): (r: string)
    ensures r == "" || r[|r| - 1] != '\r'
  {
    if line != "" && line[|line| - 1] == '\r' then TrimCR(line[..|line| - 1]) else line
  }

  /** The trimmed lines that are not empty, in order. */
  function NonBlank(raw: seq<string>): seq<string> {
    if raw == [] then []
    else
      var line := TrimCR(raw[0]);
      (if line == "" then [] else [line]) + NonBlank(raw[1..])
  }

  function Clean(s: string): seq<string> {
    NonBlank(RawLines(s))
  }

  predicate IsFold(line: string) {
    line != "" && (line[0] == ' ' || line[0] == '\t')
  }

  /** A line that trimming leaves alone. */
  predicate Solid(line: string) {
    line != "" && '\n' !in line && line[|line| - 1] != '\r'
  }

  // ----------------------------------------------------------- logical lines

  /** A logical line: its first line and the folded lines after it.  Only folded lines
      before any header have an empty head. */
  datatype Header = Header(head: string, folds: seq<string>)

  function WithLine(before: seq<Header>, line: string): seq<Header> {
    if !IsFold(line) then before + [Header(line, [])]
    else if before == [] then [Header("", [line])]
    else
      var last := before[|before| - 1];
      before[..|before| - 1] + [last.(folds := last.folds + [line])]
  }

  function Grouped(lines: seq<string>): seq<Header> {
    if lines == [] then [] else WithLine(Grouped(lines[..|lines| - 1]), lines[|lines| - 1])
  }

  function Render(h: Header): string {
    Join([h.head] + h.folds, CRLF)
  }

  function Rendered(hs: seq<Header>): seq<string> {
    seq(|hs|, i requires 0 <= i < |hs| => Render(hs[i]))
  }

  /** The logical lines of a header section, unfolded. */
  function LogicalLines(section: string): seq<string> {
    Rendered(Grouped(Clean(section)))
  }

  function Ungrouped(hs: seq<Header>): seq<string> {
    if hs == [] then []
    else
      var n := |hs| - 1;
      Ungrouped(hs[..n]) + Lines(hs[n])
  }

  function Lines(h: Header): seq<string> {
    (if h.head == "" then [] else [h.head]) + h.folds
  }

  predicate WfHeader(h: Header, first: bool) {
    && (forall f <- h.folds :: Solid(f) && IsFold(f))
    && (if h.head == "" then first && h.folds != [] else Solid(h.head) && !IsFold(h.head))
  }

  predicate WfHeaders(hs: seq<Header>) {
    forall i | 0 <= i < |hs| :: WfHeader(hs[i], i == 0)
  }

  // ------------------------------------------------------- cleaning is solid

  lemma TrimKeeps(line: string)
    requires '\n' !in line
    ensures '\n' !in TrimCR(line)
  {
  }

  lemma {:induction false} RawLinesHaveNoLF(s: string)
    ensures forall line <- RawLines(s) :: '\n' !in line
  {
    if s != "" {
      RawLinesHaveNoLF(s[1..]);
      assert RawLines(s[1..])[0] in RawLines(s[1..]);
    }
  }

  lemma {:induction false} NonBlankSolid(raw: seq<string>)
    requires forall line <- raw :: '\n' !in line
    ensures forall line <- NonBlank(raw) :: Solid(line)
  {
    if raw != [] {
      TrimKeeps(raw[0]);
      NonBlankSolid(raw[1..]);
    }
  }

  lemma CleanSolid(s: string)
    ensures forall line <- Clean(s) :: Solid(line)
  {
    RawLinesHaveNoLF(s);
    NonBlankSolid(RawLines(s));
  }

  // ------------------------------------------------------ grouping and back

  lemma UngroupedAppend(hs: seq<Header>, h: Header)
    ensures Ungrouped(hs + [h]) == Ungrouped(hs) + Lines(h)
  {
    assert (hs + [h])[..|hs|] == hs;
  }

  lemma WithFold(init: seq<Header>, last: Header, line: string)
    requires IsFold(line)
    ensures WithLine(init + [last], line) == init + [last.(folds := last.folds + [line])]
  {
    assert (init + [last])[..|init|] == init;
  }

  lemma WfAppend(init: seq<Header>, h: Header)
    requires WfHeaders(init) && WfHeader(h, init == [])
    ensures WfHeaders(init + [h])
  {
    assert forall i | 0 <= i < |init| :: (init + [h])[i] == init[i];
  }

  lemma WfInit(hs: seq<Header>) returns (init: seq<Header>, last: Header)
    requires WfHeaders(hs) && hs != []
    ensures hs == init + [last] && WfHeaders(init) && WfHeader(last, init == [])
  {
    init, last := hs[..|hs| - 1], hs[|hs| - 1];
    assert forall i | 0 <= i < |init| :: init[i] == hs[i];
  }

  lemma WithLineWf(before: seq<Header>, line: string)
    requires WfHeaders(before) && Solid(line)
    ensures WfHeaders(WithLine(before, line)) && WithLine(before, line) != []
    ensures Ungrouped(WithLine(before, line)) == Ungrouped(before) + [line]
  {
    if !IsFold(line) {
      WfAppend(before, Header(line, []));
      UngroupedAppend(before, Header(line, []));
    } else if before == [] {
      assert [] + [Header("", [line])] == [Header("", [line])];
      WfAppend([], Header("", [line]));
      UngroupedAppend([], Header("", [line]));
    } else {
      var init, last := WfInit(before);
      var more := last.(folds := last.folds + [line]);
      WithFold(init, last, line);
      WfAppend(init, more);
      UngroupedAppend(init, last);
      UngroupedAppend(init, more);
      assert Lines(more) == Lines(last) + [line];
    }
  }

  lemma {:induction false} GroupedWf(lines: seq<string>)
    requires forall line <- lines :: Solid(line)
    ensures WfHeaders(Grouped(lines)) && Ungrouped(Grouped(lines)) == lines
    ensures lines != [] ==> Grouped(lines) != []
  {
    if lines != [] {
      var n := |lines| - 1;
      assert lines == lines[..n] + [lines[n]];
      GroupedWf(lines[..n]);
      WithLineWf(Grouped(lines[..n]), lines[n]);
    }
  }

  lemma GroupedAppend(lines: seq<string>, line: string)
    ensures Grouped(lines + [line]) == WithLine(Grouped(lines), line)
  {
    assert (lines + [line])[..|lines|] == lines;
  }

  /** Folded lines gather on the last header. */
  lemma {:induction false} GroupFolds(lines: seq<string>, init: seq<Header>, last: Header, folds: seq<string>)
    requires Grouped(lines) == init + [last] && forall f <- folds :: IsFold(f)
    ensures Grouped(lines + folds) == init + [Header(last.head, last.folds + folds)]
    decreases folds
  {
    if folds == [] {
      assert lines + folds == lines && last.folds + [] == last.folds;
    } else {
      var n := |folds| - 1;
      GroupFolds(lines, init, last, folds[..n]);
      var more := Header(last.head, last.folds + folds[..n]);
      GroupedAppend(lines + folds[..n], folds[n]);
      WithFold(init, more, folds[n]);
      assert lines + folds[..n] + [folds[n]] == lines + folds;
      assert more.folds + [folds[n]] == last.folds + folds;
    }
  }

  lemma GroupHead(lines: seq<string>, init: seq<Header>, h: Header)
    requires Grouped(lines) == init && !IsFold(h.head) && forall f <- h.folds :: IsFold(f)
    ensures Grouped(lines + ([h.head] + h.folds)) == init + [h]
  {
    GroupedAppend(lines, h.head);
    GroupFolds(lines + [h.head], init, Header(h.head, []), h.folds);
    assert lines + [h.head] + h.folds == lines + ([h.head] + h.folds);
    assert [] + h.folds == h.folds;
  }

  lemma GroupHeadless(folds: seq<string>)
    requires folds != [] && forall f <- folds :: IsFold(f)
    ensures Grouped(folds) == [Header("", folds)]
  {
    var none: seq<string> := [];
    GroupedAppend(none, folds[0]);
    assert none + [folds[0]] == [folds[0]] && folds[0] in folds;
    assert Grouped(none) == [];
    var first := Header("", [folds[0]]);
    assert Grouped([folds[0]]) == [] + [first];
    GroupFolds([folds[0]], [], first, folds[1..]);
    assert [folds[0]] + folds[1..] == folds;
  }

  lemma GroupHeader(lines: seq<string>, init: seq<Header>, h: Header)
    requires Grouped(lines) == init && WfHeader(h, lines == [])
    ensures Grouped(lines + Lines(h)) == init + [h]
  {
    if h.head != "" {
      GroupHead(lines, init, h);
    } else {
      GroupHeadless(h.folds);
      assert lines + Lines(h) == h.folds;
    }
  }

  lemma {:induction false} GroupedUngrouped(hs: seq<Header>)
    requires WfHeaders(hs)
    ensures Grouped(Ungrouped(hs)) == hs
    decreases |hs|
  {
    if hs != [] {
      var init, h := WfInit(hs);
      GroupedUngrouped(init);
      UngroupedAppend(init, h);
      GroupHeader(Ungrouped(init), init, h);
    }
  }

  // ----------------------------------------------------------- joining lines

  lemma {:induction false} RawLinesConcat(a: string, b: string)
    ensures RawLines(a + ['\n'] + b) == RawLines(a) + RawLines(b)
  {
    var s := a + ['\n'] + b;
    if a == "" {
      assert s[1..] == b;
    } else {
      assert s[1..] == a[1..] + ['\n'] + b;
      RawLinesConcat(a[1..], b);
    }
  }

  lemma {:induction false} RawLinesOne(p: string)
    requires '\n' !in p
    ensures RawLines(p) == [p]
  {
    if p != "" {
      assert p[0] in p && '\n' !in p[1..];
      RawLinesOne(p[1..]);
      assert [p[0]] + p[1..] == p;
    }
  }

  lemma {:induction false} NonBlankConcat(a: seq<string>, b: seq<string>)
    ensures NonBlank(a + b) == NonBlank(a) + NonBlank(b)
  {
    if a == [] {
      assert a + b == b;
    } else {
      assert (a + b)[1..] == a[1..] + b;
      NonBlankConcat(a[1..], b);
    }
  }

  lemma {:induction false} CleanDropsCR(a: string)
    ensures Clean(a + ['\r']) == Clean(a)
  {
    if a == "" {
      assert ("" + ['\r'])[1..] == "";
      assert RawLines(['\r']) == [['\r'] + ""] + [];
      assert ['\r'][..0] == "";
    } else {
      CleanDropsCR(a[1..]);
      assert (a + ['\r'])[1..] == a[1..] + ['\r'];
      RawLinesCR(a);
      var raw := RawLines(a);
      var n := |raw| - 1;
      assert (raw[n] + ['\r'])[..|raw[n]|] == raw[n];
      NonBlankConcat(raw[..n], [raw[n] + ['\r']]);
      NonBlankConcat(raw[..n], [raw[n]]);
      assert raw == raw[..n] + [raw[n]];
    }
  }

  /** The lines with one character more at the end of the last. */
  function LastPlus(raw: seq<string>, c: char): seq<string>
    requires raw != []
  {
    raw[..|raw| - 1] + [raw[|raw| - 1] + [c]]
  }

  lemma LastPlusCons(x: string, rest: seq<string>, c: char)
    requires rest != []
    ensures LastPlus([x] + rest, c) == [x] + LastPlus(rest, c)
  {
    var all := [x] + rest;
    assert all[..|all| - 1] == [x] + rest[..|rest| - 1];
    assert all[|all| - 1] == rest[|rest| - 1];
  }

  lemma LastPlusGrow(x: char, rest: seq<string>, c: char)
    requires rest != []
    ensures var more := LastPlus(rest, c);
      LastPlus([[x] + rest[0]] + rest[1..], c) == [[x] + more[0]] + more[1..]
  {
    if |rest| == 1 {
      assert [x] + (rest[0] + [c]) == ([x] + rest[0]) + [c];
      assert rest[1..] == [] && LastPlus(rest, c)[1..] == [];
    } else {
      assert rest == [rest[0]] + rest[1..];
      LastPlusCons(rest[0], rest[1..], c);
      LastPlusCons([x] + rest[0], rest[1..], c);
    }
  }

  lemma {:induction false} RawLinesCR(a: string)
    ensures RawLines(a + ['\r']) == LastPlus(RawLines(a), '\r')
  {
    if a == "" {
      RawLinesOne("\r");
      RawLinesOne("");
      assert "" + ['\r'] == "\r";
    } else {
      assert (a + ['\r'])[1..] == a[1..] + ['\r'] && (a + ['\r'])[0] == a[0];
      RawLinesCR(a[1..]);
      if a[0] == '\n' {
        LastPlusCons("", RawLines(a[1..]), '\r');
      } else {
        LastPlusGrow(a[0], RawLines(a[1..]), '\r');
      }
    }
  }

  predicate IsBlank(line: string) {
    TrimCR(line) == ""
  }

  /** No line of the text is empty, but for the first. */
  predicate NoneBlankLater(raw: seq<string>) {
    forall i | 1 <= i < |raw| :: !IsBlank(raw[i])
  }

  /** What joined logical lines look like byte by byte: no line in them is empty, but perhaps
      the first, and the last one ends in neither CR nor LF. */
  ghost predicate Tight(s: string) {
    && NoneBlankLater(RawLines(s))
    && (s != "" ==> s[|s| - 1] != '\r' && s[|s| - 1] != '\n')
    && (forall i | 0 <= i < |s| && s[i] == '\n' ::
          i + 1 < |s| && s[i + 1] != '\n' && (s[i + 1] == '\r' ==> i + 2 < |s| && s[i + 2] != '\n'))
  }

  lemma TightLine(p: string)
    requires Solid(p)
    ensures Tight(p) && Clean(p) == [p]
  {
    RawLinesOne(p);
    assert p[|p| - 1] in p;
    assert NonBlank([p][1..]) == [];
    assert [TrimCR(p)] + [] == [p];
  }

  lemma RawLinesAppended(s: string, p: string)
    requires '\n' !in p
    ensures RawLines(s + CRLF + p) == LastPlus(RawLines(s), '\r') + [p]
  {
    assert s + CRLF + p == (s + ['\r']) + ['\n'] + p;
    RawLinesConcat(s + ['\r'], p);
    RawLinesCR(s);
    RawLinesOne(p);
  }

  lemma BlankWithCR(line: string)
    ensures IsBlank(line + ['\r']) == IsBlank(line)
  {
    assert (line + ['\r'])[..|line|] == line;
  }

  lemma NoneBlankAppended(s: string, p: string)
    requires NoneBlankLater(RawLines(s)) && Solid(p)
    ensures NoneBlankLater(RawLines(s + CRLF + p))
  {
    var raw := RawLines(s);
    RawLinesAppended(s, p);
    var more := LastPlus(raw, '\r') + [p];
    forall i | 1 <= i < |more| ensures !IsBlank(more[i]) {
      if i == |raw| - 1 {
        BlankWithCR(raw[i]);
      }
    }
  }

  lemma TightAppend(s: string, p: string)
    requires Tight(s) && Solid(p)
    ensures Tight(s + CRLF + p)
  {
    var t := s + CRLF + p;
    NoneBlankAppended(s, p);
    assert forall k | 0 <= k < |p| :: p[k] in p;
    forall i | 0 <= i < |t| && t[i] == '\n'
      ensures i + 1 < |t| && t[i + 1] != '\n' && (t[i + 1] == '\r' ==> i + 2 < |t| && t[i + 2] != '\n')
    {
      assert i < |s| || i == |s| + 1;
    }
  }

  lemma AppendLine(s: string, p: string)
    requires Tight(s) && Solid(p)
    ensures Tight(s + CRLF + p) && Clean(s + CRLF + p) == Clean(s) + [p]
  {
    TightAppend(s, p);
    assert s + CRLF + p == (s + ['\r']) + ['\n'] + p;
    RawLinesConcat(s + ['\r'], p);
    NonBlankConcat(RawLines(s + ['\r']), RawLines(p));
    CleanDropsCR(s);
    TightLine(p);
  }

  lemma {:induction false} AppendLines(s: string, parts: seq<string>)
    requires Tight(s) && parts != [] && forall p <- parts :: Solid(p)
    ensures Tight(s + CRLF + Join(parts, CRLF)) && Clean(s + CRLF + Join(parts, CRLF)) == Clean(s) + parts
    decreases parts
  {
    var n := |parts| - 1;
    var init, p := parts[..n], parts[n];
    assert parts == init + [p];
    JoinAppend(init, p, CRLF);
    if n == 0 {
      AppendLine(s, p);
    } else {
      AppendLines(s, init);
      AppendOneMore(s, init, p);
    }
  }

  lemma AppendOneMore(s: string, init: seq<string>, p: string)
    requires Solid(p) && init != []
    requires Tight(s + CRLF + Join(init, CRLF)) && Clean(s + CRLF + Join(init, CRLF)) == Clean(s) + init
    ensures var joined := Join(init, CRLF) + CRLF + p;
      Tight(s + CRLF + joined) && Clean(s + CRLF + joined) == Clean(s) + (init + [p])
  {
    var before := s + CRLF + Join(init, CRLF);
    AppendLine(before, p);
    assert s + CRLF + (Join(init, CRLF) + CRLF + p) == before + CRLF + p;
    assert Clean(s) + init + [p] == Clean(s) + (init + [p]);
  }

  lemma AppendHeader(s: string, h: Header)
    requires Tight(s) && WfHeader(h, false)
    ensures Tight(s + CRLF + Render(h)) && Clean(s + CRLF + Render(h)) == Clean(s) + Lines(h)
  {
    AppendLines(s, [h.head] + h.folds);
    assert [h.head] + h.folds == Lines(h);
  }

  lemma FirstHeader(h: Header)
    requires WfHeader(h, true)
    ensures Tight(Render(h)) && Clean(Render(h)) == Lines(h)
  {
    var parts := [h.head] + h.folds;
    assert parts[1..] == h.folds;
    if h.head != "" {
      TightLine(h.head);
    } else {
      assert RawLines("") == [""] && NonBlank([""]) == [];
    }
    if h.folds != [] {
      AppendLines(h.head, h.folds);
      assert Render(h) == h.head + CRLF + Join(h.folds, CRLF);
    }
  }

  lemma {:induction false} JoinedIsTight(hs: seq<Header>)
    requires WfHeaders(hs)
    ensures Tight(Join(Rendered(hs), CRLF)) && Clean(Join(Rendered(hs), CRLF)) == Ungrouped(hs)
  {
    if hs == [] {
      assert RawLines("") == [""] && NonBlank([""]) == [];
    } else {
      var init, h := WfInit(hs);
      assert Rendered(hs) == Rendered(init) + [Render(h)];
      JoinAppend(Rendered(init), Render(h), CRLF);
      UngroupedAppend(init, h);
      if init == [] {
        FirstHeader(h);
      } else {
        JoinedIsTight(init);
        AppendHeader(Join(Rendered(init), CRLF), h);
      }
    }
  }

  /** A folded line, one that begins with a space or a tab, goes to the header before it; only
      folded lines before any header make one without a first line. */
  lemma FoldsBelong(section: string)
    ensures var hs := Grouped(Clean(section));
      && Rendered(hs) == LogicalLines(section)
      && (forall i, j | 0 <= i < |hs| && 0 <= j < |hs[i].folds| ::
            hs[i].folds[j] != "" && (hs[i].folds[j][0] == ' ' || hs[i].folds[j][0] == '\t'))
      && (forall i | 0 < i < |hs| :: hs[i].head != "")
      && (forall i | 0 <= i < |hs| && hs[i].head != "" :: hs[i].head[0] != ' ' && hs[i].head[0] != '\t')
  {
    SectionWf(section);
    var hs := Grouped(Clean(section));
    forall i, j | 0 <= i < |hs| && 0 <= j < |hs[i].folds|
      ensures hs[i].folds[j] != "" && (hs[i].folds[j][0] == ' ' || hs[i].folds[j][0] == '\t')
    {
      assert hs[i].folds[j] in hs[i].folds;
    }
  }

  /** Joining logical lines and splitting again gives the same lines. */
  lemma SplitInvertsJoin(hs: seq<Header>)
    requires WfHeaders(hs)
    ensures LogicalLines(Join(Rendered(hs), CRLF)) == Rendered(hs)
  {
    JoinedIsTight(hs);
    GroupedUngrouped(hs);
  }

  lemma SectionWf(section: string)
    ensures WfHeaders(Grouped(Clean(section)))
  {
    CleanSolid(section);
    GroupedWf(Clean(section));
  }

  /** A line that splits into itself: one logical line with its folds, in normal form. */
  predicate OneHeader(line: string) {
    LogicalLines(line) == [line]
  }

  lemma SolidIsOneHeader(line: string)
    requires Solid(line) && !IsFold(line)
    ensures OneHeader(line)
  {
    var h := Header(line, []);
    assert [line] + [] == [line];
    assert Rendered([h]) == [line] && WfHeaders([h]);
    SplitInvertsJoin([h]);
  }

  lemma OneHeaderIs(line: string) returns (h: Header)
    requires OneHeader(line) && line != "" && line[0] != '\r'
    ensures Render(h) == line && WfHeader(h, false)
  {
    SectionWf(line);
    var hs := Grouped(Clean(line));
    assert |Rendered(hs)| == 1 && Rendered(hs)[0] == line;
    h := hs[0];
  }

  /** Split, join, split is split, for all byte strings. */
  lemma SplitJoinSplit(section: string)
    ensures LogicalLines(Join(LogicalLines(section), CRLF)) == LogicalLines(section)
  {
    SectionWf(section);
    SplitInvertsJoin(Grouped(Clean(section)));
  }

  /** Splitting loses and invents nothing: joined again, the logical lines are the
      trimmed non-blank lines of the section, in order. */
  lemma SplitKeepsLines(section: string)
    ensures Clean(Join(LogicalLines(section), CRLF)) == Clean(section)
  {
    SectionWf(section);
    CleanSolid(section);
    GroupedWf(Clean(section));
    JoinedIsTight(Grouped(Clean(section)));
  }

  lemma NoneInHead(head: string, body: string, i: nat)
    requires Tight(head) && i < |head|
    ensures !At(head + body, "\r\n\r\n", i) && !At(head + body, "\n\n", i)
  {
    var out := head + body;
    if i + 4 <= |out| {
      var w := out[i..i + 4];
      assert w[0] == head[i] && w[1] == out[i + 1] && w[2] == out[i + 2] && w[3] == out[i + 3];
    }
    if i + 2 <= |out| {
      var w := out[i..i + 2];
      assert w[0] == head[i] && w[1] == out[i + 1];
    }
  }

  lemma SameInBody(data: string, e: nat, head: string, pat: string, i: nat)
    requires e <= |data| && |head| <= i
    ensures At(head + data[e..], pat, i) <==> At(data, pat, i - |head| + e)
  {
    var out := head + data[e..];
    if i + |pat| <= |out| {
      assert out[i..i + |pat|] == data[i - |head| + e..i - |head| + e + |pat|];
    }
  }

  lemma FirstIndex(s: string, pat: string, i: nat)
    requires At(s, pat, i) && forall k | 0 <= k < i :: !At(s, pat, k)
    ensures IndexFrom(s, pat, 0) == Some(i)
  {
  }

  /** A tight header section before the old rest of the message ends where the rest begins. */
  lemma EndFoundAgain(data: string, e: nat, head: string)
    requires HeaderEnd(data) == Some(e) && Tight(head)
    ensures HeaderEnd(head + data[e..]) == Some(|head|)
  {
    var body := data[e..];
    var out := head + body;
    forall i: nat | i < |head| ensures !At(out, "\r\n\r\n", i) && !At(out, "\n\n", i) {
      NoneInHead(head, body, i);
    }
    if IndexFrom(data, "\r\n\r\n", 0).Some? {
      SameInBody(data, e, head, "\r\n\r\n", |head|);
      FirstIndex(out, "\r\n\r\n", |head|);
    } else {
      forall i: nat ensures !At(out, "\r\n\r\n", i) {
        if |head| <= i {
          SameInBody(data, e, head, "\r\n\r\n", i);
        }
      }
      SameInBody(data, e, head, "\n\n", |head|);
      FirstIndex(out, "\n\n", |head|);
    }
  }

  // --------------------------------------------------------------- rewriting

  /** A rewritten section in front of the old rest is found and split again as it was
      meant, and the rest is kept byte for byte. */
  lemma RewriteParses(data: string, e: nat, hs: seq<Header>)
    requires HeaderEnd(data) == Some(e) && WfHeaders(hs)
    ensures var section := Join(Rendered(hs), CRLF);
      var out := section + data[e..];
      && HeaderEnd(out) == Some(|section|) && out[..|section|] == section && out[|section|..] == data[e..]
      && LogicalLines(section) == Rendered(hs)
  {
    JoinedIsTight(hs);
    EndFoundAgain(data, e, Join(Rendered(hs), CRLF));
    SplitInvertsJoin(hs);
  }

  function Keep(lines: seq<string>, keep: string -> bool): seq<string> {
    if lines == [] then []
    else (if keep(lines[0]) then [lines[0]] else []) + Keep(lines[1..], keep)
  }

  function KeepHeaders(hs: seq<Header>, keep: string -> bool): seq<Header> {
    if hs == [] then []
    else (if keep(Render(hs[0])) then [hs[0]] else []) + KeepHeaders(hs[1..], keep)
  }

  lemma {:induction false} KeptHeaders(hs: seq<Header>, keep: string -> bool)
    ensures Rendered(KeepHeaders(hs, keep)) == Keep(Rendered(hs), keep)
    ensures forall h <- KeepHeaders(hs, keep) :: h in hs
  {
    if hs != [] {
      KeptHeaders(hs[1..], keep);
      assert Rendered(hs)[1..] == Rendered(hs[1..]);
      if keep(Render(hs[0])) {
        assert Rendered([hs[0]] + KeepHeaders(hs[1..], keep)) == [Render(hs[0])] + Rendered(KeepHeaders(hs[1..], keep));
      }
    }
  }

  lemma {:induction false} KeptHeadersWf(hs: seq<Header>, keep: string -> bool)
    requires WfHeaders(hs)
    ensures WfHeaders(KeepHeaders(hs, keep))
  {
    if hs != [] {
      assert forall i | 0 <= i < |hs[1..]| :: hs[1..][i] == hs[i + 1] && WfHeader(hs[1..][i], false);
      KeptHeadersWf(hs[1..], keep);
      KeptHeaders(hs[1..], keep);
      var rest := KeepHeaders(hs[1..], keep);
      forall i | 0 <= i < |rest| ensures WfHeader(rest[i], false) {
        assert rest[i] in hs[1..];
      }
      if keep(Render(hs[0])) {
        WfCons(hs[0], rest);
      }
    }
  }

  lemma WfCons(h: Header, rest: seq<Header>)
    requires WfHeader(h, true) && forall i | 0 <= i < |rest| :: WfHeader(rest[i], false)
    ensures WfHeaders([h] + rest)
  {
    assert forall i | 0 <= i < |rest| :: ([h] + rest)[i + 1] == rest[i];
  }

  lemma {:induction false} KeepAll(lines: seq<string>, keep: string -> bool)
    requires forall line <- lines :: keep(line)
    ensures Keep(lines, keep) == lines
  {
    if lines != [] {
      KeepAll(lines[1..], keep);
      assert [lines[0]] + lines[1..] == lines;
    }
  }

  lemma {:induction false} KeptAre(lines: seq<string>, keep: string -> bool)
    ensures forall line <- Keep(lines, keep) :: keep(line) && line in lines
  {
    if lines != [] {
      KeptAre(lines[1..], keep);
    }
  }

  // ---------------------------------------------------------- imperative form

  lemma RenderFold(h: Header, line: string)
    ensures Render(h.(folds := h.folds + [line])) == Render(h) + CRLF + line
  {
    JoinAppend([h.head] + h.folds, line, CRLF);
    assert [h.head] + h.folds + [line] == [h.head] + (h.folds + [line]);
  }

  lemma RenderNotEmpty(h: Header, first: bool)
    requires WfHeader(h, first)
    ensures Render(h) != ""
  {
    assert ([h.head] + h.folds)[0] == h.head;
  }

  /** The loop's state: finished lines and the current one. */
  function Done(hs: seq<Header>): seq<string> {
    if hs == [] then [] else Rendered(hs[..|hs| - 1])
  }

  function Current(hs: seq<Header>): string {
    if hs == [] then "" else Render(hs[|hs| - 1])
  }

  lemma DoneAndCurrent(hs: seq<Header>)
    requires WfHeaders(hs)
    ensures Rendered(hs) == if Current(hs) != "" then Done(hs) + [Current(hs)] else Done(hs)
  {
    if hs != [] {
      RenderNotEmpty(hs[|hs| - 1], |hs| == 1);
    }
  }

  lemma StateWithLine(hs: seq<Header>, line: string)
    requires WfHeaders(hs) && Solid(line)
    ensures Done(WithLine(hs, line)) == if IsFold(line) then Done(hs) else Rendered(hs)
    ensures Current(WithLine(hs, line)) == if IsFold(line) then Current(hs) + CRLF + line else line
  {
    if !IsFold(line) {
      assert (hs + [Header(line, [])])[..|hs|] == hs;
      assert [line] + [] == [line];
    } else if hs == [] {
      RenderFold(Header("", []), line);
      assert [] + [line] == [line] && [""] + [] == [""];
      assert Rendered([]) == [];
    } else {
      var init, last := hs[..|hs| - 1], hs[|hs| - 1];
      RenderFold(last, line);
      assert hs == init + [last];
      WithFold(init, last, line);
      assert WithLine(hs, line)[..|init|] == init;
    }
  }

  lemma LineStep(raw: seq<string>, i: nat, hs: seq<Header>)
    requires i < |raw| && '\n' !in raw[i] && hs == Grouped(NonBlank(raw[..i])) && WfHeaders(hs)
    ensures var line := TrimCR(raw[i]);
      var more := Grouped(NonBlank(raw[..i + 1]));
      if line == "" then more == hs else Solid(line) && more == WithLine(hs, line) && WfHeaders(more)
  {
    var line := TrimCR(raw[i]);
    assert raw[..i + 1] == raw[..i] + [raw[i]];
    NonBlankConcat(raw[..i], [raw[i]]);
    assert NonBlank([raw[i]][1..]) == [];
    TrimKeeps(raw[i]);
    if line == "" {
      assert NonBlank(raw[..i]) + [] == NonBlank(raw[..i]);
    } else {
      assert [line] + [] == [line];
      GroupedAppend(NonBlank(raw[..i]), line);
      WithLineWf(hs, line);
    }
  }

  /** splitHeaderLines and splitFoldedHeaders: the same loop in two files. */
  method SplitHeaderLines(section: string) returns (lines: seq<string>)
    ensures lines == LogicalLines(section)
  {
    var raw := RawLines(section);
    RawLinesHaveNoLF(section);
    lines := [];
    var current := "";
    ghost var hs: seq<Header> := [];
    for i := 0 to |raw|
      invariant hs == Grouped(NonBlank(raw[..i])) && WfHeaders(hs)
      invariant lines == Done(hs) && current == Current(hs)
    {
      var line := TrimCR(raw[i]);
      LineStep(raw, i, hs);
      if line == "" {
        continue;
      }
      StateWithLine(hs, line);
      DoneAndCurrent(hs);
      hs := WithLine(hs, line);
      if line[0] == ' ' || line[0] == '\t' {
        current := current + CRLF + line;
        continue;
      }
      if current != "" {
        lines := lines + [current];
      }
      current := line;
    }
    assert raw[..|raw|] == raw;
    DoneAndCurrent(hs);
    if current != "" {
      lines := lines + [current];
    }
  }

  /** The filter loop of both strippers. */
  method KeepLines(lines: seq<string>, keep: string -> bool) returns (kept: seq<string>)
    ensures kept == Keep(lines, keep)
  {
    kept := [];
    for i := 0 to |lines|
      invariant Keep(lines, keep) == kept + Keep(lines[i..], keep)
    {
      if !keep(lines[i]) {
        continue;
      }
      kept := kept + [lines[i]];
    }
    assert lines[|lines|..] == [] && kept + [] == kept;
  }
}
