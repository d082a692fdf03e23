/** The two header strippers: StripExistingAuthResults of internal/dkim/verifier.go and
    StripHeaders of internal/smtp/headers.go. */
module HeaderRewriting {
  import opened Collections
  import opened Text
  import opened Headers
  import opened EmptyLines

  // ---------------------------------------------- Authentication-Results (dkim)

  predicate IsAuthResults(line: string) {
    HasPrefix(ToLower(line), "authentication-results:")
  }

  /** Which headers these are: the name in any case, the colon right behind it. */
  lemma AuthResultsNamed(field: string, rest: string)
    requires ':' !in field
    ensures IsAuthResults(field + ":" + rest) <==> ToLower(field) == "authentication-results"
  {
    if IsAuthResults(field + ":" + rest) {
      NameOfAuth(field, rest);
    }
    if ToLower(field) == "authentication-results" {
      AuthOfName(field, rest);
    }
  }

  lemma AuthOfName(field: string, rest: string)
    requires ToLower(field) == "authentication-results"
    ensures IsAuthResults(field + ":" + rest)
  {
    assert ToLower(field + ":" + rest)[..23] == ToLower(field) + ":";
  }

  lemma NameOfAuth(field: string, rest: string)
    requires ':' !in field && IsAuthResults(field + ":" + rest)
    ensures ToLower(field) == "authentication-results"
  {
    var lower, prefix := ToLower(field + ":" + rest), "authentication-results:";
    assert forall i | 0 <= i < 23 :: lower[i] == lower[..23][i] == prefix[i];
    assert forall i | 0 <= i < 22 :: prefix[i] != ':';
    assert lower[|field|] == ':';
    forall i | 0 <= i < |field| ensures lower[i] != ':' {
      assert field[i] in field;
    }
    assert lower[22] == prefix[22] == ':';
    assert |field| <= 22 && lower[|field|] == prefix[|field|];
    assert ToLower(field) == lower[..23][..22] == prefix[..22];
  }

  function AuthKept(section: string): seq<string> {
    Keep(LogicalLines(section), line => !IsAuthResults(line))
  }

  function AuthStripped(data: string): string {
    var end := HeaderEnd(data);
    if end.None? then data
    else Join(AuthKept(data[..end.value]), CRLF) + data[end.value..]
  }

  /** The logical lines of a message's header section. */
  function HeadersOf(data: string): seq<string> {
    var end := HeaderEnd(data);
    if end.None? then [] else LogicalLines(data[..end.value])
  }

  /** The separator and everything after it. */
  function RestOf(data: string): string {
    var end := HeaderEnd(data);
    if end.None? then data else data[end.value..]
  }

  /** Exactly the Authentication-Results headers go, with their folded lines; the others
      keep their order and the rest of the message is kept byte for byte. */
  lemma AuthStrippedExactly(data: string)
    ensures var out := AuthStripped(data);
      && (HeaderEnd(out).Some? <==> HeaderEnd(data).Some?) && RestOf(out) == RestOf(data)
      && HeadersOf(out) == Keep(HeadersOf(data), line => !IsAuthResults(line))
      && (forall line <- HeadersOf(out) :: !IsAuthResults(line))
  {
    var end := HeaderEnd(data);
    var keep := line => !IsAuthResults(line);
    KeptAre(HeadersOf(data), keep);
    if end.Some? {
      var section := data[..end.value];
      SectionWf(section);
      var hs := Grouped(Clean(section));
      KeptHeadersWf(hs, keep);
      KeptHeaders(hs, keep);
      RewriteParses(data, end.value, KeepHeaders(hs, keep));
    }
  }

  lemma AllKept(lines: seq<string>, keep: string -> bool)
    ensures Keep(lines, keep) == lines <==> forall line <- lines :: keep(line)
  {
    KeptAre(lines, keep);
    if forall line <- lines :: keep(line) {
      KeepAll(lines, keep);
    }
  }

  /** The headers a message ought to have after stripping. */
  function AuthWanted(data: string): seq<string> {
    Keep(LogicalLines(HeaderPart(data)), line => !IsAuthResults(line))
  }

  /** When is the stripped message read with exactly its other headers and its old body?
      Without a separator, when there was no Authentication-Results header before the first
      empty line.  Otherwise, when the section up to the separator holds no empty line, and
      of its headers one is left and the first is no folded line; or, if it does hold an
      empty line, when nothing was to be kept before that and the section comes out as what
      follows it. */
  lemma AuthStripReadsIff(data: string)
    ensures ReadsAs(AuthStripped(data), AuthWanted(data), BodyPart(data)) <==>
      match HeaderEnd(data)
      case None => forall line <- LogicalLines(HeaderPart(data)) :: !IsAuthResults(line)
      case Some(e) =>
        if NoBlankLine(data[..e]) then OpensWell(AuthKept(data[..e]))
        else
          && EmptyLine(data) <= e && AuthWanted(data) == []
          && Join(AuthKept(data[..e]), CRLF) == data[EmptyLine(data)..e]
  {
    var keep := line => !IsAuthResults(line);
    match HeaderEnd(data)
    case None => AllKept(LogicalLines(HeaderPart(data)), keep);
    case Some(e) =>
      SectionWf(data[..e]);
      var hs := Grouped(Clean(data[..e]));
      KeptHeadersWf(hs, keep);
      KeptHeaders(hs, keep);
      if NoBlankLine(data[..e]) {
        SectionIsHeaderPart(data, e);
      }
      WrittenReadsIff(data, e, KeepHeaders(hs, keep), AuthWanted(data));
      JoinedOpensIff(KeepHeaders(hs, keep));
  }

  /** Of a message that keeps a header, none folded in front: exactly when the section holds no
      empty line, or there is no separator and nothing to strip. */
  lemma AuthStripReadsPlainIff(data: string)
    requires OpensWell(AuthWanted(data))
    ensures ReadsAs(AuthStripped(data), AuthWanted(data), BodyPart(data)) <==>
      match HeaderEnd(data)
      case None => !ShowsAuthResults(data)
      case Some(e) => NoBlankLine(data[..e])
  {
    AuthStripReadsIff(data);
    if HeaderEnd(data).Some? && NoBlankLine(data[..HeaderEnd(data).value]) {
      SectionIsHeaderPart(data, HeaderEnd(data).value);
    }
  }

  /** Someone who reads the message finds an Authentication-Results header. */
  predicate ShowsAuthResults(data: string) {
    exists line <- LogicalLines(HeaderPart(data)) :: IsAuthResults(line)
  }

  /** One survives exactly for want of a separator. */
  lemma SpoofSurvivesIff(data: string)
    ensures ShowsAuthResults(AuthStripped(data)) <==> ShowsAuthResults(data) && HeaderEnd(data).None?
  {
    var end := HeaderEnd(data);
    if end.Some? {
      var keep := line => !IsAuthResults(line);
      var section := data[..end.value];
      SectionWf(section);
      var hs := Grouped(Clean(section));
      KeptHeadersWf(hs, keep);
      KeptHeaders(hs, keep);
      WrittenHeaders(data, end.value, KeepHeaders(hs, keep));
      KeptAre(LogicalLines(section), keep);
    }
  }

  /** An empty line after the first header and before the separator: whatever follows, the
      message is not read as meant. */
  lemma EarlierEmptyLine(line: string, rest: string, e: nat)
    requires Solid(line) && !IsFold(line) && !IsAuthResults(line) && FirstLineBlank(rest)
    requires rest != "" && EmptyLine(rest) == 0
    requires HeaderEnd(line + ['\n'] + rest) == Some(e) && e > |line|
    ensures var data := line + ['\n'] + rest; !ReadsAs(AuthStripped(data), AuthWanted(data), BodyPart(data))
  {
    var data := line + ['\n'] + rest;
    var k := e - |line| - 1;
    RawLinesOne(line);
    EmptyLineBehind(line, rest);
    assert HeaderPart(data) == line + "\n";
    LogicalWithEnd(line, "\n");
    SolidIsOneHeader(line);
    KeepAll([line], line => !IsAuthResults(line));
    assert !NoBlankLine(data[..e]) by {
      assert data[..e] == line + ['\n'] + rest[..k];
      RawLinesConcat(line, rest[..k]);
      PartBegins(rest, k);
      assert RawLines(rest[..k])[0] in RawLines(data[..e]);
    }
    AuthStripReadsIff(data);
  }

  /** An empty line in front of everything, and a header after it. */
  lemma LeadingEmptyLine(data: string, e: nat)
    requires HeaderEnd(data) == Some(e) && FirstLineBlank(data[..e]) && OpensWell(AuthKept(data[..e]))
    ensures !ReadsAs(AuthStripped(data), AuthWanted(data), BodyPart(data))
  {
    assert RawLines(data[..e])[0] in RawLines(data[..e]);
    AuthStripReadsIff(data);
    var keep := line => !IsAuthResults(line);
    SectionWf(data[..e]);
    var hs := Grouped(Clean(data[..e]));
    KeptHeadersWf(hs, keep);
    KeptHeaders(hs, keep);
    JoinedOpensIff(KeepHeaders(hs, keep));
    var i := EmptyLine(data);
    EmptyLineBegins(data);
    if i <= e {
      PartBegins(data[i..], e - i);
      assert data[i..][..e - i] == data[i..e];
    }
  }

  lemma CrlfEnd(data: string, e: nat)
    requires e + 4 <= |data| && data[e] == '\r' && data[e + 1] == '\n' && data[e + 2] == '\r' && data[e + 3] == '\n'
    requires forall i | 0 <= i < e :: data[i] == '\r' ==> data[i + 2] != '\r'
    ensures HeaderEnd(data) == Some(e)
  {
    assert data[e..e + 4] == "\r\n\r\n";
    forall i: nat | i < e ensures !At(data, "\r\n\r\n", i) {
      assert data[i..i + 4][0] == data[i] && data[i..i + 4][2] == data[i + 2];
    }
    FirstIndex(data, "\r\n\r\n", e);
  }

  /** Such a message: the body line x becomes a header. */
  lemma BodyRewrittenExample()
    ensures var data := "A:1\n\r\nx\r\n\r\ny"; !ReadsAs(AuthStripped(data), AuthWanted(data), BodyPart(data))
  {
    var data, line, rest := "A:1\n\r\nx\r\n\r\ny", "A:1", "\r\nx\r\n\r\ny";
    assert data == line + ['\n'] + rest;
    BlankRest();
    RewrittenEnd();
    ShortLine(line);
    EarlierRewritten(data, line, rest, 7);
  }

  lemma EarlierRewritten(data: string, line: string, rest: string, e: nat)
    requires data == line + ['\n'] + rest && HeaderEnd(data) == Some(e) && e > |line|
    requires Solid(line) && !IsFold(line) && !IsAuthResults(line)
    requires rest != "" && FirstLineBlank(rest) && EmptyLine(rest) == 0
    ensures !ReadsAs(AuthStripped(data), AuthWanted(data), BodyPart(data))
  {
    EarlierEmptyLine(line, rest, e);
  }

  lemma ShortLine(line: string)
    requires line == "A:1"
    ensures Solid(line) && !IsFold(line) && !IsAuthResults(line)
  {
    assert |ToLower(line)| == 3;
  }

  lemma BlankRest()
    ensures FirstLineBlank("\r\nx\r\n\r\ny") && EmptyLine("\r\nx\r\n\r\ny") == 0
  {
    assert "\r" + ['\n'] + "x\r\n\r\ny" == "\r\nx\r\n\r\ny";
    BeginsBlank("\r", "x\r\n\r\ny");
  }

  lemma RewrittenEnd()
    ensures HeaderEnd("A:1\n\r\nx\r\n\r\ny") == Some(7)
  {
    CrlfEnd("A:1\n\r\nx\r\n\r\ny", 7);
  }

  /** An empty line with no separator in the message: an Authentication-Results header before
      it survives. */
  lemma SpoofSurvives(line: string, blank: string, rest: string)
    requires Solid(line) && !IsFold(line) && IsAuthResults(line) && (blank == "" || blank == "\r")
    requires HeaderEnd(line + ['\n'] + (blank + ['\n'] + rest)) == None
    ensures var data := line + ['\n'] + (blank + ['\n'] + rest);
      ShowsAuthResults(AuthStripped(data)) && !ReadsAs(AuthStripped(data), AuthWanted(data), BodyPart(data))
  {
    var tail := blank + ['\n'] + rest;
    var data := line + ['\n'] + tail;
    BeginsBlank(blank, rest);
    RawLinesOne(line);
    EmptyLineBehind(line, tail);
    assert HeaderPart(data) == line + "\n";
    LogicalWithEnd(line, "\n");
    SolidIsOneHeader(line);
    assert line in LogicalLines(HeaderPart(data));
    AuthStripReadsIff(data);
    SpoofSurvivesIff(data);
  }

  /** LF and then CRLF is an empty line, but no separator. */
  lemma SpoofSurvivesExample()
    ensures var data := "Authentication-Results:x\n\r\nb";
      ShowsAuthResults(AuthStripped(data)) && !ReadsAs(AuthStripped(data), AuthWanted(data), BodyPart(data))
  {
    var line := "Authentication-Results:x";
    assert "Authentication-Results:x\n\r\nb" == line + ['\n'] + ("\r" + ['\n'] + "b");
    SpoofedLine();
    SpoofEnd();
    SpoofSurvives(line, "\r", "b");
  }

  lemma SpoofedLine()
    ensures var line := "Authentication-Results:x"; Solid(line) && !IsFold(line) && IsAuthResults(line)
  {
    assert ToLower("Authentication-Results:x")[..23] == "authentication-results:";
  }

  lemma SpoofEnd()
    ensures HeaderEnd("Authentication-Results:x\n\r\nb") == None
  {
    var data := "Authentication-Results:x\n\r\nb";
    forall i: nat ensures !At(data, "\r\n\r\n", i) {
      if i + 4 <= |data| {
        assert data[i..i + 4][0] == data[i];
      }
    }
    forall i: nat ensures !At(data, "\n\n", i) {
      if i + 2 <= |data| {
        assert data[i..i + 2][0] == data[i] && data[i..i + 2][1] == data[i + 1];
      }
    }
  }

  lemma AuthStripIdempotent(data: string)
    ensures AuthStripped(AuthStripped(data)) == AuthStripped(data)
  {
    AuthStrippedExactly(data);
    var out := AuthStripped(data);
    if HeaderEnd(data).Some? {
      KeepAll(HeadersOf(out), line => !IsAuthResults(line));
      var section := Join(AuthKept(data[..HeaderEnd(data).value]), CRLF);
      assert out == section + RestOf(data);
      assert Join(HeadersOf(out), CRLF) == section;
    }
  }

  // -------------------------------------------------- privacy stripping (smtp)

  datatype StripConfig = StripConfig(received: bool, userAgent: bool, xOrigIP: bool, normalizeMessageID: bool)

  /** The header name in lower case; canonical MIME case differs from it in case only. */
  function LowerName(line: string): string {
    var colon := IndexFrom(line, ":", 0);
    if colon.None? || |line| < colon.value then "" else ToLower(TrimSpace(line[..colon.value]))
  }

  predicate ShouldStrip(line: string, cfg: StripConfig) {
    var name := LowerName(line);
    || (cfg.received && name == "received")
    || (cfg.userAgent && (name == "user-agent" || name == "x-mailer"))
    || (cfg.xOrigIP && (name == "x-originating-ip" || name == "x-forwarded-for"))
    || name == "x-ghostmail-internal" || name == "x-sender-ip"
  }

  predicate IsMessageID(line: string) {
    HasPrefix(ToLower(line), "message-id:")
  }

  function Decimal(n: nat): string {
    var digit := (n % 10 + '0' as int) as char;
    if n < 10 then [digit] else Decimal(n / 10) + [digit]
  }

  function MessageIDLine(id: nat, hostname: string): string {
    "Message-ID: <" + Decimal(id) + "@" + hostname + ">"
  }

  /** The first Message-ID line replaced, or the new one appended. */
  function WithMessageID(lines: seq<string>, line: string): seq<string> {
    if lines == [] then [line]
    else if IsMessageID(lines[0]) then [line] + lines[1..]
    else [lines[0]] + WithMessageID(lines[1..], line)
  }

  function Untargeted(lines: seq<string>, cfg: StripConfig): seq<string> {
    Keep(lines, line => !ShouldStrip(line, cfg))
  }

  function Rewritten(lines: seq<string>, hostname: string, cfg: StripConfig, id: nat): seq<string> {
    var kept := Untargeted(lines, cfg);
    if cfg.normalizeMessageID then WithMessageID(kept, MessageIDLine(id, hostname)) else kept
  }

  function Stripped(data: string, hostname: string, cfg: StripConfig, id: nat): string {
    var end := HeaderEnd(data);
    if end.None? then data
    else Join(Rewritten(LogicalLines(data[..end.value]), hostname, cfg, id), CRLF) + data[end.value..]
  }

  // ---------------------------------------------------- the new Message-ID line

  lemma {:induction false} DecimalDigits(n: nat)
    ensures Decimal(n) != "" && forall c <- Decimal(n) :: '0' <= c <= '9'
  {
    if n >= 10 {
      DecimalDigits(n / 10);
    }
  }

  lemma LowerNameIs(name: string, rest: string)
    requires name != "" && ':' !in name && !IsSpace(name[0]) && !IsSpace(name[|name| - 1])
    ensures LowerName(name + ":" + rest) == ToLower(name)
  {
    ColonAt(name, rest);
  }

  /** Which headers go, by their names in any case and with any white space around them ... */
  lemma StrippedNames(field: string, rest: string, cfg: StripConfig)
    requires ':' !in field
    ensures var name := ToLower(TrimSpace(field));
      ShouldStrip(field + ":" + rest, cfg) <==>
        || (cfg.received && name == "received")
        || (cfg.userAgent && (name == "user-agent" || name == "x-mailer"))
        || (cfg.xOrigIP && (name == "x-originating-ip" || name == "x-forwarded-for"))
        || name == "x-ghostmail-internal" || name == "x-sender-ip"
  {
    ColonAt(field, rest);
  }

  /** ... and a line without a colon stays. */
  lemma NoColonStays(line: string, cfg: StripConfig)
    requires ':' !in line
    ensures !ShouldStrip(line, cfg)
  {
    forall i: nat ensures !At(line, ":", i) {
      if i < |line| {
        assert line[i..i + 1][0] == line[i];
      }
    }
  }

  lemma ColonAt(field: string, rest: string)
    requires ':' !in field
    ensures LowerName(field + ":" + rest) == ToLower(TrimSpace(field))
  {
    var line := field + ":" + rest;
    assert line[|field|..|field| + 1] == ":" && line[..|field|] == field;
    forall i: nat | i < |field| ensures !At(line, ":", i) {
      assert line[i..i + 1][0] == field[i];
    }
    FirstIndex(line, ":", |field|);
  }

  lemma LowerPrefix(prefix: string, rest: string)
    ensures HasPrefix(ToLower(prefix + rest), ToLower(prefix))
  {
    assert ToLower(prefix + rest)[..|prefix|] == ToLower(prefix);
  }

  lemma MessageIDNamed(rest: string, cfg: StripConfig)
    ensures IsMessageID("Message-ID" + ":" + rest) && !ShouldStrip("Message-ID" + ":" + rest, cfg)
  {
    assert ToLower("Message-ID:") == "message-id:" && ToLower("Message-ID") == "message-id";
    assert "Message-ID" + ":" + rest == "Message-ID:" + rest;
    LowerPrefix("Message-ID:", rest);
    LowerNameIs("Message-ID", rest);
  }

  /** The host name leaves the generated line one header.  Without a line feed it does. */
  predicate HostFits(hostname: string, cfg: StripConfig, id: nat) {
    cfg.normalizeMessageID ==> OneHeader(MessageIDLine(id, hostname))
  }

  lemma PlainHostFits(hostname: string, cfg: StripConfig, id: nat)
    requires '\n' !in hostname
    ensures HostFits(hostname, cfg, id)
  {
    DecimalDigits(id);
    SolidIsOneHeader(MessageIDLine(id, hostname));
  }

  lemma MessageIDLineIs(id: nat, hostname: string, cfg: StripConfig)
    ensures IsMessageID(MessageIDLine(id, hostname))
    ensures !ShouldStrip(MessageIDLine(id, hostname), cfg)
  {
    var rest := " <" + Decimal(id) + "@" + hostname + ">";
    assert MessageIDLine(id, hostname) == "Message-ID" + ":" + rest;
    MessageIDNamed(rest, cfg);
  }

  function WithMessageIDHeader(hs: seq<Header>, h: Header): seq<Header> {
    if hs == [] then [h]
    else if IsMessageID(Render(hs[0])) then [h] + hs[1..]
    else [hs[0]] + WithMessageIDHeader(hs[1..], h)
  }

  lemma RenderedCons(h: Header, rest: seq<Header>)
    ensures Rendered([h] + rest) == [Render(h)] + Rendered(rest)
  {
  }

  lemma {:induction false} MessageIDHeaders(hs: seq<Header>, h: Header)
    ensures Rendered(WithMessageIDHeader(hs, h)) == WithMessageID(Rendered(hs), Render(h))
  {
    if hs != [] {
      assert Rendered(hs)[1..] == Rendered(hs[1..]);
      MessageIDHeaders(hs[1..], h);
      RenderedCons(h, hs[1..]);
      RenderedCons(hs[0], WithMessageIDHeader(hs[1..], h));
    }
  }

  lemma {:induction false} MessageIDHeadersWf(hs: seq<Header>, h: Header, first: bool)
    requires forall i | 0 <= i < |hs| :: WfHeader(hs[i], first && i == 0)
    requires WfHeader(h, false)
    ensures forall i | 0 <= i < |WithMessageIDHeader(hs, h)| :: WfHeader(WithMessageIDHeader(hs, h)[i], first && i == 0)
    decreases |hs|
  {
    if hs != [] {
      assert forall i | 0 <= i < |hs[1..]| :: hs[1..][i] == hs[i + 1];
      MessageIDHeadersWf(hs[1..], h, false);
    }
  }

  lemma {:induction false} MessageIDTwice(lines: seq<string>, one: string, two: string)
    requires IsMessageID(one)
    ensures WithMessageID(WithMessageID(lines, one), two) == WithMessageID(lines, two)
  {
    if lines == [] {
      assert [one][1..] == [] && [two] + [] == [two];
    } else if IsMessageID(lines[0]) {
      assert ([one] + lines[1..])[1..] == lines[1..];
    } else {
      MessageIDTwice(lines[1..], one, two);
      assert ([lines[0]] + WithMessageID(lines[1..], one))[1..] == WithMessageID(lines[1..], one);
    }
  }

  /** The line takes the place of the first Message-ID, or comes last if there is none. */
  lemma {:induction false} MessageIDReplaced(before: seq<string>, replaced: string, after: seq<string>, line: string)
    requires forall l <- before :: !HasPrefix(ToLower(l), "message-id:")
    requires HasPrefix(ToLower(replaced), "message-id:")
    ensures WithMessageID(before, line) == before + [line]
    ensures WithMessageID(before + ([replaced] + after), line) == before + ([line] + after)
  {
    if before == [] {
      assert before + ([replaced] + after) == [replaced] + after && before + ([line] + after) == [line] + after;
      assert ([replaced] + after)[1..] == after && before + [line] == [line];
    } else {
      MessageIDReplaced(before[1..], replaced, after, line);
      assert (before + ([replaced] + after))[1..] == before[1..] + ([replaced] + after);
      assert before == [before[0]] + before[1..];
    }
  }

  lemma {:induction false} DecimalInjective(a: nat, b: nat)
    requires Decimal(a) == Decimal(b)
    ensures a == b
    decreases a
  {
    var s := Decimal(a);
    DecimalDigits(a / 10);
    DecimalDigits(b / 10);
    assert s[|s| - 1] as int == a % 10 + '0' as int && s[|s| - 1] as int == b % 10 + '0' as int;
    if a >= 10 {
      assert s[..|s| - 1] == Decimal(a / 10) == Decimal(b / 10);
      DecimalInjective(a / 10, b / 10);
    }
  }

  /** Different numbers make different Message-IDs. */
  lemma MessageIDsDiffer(a: nat, b: nat, hostname: string)
    requires a != b
    ensures MessageIDLine(a, hostname) != MessageIDLine(b, hostname)
  {
    if MessageIDLine(a, hostname) == MessageIDLine(b, hostname) {
      var head, tail := "Message-ID: <", "@" + hostname + ">";
      var one, two := MessageIDLine(a, hostname), MessageIDLine(b, hostname);
      assert one == head + Decimal(a) + tail && two == head + Decimal(b) + tail;
      assert one[13..|one| - |tail|] == Decimal(a) && two[13..|two| - |tail|] == Decimal(b);
      DecimalInjective(a, b);
    }
  }

  lemma {:induction false} MessageIDAre(lines: seq<string>, line: string)
    ensures forall l <- WithMessageID(lines, line) :: l == line || l in lines
  {
    if lines != [] {
      MessageIDAre(lines[1..], line);
    }
  }

  // --------------------------------------------------------------------- results

  lemma RewrittenKept(lines: seq<string>, hostname: string, cfg: StripConfig, id: nat)
    ensures forall line <- Rewritten(lines, hostname, cfg, id) :: !ShouldStrip(line, cfg)
  {
    var kept := Keep(lines, line => !ShouldStrip(line, cfg));
    KeptAre(lines, line => !ShouldStrip(line, cfg));
    MessageIDLineIs(id, hostname, cfg);
    MessageIDAre(kept, MessageIDLine(id, hostname));
  }

  /** The rewritten lines are well-formed headers. */
  lemma RewrittenHeaders(section: string, hostname: string, cfg: StripConfig, id: nat) returns (hs: seq<Header>)
    requires HostFits(hostname, cfg, id)
    ensures WfHeaders(hs) && Rendered(hs) == Rewritten(LogicalLines(section), hostname, cfg, id)
  {
    var keep := line => !ShouldStrip(line, cfg);
    var all := Grouped(Clean(section));
    SectionWf(section);
    KeptHeadersWf(all, keep);
    KeptHeaders(all, keep);
    hs := KeepHeaders(all, keep);
    if cfg.normalizeMessageID {
      var h := OneHeaderIs(MessageIDLine(id, hostname));
      MessageIDHeaders(hs, h);
      MessageIDHeadersWf(hs, h, true);
      hs := WithMessageIDHeader(hs, h);
    }
  }

  /** Exactly the targeted headers go, with their folded lines; the first Message-ID is
      replaced if so configured; the others keep their order and the rest of the message
      is kept byte for byte.  Without a separator nothing is stripped. */
  lemma StrippedExactly(data: string, hostname: string, cfg: StripConfig, id: nat)
    requires HostFits(hostname, cfg, id)
    ensures var out := Stripped(data, hostname, cfg, id);
      && RestOf(out) == RestOf(data)
      && (HeaderEnd(data).None? ==> out == data)
      && (HeaderEnd(data).Some? ==>
            && HeaderEnd(out).Some?
            && HeadersOf(out) == Rewritten(HeadersOf(data), hostname, cfg, id)
            && forall line <- HeadersOf(out) :: !ShouldStrip(line, cfg))
  {
    var end := HeaderEnd(data);
    if end.Some? {
      var hs := RewrittenHeaders(data[..end.value], hostname, cfg, id);
      RewriteParses(data, end.value, hs);
      RewrittenKept(HeadersOf(data), hostname, cfg, id);
    }
  }

  /** A stripped message parses into the headers written. */
  predicate ParsesAsWritten(data: string, hostname: string, cfg: StripConfig, id: nat) {
    HeaderEnd(data).Some? ==>
      HeadersOf(Stripped(data, hostname, cfg, id)) == Rewritten(HeadersOf(data), hostname, cfg, id)
  }

  /** That it does for every message exactly when the host name fits. */
  lemma HostFitsIff(hostname: string, cfg: StripConfig, id: nat)
    ensures (forall data :: ParsesAsWritten(data, hostname, cfg, id)) <==> HostFits(hostname, cfg, id)
  {
    if HostFits(hostname, cfg, id) {
      forall data ensures ParsesAsWritten(data, hostname, cfg, id) {
        StrippedExactly(data, hostname, cfg, id);
      }
    } else if ParsesAsWritten("\r\n\r\n", hostname, cfg, id) {
      EmptySectionShows(hostname, cfg, id);
    }
  }

  /** An empty header section shows it. */
  lemma EmptySectionShows(hostname: string, cfg: StripConfig, id: nat)
    requires cfg.normalizeMessageID && ParsesAsWritten("\r\n\r\n", hostname, cfg, id)
    ensures HostFits(hostname, cfg, id)
  {
    var data, line := "\r\n\r\n", MessageIDLine(id, hostname);
    FirstIndex(data, data, 0);
    assert data[..0] == "" && data[0..] == data;
    assert RawLines("") == [""] && NonBlank([""]) == [] && LogicalLines("") == [];
    var out := Stripped(data, hostname, cfg, id);
    assert Join([line], CRLF) == line && out == line + data;
    assert HeadersOf(data) == [] && HeadersOf(out) == [line];
    var e := HeaderEnd(out).value;
    SectionWf(out[..e]);
    var hs := Grouped(Clean(out[..e]));
    assert Join(Rendered(hs), CRLF) == line;
    JoinedIsTight(hs);
    EndFoundAgain(data, 0, line);
    assert out[..|line|] == line;
  }

  /** The headers a message ought to have after stripping. */
  function Wanted(data: string, hostname: string, cfg: StripConfig, id: nat): seq<string> {
    Rewritten(LogicalLines(HeaderPart(data)), hostname, cfg, id)
  }

  /** The same of the privacy stripper. */
  lemma StripReadsIff(data: string, hostname: string, cfg: StripConfig, id: nat)
    requires HostFits(hostname, cfg, id)
    ensures ReadsAs(Stripped(data, hostname, cfg, id), Wanted(data, hostname, cfg, id), BodyPart(data)) <==>
      match HeaderEnd(data)
      case None => Wanted(data, hostname, cfg, id) == LogicalLines(HeaderPart(data))
      case Some(e) =>
        var lines := Rewritten(LogicalLines(data[..e]), hostname, cfg, id);
        if NoBlankLine(data[..e]) then OpensWell(lines)
        else
          && EmptyLine(data) <= e && Wanted(data, hostname, cfg, id) == []
          && Join(lines, CRLF) == data[EmptyLine(data)..e]
  {
    match HeaderEnd(data)
    case None =>
    case Some(e) =>
      var hs := RewrittenHeaders(data[..e], hostname, cfg, id);
      if NoBlankLine(data[..e]) {
        SectionIsHeaderPart(data, e);
      }
      WrittenReadsIff(data, e, hs, Wanted(data, hostname, cfg, id));
      JoinedOpensIff(hs);
  }

  lemma StripReadsPlainIff(data: string, hostname: string, cfg: StripConfig, id: nat)
    requires HostFits(hostname, cfg, id) && OpensWell(Wanted(data, hostname, cfg, id))
    ensures ReadsAs(Stripped(data, hostname, cfg, id), Wanted(data, hostname, cfg, id), BodyPart(data)) <==>
      match HeaderEnd(data)
      case None => Wanted(data, hostname, cfg, id) == LogicalLines(HeaderPart(data))
      case Some(e) => NoBlankLine(data[..e])
  {
    StripReadsIff(data, hostname, cfg, id);
    if HeaderEnd(data).Some? && NoBlankLine(data[..HeaderEnd(data).value]) {
      SectionIsHeaderPart(data, HeaderEnd(data).value);
    }
  }

  /** Stripping twice is stripping once with the second Message-ID number. */
  lemma StripIdempotent(data: string, hostname: string, cfg: StripConfig, one: nat, two: nat)
    requires HostFits(hostname, cfg, one)
    ensures Stripped(Stripped(data, hostname, cfg, one), hostname, cfg, two) == Stripped(data, hostname, cfg, two)
  {
    var out := Stripped(data, hostname, cfg, one);
    StrippedExactly(data, hostname, cfg, one);
    if HeaderEnd(data).Some? {
      var lines := HeadersOf(data);
      KeepAll(HeadersOf(out), line => !ShouldStrip(line, cfg));
      MessageIDLineIs(one, hostname, cfg);
      MessageIDTwice(Untargeted(lines, cfg), MessageIDLine(one, hostname), MessageIDLine(two, hostname));
      assert Rewritten(HeadersOf(out), hostname, cfg, two) == Rewritten(lines, hostname, cfg, two);
    }
  }

  // ---------------------------------------------------------- imperative form

  method StripExistingAuthResults(message: string) returns (out: string)
    ensures out == AuthStripped(message)
  {
    var idx := HeaderEnd(message);
    if idx.None? {
      return message;
    }
    var lines := SplitHeaderLines(message[..idx.value]);
    var kept := KeepLines(lines, line => !IsAuthResults(line));
    out := Join(kept, CRLF) + message[idx.value..];
  }

  method DropTargeted(lines: seq<string>, cfg: StripConfig) returns (kept: seq<string>)
    ensures kept == Untargeted(lines, cfg)
  {
    kept := KeepLines(lines, line => !ShouldStrip(line, cfg));
  }

  const TWO64: nat := 0x1_0000_0000_0000_0000

  class HeaderStripper {
    var idCounter: nat

    constructor ()
      ensures idCounter == 0
    {
      idCounter := 0;
    }

    function NextID(): nat
      reads this
    {
      (idCounter + 1) % TWO64
    }

    /** A 64-bit counter. */
    method GenerateID() returns (id: nat)
      modifies this
      ensures id == idCounter == old(NextID())
    {
      idCounter := (idCounter + 1) % TWO64;
      id := idCounter;
    }

    method StripHeaders(data: string, hostname: string, cfg: StripConfig) returns (out: string)
      modifies this
      ensures out == Stripped(data, hostname, cfg, old(NextID()))
      ensures idCounter == if HeaderEnd(data).Some? && cfg.normalizeMessageID then old(NextID()) else old(idCounter)
    {
      var headerEnd := HeaderEnd(data);
      if headerEnd.None? {
        return data;
      }
      var lines := SplitHeaderLines(data[..headerEnd.value]);
      var result := RewriteLines(lines, hostname, cfg);
      out := Join(result, CRLF) + data[headerEnd.value..];
    }

    method RewriteLines(lines: seq<string>, hostname: string, cfg: StripConfig) returns (result: seq<string>)
      modifies this
      ensures result == Rewritten(lines, hostname, cfg, old(NextID()))
      ensures idCounter == if cfg.normalizeMessageID then old(NextID()) else old(idCounter)
    {
      result := DropTargeted(lines, cfg);
      if cfg.normalizeMessageID {
        result := NormalizeMessageID(result, hostname);
      }
    }

    method NormalizeMessageID(lines: seq<string>, hostname: string) returns (result: seq<string>)
      modifies this
      ensures idCounter == old(NextID())
      ensures result == WithMessageID(lines, MessageIDLine(idCounter, hostname))
    {
      var id := GenerateID();
      result := ReplaceMessageID(lines, MessageIDLine(id, hostname));
    }
  }

  method ReplaceMessageID(lines: seq<string>, line: string) returns (result: seq<string>)
    ensures result == WithMessageID(lines, line)
  {
    for i := 0 to |lines|
      invariant WithMessageID(lines, line) == lines[..i] + WithMessageID(lines[i..], line)
    {
      if IsMessageID(lines[i]) {
        return lines[i := line];
      }
      ghost var rest := WithMessageID(lines[i + 1..], line);
      assert lines[..i] + ([lines[i]] + rest) == lines[..i + 1] + rest;
    }
    result := lines + [line];
  }
}
