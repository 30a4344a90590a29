/** The meaning of the incremental request parser of 8/8-3httpparser.cpp:
    what a request line is, and which answer a byte stream deserves. */
module RequestGrammar {
  import opened CText
  import opened Sequences

  datatype HttpCode = NoRequest | GetRequest | BadRequest | InternalError
  datatype CheckState = RequestLine | Header | Content

  // ---------- request lines ----------

  predicate UrlAccepted(u: string)
  {
    (u != [] && u[0] == '/') || (HasPrefixFold(u, "http://") && '/' in u[7..])
  }

  /** A target is a URL, blanks and the version. */
  ghost predicate TargetParts(u: string, url: string, gap: string, version: string)
  {
    && u == url + (gap + version)
    && NoBlank(url) && UrlAccepted(url)
    && gap != [] && AllBlank(gap)
    && EqualFold(version, "HTTP/1.1")
  }

  ghost predicate IsTarget(u: string)
  {
    exists url, gap, version :: TargetParts(u, url, gap, version)
  }

  /** A request line is the method GET, blanks and a target. */
  ghost predicate RequestLineParts(t: string, m: string, gap: string, target: string)
  {
    && t == m + (gap + target)
    && EqualFold(m, "GET")
    && gap != [] && AllBlank(gap)
    && IsTarget(target)
  }

  ghost predicate IsRequestLine(t: string)
  {
    exists m, gap, target :: RequestLineParts(t, m, gap, target)
  }

  /** What is left of t after its leading blanks. */
  function SkipBlanks(t: string): string { t[BlankSpan(t)..] }

  /** The left-to-right scan the parser performs on one line. */
  predicate ScanRequestLine(t: string)
  {
    var k := FirstBlank(t);
    k < |t| && EqualFold(t[..k], "GET") && ScanUrl(SkipBlanks(t[k + 1..]))
  }

  /** The scan from the start of the URL. */
  predicate ScanUrl(u: string)
  {
    var j := FirstBlank(u);
    && j < |u|
    && EqualFold(SkipBlanks(u[j + 1..]), "HTTP/1.1")
    && UrlAccepted(u[..j])
  }

  /** The URL of an accepted request line. */
  function UrlOf(t: string): (url: string)
    requires ScanRequestLine(t)
    ensures UrlAccepted(url)
  {
    var u := SkipBlanks(t[FirstBlank(t) + 1..]);
    u[..FirstBlank(u)]
  }

  /** The part of a URL that names the file: all of it, or what follows "http://" and a host. */
  predicate IsPathOf(path: string, url: string)
  {
    && path != [] && path[0] == '/'
    && if !HasPrefixFold(url, "http://") then path == url
       else 7 + |path| <= |url| && path == url[|url| - |path|..] && '/' !in url[7..|url| - |path|]
  }

  function PathOf(url: string): (path: string)
    requires UrlAccepted(url)
    ensures IsPathOf(path, url)
  {
    if HasPrefixFold(url, "http://") then
      SchemeHasNoSlashFirst(url);
      var k := FirstOf(url[7..], '/');
      assert url[7..7 + k] == url[7..][..k];
      url[7 + k..]
    else url
  }

  lemma SchemeHasNoSlashFirst(url: string)
    requires HasPrefixFold(url, "http://")
    ensures url[0] != '/'
  {
    assert ToLower(url[..7][0]) == ToLower('h');
  }

  lemma PathIsUnique(p: string, q: string, url: string)
    requires IsPathOf(p, url) && IsPathOf(q, url)
    ensures p == q
  {
    NotShorter(p, q, url);
    NotShorter(q, p, url);
  }

  lemma NotShorter(p: string, q: string, url: string)
    requires IsPathOf(p, url) && IsPathOf(q, url)
    ensures |p| >= |q|
  {
    if HasPrefixFold(url, "http://") {
      assert forall k | 7 <= k < |url| - |p| :: url[7..|url| - |p|][k - 7] == url[k];
      assert url[|url| - |q|] == q[0];
    }
  }

  lemma SkipBlanksOf(g: string, rest: string)
    requires AllBlank(g) && (rest == [] || !IsBlank(rest[0]))
    ensures SkipBlanks(g + rest) == rest
  {
    BlankSpanOf(g, rest);
  }

  /** No blank hides in a text that equals a blank-free word up to case. */
  lemma FoldHasNoBlank(a: string, word: string)
    requires EqualFold(a, word) && forall i | 0 <= i < |word| :: 'A' <= word[i] <= 'Z' || '.' <= word[i] <= '9'
    ensures NoBlank(a)
  {
    forall c | c in a
      ensures !IsBlank(c)
    {
      var i :| 0 <= i < |a| && a[i] == c;
      assert ToLower(a[i]) == ToLower(word[i]);
    }
  }

  /** The scan accepts exactly the grammar's request lines. */
  lemma ScanMeetsGrammar(t: string)
    ensures ScanRequestLine(t) <==> IsRequestLine(t)
  {
    if ScanRequestLine(t) {
      var k := FirstBlank(t);
      var target := SkipBlanks(t[k + 1..]);
      TargetMeetsGrammar(target);
      var gap := CutAtBlank(t);
      assert RequestLineParts(t, t[..k], gap, target);
    }
    if IsRequestLine(t) {
      ScanIsComplete(t);
    }
  }

  lemma ScanIsComplete(t: string)
    requires IsRequestLine(t)
    ensures ScanRequestLine(t)
  {
    var m, gap, target :| RequestLineParts(t, m, gap, target);
    FoldHasNoBlank(m, "GET");
    TargetMeetsGrammar(target);
    ReadAtBlank(m, gap, target);
  }

  lemma TargetMeetsGrammar(u: string)
    ensures ScanUrl(u) <==> IsTarget(u)
    ensures IsTarget(u) ==> u != [] && !IsBlank(u[0])
  {
    if ScanUrl(u) {
      var j := FirstBlank(u);
      var gap := CutAtBlank(u);
      assert TargetParts(u, u[..j], gap, SkipBlanks(u[j + 1..]));
    }
    if IsTarget(u) {
      TargetIsScanned(u);
    }
  }

  lemma TargetIsScanned(u: string)
    requires IsTarget(u)
    ensures ScanUrl(u) && u != [] && !IsBlank(u[0])
  {
    hide FirstBlank, SkipBlanks, EqualFold;
    var url, gap, version :| TargetParts(u, url, gap, version);
    SolidVersion(version);
    assert url[0] in url;
    ReadAtBlank(url, gap, version);
  }

  /** Whether a request line is accepted does not depend on the case of its letters. */
  lemma CaseDoesNotMatter(t: string, t': string)
    requires EqualFold(t, t')
    ensures ScanRequestLine(t) == ScanRequestLine(t')
  {
    hide FirstBlank, SkipBlanks, ScanUrl;
    SameBlanks(t, t');
    var k := FirstBlank(t);
    if k < |t| {
      FoldSlice(t, t', 0, k);
      assert t[..k] == t[0..k] && t'[..k] == t'[0..k];
      FoldTail(t, t', k + 1);
      SameSkip(t[k + 1..], t'[k + 1..]);
      CaseOfUrl(SkipBlanks(t[k + 1..]), SkipBlanks(t'[k + 1..]));
    }
  }

  lemma SameSkip(t: string, t': string)
    requires EqualFold(t, t')
    ensures EqualFold(SkipBlanks(t), SkipBlanks(t'))
  {
    SameBlanks(t, t');
    FoldTail(t, t', BlankSpan(t));
  }

  lemma CaseOfUrl(u: string, u': string)
    requires EqualFold(u, u')
    ensures ScanUrl(u) == ScanUrl(u')
  {
    SameBlanks(u, u');
    var j := FirstBlank(u);
    if j < |u| {
      FoldSlice(u, u', 0, j);
      assert u[..j] == u[0..j] && u'[..j] == u'[0..j];
      CaseOfAccepted(u[..j], u'[..j]);
      FoldTail(u, u', j + 1);
      SameSkip(u[j + 1..], u'[j + 1..]);
    }
  }

  lemma CaseOfAccepted(u: string, u': string)
    requires EqualFold(u, u')
    ensures UrlAccepted(u) == UrlAccepted(u')
  {
    if |u| >= 7 {
      FoldSlice(u, u', 0, 7);
      assert u[..7] == u[0..7] && u'[..7] == u'[0..7];
      FoldTail(u, u', 7);
      CaseOfSlash(u[7..], u'[7..]);
    }
  }

  lemma CaseOfSlash(u: string, u': string)
    requires EqualFold(u, u')
    ensures '/' in u <==> '/' in u'
  {
    EqualFoldMeans(u, u');
    if '/' in u {
      var i :| 0 <= i < |u| && u[i] == '/';
      assert u'[i] == '/';
    }
    if '/' in u' {
      var i :| 0 <= i < |u'| && u'[i] == '/';
      assert u[i] == '/';
    }
  }

  /** A line made of three words with blanks between them. */
  function ThreeWords(m: string, gap: string, url: string, gap2: string, version: string): string
  {
    m + (gap + (url + (gap2 + version)))
  }

  /** It is accepted exactly for the right method, version and kind of URL. */
  lemma AcceptsExactly(m: string, gap: string, url: string, gap2: string, version: string)
    requires NoBlank(m) && NoBlank(url) && url != [] && gap != [] && gap2 != [] && AllBlank(gap) && AllBlank(gap2)
    requires version != [] && !IsBlank(version[0])
    ensures ScanRequestLine(ThreeWords(m, gap, url, gap2, version)) <==>
      EqualFold(m, "GET") && UrlAccepted(url) && EqualFold(version, "HTTP/1.1")
  {
    hide FirstBlank, SkipBlanks, UrlAccepted, EqualFold;
    var target := url + (gap2 + version);
    assert url[0] in url;
    ReadAtBlank(m, gap, target);
    ReadAtBlank(url, gap2, version);
  }

  /** Words in both cases, spaces and tabs, both kinds of URL; and wrong words and URLs. */
  lemma AcceptedLines()
    ensures ScanRequestLine("GET" + (" " + ("/" + (" " + "HTTP/1.1"))))
    ensures ScanRequestLine("get" + ("\t" + ("HTTP://h/" + (" \t" + "Http/1.1"))))
  {
    hide FirstBlank, ScanRequestLine;
    AcceptsExactly("GET", " ", "/", " ", "HTTP/1.1");
    AcceptsTabs();
  }

  lemma AcceptsTabs()
    ensures ScanRequestLine("get" + ("\t" + ("HTTP://h/" + (" \t" + "Http/1.1"))))
  {
    hide FirstBlank, ScanRequestLine, UrlAccepted;
    AbsoluteUrl("HTTP://h/");
    AcceptsExactly("get", "\t", "HTTP://h/", " \t", "Http/1.1");
  }

  lemma AbsoluteUrl(url: string)
    requires url == "HTTP://h/"
    ensures UrlAccepted(url)
  {
    assert url[..7] == "HTTP://";
    assert url[7..] == "h/" && "h/"[1] == '/';
  }

  lemma RefusedLines()
    ensures !ScanRequestLine("POST" + (" " + ("/" + (" " + "HTTP/1.1"))))
    ensures !ScanRequestLine("GET" + (" " + ("/" + (" " + "HTTP/1.0"))))
    ensures !ScanRequestLine("GET" + (" " + ("x" + (" " + "HTTP/1.1"))))
  {
    AcceptsExactly("POST", " ", "/", " ", "HTTP/1.1");
    AcceptsExactly("GET", " ", "/", " ", "HTTP/1.0");
    AcceptsExactly("GET", " ", "x", " ", "HTTP/1.1");
    assert ToLower("HTTP/1.0"[7]) != ToLower("HTTP/1.1"[7]);
  }

  /** The URL found is the one the grammar's parts have. */
  lemma UrlOfParts(t: string, m: string, gap: string, target: string, url: string, gap2: string, version: string)
    requires RequestLineParts(t, m, gap, target) && TargetParts(target, url, gap2, version)
    ensures ScanRequestLine(t) && UrlOf(t) == url
  {
    hide FirstBlank, SkipBlanks, ScanRequestLine, UrlAccepted, IsTarget, EqualFold;
    ScanMeetsGrammar(t);
    TargetMeetsGrammar(target);
    FoldHasNoBlank(m, "GET");
    SolidVersion(version);
    ReadAtBlank(m, gap, target);
    ReadAtBlank(url, gap2, version);
  }

  lemma SolidVersion(version: string)
    requires EqualFold(version, "HTTP/1.1")
    ensures version != [] && !IsBlank(version[0])
  {
    FoldHasNoBlank(version, "HTTP/1.1");
    assert version[0] in version;
  }

  /** Cutting a text at its first blank: word, blanks, rest. */
  lemma CutAtBlank(t: string) returns (gap: string)
    requires FirstBlank(t) < |t|
    ensures gap != [] && AllBlank(gap)
    ensures t == t[..FirstBlank(t)] + (gap + SkipBlanks(t[FirstBlank(t) + 1..]))
  {
    var k := FirstBlank(t);
    var r := t[k + 1..];
    var n := BlankSpan(r);
    gap := [t[k]] + r[..n];
    BlankCons(t[k], r[..n]);
    CutAt(t, k, n);
  }

  lemma CutAt(t: string, k: nat, n: nat)
    requires k < |t| && n <= |t[k + 1..]|
    ensures var r := t[k + 1..]; t == t[..k] + (([t[k]] + r[..n]) + r[n..])
  {
    var r := t[k + 1..];
    assert r[..n] + r[n..] == r;
    assert ([t[k]] + r[..n]) + r[n..] == [t[k]] + (r[..n] + r[n..]);
    assert t[k..] == [t[k]] + r;
    assert t == t[..k] + t[k..];
  }

  lemma BlankCons(c: char, g: string)
    requires IsBlank(c) && AllBlank(g)
    ensures AllBlank([c] + g)
  {
  }

  /** The scan finds the parts a text was put together from. */
  lemma ReadAtBlank(word: string, gap: string, rest: string)
    requires NoBlank(word) && gap != [] && AllBlank(gap) && (rest == [] || !IsBlank(rest[0]))
    ensures var t := word + (gap + rest);
            && FirstBlank(t) == |word| < |t| && t[..|word|] == word
            && SkipBlanks(t[|word| + 1..]) == rest
  {
    assert gap[0] in gap;
    FirstBlankOf(word, gap + rest);
    assert (word + (gap + rest))[|word| + 1..] == gap[1..] + rest;
    SkipBlanksOf(gap[1..], rest);
  }

  // ---------- lines ----------

  /** The next line of a stream: not yet complete, broken by a stray CR or LF, or complete. */
  datatype Scan = Open | Broken | Line(text: string, rest: string)

  function NextLine(s: string): (r: Scan)
    ensures r.Line? ==> s == r.text + ("\r\n" + r.rest) && Plain(r.text)
  {
    if s == [] then Open
    else if s[0] == '\r' then
      if |s| == 1 then Open else if s[1] == '\n' then Line([], s[2..]) else Broken
    else if s[0] == '\n' then Broken
    else match NextLine(s[1..])
      case Line(text, rest) => Line([s[0]] + text, rest)
      case other => other
  }

  /** A line's text holds neither CR nor LF. */
  predicate Plain(s: string) { '\r' !in s && '\n' !in s }

  /** The bytes that follow a plain text decide how its line ends. */
  function AfterPlain(s: string): Scan
  {
    if s == [] || s == "\r" then Open
    else if s[0] == '\r' && s[1] == '\n' then Line([], s[2..])
    else Broken
  }

  lemma {:induction false} NextLineOf(p: string, s: string)
    requires Plain(p) && (s == [] || s[0] == '\r' || s[0] == '\n')
    ensures NextLine(p + s) == (if AfterPlain(s).Line? then Line(p, s[2..]) else AfterPlain(s))
  {
    if p == [] {
      assert p + s == s;
    } else {
      assert (p + s)[1..] == p[1..] + s;
      NextLineOf(p[1..], s);
    }
  }

  /** No CR or LF among the first k bytes. */
  predicate PlainUpTo(s: string, k: nat)
  {
    forall i | 0 <= i < k && i < |s| :: s[i] != '\r' && s[i] != '\n'
  }

  /** The next line of s, when the first CR or LF is at k. */
  lemma NextLineAt(s: string, k: nat)
    requires k <= |s| && PlainUpTo(s, k)
    requires k == |s| || s[k] == '\r' || s[k] == '\n'
    ensures NextLine(s) ==
            if k == |s| || (s[k] == '\r' && k + 1 == |s|) then Open
            else if s[k] == '\r' && s[k + 1] == '\n' then Line(s[..k], s[k + 2..])
            else Broken
  {
    var p, r := s[..k], s[k..];
    assert s == p + r;
    NextLineOf(p, r);
    assert |r| >= 2 ==> r[2..] == s[k + 2..];
  }

  // ---------- the answer to a stream ----------

  /** The answer to the bytes s when a line starts at s and the parser is in state st. */
  function Run(st: CheckState, s: string): HttpCode
    decreases |s|
  {
    match NextLine(s)
    case Open => NoRequest
    case Broken => BadRequest
    case Line(text, rest) =>
      match st
      case RequestLine => if ScanRequestLine(CString(text)) then Run(Header, rest) else BadRequest
      case Header => if CString(text) == [] then GetRequest else Run(Header, rest)
      case Content => InternalError
  }

  /** The answer to a whole stream. */
  function Verdict(s: string): HttpCode { Run(RequestLine, s) }

  /** More bytes never change how a finished or broken line was read. */
  lemma {:induction false} NextLineStable(s: string, t: string)
    ensures NextLine(s).Broken? ==> NextLine(s + t).Broken?
    ensures NextLine(s).Line? ==> NextLine(s + t) == Line(NextLine(s).text, NextLine(s).rest + t)
  {
    if s != [] {
      assert (s + t)[1..] == s[1..] + t;
      if s[0] == '\r' {
        if |s| > 1 && s[1] == '\n' {
          assert (s + t)[2..] == s[2..] + t;
        }
      } else if s[0] != '\n' {
        NextLineStable(s[1..], t);
      }
    }
  }

  /** A final answer is never revised by later bytes. */
  lemma {:induction false} RunStable(st: CheckState, s: string, t: string)
    requires Run(st, s) != NoRequest
    ensures Run(st, s + t) == Run(st, s)
    decreases |s|
  {
    NextLineStable(s, t);
    match NextLine(s)
    case Open =>
    case Broken =>
    case Line(text, rest) =>
      match st {
        case RequestLine =>
          if ScanRequestLine(CString(text)) { RunStable(Header, rest, t); }
        case Header =>
          if CString(text) != [] { RunStable(Header, rest, t); }
        case Content =>
      }
  }

  /** The first answer other than NoRequest that parsing after each chunk gives. */
  function FirstAnswer(chunks: seq<string>): HttpCode
  {
    if chunks == [] then NoRequest
    else
      var earlier := FirstAnswer(chunks[..|chunks| - 1]);
      if earlier != NoRequest then earlier else Verdict(Join(chunks))
  }

  /** It is the answer to the first k chunks, if there was none to fewer. */
  lemma {:induction false} FirstAnswerIs(chunks: seq<string>, k: nat)
    requires 0 < k <= |chunks| && Verdict(Join(chunks[..k])) != NoRequest
    requires forall j | 0 < j < k :: Verdict(Join(chunks[..j])) == NoRequest
    ensures FirstAnswer(chunks) == Verdict(Join(chunks[..k]))
    decreases |chunks|
  {
    hide Verdict;
    var init := chunks[..|chunks| - 1];
    assert forall j | 0 < j <= |init| :: init[..j] == chunks[..j];
    if k < |chunks| {
      FirstAnswerIs(init, k);
    } else {
      assert chunks[..k] == chunks;
      NoAnswerYet(init);
    }
  }

  lemma {:induction false} NoAnswerYet(chunks: seq<string>)
    requires forall j | 0 < j <= |chunks| :: Verdict(Join(chunks[..j])) == NoRequest
    ensures FirstAnswer(chunks) == NoRequest
  {
    hide Verdict;
    if chunks != [] {
      var init := chunks[..|chunks| - 1];
      assert forall j | 0 < j <= |init| :: init[..j] == chunks[..j];
      NoAnswerYet(init);
      assert chunks[..|chunks|] == chunks;
    }
  }

  /** However a stream is cut, even between CR and LF, the answer is that of the whole stream. */
  lemma {:induction false} ChunkIndependence(chunks: seq<string>)
    ensures FirstAnswer(chunks) == Verdict(Join(chunks))
  {
    if chunks != [] {
      var init := chunks[..|chunks| - 1];
      ChunkIndependence(init);
      JoinLast(chunks);
      if Verdict(Join(init)) != NoRequest {
        RunStable(RequestLine, Join(init), chunks[|chunks| - 1]);
      }
    }
  }

  // ---------- the three answers, as a grammar of streams ----------

  /** Lines, each ended by CR LF. */
  function Framed(lines: seq<string>): string
  {
    if lines == [] then [] else lines[0] + ("\r\n" + Framed(lines[1..]))
  }

  predicate AllPlain(lines: seq<string>) { forall line <- lines :: Plain(line) }

  predicate NonEmptyTexts(lines: seq<string>) { forall line <- lines :: CString(line) != [] }

  /** The complete lines of a request whose blank line has not come yet. */
  ghost predicate Unfinished(lines: seq<string>)
  {
    && AllPlain(lines)
    && (lines != [] ==> IsRequestLine(CString(lines[0])) && NonEmptyTexts(lines[1..]))
  }

  function StateAfter(lines: seq<string>): CheckState
  {
    if lines == [] then RequestLine else Header
  }

  /** s begins with an accepted request line, non-empty headers and a blank line. */
  ghost predicate BeginsWithRequest(s: string)
  {
    exists lines, blank, rest ::
      RequestThen(s, lines, blank, rest)
  }

  ghost predicate RequestThen(s: string, lines: seq<string>, blank: string, rest: string)
  {
    && s == Framed(lines) + (blank + ("\r\n" + rest))
    && Unfinished(lines) && lines != []
    && Plain(blank) && CString(blank) == []
  }

  /** s goes wrong after some good lines: a stray CR or LF, or a first line that is no request line. */
  ghost predicate BreaksOff(s: string)
  {
    exists lines, cur, rest :: BreaksAfter(s, lines, cur, rest)
  }

  ghost predicate BreaksAfter(s: string, lines: seq<string>, cur: string, rest: string)
  {
    && s == Framed(lines) + (cur + rest)
    && Unfinished(lines) && Plain(cur)
    && rest != [] && (rest[0] == '\n' || (rest[0] == '\r' && |rest| > 1))
    && (AfterPlain(rest).Line? ==> lines == [] && !IsRequestLine(CString(cur)))
  }

  /** s is good lines and an unfinished one, perhaps up to its CR. */
  ghost predicate StillOpen(s: string)
  {
    exists lines, cur, rest :: OpenAfter(s, lines, cur, rest)
  }

  ghost predicate OpenAfter(s: string, lines: seq<string>, cur: string, rest: string)
  {
    && s == Framed(lines) + (cur + rest)
    && Unfinished(lines) && Plain(cur)
    && (rest == [] || rest == "\r")
  }

  /** Good lines only move the parser on: what follows decides. */
  lemma RunFramed(lines: seq<string>, t: string)
    requires Unfinished(lines)
    ensures Verdict(Framed(lines) + t) == Run(StateAfter(lines), t)
  {
    if lines == [] {
      assert Framed(lines) + t == t;
    } else {
      ScanMeetsGrammar(CString(lines[0]));
      assert lines[0] in lines;
      FramedStep(lines, t);
      RunHeaders(lines[1..], t);
    }
  }

  lemma {:induction false} RunHeaders(lines: seq<string>, t: string)
    requires AllPlain(lines) && NonEmptyTexts(lines)
    ensures Run(Header, Framed(lines) + t) == Run(Header, t)
  {
    if lines == [] {
      assert Framed(lines) + t == t;
    } else {
      assert lines[0] in lines;
      FramedStep(lines, t);
      RunHeaders(lines[1..], t);
    }
  }

  lemma FramedStep(lines: seq<string>, t: string)
    requires lines != [] && Plain(lines[0])
    ensures NextLine(Framed(lines) + t) == Line(lines[0], Framed(lines[1..]) + t)
  {
    var more := Framed(lines[1..]);
    Assoc("\r\n", more, t);
    Assoc(lines[0], "\r\n" + more, t);
    RunOneLine(lines[0], more + t);
  }

  lemma RunOneLine(text: string, rest: string)
    requires Plain(text)
    ensures NextLine(text + ("\r\n" + rest)) == Line(text, rest)
  {
    NextLineOf(text, "\r\n" + rest);
    assert ("\r\n" + rest)[2..] == rest;
  }

  lemma {:induction false} FramedConcat(a: seq<string>, line: string, t: string)
    ensures Framed(a + [line]) + t == Framed(a) + (line + ("\r\n" + t))
  {
    if a == [] {
      assert Framed([line]) == line + ("\r\n" + []);
      assert "\r\n" + [] == "\r\n";
      Assoc(line, "\r\n", t);
    } else {
      assert (a + [line])[1..] == a[1..] + [line];
      FramedConcat(a[1..], line, t);
      Assoc("\r\n", Framed(a[1..] + [line]), t);
      Assoc(a[0], "\r\n" + Framed(a[1..] + [line]), t);
      var u := line + ("\r\n" + t);
      Assoc("\r\n", Framed(a[1..]), u);
      Assoc(a[0], "\r\n" + Framed(a[1..]), u);
    }
  }

  /** How a stream that does not get further ends: witnesses for the three answers. */
  lemma {:induction false} Explain(lines: seq<string>, t: string)
    requires Unfinished(lines)
    ensures match Run(StateAfter(lines), t)
            case GetRequest => BeginsWithRequest(Framed(lines) + t)
            case BadRequest => BreaksOff(Framed(lines) + t)
            case NoRequest => StillOpen(Framed(lines) + t)
            case InternalError => false
    decreases |t|
  {
    hide CString, NextLine, ScanRequestLine, IsRequestLine;
    var s := Framed(lines) + t;
    match NextLine(t)
    case Open =>
      var cur, rest := SplitOpen(t);
      assert OpenAfter(s, lines, cur, rest);
    case Broken =>
      var cur, rest := SplitBroken(t);
      assert BreaksAfter(s, lines, cur, rest);
    case Line(text, rest) =>
      ScanMeetsGrammar(CString(text));
      if lines == [] && !IsRequestLine(CString(text)) {
        var tail := "\r\n" + rest;
        assert BreaksAfter(s, lines, text, tail);
      } else if lines != [] && CString(text) == [] {
        assert RequestThen(s, lines, text, rest);
      } else {
        var more := lines + [text];
        FramedConcat(lines, text, rest);
        assert more[0] == if lines == [] then text else lines[0];
        assert more[1..] == if lines == [] then [] else lines[1..] + [text];
        Explain(more, rest);
      }
  }

  lemma {:induction false} SplitOpen(t: string) returns (cur: string, rest: string)
    requires NextLine(t).Open?
    ensures t == cur + rest && Plain(cur) && (rest == [] || rest == "\r")
  {
    if t == [] || t == "\r" {
      cur, rest := [], t;
    } else {
      cur, rest := SplitOpen(t[1..]);
      cur := [t[0]] + cur;
    }
  }

  lemma {:induction false} SplitBroken(t: string) returns (cur: string, rest: string)
    requires NextLine(t).Broken?
    ensures t == cur + rest && Plain(cur)
    ensures rest != [] && (rest[0] == '\n' || (rest[0] == '\r' && |rest| > 1 && rest[1] != '\n'))
  {
    if t[0] == '\r' || t[0] == '\n' {
      cur, rest := [], t;
    } else {
      cur, rest := SplitBroken(t[1..]);
      cur := [t[0]] + cur;
    }
  }

  lemma GetMeaning(s: string)
    ensures Verdict(s) == GetRequest <==> BeginsWithRequest(s)
  {
    Explain([], s);
    assert Framed([]) + s == s;
    if BeginsWithRequest(s) {
      var lines, blank, rest :| RequestThen(s, lines, blank, rest);
      RunFramed(lines, blank + ("\r\n" + rest));
      RunOneLine(blank, rest);
    }
  }

  lemma BadMeaning(s: string)
    ensures Verdict(s) == BadRequest <==> BreaksOff(s)
  {
    Explain([], s);
    assert Framed([]) + s == s;
    if BreaksOff(s) {
      var lines, cur, rest :| BreaksAfter(s, lines, cur, rest);
      RunFramed(lines, cur + rest);
      NextLineOf(cur, rest);
      ScanMeetsGrammar(CString(cur));
    }
  }

  lemma OpenMeaning(s: string)
    ensures Verdict(s) == NoRequest <==> StillOpen(s)
  {
    Explain([], s);
    assert Framed([]) + s == s;
    if StillOpen(s) {
      var lines, cur, rest :| OpenAfter(s, lines, cur, rest);
      RunFramed(lines, cur + rest);
      NextLineOf(cur, rest);
    }
  }

  /** The default branch of the state switch is never taken. */
  lemma NeverInternalError(s: string)
    ensures Verdict(s) != InternalError
  {
    Explain([], s);
  }
}
