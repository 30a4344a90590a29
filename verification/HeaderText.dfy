/** The header lines of 15/15-5http_conn.cpp: how they are printed, and how they are read. */
module HeaderText {
  import opened CText
  import opened RequestGrammar
  import opened Sequences

  // ---------- decimal numbers ----------

  function Digit(d: nat): (c: char)
    requires d < 10
    ensures IsDigit(c) && Value([c], 0) == d && c as int == 48 + d
  {
    '0' + d as char
  }

  predicate IsDigit(c: char) { '0' <= c <= '9' }

  function Decimal(n: nat): string
  {
    if n < 10 then [Digit(n)] else Decimal(n / 10) + [Digit(n % 10)]
  }

  /** %d. */
  function Printed(n: int): string
  {
    if n < 0 then "-" + Decimal(-n) else Decimal(n)
  }

  /** The number the leading digits of s continue, after digits worth acc. */
  function Value(s: string, acc: nat): nat
  {
    if s == [] || !IsDigit(s[0]) then acc else Value(s[1..], 10 * acc + (s[0] - '0') as nat)
  }

  const LONG_MAX: int := 0x7FFF_FFFF_FFFF_FFFF
  const INT_MAX: int := 0x7FFF_FFFF

  /** strtol stops at the ends of a 64-bit long. */
  function Clamp(x: int): (r: int)
    ensures -0x8000_0000_0000_0000 <= r < 0x8000_0000_0000_0000
    ensures -0x8000_0000_0000_0000 <= x < 0x8000_0000_0000_0000 ==> r == x
    ensures (x < r ==> r == -0x8000_0000_0000_0000) && (x > r ==> r == 0x7FFF_FFFF_FFFF_FFFF)
  {
    if x > LONG_MAX then LONG_MAX else if x < -LONG_MAX - 1 then -LONG_MAX - 1 else x
  }

  /** Storing a long in an int keeps the low 32 bits. */
  function ToInt(x: int): (r: int)
    ensures -INT_MAX - 1 <= r <= INT_MAX
    ensures -INT_MAX - 1 <= x <= INT_MAX ==> r == x
    ensures -0x8000_0000 <= r < 0x8000_0000 && (x - r) % 0x1_0000_0000 == 0
  {
    (x + INT_MAX + 1) % 0x1_0000_0000 - INT_MAX - 1
  }

  function PastSpace(s: string): string
  {
    if s != [] && (s[0] == ' ' || '\t' <= s[0] <= '\r') then PastSpace(s[1..]) else s
  }

  function Atol(s: string): int
  {
    var t := PastSpace(s);
    if t != [] && t[0] == '-' then Clamp(0 - Value(t[1..], 0))
    else if t != [] && t[0] == '+' then Clamp(Value(t[1..], 0))
    else Clamp(Value(t, 0))
  }

  lemma {:induction false} DecimalValue(n: nat, rest: string)
    ensures Value(Decimal(n) + rest, 0) == Value(rest, n)
    ensures Decimal(n) != [] && forall c <- Decimal(n) :: IsDigit(c)
  {
    if n < 10 {
      assert (Decimal(n) + rest)[1..] == rest;
    } else {
      var d := Digit(n % 10);
      Assoc(Decimal(n / 10), [d], rest);
      DecimalValue(n / 10, [d] + rest);
      assert ([d] + rest)[1..] == rest;
    }
  }

  /** A further decimal digit makes the number ten times as large, plus that digit. */
  lemma {:induction false} ValueOfDigits(s: string, c: char, acc: nat)
    requires (forall i | 0 <= i < |s| :: '0' <= s[i] <= '9') && '0' <= c <= '9'
    ensures Value([], acc) == acc && Value(s + [c], acc) == 10 * Value(s, acc) + (c as int - 48)
  {
    if s == [] {
      assert s + [c] == [c] && [c][1..] == [];
    } else {
      assert (s + [c])[1..] == s[1..] + [c];
      ValueOfDigits(s[1..], c, 10 * acc + (s[0] - '0') as nat);
    }
  }

  /** Whatever follows the digits does not count. */
  lemma {:induction false} ValueStops(s: string, rest: string, acc: nat)
    requires forall i | 0 <= i < |s| :: '0' <= s[i] <= '9'
    requires rest == [] || rest[0] < '0' || rest[0] > '9'
    ensures Value(s + rest, acc) == Value(s, acc)
  {
    if s == [] {
      assert s + rest == rest;
    } else {
      assert (s + rest)[1..] == s[1..] + rest;
      ValueStops(s[1..], rest, 10 * acc + (s[0] - '0') as nat);
    }
  }

  /** The characters isspace accepts: space, tab, LF, VT, FF and CR. */
  predicate AllSpace(s: string)
  {
    forall i | 0 <= i < |s| :: s[i] as int == 32 || 9 <= s[i] as int <= 13
  }

  lemma {:induction false} SkipsSpace(space: string, rest: string)
    requires AllSpace(space)
    ensures PastSpace(space + rest) == PastSpace(rest)
  {
    if space == [] {
      assert space + rest == rest;
    } else {
      assert (space + rest)[1..] == space[1..] + rest;
      SkipsSpace(space[1..], rest);
    }
  }

  /** atol reads white space, a sign and digits, and nothing behind them; a 64-bit long is as
      far as it goes. */
  lemma AtolMeans(space: string, sign: string, digits: string, rest: string)
    requires AllSpace(space) && (sign == "" || sign == "+" || sign == "-")
    requires digits != [] && forall i | 0 <= i < |digits| :: '0' <= digits[i] <= '9'
    requires rest == [] || rest[0] < '0' || rest[0] > '9'
    ensures var v := Value(digits, 0);
            Atol(space + (sign + (digits + rest))) ==
              if sign == "-" then if v > 0x8000_0000_0000_0000 then -0x8000_0000_0000_0000 else 0 - v
              else if v > 0x7FFF_FFFF_FFFF_FFFF then 0x7FFF_FFFF_FFFF_FFFF else v
  {
    SkipsSpace(space, sign + (digits + rest));
    ValueStops(digits, rest, 0);
    if sign == "" {
      assert sign + (digits + rest) == digits + rest;
    } else {
      assert (sign + (digits + rest))[1..] == digits + rest;
    }
  }

  lemma DecimalDigits(n: nat)
    ensures Decimal(n) != [] && Value(Decimal(n), 0) == n
    ensures forall i | 0 <= i < |Decimal(n)| :: '0' <= Decimal(n)[i] <= '9'
  {
    DecimalValue(n, []);
    var d := Decimal(n);
    assert d + [] == d;
    assert forall i | 0 <= i < |d| :: d[i] in d;
  }

  /** atol undoes %d, whatever but a digit follows. */
  lemma PrintedThenMore(n: int, rest: string)
    requires -INT_MAX - 1 <= n <= INT_MAX && (rest == [] || rest[0] < '0' || rest[0] > '9')
    ensures ToInt(Atol(Printed(n) + rest)) == n
  {
    hide Atol, ToInt, Value, Decimal;
    var d := Decimal(if n < 0 then -n else n);
    DecimalDigits(if n < 0 then -n else n);
    var sign := if n < 0 then "-" else "";
    AtolMeans("", sign, d, rest);
    assert "" + (sign + (d + rest)) == Printed(n) + rest;
  }

  /** atol undoes %d for every int. */
  lemma PrintedReadsBack(n: int)
    requires -INT_MAX - 1 <= n <= INT_MAX
    ensures ToInt(Atol(Printed(n))) == n
  {
    var d := Decimal(if n < 0 then -n else n);
    DecimalValue(if n < 0 then -n else n, []);
    assert d + [] == d;
    if n < 0 {
      assert ("-" + d)[1..] == d;
    } else {
      assert d[0] in d;
    }
  }

  /** A number prints without line ends, blanks or NULs. */
  predicate Solid(s: string)
  {
    forall c <- s :: c == '-' || IsDigit(c)
  }

  lemma PrintedIsSolid(n: int)
    ensures Printed(n) != [] && Solid(Printed(n))
  {
    DecimalValue(if n < 0 then -n else n, []);
  }

  // ---------- header lines ----------

  function CrLf(line: string): string { line + "\r\n" }

  function LengthLine(n: int): string { "Content-Length: " + Printed(n) }

  function LingerLine(linger: bool): string { "Connection: " + LingerValue(linger) }

  function StatusLine(status: int, title: string): string
  {
    "HTTP/1.1 " + (Printed(status) + (" " + title))
  }

  /** What add_headers prints, piece by piece. */
  function HeaderPieces(n: int, linger: bool): seq<string>
  {
    [CrLf(LengthLine(n)), CrLf(LingerLine(linger)), "\r\n"]
  }

  // ---------- reading them ----------

  /** What a pointer that may be NULL names. */
  datatype Name = Unknown | Known(s: string)

  datatype Headers = Headers(length: int, linger: bool, url: Name, host: Name)

  /** parse_request_line on an accepted line. */
  function TakeRequestLine(h: Headers, text: string): Headers
    requires ScanRequestLine(text)
  {
    h.(url := Known(PathOf(UrlOf(text))))
  }

  /** parse_headers on a line that is not empty. */
  function TakeHeader(h: Headers, text: string): Headers
  {
    if HasPrefixFold(text, "Connection:") then
      if EqualFold(SkipBlanks(text[11..]), "keep-alive") then h.(linger := true) else h
    else if HasPrefixFold(text, "Content-Length:") then h.(length := ToInt(Atol(SkipBlanks(text[15..]))))
    else if HasPrefixFold(text, "Host:") then h.(host := Known(SkipBlanks(text[5..])))
    else h
  }

  /** What a stream amounts to: not finished (or stuck at a stray CR or LF), refused, or a
      request up to its blank line. */
  datatype Reading = Waiting | Refused | Request(h: Headers, rest: string)

  function Read(st: CheckState, h: Headers, s: string): Reading
    decreases |s|
  {
    match NextLine(s)
    case Open => Waiting
    case Broken => Waiting
    case Line(text, rest) =>
      if st == RequestLine then
        if ScanRequestLine(CString(text)) then Read(Header, TakeRequestLine(h, CString(text)), rest) else Refused
      else if CString(text) == [] then Request(h, rest)
      else Read(st, TakeHeader(h, CString(text)), rest)
  }

  const NO_HEADERS := Headers(0, false, Unknown, Unknown)

  /** Nothing but a length and a flag. */
  function Announced(n: int, linger: bool): Headers { NO_HEADERS.(length := n, linger := linger) }

  lemma PlainString(text: string)
    requires NUL !in text
    ensures CString(text) == text
  {
    CStringOf(text, []);
    assert text + [] == text;
  }

  lemma ReadLine(h: Headers, text: string, rest: string)
    requires Plain(text) && NUL !in text && text != []
    ensures Read(Header, h, CrLf(text) + rest) == Read(Header, TakeHeader(h, text), rest)
  {
    Assoc(text, "\r\n", rest);
    RunOneLine(text, rest);
    PlainString(text);
  }

  lemma ReadBlankLine(h: Headers, rest: string)
    ensures Read(Header, h, "\r\n" + rest) == Request(h, rest)
  {
    RunOneLine([], rest);
    assert [] + ("\r\n" + rest) == "\r\n" + rest;
  }

  /** The two names are told apart at their fourth letters. */
  lemma NotConnection(value: string)
    ensures !HasPrefixFold("Content-Length: " + value, "Connection:")
  {
    var text, word := "Content-Length: " + value, "Connection:";
    assert text[..11][3] == 't' && word[3] == 'n';
  }

  lemma AfterName(value: string)
    requires value != [] && !IsBlank(value[0])
    ensures var text := "Content-Length: " + value;
            HasPrefixFold(text, "Content-Length:") && SkipBlanks(text[15..]) == value
  {
    var text := "Content-Length: " + value;
    assert text[..15] == "Content-Length:";
    assert text[15..] == " " + value;
    SkipBlanksOf(" ", value);
  }

  lemma PlainAfter(name: string, value: string)
    requires Plain(name) && Plain(value) && NUL !in name && NUL !in value
    ensures Plain(name + value) && NUL !in name + value
  {
  }

  lemma TakeLength(h: Headers, n: int)
    requires -INT_MAX - 1 <= n <= INT_MAX
    ensures var text := LengthLine(n);
            text != [] && Plain(text) && NUL !in text && TakeHeader(h, text) == h.(length := n)
  {
    hide Printed, SkipBlanks, HasPrefixFold, Atol;
    PrintedIsSolid(n);
    PrintedReadsBack(n);
    var value := Printed(n);
    assert value[0] in value;
    NotConnection(value);
    AfterName(value);
    PlainAfter("Content-Length: ", value);
  }

  lemma AfterConnection(value: string)
    requires value != [] && !IsBlank(value[0])
    ensures var text := "Connection: " + value;
            HasPrefixFold(text, "Connection:") && SkipBlanks(text[11..]) == value
  {
    var text := "Connection: " + value;
    assert text[..11] == "Connection:";
    assert text[11..] == " " + value;
    SkipBlanksOf(" ", value);
  }

  function LingerValue(linger: bool): (value: string)
    ensures value != [] && !IsBlank(value[0]) && Plain(value) && NUL !in value
    ensures EqualFold(value, "keep-alive") <==> linger
  {
    if linger then "keep-alive" else "close"
  }

  lemma TakeLinger(h: Headers, linger: bool)
    ensures var text := LingerLine(linger);
            text != [] && Plain(text) && NUL !in text && TakeHeader(h, text) == h.(linger := h.linger || linger)
  {
    hide SkipBlanks, HasPrefixFold, EqualFold, LingerValue;
    AfterConnection(LingerValue(linger));
    PlainAfter("Connection: ", LingerValue(linger));
  }

  /** What a header line does, whatever the case of its name and the blanks behind it. */
  lemma NamedHeader(h: Headers, name: string, gap: string, value: string)
    requires AllBlank(gap) && (value == [] || !IsBlank(value[0]))
    ensures var h' := TakeHeader(h, name + (gap + value));
            && (EqualFold(name, "Connection:") ==> h' == h.(linger := h.linger || EqualFold(value, "keep-alive")))
            && (EqualFold(name, "Content-Length:") ==> h' == h.(length := ToInt(Atol(value))))
            && (EqualFold(name, "Host:") ==> h' == h.(host := Known(value)))
  {
    var text := name + (gap + value);
    assert text[..|name|] == name && text[|name|..] == gap + value;
    SkipBlanksOf(gap, value);
    NamesExclude(text);
    hide Atol, ToInt, SkipBlanks;
  }

  /** Any other line changes nothing. */
  lemma OtherHeader(h: Headers, text: string)
    requires !HasPrefixFold(text, "Connection:") && !HasPrefixFold(text, "Content-Length:")
    requires !HasPrefixFold(text, "Host:")
    ensures TakeHeader(h, text) == h
  {
  }

  /** A length that anything but a digit follows is stored all the same. */
  lemma LengthThenMore(h: Headers, n: int, rest: string)
    requires -INT_MAX - 1 <= n <= INT_MAX && (rest == [] || rest[0] < '0' || rest[0] > '9')
    ensures TakeHeader(h, "Content-Length:" + (" " + (Printed(n) + rest))).length == n
  {
    PrintedIsSolid(n);
    assert Printed(n)[0] in Printed(n);
    NamedHeader(h, "Content-Length:", " ", Printed(n) + rest);
    PrintedThenMore(n, rest);
  }

  /** The header parser stores exactly the length and the flag that were printed, and stops at
      the blank line. */
  lemma HeadersReadBack(h: Headers, n: int, linger: bool, rest: string)
    requires -INT_MAX - 1 <= n <= INT_MAX && !h.linger
    ensures Read(Header, h, Join(HeaderPieces(n, linger)) + rest) == Request(h.(length := n, linger := linger), rest)
  {
    hide LengthLine, LingerLine, TakeHeader;
    var a, b := LengthLine(n), LingerLine(linger);
    var h1 := h.(length := n);
    TakeLength(h, n);
    TakeLinger(h1, linger);
    JoinThree(CrLf(a), CrLf(b), "\r\n", rest);
    ReadLine(h, a, CrLf(b) + ("\r\n" + rest));
    ReadLine(h1, b, "\r\n" + rest);
    ReadBlankLine(h1.(linger := linger), rest);
  }

  lemma JoinThree(a: string, b: string, c: string, rest: string)
    ensures Join([a, b, c]) + rest == a + (b + (c + rest))
  {
    assert [a, b, c][1..] == [b, c] && [b, c][1..] == [c] && [c][1..] == [];
    assert Join([c]) == c;
    assert Join([b, c]) == b + c;
  }

  // ---------- the whole request, in pieces ----------

  /** The answer process_read owes to a stream; a body is still to come when a length other
      than 0 was announced. */
  datatype Outcome = StillReading | BadSyntax | Complete(h: Headers) | BodyNext(h: Headers)

  function OutcomeOf(r: Reading): Outcome
  {
    match r
    case Waiting => StillReading
    case Refused => BadSyntax
    case Request(h, rest) => if h.length != 0 then BodyNext(h) else Complete(h)
  }

  function Progress(s: string): Outcome { OutcomeOf(Read(RequestLine, NO_HEADERS, s)) }

  /** What was read once is not revised by later bytes. */
  lemma {:induction false} ReadStable(st: CheckState, h: Headers, s: string, t: string)
    requires !Read(st, h, s).Waiting?
    ensures var r := Read(st, h, s);
            Read(st, h, s + t) == if r.Refused? then Refused else Request(r.h, r.rest + t)
    decreases |s|
  {
    NextLineStable(s, t);
    var text, rest := NextLine(s).text, NextLine(s).rest;
    if st == RequestLine {
      if ScanRequestLine(CString(text)) {
        ReadStable(Header, TakeRequestLine(h, CString(text)), rest, t);
      }
    } else if CString(text) != [] {
      ReadStable(st, TakeHeader(h, CString(text)), rest, t);
    }
  }

  /** The stream stands at a stray CR or LF after good lines. */
  predicate Stuck(st: CheckState, s: string)
    decreases |s|
  {
    match NextLine(s)
    case Open => false
    case Broken => true
    case Line(text, rest) =>
      if st == RequestLine then ScanRequestLine(CString(text)) && Stuck(Header, rest)
      else CString(text) != [] && Stuck(st, rest)
  }

  /** A stray CR or LF is never answered, whatever follows. */
  lemma {:induction false} StuckForGood(st: CheckState, h: Headers, s: string, t: string)
    requires Stuck(st, s)
    ensures Stuck(st, s + t) && Read(st, h, s + t).Waiting?
    decreases |s|
  {
    NextLineStable(s, t);
    match NextLine(s)
    case Broken =>
    case Line(text, rest) =>
      if st == RequestLine {
        StuckForGood(Header, TakeRequestLine(h, CString(text)), rest, t);
      } else {
        StuckForGood(st, TakeHeader(h, CString(text)), rest, t);
      }
  }

  /** Against the smaller parser: the same requests are accepted and the same request lines
      refused; the only difference is the stray CR or LF. */
  lemma {:induction false} AgainstSmallParser(st: CheckState, h: Headers, s: string)
    requires st != Content
    ensures Read(st, h, s).Request? <==> Run(st, s) == GetRequest
    ensures Read(st, h, s).Refused? <==> Run(st, s) == BadRequest && !Stuck(st, s)
    ensures Read(st, h, s).Waiting? <==> Run(st, s) == NoRequest || Stuck(st, s)
    ensures Stuck(st, s) ==> Run(st, s) == BadRequest
    decreases |s|
  {
    match NextLine(s)
    case Open =>
    case Broken =>
    case Line(text, rest) =>
      if st == RequestLine {
        if ScanRequestLine(CString(text)) {
          AgainstSmallParser(Header, TakeRequestLine(h, CString(text)), rest);
        }
      } else if CString(text) != [] {
        AgainstSmallParser(st, TakeHeader(h, CString(text)), rest);
      }
  }

  /** The first answer that process_read gives when it is called after each chunk. */
  function FirstOutcome(chunks: seq<string>): Outcome
  {
    if chunks == [] then StillReading
    else
      var earlier := FirstOutcome(chunks[..|chunks| - 1]);
      if !earlier.StillReading? then earlier else Progress(Join(chunks))
  }

  /** It is the answer to the first k chunks, if there was none to fewer. */
  lemma {:induction false} FirstOutcomeIs(chunks: seq<string>, k: nat)
    requires 0 < k <= |chunks| && !Progress(Join(chunks[..k])).StillReading?
    requires forall j | 0 < j < k :: Progress(Join(chunks[..j])).StillReading?
    ensures FirstOutcome(chunks) == Progress(Join(chunks[..k]))
    decreases |chunks|
  {
    hide Progress;
    var init := chunks[..|chunks| - 1];
    assert forall j | 0 < j <= |init| :: init[..j] == chunks[..j];
    if k < |chunks| {
      FirstOutcomeIs(init, k);
    } else {
      assert chunks[..k] == chunks;
      NoOutcomeYet(init);
    }
  }

  lemma {:induction false} NoOutcomeYet(chunks: seq<string>)
    requires forall j | 0 < j <= |chunks| :: Progress(Join(chunks[..j])).StillReading?
    ensures FirstOutcome(chunks).StillReading?
  {
    hide Progress;
    if chunks != [] {
      var init := chunks[..|chunks| - 1];
      assert forall j | 0 < j <= |init| :: init[..j] == chunks[..j];
      NoOutcomeYet(init);
      assert chunks[..|chunks|] == chunks;
    }
  }

  lemma NothingRead()
    ensures Join<char>([]) == [] && Progress([]).StillReading?
  {
  }

  /** Up to the blank line, the answer does not depend on how the stream is cut. */
  lemma {:induction false} HeaderChunks(chunks: seq<string>)
    ensures FirstOutcome(chunks) == Progress(Join(chunks))
  {
    hide Read, Join;
    if chunks == [] {
      NothingRead();
    } else {
      var init := chunks[..|chunks| - 1];
      HeaderChunks(init);
      JoinLast(chunks);
      if !Progress(Join(init)).StillReading? {
        ReadStable(RequestLine, NO_HEADERS, Join(init), chunks[|chunks| - 1]);
      }
    }
  }

  // ---------- which headers a request stores ----------

  predicate KeepAliveLine(t: string)
  {
    HasPrefixFold(t, "Connection:") && EqualFold(SkipBlanks(t[11..]), "keep-alive")
  }

  predicate NamesLength(t: string)
  {
    HasPrefixFold(t, "Content-Length:")
  }

  function LengthIn(t: string): int
    requires NamesLength(t)
  {
    ToInt(Atol(SkipBlanks(t[15..])))
  }

  /** h.length is what the last of the lines that name a length says, or 0. */
  ghost predicate LastLength(h: Headers, lines: seq<string>)
  {
    || (h.length == 0 && forall i | 0 <= i < |lines| :: !NamesLength(CString(lines[i])))
    || exists k :: LengthFrom(h, lines, k)
  }

  predicate LengthFrom(h: Headers, lines: seq<string>, k: int)
  {
    && 0 <= k < |lines| && NamesLength(CString(lines[k])) && h.length == LengthIn(CString(lines[k]))
    && forall i | k < i < |lines| :: !NamesLength(CString(lines[i]))
  }

  predicate NamesHost(t: string)
  {
    HasPrefixFold(t, "Host:")
  }

  /** h.host is what the last of the lines that name a host says, or unknown. */
  ghost predicate LastHost(h: Headers, lines: seq<string>)
  {
    || (h.host == Unknown && forall i | 0 <= i < |lines| :: !NamesHost(CString(lines[i])))
    || exists k :: HostFrom(h, lines, k)
  }

  predicate HostFrom(h: Headers, lines: seq<string>, k: int)
  {
    && 0 <= k < |lines| && NamesHost(CString(lines[k])) && h.host == Known(SkipBlanks(CString(lines[k])[5..]))
    && forall i | k < i < |lines| :: !NamesHost(CString(lines[i]))
  }

  /** The headers that the header lines of a request amount to, with the path of its URL. */
  ghost predicate Describes(h: Headers, url: Name, lines: seq<string>)
  {
    && h.url == url
    && (h.linger <==> exists i | 0 <= i < |lines| :: KeepAliveLine(CString(lines[i])))
    && LastLength(h, lines)
    && LastHost(h, lines)
  }

  lemma DescribesOne(h: Headers, h': Headers, url: Name, lines: seq<string>)
    requires Describes(h, url, lines) && Describes(h', url, lines)
    ensures h == h'
  {
    hide CString, NamesLength, NamesHost, KeepAliveLine, LengthIn;
    LengthsAgree(h, h', lines);
    HostsAgree(h, h', lines);
  }

  lemma LengthsAgree(h: Headers, h': Headers, lines: seq<string>)
    requires LastLength(h, lines) && LastLength(h', lines)
    ensures h.length == h'.length
  {
    if k :| LengthFrom(h, lines, k) {
      if k' :| LengthFrom(h', lines, k') {
        assert k == k';
      }
    }
  }

  lemma HostsAgree(h: Headers, h': Headers, lines: seq<string>)
    requires LastHost(h, lines) && LastHost(h', lines)
    ensures h.host == h'.host
  {
    if k :| HostFrom(h, lines, k) {
      if k' :| HostFrom(h', lines, k') {
        assert k == k';
      }
    }
  }

  /** What the parser has stored after some header lines, when it had h0 before. */
  function StoredBy(h0: Headers, lines: seq<string>): Headers
  {
    if lines == [] then h0
    else TakeHeader(StoredBy(h0, lines[..|lines| - 1]), CString(lines[|lines| - 1]))
  }

  lemma {:induction false} StoredIsDescribed(url: Name, lines: seq<string>)
    ensures Describes(StoredBy(NO_HEADERS.(url := url), lines), url, lines)
  {
    if lines != [] {
      var n := |lines| - 1;
      StoredIsDescribed(url, lines[..n]);
      DescribedMore(StoredBy(NO_HEADERS.(url := url), lines[..n]), url, lines, n);
    }
  }

  /** The names of the three headers exclude each other. */
  lemma NamesExclude(t: string)
    ensures !(HasPrefixFold(t, "Connection:") && NamesLength(t))
    ensures NamesHost(t) ==> !HasPrefixFold(t, "Connection:") && !NamesLength(t)
  {
    var one, two, three := "Connection:", "Content-Length:", "Host:";
    assert ToLower(one[3]) == 'n' && ToLower(two[3]) == 't';
    assert ToLower(one[0]) == ToLower(two[0]) == 'c' && ToLower(three[0]) == 'h';
    assert |t| >= 5 ==> t[..5][0] == t[0];
    assert |t| >= 11 ==> t[..11][3] == t[3] && t[..11][0] == t[0];
    assert |t| >= 15 ==> t[..15][3] == t[3] && t[..15][0] == t[0];
  }

  lemma DescribedMore(h: Headers, url: Name, lines: seq<string>, n: nat)
    requires n == |lines| - 1 && Describes(h, url, lines[..n])
    ensures Describes(TakeHeader(h, CString(lines[n])), url, lines)
  {
    var t := CString(lines[n]);
    var h' := TakeHeader(h, t);
    Taken(h, t);
    hide TakeHeader, CString, NamesLength, NamesHost, KeepAliveLine, LengthIn;
    LingerMore(h, h', lines, n);
    LengthMore(h, h', lines, n);
    HostMore(h, h', lines, n);
  }

  /** Each line changes what it names and nothing else. */
  lemma Taken(h: Headers, t: string)
    ensures var h' := TakeHeader(h, t);
            && h'.linger == (h.linger || KeepAliveLine(t))
            && h'.length == (if NamesLength(t) then LengthIn(t) else h.length)
            && h'.host == (if NamesHost(t) then Known(SkipBlanks(t[5..])) else h.host)
            && h'.url == h.url
  {
    NamesExclude(t);
    hide HasPrefixFold, EqualFold, SkipBlanks, Atol, ToInt;
  }

  lemma LingerMore(h: Headers, h': Headers, lines: seq<string>, n: nat)
    requires n == |lines| - 1 && h'.linger == (h.linger || KeepAliveLine(CString(lines[n])))
    requires h.linger <==> exists i | 0 <= i < n :: KeepAliveLine(CString(lines[..n][i]))
    ensures h'.linger <==> exists i | 0 <= i < |lines| :: KeepAliveLine(CString(lines[i]))
  {
    hide CString, KeepAliveLine;
    var init := lines[..n];
    if i :| 0 <= i < n && KeepAliveLine(CString(init[i])) {
      assert KeepAliveLine(CString(lines[i]));
    }
    if i :| 0 <= i < |lines| && KeepAliveLine(CString(lines[i])) {
      assert i < n ==> KeepAliveLine(CString(init[i]));
    }
  }

  lemma LengthMore(h: Headers, h': Headers, lines: seq<string>, n: nat)
    requires n == |lines| - 1 && LastLength(h, lines[..n])
    requires if NamesLength(CString(lines[n])) then h'.length == LengthIn(CString(lines[n])) else h'.length == h.length
    ensures LastLength(h', lines)
  {
    hide CString, NamesLength, LengthIn;
    var init := lines[..n];
    if NamesLength(CString(lines[n])) {
      assert LengthFrom(h', lines, n);
    } else if k :| LengthFrom(h, init, k) {
      assert LengthFrom(h', lines, k);
    } else {
      assert forall i | 0 <= i < n :: lines[i] == init[i];
    }
  }

  lemma HostMore(h: Headers, h': Headers, lines: seq<string>, n: nat)
    requires n == |lines| - 1 && LastHost(h, lines[..n])
    requires var t := CString(lines[n]);
             h'.host == if NamesHost(t) then Known(SkipBlanks(t[5..])) else h.host
    ensures LastHost(h', lines)
  {
    hide CString, SkipBlanks;
    var init := lines[..n];
    if NamesHost(CString(lines[n])) {
      assert HostFrom(h', lines, n);
    } else if k :| HostFrom(h, init, k) {
      assert HostFrom(h', lines, k);
    } else {
      assert forall i | 0 <= i < n :: lines[i] == init[i];
    }
  }

  /** The path that a request line names. */
  function PathIn(line: string): Name
    requires ScanRequestLine(CString(line))
  {
    Known(PathOf(UrlOf(CString(line))))
  }

  /** What is stored after the complete lines of an unfinished request. */
  ghost function StoredAfter(lines: seq<string>): Headers
    requires Unfinished(lines)
  {
    if lines == [] then NO_HEADERS
    else
      ScanMeetsGrammar(CString(lines[0]));
      StoredBy(NO_HEADERS.(url := PathIn(lines[0])), lines[1..])
  }

  /** Good lines only move the reader on, with their headers stored. */
  lemma {:induction false} ReadFramed(lines: seq<string>, t: string)
    requires Unfinished(lines)
    ensures Read(RequestLine, NO_HEADERS, Framed(lines) + t) == Read(StateAfter(lines), StoredAfter(lines), t)
    ensures Stuck(RequestLine, Framed(lines) + t) == Stuck(StateAfter(lines), t)
    decreases |lines|
  {
    hide StoredAfter, Unfinished, NextLine, CString, ScanRequestLine, TakeHeader, TakeRequestLine;
    if lines == [] {
      assert Framed(lines) + t == t;
      NothingStored();
    } else {
      var init, last := lines[..|lines| - 1], lines[|lines| - 1];
      assert lines == init + [last];
      UnfinishedBefore(lines, init, last);
      FramedConcat(init, last, t);
      ReadFramed(init, last + ("\r\n" + t));
      RunOneLine(last, t);
    }
  }

  lemma NothingStored()
    ensures Unfinished([]) && StoredAfter([]) == NO_HEADERS
  {
  }

  lemma UnfinishedBefore(lines: seq<string>, init: seq<string>, last: string)
    requires Unfinished(lines) && lines == init + [last]
    ensures Unfinished(init) && Plain(last)
    ensures if init == [] then ScanRequestLine(CString(last)) else CString(last) != []
    ensures StoredAfter(lines) ==
      if init == [] then TakeRequestLine(StoredAfter(init), CString(last))
      else TakeHeader(StoredAfter(init), CString(last))
  {
    hide CString, Plain, ScanRequestLine, IsRequestLine, TakeHeader, PathOf, UrlOf;
    ScanMeetsGrammar(CString(lines[0]));
    assert last in lines;
    assert forall line <- init :: line in lines;
    if init != [] {
      assert lines[1..] == init[1..] + [last];
      assert last in lines[1..];
      assert lines[1..][..|lines| - 2] == init[1..];
    }
  }

  /** The lines of a request with these headers: a request line that names the URL's path,
      header lines that describe the others, and a blank line. */
  ghost predicate RequestOf(s: string, h: Headers, rest: string, lines: seq<string>, blank: string)
  {
    && RequestThen(s, lines, blank, rest) && ScanRequestLine(CString(lines[0]))
    && Describes(h, PathIn(lines[0]), lines[1..])
  }

  /** A stream is read as a request with these headers exactly when it consists of such lines. */
  lemma HeadersMeaning(s: string, h: Headers, rest: string)
    ensures Read(RequestLine, NO_HEADERS, s) == Request(h, rest)
      <==> exists lines, blank :: RequestOf(s, h, rest, lines, blank)
  {
    hide Read, Describes, PathIn, StoredBy;
    if lines, blank :| RequestOf(s, h, rest, lines, blank) {
      ReadsRequest(s, lines, blank, rest);
      StoredIsDescribed(PathIn(lines[0]), lines[1..]);
      DescribesOne(h, StoredBy(NO_HEADERS.(url := PathIn(lines[0])), lines[1..]), PathIn(lines[0]), lines[1..]);
    }
    if Read(RequestLine, NO_HEADERS, s) == Request(h, rest) {
      AgainstSmallParser(RequestLine, NO_HEADERS, s);
      GetMeaning(s);
      var lines, blank, rest' :| RequestThen(s, lines, blank, rest');
      ReadsRequest(s, lines, blank, rest');
      StoredIsDescribed(PathIn(lines[0]), lines[1..]);
      assert RequestOf(s, h, rest, lines, blank);
    }
  }

  lemma ReadsRequest(s: string, lines: seq<string>, blank: string, rest: string)
    requires RequestThen(s, lines, blank, rest)
    ensures ScanRequestLine(CString(lines[0]))
    ensures var h0 := NO_HEADERS.(url := PathIn(lines[0]));
            Read(RequestLine, NO_HEADERS, s) == Request(StoredBy(h0, lines[1..]), rest)
  {
    hide CString, NextLine, ScanRequestLine, StoredBy, TakeHeader, TakeRequestLine, PathIn;
    ScanMeetsGrammar(CString(lines[0]));
    ReadFramed(lines, blank + ("\r\n" + rest));
    RunOneLine(blank, rest);
  }

  /** Good lines, a plain text, and a CR or LF that does not end a line. */
  ghost predicate StrayAfter(s: string, lines: seq<string>, cur: string, rest: string)
  {
    && s == Framed(lines) + (cur + rest) && Unfinished(lines) && Plain(cur)
    && rest != [] && (rest[0] == '\n' || (rest[0] == '\r' && |rest| > 1 && rest[1] != '\n'))
  }

  /** A stream is stuck exactly when such a stray byte follows its good lines. */
  lemma StuckMeaning(s: string)
    ensures Stuck(RequestLine, s) <==> exists lines, cur, rest :: StrayAfter(s, lines, cur, rest)
  {
    if lines, cur, rest :| StrayAfter(s, lines, cur, rest) {
      ReadFramed(lines, cur + rest);
      NextLineOf(cur, rest);
    }
    if Stuck(RequestLine, s) {
      assert Framed([]) + s == s;
      var lines, cur, rest := FindStray([], s);
    }
  }

  lemma {:induction false} FindStray(lines: seq<string>, t: string)
    returns (more: seq<string>, cur: string, rest: string)
    requires Unfinished(lines) && Stuck(StateAfter(lines), t)
    ensures StrayAfter(Framed(lines) + t, more, cur, rest)
    decreases |t|
  {
    match NextLine(t)
    case Broken =>
      cur, rest := SplitBroken(t);
      more := lines;
    case Line(text, after) =>
      ScanMeetsGrammar(CString(text));
      var next := lines + [text];
      FramedConcat(lines, text, after);
      assert next[0] == if lines == [] then text else lines[0];
      assert next[1..] == if lines == [] then [] else lines[1..] + [text];
      more, cur, rest := FindStray(next, after);
  }

  lemma Continuation(lines: seq<string>, cur: string, rest: string) returns (t: string)
    requires Unfinished(lines) && Plain(cur) && (rest == [] || rest == "\r")
    ensures !Read(RequestLine, NO_HEADERS, (Framed(lines) + (cur + rest)) + t).Waiting?
  {
    var end := "\r\n" + "\r\n";
    t := (if rest == [] then "\r\n" else "\n") + "\r\n";
    assert rest + t == end;
    Assoc(Framed(lines), cur + rest, t);
    Assoc(cur, rest, t);
    ReadFramed(lines, cur + end);
    TwoLineEnds(StateAfter(lines), StoredAfter(lines), cur);
  }

  lemma TwoLineEnds(st: CheckState, h: Headers, cur: string)
    requires Plain(cur)
    ensures !Read(st, h, cur + ("\r\n" + "\r\n")).Waiting?
  {
    hide NextLine, ScanRequestLine, TakeHeader, TakeRequestLine;
    RunOneLine(cur, "\r\n");
    RunOneLine([], []);
    assert [] + ("\r\n" + []) == "\r\n";
  }

  /** A stream can still be answered exactly when it is not stuck: ending its line and adding
      an empty one is enough. */
  lemma AnswerStillPossible(s: string)
    ensures (exists t :: !Read(RequestLine, NO_HEADERS, s + t).Waiting?) <==> !Stuck(RequestLine, s)
  {
    hide Read, Stuck;
    if Stuck(RequestLine, s) {
      forall t: string | true
        ensures Read(RequestLine, NO_HEADERS, s + t).Waiting?
      {
        StuckForGood(RequestLine, NO_HEADERS, s, t);
      }
    } else if Read(RequestLine, NO_HEADERS, s).Waiting? {
      AgainstSmallParser(RequestLine, NO_HEADERS, s);
      OpenMeaning(s);
      var lines, cur, rest :| OpenAfter(s, lines, cur, rest);
      var t := Continuation(lines, cur, rest);
    } else {
      assert s + [] == s;
      assert !Read(RequestLine, NO_HEADERS, s + []).Waiting?;
    }
  }
}
