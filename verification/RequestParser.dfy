/** The request parser of 8/8-3httpparser.cpp: it works in place on a buffer that
    recv fills piece by piece, and resumes where the previous call stopped. */
module RequestParser {
  import opened CText
  import opened RequestGrammar
  import opened Sequences

  datatype LineStatus = LineOk | LineBad | LineOpen

  /** Where the parser stands after some lines: in a state, or nowhere because it gave up. */
  datatype Stand = Nowhere | InState(state: CheckState)

  ghost function After(lines: seq<string>): (r: Stand)
    ensures r.InState? ==> r.state == StateAfter(lines) != Content
  {
    if Unfinished(lines) then InState(StateAfter(lines)) else Nowhere
  }

  /** What one recv delivers. */
  datatype Received = Failed | Closed | Data(bytes: string)

  datatype Answer = Unanswered | Answered(code: HttpCode)

  /** The local variables of main for one accepted client. */
  class Session {
    const buffer: array<char>
    var readIndex: nat
    var checkedIndex: nat
    var startLine: nat
    var checkState: CheckState
    /** Every byte received so far, as it arrived: the completed lines, then the rest. */
    ghost var stream: string
    ghost var lines: seq<string>
    ghost var pending: string

    /** The parser has got past `lines`; `pending` is what it still has to read. */
    ghost predicate Positioned()
      reads this, buffer
    {
      && After(lines) == InState(checkState)
      && stream == Framed(lines) + pending
      && startLine == |Framed(lines)|
      && startLine <= checkedIndex <= readIndex == startLine + |pending| <= buffer.Length
    }

    ghost predicate Valid()
      reads this, buffer
    {
      && Positioned()
      && (forall i | startLine <= i < readIndex :: buffer[i] == stream[i])
      && PlainUpTo(pending, checkedIndex - startLine)
      && (startLine > 0 ==> buffer[startLine - 1] == NUL)
    }

    /** The state right after parse_line completed the line `next`. */
    ghost predicate Completed(next: Scan)
      reads this, buffer
    {
      && Positioned()
      && next == NextLine(pending) && next.Line?
      && checkedIndex == startLine + |next.text| + 2
      && StringAt(buffer[..], startLine) == CString(next.text)
      && buffer[checkedIndex - 1] == NUL
      && (forall i | checkedIndex <= i < readIndex :: buffer[i] == stream[i])
    }

    constructor (size: nat)
      ensures Valid() && fresh(buffer) && buffer.Length == size && readIndex == 0 && stream == []
    {
      buffer := new char[size](_ => NUL);
      readIndex, checkedIndex, startLine := 0, 0, 0;
      checkState := RequestLine;
      stream, lines, pending := [], [], [];
    }

    /** recv: new bytes follow the ones already in the buffer. */
    method Receive(bytes: string)
      requires Valid() && readIndex + |bytes| <= buffer.Length
      modifies buffer, `readIndex, `stream, `pending
      ensures Valid()
      ensures stream == old(stream) + bytes && readIndex == old(readIndex) + |bytes|
    {
      hide After, Framed;
      forall i | 0 <= i < |bytes| {
        buffer[readIndex + i] := bytes[i];
      }
      Assoc(Framed(lines), pending, bytes);
      stream, pending := stream + bytes, pending + bytes;
      readIndex := readIndex + |bytes|;
    }

    /** The two NULs written over CR LF end the line. */
    method EndLine()
      requires Valid() && checkedIndex + 1 < readIndex
      requires buffer[checkedIndex] == '\r' && buffer[checkedIndex + 1] == '\n'
      modifies buffer, `checkedIndex
      ensures Completed(NextLine(pending))
    {
      hide After, Framed, CString, StringAt, NextLine, Plain;
      ghost var k := checkedIndex - startLine;
      buffer[checkedIndex] := NUL;
      checkedIndex := checkedIndex + 1;
      buffer[checkedIndex] := NUL;
      checkedIndex := checkedIndex + 1;
      LineCompleted(buffer[..], Framed(lines), pending, k);
    }

    method ParseLine() returns (status: LineStatus)
      requires Valid()
      modifies buffer, `checkedIndex
      ensures match status
              case LineOpen => NextLine(pending).Open? && Valid()
              case LineBad => NextLine(pending).Broken?
              case LineOk => Completed(NextLine(pending))
    {
      hide After, Framed, CString, StringAt, NextLine, Plain;
      while checkedIndex < readIndex
        invariant Valid()
        invariant buffer[..] == old(buffer[..])
      {
        var temp := buffer[checkedIndex];
        ghost var k := checkedIndex - startLine;
        if temp == '\r' {
          NextLineAt(pending, k);
          if checkedIndex + 1 == readIndex {
            return LineOpen;
          } else if buffer[checkedIndex + 1] == '\n' {
            EndLine();
            return LineOk;
          }
          return LineBad;
        } else if temp == '\n' {
          NextLineAt(pending, k);
          if checkedIndex > 1 && buffer[checkedIndex - 1] == '\r' {
            assert false;  // a CR never waits before the index: it is kept, consumed or refused
          }
          return LineBad;
        }
        checkedIndex := checkedIndex + 1;
      }
      NextLineAt(pending, |pending|);
      return LineOpen;
    }

    /** text names the C string at szTemp: the line just completed. */
    method ParseRequestLine(szTemp: nat, ghost text: string) returns (code: HttpCode)
      requires szTemp + |text| < buffer.Length && text == StringAt(buffer[..], szTemp)
      modifies buffer, `checkState
      ensures code == if ScanRequestLine(text) then NoRequest else BadRequest
      ensures checkState == if ScanRequestLine(text) then Header else old(checkState)
      ensures forall i | 0 <= i < buffer.Length && !(szTemp <= i < szTemp + |text|) :: buffer[i] == old(buffer[i])
    {
      var szURL := CutWord(buffer, szTemp, text);
      if szURL.Null? || !EqualFold(StringAt(buffer[..], szTemp), "GET") {
        return BadRequest;
      }
      code := ParseTarget(szURL.pos, StringAt(buffer[..], szURL.pos));
    }

    /** The second half of parse_requestline: version, then URL. */
    method ParseTarget(szURL: nat, ghost target: string) returns (code: HttpCode)
      requires szURL + |target| < buffer.Length && target == StringAt(buffer[..], szURL)
      modifies buffer, `checkState
      ensures code == if ScanUrl(target) then NoRequest else BadRequest
      ensures checkState == if ScanUrl(target) then Header else old(checkState)
      ensures forall i | 0 <= i < buffer.Length && !(szURL <= i < szURL + |target|) :: buffer[i] == old(buffer[i])
    {
      var szVersion := CutWord(buffer, szURL, target);
      if szVersion.Null? || !EqualFold(StringAt(buffer[..], szVersion.pos), "HTTP/1.1") {
        return BadRequest;
      }
      var path := UrlPath(buffer[..], szURL);
      if path.Null? || buffer[path.pos] != '/' {
        return BadRequest;
      }
      checkState := Header;
      return NoRequest;
    }

    method ParseHeaders(szTemp: nat) returns (code: HttpCode)
      requires szTemp < buffer.Length
      ensures code == if StringAt(buffer[..], szTemp) == [] then GetRequest else NoRequest
    {
      if buffer[szTemp] == NUL {
        return GetRequest;
      }
      return NoRequest;  // the Host value and unknown headers are only printed
    }

    /** The body of the loop of parse_content: the switch over one completed line. */
    method TakeLine(ghost next: Scan) returns (code: HttpCode)
      requires Completed(next)
      modifies buffer, `startLine, `checkState, `lines, `pending
      ensures code == NoRequest || code == BadRequest || code == GetRequest
      ensures Run(old(checkState), old(pending)) == if code == NoRequest then Run(checkState, pending) else code
      ensures code == NoRequest ==> Valid()
      ensures |pending| < old(|pending|)
    {
      hide After, Framed, CString, StringAt, NextLine, ScanRequestLine, Plain;
      assert pending == next.text + ("\r\n" + next.rest);
      var szTemp := startLine;
      startLine := checkedIndex;
      match checkState {
        case RequestLine =>
          code := ParseRequestLine(szTemp, CString(next.text));
        case Header =>
          code := ParseHeaders(szTemp);
        case Content =>
          assert false;  // no transition enters this state
      }
      ghost var extended := Extend(lines, next.text, next.rest);
      if code == NoRequest {
        ExtendUnfinished(lines, next.text);
      }
      lines, pending := extended, next.rest;
    }

    lemma Resumed()
      requires Valid()
      ensures Verdict(stream) == Run(checkState, pending)
    {
      RunFramed(lines, pending);
    }

    /** Parses as far as the received bytes allow. */
    method ParseContent() returns (code: HttpCode)
      requires Valid()
      modifies buffer, `checkedIndex, `startLine, `checkState, `lines, `pending
      ensures code == Verdict(stream)
      ensures code == NoRequest ==> Valid()
    {
      hide After, Framed, NextLine, CString, ScanRequestLine, StringAt;
      Resumed();
      while true
        invariant Valid()
        invariant Verdict(stream) == Run(checkState, pending)
        decreases |pending|
      {
        var lineStatus := ParseLine();
        if lineStatus == LineBad {
          return BadRequest;
        } else if lineStatus == LineOpen {
          return NoRequest;
        }
        code := TakeLine(NextLine(pending));
        if code != NoRequest {
          return;
        }
      }
    }
  }

  // ---------- the accept loop of main ----------

  /** The bytes that arrive before the peer closes or recv fails. */
  function Delivered(recvs: seq<Received>): string
  {
    if recvs == [] || !recvs[0].Data? then [] else recvs[0].bytes + Delivered(recvs[1..])
  }

  /** recv returns between 1 byte and as many as there is room for; with no room left it is
      asked for 0 bytes and returns 0, which main takes for a close. */
  predicate RecvContract(recvs: seq<Received>, room: nat)
  {
    recvs != [] && recvs[0].Data? ==>
      1 <= |recvs[0].bytes| <= room && RecvContract(recvs[1..], room - |recvs[0].bytes|)
  }

  /** Whatever pieces recv returns before it returns anything else are delivered, all of them
      and nothing behind. */
  lemma {:induction false} DeliveredIs(datas: seq<string>, end: seq<Received>)
    requires end != [] ==> !end[0].Data?
    ensures Delivered(seq(|datas|, i requires 0 <= i < |datas| => Data(datas[i])) + end) == Join(datas)
  {
    var recvs := seq(|datas|, i requires 0 <= i < |datas| => Data(datas[i])) + end;
    if datas != [] {
      var rest := datas[1..];
      assert recvs[1..] == seq(|rest|, i requires 0 <= i < |rest| => Data(rest[i])) + end;
      DeliveredIs(rest, end);
    }
  }

  /** recv may return any non-empty pieces that fit, and then anything but bytes. */
  lemma {:induction false} RecvMay(datas: seq<string>, end: seq<Received>, room: nat)
    requires (forall d <- datas :: d != []) && |Join(datas)| <= room && (end != [] ==> !end[0].Data?)
    ensures RecvContract(seq(|datas|, i requires 0 <= i < |datas| => Data(datas[i])) + end, room)
  {
    var recvs := seq(|datas|, i requires 0 <= i < |datas| => Data(datas[i])) + end;
    if datas != [] {
      var rest := datas[1..];
      assert datas[0] in datas;
      assert forall d <- rest :: d in datas;
      assert recvs[1..] == seq(|rest|, i requires 0 <= i < |rest| => Data(rest[i])) + end;
      RecvMay(rest, end, room - |datas[0]|);
    }
  }

  /** The answer sent to the client depends on the bytes alone, not on how recv cut them. */
  method Serve(recvs: seq<Received>, size: nat) returns (answer: Answer)
    requires RecvContract(recvs, size)
    ensures answer ==
      if Verdict(Delivered(recvs)) == NoRequest then Unanswered else Answered(Verdict(Delivered(recvs)))
  {
    hide Verdict, Session.Valid;
    NothingYet();
    var session := new Session(size);
    var i := 0;
    while i < |recvs|
      invariant 0 <= i <= |recvs|
      invariant session.Valid() && fresh(session) && fresh(session.buffer) && session.buffer.Length == size
      invariant session.readIndex <= size && RecvContract(recvs[i..], size - session.readIndex)
      invariant Delivered(recvs) == session.stream + Delivered(recvs[i..])
      invariant Verdict(session.stream) == NoRequest
    {
      assert recvs[i..][1..] == recvs[i + 1..];
      if !recvs[i].Data? {
        assert session.stream + [] == session.stream;
        return Unanswered;
      }
      var bytes := recvs[i].bytes;
      Assoc(session.stream, bytes, Delivered(recvs[i + 1..]));
      session.Receive(bytes);
      var result := session.ParseContent();
      if result != NoRequest {
        VerdictStable(session.stream, Delivered(recvs[i + 1..]));
        return Answered(result);
      }
      i := i + 1;
    }
    assert recvs[i..] == [] && session.stream + [] == session.stream;
    return Unanswered;
  }

  lemma NothingYet()
    ensures Verdict([]) == NoRequest
  {
  }

  lemma VerdictStable(s: string, t: string)
    requires Verdict(s) != NoRequest
    ensures Verdict(s + t) == Verdict(s)
  {
    RunStable(RequestLine, s, t);
  }

  /** strpbrk, a NUL in place of the blank, strspn: cuts the word t at p off the
      rest of its line and returns where the rest begins. */
  method CutWord(buffer: array<char>, p: nat, ghost t: string) returns (rest: Pointer)
    requires p + |t| < buffer.Length && t == StringAt(buffer[..], p)
    modifies buffer
    ensures rest == Null <==> FirstBlank(t) == |t|
    ensures rest.At? ==>
      && StringAt(buffer[..], p) == t[..FirstBlank(t)]
      && p < rest.pos <= p + |t|
      && StringAt(buffer[..], rest.pos) == SkipBlanks(t[FirstBlank(t) + 1..])
      && rest.pos + |StringAt(buffer[..], rest.pos)| == p + |t|
    ensures forall i | 0 <= i < buffer.Length && !(p <= i < p + |t|) :: buffer[i] == old(buffer[i])
  {
    hide CString, StringAt, FirstBlank, BlankSpan;
    ghost var b := buffer[..];
    var blank := Strpbrk(buffer[..], p);
    if blank.Null? {
      return Null;
    }
    var word := blank.pos;
    buffer[word] := NUL;
    SplitString(b, buffer[..], p, word - p);
    word := word + 1;
    var past := PastBlanks(buffer[..], word);
    SuffixString(buffer[..], word, past - word);
    return At(past);
  }

  lemma AfterScheme(b: seq<char>, szURL: nat)
    requires szURL <= |b| && HasPrefixFold(StringAt(b, szURL), "http://")
    ensures var url := StringAt(b, szURL);
            var k := FirstOf(url[7..], '/');
            && url[0] != '/' && StringAt(b, szURL + 7) == url[7..]
            && (k < |url[7..]| ==>
                  var path := StringAt(b, szURL + 7 + k); IsPathOf(path, url) && 7 + k + |path| == |url|)
  {
    hide CString, StringAt;
    var url := StringAt(b, szURL);
    SuffixString(b, szURL, 7);
    assert ToLower(url[..7][0]) == ToLower('h');
    var k := FirstOf(url[7..], '/');
    if k < |url[7..]| {
      SuffixString(b, szURL, 7 + k);
      assert url[7..7 + k] == url[7..][..k];
    }
  }

  /** The URL after an optional "http://" and host. */
  function UrlPath(b: seq<char>, szURL: nat): (path: Pointer)
    requires szURL <= |b|
    ensures path.At? ==> szURL <= path.pos <= szURL + |StringAt(b, szURL)|
    ensures szURL + |StringAt(b, szURL)| < |b| ==>
      (UrlAccepted(StringAt(b, szURL)) <==> path.At? && b[path.pos] == '/')
  {
    hide CString, StringAt, HasPrefixFold, IsPathOf;
    var url := StringAt(b, szURL);
    if HasPrefixFold(url, "http://") then
      AfterScheme(b, szURL);
      Strchr(b, szURL + 7, '/')
    else
      At(szURL)
  }

  /** The pointer found names the path of the URL. */
  lemma PathFound(b: seq<char>, szURL: nat)
    requires szURL <= |b| && szURL + |StringAt(b, szURL)| < |b| && UrlAccepted(StringAt(b, szURL))
    ensures var path := UrlPath(b, szURL);
            && path.At? && IsPathOf(StringAt(b, path.pos), StringAt(b, szURL))
            && path.pos + |StringAt(b, path.pos)| == szURL + |StringAt(b, szURL)|
  {
    hide CString, StringAt, HasPrefixFold, FirstOf, IsPathOf;
    var url := StringAt(b, szURL);
    if HasPrefixFold(url, "http://") {
      AfterScheme(b, szURL);
      assert '/' in url[7..];
    } else {
      WholePath(url);
    }
  }

  lemma WholePath(url: string)
    requires UrlAccepted(url) && !HasPrefixFold(url, "http://")
    ensures IsPathOf(url, url)
  {
  }

  /** The completed line is a C string in the buffer. */
  lemma LineCompleted(b: seq<char>, earlier: string, pending: string, k: nat)
    requires |earlier| + k < |b| && b[|earlier| + k] == NUL
    requires k + 1 < |pending| && PlainUpTo(pending, k) && pending[k] == '\r' && pending[k + 1] == '\n'
    requires forall i | |earlier| <= i < |earlier| + k :: b[i] == (earlier + pending)[i]
    ensures var next := NextLine(pending);
            next.Line? && |next.text| == k && StringAt(b, |earlier|) == CString(next.text)
  {
    NextLineAt(pending, k);
    assert b[|earlier|..] == pending[..k] + b[|earlier| + k..];
    CStringCut(pending[..k], b[|earlier| + k..]);
  }

  lemma {:induction false} CStringCut(t: string, r: string)
    requires r != [] && r[0] == NUL
    ensures CString(t + r) == CString(t)
  {
    if t == [] {
      assert t + r == r;
    } else {
      assert (t + r)[1..] == t[1..] + r;
      CStringCut(t[1..], r);
    }
  }

  /** A completed line joins the earlier ones. */
  lemma Extend(lines: seq<string>, text: string, rest: string) returns (extended: seq<string>)
    ensures extended == lines + [text]
    ensures Framed(extended) + rest == Framed(lines) + (text + ("\r\n" + rest))
    ensures |Framed(extended)| == |Framed(lines)| + |text| + 2
  {
    extended := lines + [text];
    FramedConcat(lines, text, rest);
  }

  lemma ExtendUnfinished(lines: seq<string>, text: string)
    requires After(lines) != Nowhere && Plain(text)
    requires if After(lines) == InState(RequestLine) then ScanRequestLine(CString(text)) else CString(text) != []
    ensures After(lines + [text]) == InState(Header)
  {
    hide CString, ScanRequestLine, IsRequestLine, Plain;
    var extended := lines + [text];
    ScanMeetsGrammar(CString(text));
    assert extended[0] == if lines == [] then text else lines[0];
    assert extended[1..] == if lines == [] then [] else lines[1..] + [text];
    assert Unfinished(extended);
  }
}
