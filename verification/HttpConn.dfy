/** The HTTP connection of 15/15-5http_conn.cpp: reading a request up to its blank line, and
    writing the response headers and the short replies. */
module HttpConn {
  import opened CText
  import opened RequestGrammar
  import opened Sequences
  import opened RequestParser
  import opened HeaderText
  import opened RequestBody
  import opened Replies

  datatype Method = GET | POST | HEAD | PUT | DELETE | TRACE | OPTIONS | CONNECT | PATCH

  class Conn {
    const readBuf: array<char>
    var readIdx: nat
    var checkedIdx: nat
    var startLine: nat
    const writeBuf: array<char>
    var writeIdx: nat
    var checkState: CheckState
    var verb: Method
    var url: Pointer
    var host: Pointer
    var contentLength: int
    var linger: bool
    /** The lengths of the pieces writev is given. */
    var iov: seq<int>
    /** Every byte received since init. */
    ghost var stream: string

    // ---------- reading ----------

    ghost function Pending(): string
      reads this, readBuf
      requires startLine <= readIdx <= readBuf.Length
    {
      readBuf[startLine..readIdx]
    }

    ghost predicate Scanning()
      reads this, readBuf
    {
      && startLine <= checkedIdx <= readIdx <= readBuf.Length
      && PlainUpTo(Pending(), checkedIdx - startLine)
      && (startLine > 0 ==> readBuf[startLine - 1] != '\r')
    }

    /** The bytes the line scanner has not passed. */
    ghost function Ahead(): string
      reads `checkedIdx, `readIdx, readBuf
      requires checkedIdx <= readIdx <= readBuf.Length
    {
      readBuf[checkedIdx..readIdx]
    }

    /** What the parser has stored; m_url and m_host point into the read buffer. */
    ghost function Stored(): Headers
      reads `contentLength, `linger, `url, `host, readBuf
    {
      Headers(contentLength, linger, NameAt(readBuf[..], url), NameAt(readBuf[..], host))
    }

    /** The stored names and their NULs lie before position m. */
    ghost predicate Kept(m: nat)
      reads `url, `host, readBuf
    {
      EndsBefore(readBuf[..], url, m) && EndsBefore(readBuf[..], host, m)
    }

    /** What follows is read as it would be read behind the whole stream. */
    ghost predicate Resumes(pending: string)
      reads `stream, `checkState, `contentLength, `linger, `url, `host, readBuf
    {
      ReadOnAs(stream, checkState, Stored(), pending)
    }

    ghost predicate Valid()
      reads this, readBuf
    {
      && Scanning() && Resumes(Pending()) && Kept(startLine)
      && checkState != Content && verb == GET
      && readBuf != writeBuf
    }

    constructor (readSize: nat, writeSize: nat)
      requires writeSize > 1
      ensures Valid() && fresh(readBuf) && fresh(writeBuf) && readBuf.Length == readSize && writeBuf.Length == writeSize
      ensures stream == [] && readIdx == 0 && Stored() == NO_HEADERS && Writable() && Text() == []
    {
      readBuf := new char[readSize](_ => NUL);
      writeBuf := new char[writeSize](_ => NUL);
      readIdx, checkedIdx, startLine, writeIdx := 0, 0, 0, 0;
      checkState, verb, url, host := RequestLine, GET, Null, Null;
      contentLength, linger := 0, false;
      iov, stream := [], [];
    }

    /** init: a kept connection starts its next request afresh. */
    method Init()
      requires readBuf != writeBuf && writeBuf.Length > 1
      modifies this, readBuf, writeBuf
      ensures Valid() && Stored() == NO_HEADERS && checkState == RequestLine && stream == [] && readIdx == 0
      ensures Writable() && Text() == []
    {
      hide Read, Resumes, ReadOnAs, StringAt, CString;
      checkState, linger := RequestLine, false;
      verb, url, host, contentLength := GET, Null, Null, 0;
      startLine, checkedIdx, readIdx, writeIdx := 0, 0, 0, 0;
      Clear(readBuf);
      Clear(writeBuf);
      stream := [];
      FreshResumes();
      assert Pending() == [];
    }

    lemma FreshResumes()
      requires stream == [] && checkState == RequestLine && Stored() == NO_HEADERS
      ensures Resumes([])
    {
    }

    /** recv: new bytes follow the ones already in the buffer. */
    method Receive(bytes: string)
      requires Valid() && readIdx + |bytes| <= readBuf.Length
      modifies readBuf, `readIdx, `stream
      ensures Valid() && stream == old(stream) + bytes && readIdx == old(readIdx) + |bytes|
    {
      hide ReadOnAs, NameAt, EndsBefore;
      ghost var pending, b := Pending(), readBuf[..];
      forall i | 0 <= i < |bytes| {
        readBuf[readIdx + i] := bytes[i];
      }
      NamesKept(b, readBuf[..], url, host, startLine);
      ReadOnMore(stream, checkState, Stored(), pending, bytes);
      stream := stream + bytes;
      readIdx := readIdx + |bytes|;
      assert Pending() == pending + bytes;
    }

    /** The state right after parse_line completed the line `next`. */
    ghost predicate LineReady(next: Scan)
      reads this, readBuf
    {
      && next.Line?
      && startLine + |next.text| + 2 == checkedIdx <= readIdx <= readBuf.Length
      && StringAt(readBuf[..], startLine) == CString(next.text)
      && readBuf[checkedIdx - 1] == NUL
      && readBuf[checkedIdx..readIdx] == next.rest
    }

    /** The two NULs written over CR LF end the line. */
    method EndLine()
      requires Scanning() && checkedIdx + 1 < readIdx
      requires readBuf[checkedIdx] == '\r' && readBuf[checkedIdx + 1] == '\n'
      modifies readBuf, `checkedIdx
      ensures LineReady(NextLine(old(Pending()))) && readBuf[..startLine] == old(readBuf[..startLine])
    {
      hide CString, StringAt, NextLine, Plain;
      ghost var b, k := readBuf[..], checkedIdx - startLine;
      readBuf[checkedIdx] := NUL;
      checkedIdx := checkedIdx + 1;
      readBuf[checkedIdx] := NUL;
      checkedIdx := checkedIdx + 1;
      LineCut(b, readBuf[..], startLine, k, readIdx);
    }

    /** No CR waits right before the index: it is kept, consumed or refused. */
    lemma NotCrBefore()
      requires Scanning()
      ensures checkedIdx > 0 ==> readBuf[checkedIdx - 1] != '\r'
    {
      if checkedIdx > startLine {
        assert readBuf[checkedIdx - 1] == Pending()[checkedIdx - 1 - startLine];
      }
    }

    method ParseLine() returns (status: LineStatus)
      requires Scanning()
      modifies readBuf, `checkedIdx
      ensures match status
              case LineOpen => NextLine(old(Pending())).Open? && Scanning() && readBuf[..] == old(readBuf[..])
              case LineBad => NextLine(old(Pending())).Broken? && Scanning() && readBuf[..] == old(readBuf[..])
              case LineOk => LineReady(NextLine(old(Pending())))
      ensures status != LineOk ==> Ahead() == Unscanned(old(Pending()))
      ensures startLine <= readBuf.Length && readBuf[..startLine] == old(readBuf[..startLine])
    {
      hide CString, StringAt, NextLine, Plain, PlainUpTo, Unscanned;
      while checkedIdx < readIdx
        invariant Scanning() && readBuf[..] == old(readBuf[..])
      {
        var temp := readBuf[checkedIdx];
        ghost var k := checkedIdx - startLine;
        assert Pending()[k] == temp;
        if temp == '\r' {
          NextLineAt(Pending(), k);
          if checkedIdx + 1 == readIdx {
            StoppedAt(k);
            return LineOpen;
          } else if readBuf[checkedIdx + 1] == '\n' {
            EndLine();
            return LineOk;
          }
          StoppedAt(k);
          return LineBad;
        } else if temp == '\n' {
          NextLineAt(Pending(), k);
          NotCrBefore();
          if checkedIdx > 1 && readBuf[checkedIdx - 1] == '\r' {
            assert false;
          }
          StoppedAt(k);
          return LineBad;
        }
        PlainMore(Pending(), k);
        checkedIdx := checkedIdx + 1;
      }
      NextLineAt(Pending(), |Pending()|);
      StoppedAt(|Pending()|);
      return LineOpen;
    }

    /** The scanner stands where it cannot go on. */
    lemma StoppedAt(k: nat)
      requires Scanning() && k == checkedIdx - startLine
      requires checkedIdx < readIdx ==> readBuf[checkedIdx] == '\n' || readBuf[checkedIdx] == '\r'
      requires checkedIdx + 1 < readIdx && readBuf[checkedIdx] == '\r' ==> readBuf[checkedIdx + 1] != '\n'
      ensures Ahead() == Unscanned(Pending())
    {
      PassPlain(Pending(), k);
      assert Pending()[k..] == Ahead();
    }

    /** The method, then the rest of the request line. */
    method ParseRequestLine(text: nat, ghost t: string) returns (code: Code)
      requires text + |t| < readBuf.Length && t == StringAt(readBuf[..], text) && verb == GET
      modifies readBuf, `checkState, `url, `verb
      ensures verb == GET
      ensures code == if ScanRequestLine(t) then Code.NoRequest else Code.BadRequest
      ensures checkState == if ScanRequestLine(t) then Header else old(checkState)
      ensures ScanRequestLine(t) ==>
        NameAt(readBuf[..], url) == Known(PathOf(UrlOf(t))) && EndsBefore(readBuf[..], url, text + |t| + 1)
      ensures forall i | 0 <= i < readBuf.Length && !(text <= i < text + |t|) :: readBuf[i] == old(readBuf[i])
    {
      hide CString, StringAt, FirstBlank, BlankSpan, ScanUrl, EqualFold, PathOf, SkipBlanks, UrlAccepted;
      hide NameAt, EndsBefore;
      url := CutWord(readBuf, text, t);
      if url.Null? {
        return Code.BadRequest;
      }
      if EqualFold(StringAt(readBuf[..], text), "GET") {
        verb := GET;
      } else {
        return Code.BadRequest;
      }
      code := ParseTarget(url.pos, StringAt(readBuf[..], url.pos));
    }

    method ParseTarget(start: nat, ghost target: string) returns (code: Code)
      requires start + |target| < readBuf.Length && target == StringAt(readBuf[..], start)
      modifies readBuf, `checkState, `url
      ensures code == if ScanUrl(target) then Code.NoRequest else Code.BadRequest
      ensures checkState == if ScanUrl(target) then Header else old(checkState)
      ensures ScanUrl(target) ==>
        && NameAt(readBuf[..], url) == Known(PathOf(target[..FirstBlank(target)]))
        && EndsBefore(readBuf[..], url, start + |target| + 1)
      ensures forall i | 0 <= i < readBuf.Length && !(start <= i < start + |target|) :: readBuf[i] == old(readBuf[i])
    {
      hide CString, StringAt, FirstBlank, BlankSpan, UrlPath, IsPathOf, PathOf;
      var version := CutWord(readBuf, start, target);
      if version.Null? || !EqualFold(StringAt(readBuf[..], version.pos), "HTTP/1.1") {
        return Code.BadRequest;
      }
      url := UrlPath(readBuf[..], start);
      if UrlAccepted(StringAt(readBuf[..], start)) {
        PathFound(readBuf[..], start);
        ghost var word := StringAt(readBuf[..], start);
        PathIsUnique(StringAt(readBuf[..], url.pos), PathOf(word), word);
      }
      if url.Null? || readBuf[url.pos] != '/' {
        return Code.BadRequest;
      }
      checkState := Header;
      return Code.NoRequest;
    }

    method ParseHeaders(text: nat) returns (code: Code)
      requires text < readBuf.Length
      modifies `checkState, `linger, `contentLength, `host
      ensures var t := StringAt(readBuf[..], text);
              if t == [] then
                && Stored() == old(Stored())
                && code == (if verb == HEAD || contentLength == 0 then Code.GetRequest else Code.NoRequest)
                && checkState == (if code == Code.GetRequest then old(checkState) else Content)
              else code == Code.NoRequest && checkState == old(checkState) && Stored() == TakeHeader(old(Stored()), t)
      ensures host == old(host) || EndsBefore(readBuf[..], host, text + |StringAt(readBuf[..], text)| + 1)
    {
      hide CString, StringAt, BlankSpan, EqualFold, Atol, ToInt, PastBlanks, SkipBlanks;
      var t := StringAt(readBuf[..], text);
      EmptyAt(readBuf[..], text);
      if readBuf[text] == NUL {
        if verb == HEAD {
          return Code.GetRequest;
        }
        if contentLength != 0 {
          checkState := Content;
          return Code.NoRequest;
        }
        return Code.GetRequest;
      } else if HasPrefixFold(t, "Connection:") {
        ValueAt(readBuf[..], text, 11);
        var value := PastBlanks(readBuf[..], text + 11);
        if EqualFold(StringAt(readBuf[..], value), "keep-alive") {
          linger := true;
        }
      } else if HasPrefixFold(t, "Content-Length:") {
        ValueAt(readBuf[..], text, 15);
        var value := PastBlanks(readBuf[..], text + 15);
        contentLength := ToInt(Atol(StringAt(readBuf[..], value)));
      } else if HasPrefixFold(t, "Host:") {
        ValueAt(readBuf[..], text, 5);
        host := At(PastBlanks(readBuf[..], text + 5));
      }
      return Code.NoRequest;
    }

    /** The switch of process_read over the C string t of a completed line. */
    method Switch(text: nat, ghost t: string) returns (code: Code)
      requires text + |t| < readBuf.Length && t == StringAt(readBuf[..], text)
      requires checkState != Content && verb == GET && Kept(text)
      modifies readBuf, `checkState, `linger, `contentLength, `host, `url, `verb
      ensures verb == GET
      ensures if old(checkState) == RequestLine then
                && code == (if ScanRequestLine(t) then Code.NoRequest else Code.BadRequest)
                && (ScanRequestLine(t) ==> checkState == Header && Stored() == TakeRequestLine(old(Stored()), t))
              else if t == [] then
                && code == (if old(contentLength) == 0 then Code.GetRequest else Code.NoRequest)
                && Stored() == old(Stored())
                && (code == Code.NoRequest ==> checkState == Content && contentLength != 0)
              else code == Code.NoRequest && checkState == Header && Stored() == TakeHeader(old(Stored()), t)
      ensures code != Code.BadRequest ==> Kept(text + |t| + 1)
      ensures forall i | 0 <= i < readBuf.Length && !(text <= i < text + |t|) :: readBuf[i] == old(readBuf[i])
    {
      hide CString, StringAt, ScanRequestLine, TakeHeader, UrlOf, PathOf, SkipBlanks, NameAt;
      ghost var b := readBuf[..];
      match checkState {
        case RequestLine =>
          code := ParseRequestLine(text, t);
          assert readBuf[..text] == b[..text];
          NameKept(b, readBuf[..], host, text);
        case Header =>
          code := ParseHeaders(text);
        case Content =>
          assert false;
      }
    }

    /** One turn of the loop of process_read, over a completed line of what was pending. */
    method TakeLine(ghost pending: string) returns (code: Code)
      requires LineReady(NextLine(pending)) && Resumes(pending) && Kept(startLine)
      requires checkState != Content && verb == GET && readBuf != writeBuf
      modifies readBuf, `startLine, `checkState, `linger, `contentLength, `host, `url, `verb
      ensures code != Code.NoRequest || checkState == Content ==> Reported(code)
      ensures code == Code.NoRequest && checkState != Content ==> Valid() && |Pending()| < |pending|
    {
      hide CString, StringAt, NextLine, ScanRequestLine, Read, TakeHeader, TakeRequestLine;
      hide NameAt, EndsBefore, ReadOnAs;
      ghost var next := NextLine(pending);
      assert pending == next.text + ("\r\n" + next.rest);
      ReadOneLine(stream, checkState, Stored(), pending);
      var text := startLine;
      startLine := checkedIdx;
      code := Switch(text, CString(next.text));
      KeptLater(readBuf[..], url, host, text + |CString(next.text)| + 1, startLine);
      assert readBuf[startLine - 1] == NUL && startLine == checkedIdx;
      assert forall i | checkedIdx <= i < readIdx :: readBuf[i] == old(readBuf[i]);
      assert Ahead() == Pending() == old(readBuf[checkedIdx..readIdx]) == next.rest;
    }

    /** The answer is the one the stream deserves. */
    ghost predicate Reported(code: Code)
      reads this, readBuf
    {
      match Progress(stream)
      case StillReading => false
      case BadSyntax => code == Code.BadRequest
      case Complete(h) => code == Code.GetRequest && h == Stored()
      case BodyNext(h) =>
        && code == Code.NoRequest && h == Stored() && InBody()
        && Ahead() == Read(RequestLine, NO_HEADERS, stream).rest
    }

    /** The blank line announced a body; the scanner may have moved on over a part of it. */
    ghost predicate InBody()
      reads this, readBuf
    {
      Scanning() && Kept(startLine) && checkState == Content && contentLength != 0 && readBuf != writeBuf
    }

    /** process_read up to the blank line: what is there is parsed, and only a stream that is
        not finished (or stuck) leaves the parser waiting. */
    method ProcessRead() returns (code: Code)
      requires Valid()
      modifies readBuf, `checkedIdx, `startLine, `checkState, `linger, `contentLength, `host, `url, `verb
      ensures if Progress(stream).StillReading? then code == Code.NoRequest && Valid() else Reported(code)
      ensures Progress(stream) == BadSyntax <==> code == Code.BadRequest
      ensures Progress(stream).Complete? <==> code == Code.GetRequest
      ensures Progress(stream).BodyNext? ==> code == Code.NoRequest && InBody()
      ensures Progress(stream).Complete? || Progress(stream).BodyNext? ==> Stored() == Progress(stream).h
    {
      hide CString, StringAt, NextLine, Read, NameAt, EndsBefore;
      while true
        invariant Valid()
        decreases |Pending()|
      {
        ghost var pending, b := Pending(), readBuf[..];
        var lineStatus := ParseLine();
        NamesKept(b, readBuf[..], url, host, startLine);
        if lineStatus != LineOk {
          NotALine(pending);
          return Code.NoRequest;
        }
        code := TakeLine(pending);
        if code != Code.NoRequest || checkState == Content {
          return;
        }
      }
    }

    /** recv, while a body is expected. */
    method ReceiveBody(bytes: string)
      requires InBody() && readIdx + |bytes| <= readBuf.Length
      modifies readBuf, `readIdx, `stream
      ensures InBody() && Stored() == old(Stored())
      ensures Ahead() == old(Ahead()) + bytes && readIdx == old(readIdx) + |bytes|
    {
      hide NameAt, EndsBefore;
      ghost var pending, b := Pending(), readBuf[..];
      forall i | 0 <= i < |bytes| {
        readBuf[readIdx + i] := bytes[i];
      }
      NamesKept(b, readBuf[..], url, host, startLine);
      stream := stream + bytes;
      readIdx := readIdx + |bytes|;
      assert Pending() == pending + bytes;
    }

    /** The guard of parse_content. */
    predicate Enough()
      reads `readIdx, `contentLength, `checkedIdx
    {
      readIdx >= contentLength + checkedIdx
    }

    /** If the body is accepted, the NUL behind it is written inside the buffer. */
    predicate NulFits()
      reads `readIdx, `contentLength, `checkedIdx, `startLine
    {
      Enough() ==> 0 <= startLine + contentLength < readBuf.Length
    }

    /** It is, unless the announced length is negative and leads in front of the buffer, or the
        body ends exactly where the buffer does and the scanner has not moved in it. */
    lemma NulFitsExactly()
      requires InBody() && Enough()
      ensures NulFits() <==>
        && startLine + contentLength >= 0
        && !(readIdx == readBuf.Length && startLine == checkedIdx && contentLength == readIdx - checkedIdx)
    {
    }

    method ParseContent(text: nat) returns (code: Code)
      requires checkedIdx <= readIdx <= readBuf.Length
      requires Enough() ==> 0 <= text + contentLength < readBuf.Length
      modifies readBuf
      ensures code == if Enough() then Code.GetRequest else Code.NoRequest
      ensures readBuf[..] == if Enough() then old(readBuf[..])[text + contentLength := NUL] else old(readBuf[..])
    {
      if readIdx >= contentLength + checkedIdx {
        readBuf[text + contentLength] := NUL;
        return Code.GetRequest;
      }
      return Code.NoRequest;
    }

    /** process_read in the body state: accepted if enough bytes follow the scanner's place;
        otherwise the scanner moves on over the body. */
    method ProcessBody() returns (code: Code)
      requires InBody() && NulFits()
      modifies readBuf, `checkedIdx, `startLine
      ensures match Arrive(contentLength, [], old(Ahead()))
              case Answered => code == Code.GetRequest
              case Waits(left) => code == Code.NoRequest && InBody() && Ahead() == left
      ensures contentLength > 0 ==> Stored() == old(Stored())
    {
      hide PlainUpTo, Unscanned, NextLine, NameAt, EndsBefore;
      assert [] + Ahead() == Ahead();
      NotCrBefore();
      code := CheckBody();
      if code == Code.GetRequest {
        return;
      }
      var lineStatus := LineOk;
      while lineStatus == LineOk
        invariant InBody() && !Enough() && Stored() == old(Stored())
        invariant if lineStatus == LineOk then startLine == checkedIdx && Unscanned(Ahead()) == Unscanned(old(Ahead()))
                  else Ahead() == Unscanned(old(Ahead()))
        decreases |Ahead()|, lineStatus == LineOk
      {
        lineStatus := NextBodyLine();
      }
    }

    /** The next line of an incomplete body, if there is one. */
    method NextBodyLine() returns (status: LineStatus)
      requires InBody() && startLine == checkedIdx && !Enough()
      modifies readBuf, `checkedIdx, `startLine
      ensures InBody() && !Enough() && Stored() == old(Stored())
      ensures if status == LineOk then
                startLine == checkedIdx && Unscanned(Ahead()) == Unscanned(old(Ahead())) && |Ahead()| < |old(Ahead())|
              else Ahead() == Unscanned(old(Ahead())) && |Ahead()| <= |old(Ahead())|
    {
      hide PlainUpTo, Unscanned, NextLine, NameAt, EndsBefore;
      ghost var ahead, b := Ahead(), readBuf[..];
      status := ParseLine();
      NamesKept(b, readBuf[..], url, host, startLine);
      if status == LineOk {
        UnscannedByLines(ahead);
        assert |Ahead()| < |ahead|;
        var code := CheckBody();
      }
    }

    /** One turn of the loop in the body state. */
    method CheckBody() returns (code: Code)
      requires checkState == Content && contentLength != 0 && readBuf != writeBuf && Kept(startLine) && NulFits()
      requires startLine <= checkedIdx <= readIdx <= readBuf.Length
      requires checkedIdx > 0 ==> readBuf[checkedIdx - 1] != '\r'
      modifies readBuf, `startLine
      ensures code == if |old(Ahead())| >= contentLength then Code.GetRequest else Code.NoRequest
      ensures code == Code.NoRequest ==> InBody() && startLine == checkedIdx && Ahead() == old(Ahead())
      ensures contentLength > 0 ==> Stored() == old(Stored())
    {
      hide NameAt;
      ghost var b := readBuf[..];
      var text := startLine;
      startLine := checkedIdx;
      code := ParseContent(text);
      if contentLength > 0 {
        assert readBuf[..text] == b[..text];
        NamesKept(b, readBuf[..], url, host, text);
      }
    }

    /** The body as it arrives: first what came with the blank line, then chunk by chunk, with
        a byte to spare in the buffer. */
    method ServeBody(chunks: seq<string>) returns (code: Code)
      requires InBody() && contentLength > 0 && readIdx + |Join(chunks)| < readBuf.Length
      modifies readBuf, `readIdx, `stream, `checkedIdx, `startLine
      ensures match Arrivals(contentLength, [], [old(Ahead())] + chunks)
              case Answered => code == Code.GetRequest
              case Waits(left) => code == Code.NoRequest && InBody() && Ahead() == left
      ensures Stored() == old(Stored())
    {
      hide Unscanned, NameAt, EndsBefore, PlainUpTo, Join;
      ghost var all := [Ahead()] + chunks;
      assert all[1..] == chunks;
      code := ProcessBody();
      var i := 0;
      while code == Code.NoRequest && i < |chunks|
        invariant i <= |chunks| && (code == Code.NoRequest || code == Code.GetRequest)
        invariant Stored() == old(Stored()) && readIdx + |Join(chunks[i..])| < readBuf.Length
        invariant if code == Code.GetRequest then Arrivals(contentLength, [], all) == Body.Answered
                  else InBody() && Arrivals(contentLength, [], all) == Arrivals(contentLength, Ahead(), chunks[i..])
      {
        JoinFrom(chunks, i);
        ghost var left := Ahead();
        assert [] + (left + chunks[i]) == left + chunks[i] && chunks[i..][1..] == chunks[i + 1..];
        ReceiveBody(chunks[i]);
        code := ProcessBody();
        i := i + 1;
      }
    }

    lemma NotALine(pending: string)
      requires Resumes(pending) && !NextLine(pending).Line?
      ensures Progress(stream).StillReading?
    {
      ReadNow(stream, checkState, Stored(), pending);
    }

    // ---------- writing ----------

    /** The bytes that would be sent. */
    ghost function Text(): string
      reads `writeIdx, writeBuf
      requires writeIdx <= writeBuf.Length
    {
      writeBuf[..writeIdx]
    }

    /** A byte that is never used and the terminating NUL always stay free. */
    ghost predicate Writable()
      reads `writeIdx
    {
      writeIdx + 1 < writeBuf.Length
    }

    /** vsnprintf: at most n - 1 bytes of the text, and a NUL. */
    method Vsnprintf(at: nat, n: nat, text: string) returns (len: nat)
      requires 0 < n && at + n <= writeBuf.Length
      modifies writeBuf
      ensures len == |text|
      ensures var shown := Min(len, n - 1);
              && writeBuf[at..at + shown] == text[..shown] && writeBuf[at + shown] == NUL
              && forall i | 0 <= i < writeBuf.Length && !(at <= i <= at + shown) :: writeBuf[i] == old(writeBuf[i])
    {
      var shown := Min(|text|, n - 1);
      forall i | 0 <= i < shown {
        writeBuf[at + i] := text[i];
      }
      writeBuf[at + shown] := NUL;
      return |text|;
    }

    /** A text that does not fit leaves what was accepted and its length alone. */
    method AddResponse(text: string) returns (ok: bool)
      requires Writable()
      modifies writeBuf, `writeIdx
      ensures Writable()
      ensures ok <==> |old(Text())| + |text| + 1 < writeBuf.Length
      ensures Text() == Fill(old(Text()), [text], writeBuf.Length)
      ensures Text() == if ok then old(Text()) + text else old(Text())
    {
      if writeIdx >= writeBuf.Length {
        assert false;
      }
      ghost var was := Text();
      var len := Vsnprintf(writeIdx, writeBuf.Length - 1 - writeIdx, text);
      if len >= writeBuf.Length - 1 - writeIdx {
        assert Text() == was;
        return false;
      }
      assert writeBuf[..writeIdx + len] == writeBuf[..writeIdx] + writeBuf[writeIdx..writeIdx + len];
      writeIdx := writeIdx + len;
      return true;
    }

    method AddStatusLine(status: int, title: string) returns (ok: bool)
      requires Writable()
      modifies writeBuf, `writeIdx
      ensures Writable()
      ensures ok <==> |old(Text())| + |CrLf(StatusLine(status, title))| + 1 < writeBuf.Length
      ensures Text() == Fill(old(Text()), [CrLf(StatusLine(status, title))], writeBuf.Length)
    {
      ok := AddResponse(CrLf(StatusLine(status, title)));
    }

    /** Each line is tried, whether the one before it was accepted or not. */
    method AddHeaders(contentLen: int)
      requires Writable()
      modifies writeBuf, `writeIdx
      ensures Writable()
      ensures Text() == Fill(old(Text()), HeaderPieces(contentLen, linger), writeBuf.Length)
    {
      var a := AddContentLength(contentLen);
      var b := AddLinger();
      var c := AddBlankLine();
    }

    method AddContentLength(contentLen: int) returns (ok: bool)
      requires Writable()
      modifies writeBuf, `writeIdx
      ensures Writable()
      ensures ok <==> |old(Text())| + |CrLf(LengthLine(contentLen))| + 1 < writeBuf.Length
      ensures Text() == Fill(old(Text()), [CrLf(LengthLine(contentLen))], writeBuf.Length)
    {
      ok := AddResponse(CrLf(LengthLine(contentLen)));
    }

    method AddLinger() returns (ok: bool)
      requires Writable()
      modifies writeBuf, `writeIdx
      ensures Writable()
      ensures ok <==> |old(Text())| + |CrLf(LingerLine(linger))| + 1 < writeBuf.Length
      ensures Text() == Fill(old(Text()), [CrLf(LingerLine(linger))], writeBuf.Length)
    {
      ok := AddResponse(CrLf(LingerLine(linger)));
    }

    method AddBlankLine() returns (ok: bool)
      requires Writable()
      modifies writeBuf, `writeIdx
      ensures Writable()
      ensures ok <==> |old(Text())| + |"\r\n"| + 1 < writeBuf.Length
      ensures Text() == Fill(old(Text()), ["\r\n"], writeBuf.Length)
    {
      ok := AddResponse("\r\n");
    }

    method AddContent(content: string) returns (ok: bool)
      requires Writable()
      modifies writeBuf, `writeIdx
      ensures Writable()
      ensures ok <==> |old(Text())| + |content| + 1 < writeBuf.Length
      ensures Text() == Fill(old(Text()), [content], writeBuf.Length)
    {
      ok := AddResponse(content);
    }

    method AddHead(status: int, title: string, contentLen: int)
      requires Writable()
      modifies writeBuf, `writeIdx
      ensures Writable() && Text() == Fill(old(Text()), Head(status, title, contentLen, linger), writeBuf.Length)
    {
      hide Fill, HeaderPieces, StatusLine, CrLf;
      FillAppend(Text(), [CrLf(StatusLine(status, title))], HeaderPieces(contentLen, linger), writeBuf.Length);
      var a := AddStatusLine(status, title);
      AddHeaders(contentLen);
    }

    /** There is room for the body behind what of its head was accepted. */
    ghost predicate BodyFits(t: string, r: Reply)
      reads `linger
      requires r.Reply? && |t| + 1 < writeBuf.Length
    {
      |Fill(t, Head(r.status, r.title, |r.body|, linger), writeBuf.Length)| + |r.body| + 1 < writeBuf.Length
    }

    /** A status line, the headers of a body, and the body. */
    method AddReply(r: Reply) returns (ok: bool)
      requires Writable() && r.Reply?
      modifies writeBuf, `writeIdx
      ensures Writable() && Text() == Fill(old(Text()), Pieces(r, linger), writeBuf.Length)
      ensures ok <==> BodyFits(old(Text()), r)
    {
      hide Fill, Head;
      FillAppend(Text(), Head(r.status, r.title, |r.body|, linger), [r.body], writeBuf.Length);
      AddHead(r.status, r.title, |r.body|);
      ok := AddContent(r.body);
    }

    /** The reply to the outcome of a request; `size` is the size of the file it names. An
        empty file gets its reply written and is refused all the same: its case falls
        through to the default one. */
    method ProcessWrite(ret: Code, size: nat) returns (ok: bool)
      requires Writable()
      modifies writeBuf, `writeIdx, `iov
      ensures Writable()
      ensures if ret == FileRequest && size != 0 then
                && ok && iov == [writeIdx, size]
                && Text() == Fill(old(Text()), Head(200, "OK", ToInt(size), linger), writeBuf.Length)
              else if ReplyTo(ret).Reply? then
                && Text() == Fill(old(Text()), Pieces(ReplyTo(ret), linger), writeBuf.Length)
                && (ok <==> ret != FileRequest && BodyFits(old(Text()), ReplyTo(ret)))
                && (ok ==> iov == [writeIdx])
                && (writeBuf.Length == WRITE_BUFFER_SIZE && old(writeIdx) == 0 ==> (ok <==> ret != FileRequest))
              else !ok && Text() == old(Text())
      ensures !ok ==> iov == old(iov)
    {
      hide Fill, HeaderPieces, StatusLine, CrLf, ReplyTo, Pieces, Head;
      HasReply(ret);
      match ret {
        case InternalError | BadRequest | NoResource | ForbiddenRequest =>
          ReplyFits(ret, linger);
          ok := AddReply(ReplyTo(ret));
          if !ok {
            return false;
          }
        case FileRequest =>
          if size != 0 {
            AddHead(200, "OK", ToInt(size));
            iov := [writeIdx, size];
            return true;
          }
          ok := AddReply(ReplyTo(ret));
          return false;
        case _ =>
          return false;
      }
      iov := [writeIdx];
      return true;
    }
  }

  /** What follows the stream is read as it would be read behind the pending bytes. */
  ghost predicate ReadOnAs(stream: string, st: CheckState, h: Headers, pending: string)
  {
    forall t :: Read(RequestLine, NO_HEADERS, stream + t) == Read(st, h, pending + t)
  }

  lemma ReadNow(stream: string, st: CheckState, h: Headers, pending: string)
    requires ReadOnAs(stream, st, h, pending)
    ensures Read(RequestLine, NO_HEADERS, stream) == Read(st, h, pending)
  {
    assert stream + [] == stream && pending + [] == pending;
    assert Read(RequestLine, NO_HEADERS, stream + []) == Read(st, h, pending + []);
  }

  lemma ReadOnMore(stream: string, st: CheckState, h: Headers, pending: string, bytes: string)
    requires ReadOnAs(stream, st, h, pending)
    ensures ReadOnAs(stream + bytes, st, h, pending + bytes)
  {
    hide Read;
    forall t: string | true
      ensures Read(RequestLine, NO_HEADERS, (stream + bytes) + t) == Read(st, h, (pending + bytes) + t)
    {
      Assoc(stream, bytes, t);
      Assoc(pending, bytes, t);
    }
  }

  /** What one complete line does to the reading of a stream. */
  lemma ReadOneLine(stream: string, st: CheckState, h: Headers, pending: string)
    requires ReadOnAs(stream, st, h, pending) && NextLine(pending).Line? && st != Content
    ensures var text, rest := CString(NextLine(pending).text), NextLine(pending).rest;
            if st == RequestLine then
              if ScanRequestLine(text) then ReadOnAs(stream, Header, TakeRequestLine(h, text), rest)
              else Read(RequestLine, NO_HEADERS, stream) == Refused
            else if text == [] then Read(RequestLine, NO_HEADERS, stream) == Request(h, rest)
            else ReadOnAs(stream, Header, TakeHeader(h, text), rest)
  {
    hide CString, ScanRequestLine, TakeHeader, TakeRequestLine, NextLine;
    ReadNow(stream, st, h, pending);
    forall t: string | true
      ensures NextLine(pending + t) == Line(NextLine(pending).text, NextLine(pending).rest + t)
    {
      NextLineStable(pending, t);
    }
  }

  function NameAt(b: seq<char>, p: Pointer): Name
  {
    if p.At? && p.pos <= |b| then Known(StringAt(b, p.pos)) else Unknown
  }

  predicate EndsBefore(b: seq<char>, p: Pointer, m: nat)
  {
    p.At? ==> p.pos <= |b| && p.pos + |StringAt(b, p.pos)| < m
  }

  lemma NameKept(b: seq<char>, b': seq<char>, p: Pointer, m: nat)
    requires |b| == |b'| && m <= |b| && b[..m] == b'[..m] && EndsBefore(b, p, m)
    ensures EndsBefore(b', p, m) && NameAt(b', p) == NameAt(b, p)
  {
    if p.At? {
      var t := StringAt(b, p.pos);
      var e := p.pos + |t|;
      EndsInNul(b, p.pos);
      assert b'[e] == b'[..m][e] == b[..m][e] == b[e];
      assert forall i | p.pos <= i < e :: b'[i] == b'[..m][i] == b[..m][i] == b[i];
      assert b'[p.pos..e] == t;
      assert b'[p.pos..] == t + b'[e..];
      CStringOf(t, b'[e..]);
    }
  }

  lemma NamesKept(b: seq<char>, b': seq<char>, url: Pointer, host: Pointer, m: nat)
    requires |b| == |b'| && m <= |b| && b[..m] == b'[..m] && EndsBefore(b, url, m) && EndsBefore(b, host, m)
    ensures EndsBefore(b', url, m) && NameAt(b', url) == NameAt(b, url)
    ensures EndsBefore(b', host, m) && NameAt(b', host) == NameAt(b, host)
  {
    NameKept(b, b', url, m);
    NameKept(b, b', host, m);
  }

  lemma KeptLater(b: seq<char>, url: Pointer, host: Pointer, m: nat, m': nat)
    requires m <= m'
    ensures EndsBefore(b, url, m) && EndsBefore(b, host, m) ==> EndsBefore(b, url, m') && EndsBefore(b, host, m')
  {
  }

  lemma JoinFrom(chunks: seq<string>, i: nat)
    requires i < |chunks|
    ensures |Join(chunks[i..])| == |chunks[i]| + |Join(chunks[i + 1..])|
  {
    assert chunks[i..][1..] == chunks[i + 1..];
  }

  lemma EndsInNul(b: seq<char>, p: nat)
    requires p <= |b| && p + |StringAt(b, p)| < |b|
    ensures NUL !in StringAt(b, p) && b[p + |StringAt(b, p)|] == NUL
  {
  }

  lemma PlainMore(s: string, k: nat)
    requires k < |s| && PlainUpTo(s, k) && s[k] != '\r' && s[k] != '\n'
    ensures PlainUpTo(s, k + 1)
  {
  }

  /** CR LF at offset k of the pending bytes, overwritten by two NULs. */
  lemma LineCut(b: seq<char>, b': seq<char>, start: nat, k: nat, end: nat)
    requires start + k + 1 < end <= |b| && PlainUpTo(b[start..end], k)
    requires b[start + k] == '\r' && b[start + k + 1] == '\n' && b' == b[start + k := NUL][start + k + 1 := NUL]
    ensures var next := NextLine(b[start..end]);
            && next.Line? && |next.text| == k && StringAt(b', start) == CString(next.text)
            && b'[start + k + 2..end] == next.rest
  {
    hide CString, StringAt, NextLine, Plain;
    var pending := b[start..end];
    NextLineAt(pending, k);
    LineCompleted(b', b[..start], pending, k);
    assert b'[start + k + 2..end] == pending[k + 2..];
  }

  /** memset of a whole buffer. */
  method Clear(buf: array<char>)
    modifies buf
    ensures forall i | 0 <= i < buf.Length :: buf[i] == NUL
  {
    forall i | 0 <= i < buf.Length {
      buf[i] := NUL;
    }
  }

  lemma EmptyAt(b: seq<char>, p: nat)
    requires p < |b|
    ensures StringAt(b, p) == [] <==> b[p] == NUL
  {
    assert b[p..][0] == b[p];
  }

  /** A header's value: the C string behind its name and blanks. */
  lemma ValueAt(b: seq<char>, p: nat, k: nat)
    requires p <= |b| && k <= |StringAt(b, p)|
    ensures p + k <= |b| && PastBlanks(b, p + k) <= |b|
    ensures var value := PastBlanks(b, p + k);
            && StringAt(b, value) == SkipBlanks(StringAt(b, p)[k..])
            && value + |StringAt(b, value)| == p + |StringAt(b, p)|
  {
    hide CString, StringAt, FirstBlank, BlankSpan;
    SuffixString(b, p, k);
    SuffixString(b, p + k, BlankSpan(StringAt(b, p + k)));
  }

  /** The bytes add_headers leaves in the buffer of a new connection. */
  method WrittenHeaders(n: int, keep: bool) returns (text: string)
    ensures text == Fill([], HeaderPieces(n, keep), WRITE_BUFFER_SIZE)
  {
    hide Read, Fill, HeaderPieces;
    var writer := new Conn(0, WRITE_BUFFER_SIZE);
    writer.linger := keep;
    writer.AddHeaders(n);
    return writer.writeBuf[..writer.writeIdx];
  }

  /** What one connection writes with add_headers, another one reads behind a request line. */
  method HeadersRoundTrip(requestLine: string, n: int, keep: bool, body: string) returns (reader: Conn, code: Code)
    requires -INT_MAX - 1 <= n <= INT_MAX
    requires Plain(requestLine) && NUL !in requestLine && ScanRequestLine(requestLine)
    ensures fresh(reader) && reader.Stored() == Announced(n, keep).(url := Known(PathOf(UrlOf(requestLine))))
    ensures n == 0 ==> code == Code.GetRequest
    ensures n != 0 ==> code == Code.NoRequest && reader.InBody() && reader.Ahead() == body
  {
    hide Read, Fill, ScanRequestLine, HeaderPieces, PathOf, UrlOf, NameAt, EndsBefore, PlainUpTo, ReadOnAs;
    var text := WrittenHeaders(n, keep);
    HeadersFit(n, keep);
    ReadBehindRequestLine(requestLine, n, keep, body);
    reader, code := ReadAll(CrLf(requestLine) + (text + body));
  }

  /** A new connection that receives a stream at once. */
  method ReadAll(stream: string) returns (reader: Conn, code: Code)
    ensures fresh(reader) && reader.stream == stream
    ensures if Progress(stream).StillReading? then code == Code.NoRequest && reader.Valid() else reader.Reported(code)
  {
    hide Read, Conn.Valid;
    reader := new Conn(|stream|, 2);
    reader.Receive(stream);
    assert [] + stream == stream;
    code := reader.ProcessRead();
  }

  lemma ReadBehindRequestLine(requestLine: string, n: int, keep: bool, body: string)
    requires -INT_MAX - 1 <= n <= INT_MAX
    requires Plain(requestLine) && NUL !in requestLine && ScanRequestLine(requestLine)
    ensures Read(RequestLine, NO_HEADERS, CrLf(requestLine) + (Join(HeaderPieces(n, keep)) + body))
         == Request(Announced(n, keep).(url := Known(PathOf(UrlOf(requestLine)))), body)
  {
    hide ScanRequestLine, HeaderPieces, PathOf, UrlOf;
    var rest := Join(HeaderPieces(n, keep)) + body;
    HeadersReadBack(TakeRequestLine(NO_HEADERS, requestLine), n, keep, body);
    Assoc(requestLine, "\r\n", rest);
    RunOneLine(requestLine, rest);
    PlainString(requestLine);
  }

  /** A negative length leads into the body state too. The guard then always holds, and the NUL
      goes before the body: inside the buffer if and only if the request's own bytes reach as
      far back. */
  lemma NegativeLength(c: Conn, requestLine: string, n: int)
    requires -INT_MAX - 1 <= n < 0
    requires Plain(requestLine) && NUL !in requestLine && ScanRequestLine(requestLine)
    ensures Progress(CrLf(requestLine) + Join(HeaderPieces(n, false)))
         == BodyNext(Announced(n, false).(url := Known(PathOf(UrlOf(requestLine)))))
    ensures c.InBody() && c.contentLength == n ==> c.Enough() && (c.NulFits() <==> c.startLine >= -n)
  {
    hide ScanRequestLine, HeaderPieces, PathOf, UrlOf, Read;
    ReadBehindRequestLine(requestLine, n, false, []);
    assert Join(HeaderPieces(n, false)) + [] == Join(HeaderPieces(n, false));
  }
}
