/** The response texts of 15/15-5http_conn.cpp and the buffer they have to fit. */
module Replies {
  import opened RequestGrammar
  import opened Sequences
  import opened HeaderText

  datatype Code =
    | NoRequest
    | GetRequest
    | BadRequest
    | NoResource
    | ForbiddenRequest
    | FileRequest
    | InternalError
    | ClosedConnection

  /** Appends every piece for which there is room, as add_response does: the size counts a
      byte that is never used and the terminating NUL. */
  function Fill(t: string, pieces: seq<string>, size: nat): (r: string)
    requires |t| + 1 < size
    ensures t <= r && |r| + 1 < size
    decreases |pieces|
  {
    if pieces == [] then t
    else Fill(if |t| + |pieces[0]| + 1 < size then t + pieces[0] else t, pieces[1..], size)
  }

  /** Everything is written exactly when all of it fits; otherwise some piece is left out. */
  lemma {:induction false} FillsAll(t: string, pieces: seq<string>, size: nat)
    requires |t| + 1 < size
    ensures Fill(t, pieces, size) == t + Join(pieces) <==> |t| + |Join(pieces)| + 1 < size
    decreases |pieces|
  {
    if pieces == [] {
      assert t + [] == t;
    } else if |t| + |pieces[0]| + 1 < size {
      FillsAll(t + pieces[0], pieces[1..], size);
      assert t + Join(pieces) == (t + pieces[0]) + Join(pieces[1..]);
    }
  }

  lemma {:induction false} FillAppend(t: string, a: seq<string>, b: seq<string>, size: nat)
    requires |t| + 1 < size
    ensures Fill(t, a + b, size) == Fill(Fill(t, a, size), b, size)
    decreases |a|
  {
    if a == [] {
      assert a + b == b;
    } else {
      assert (a + b)[1..] == a[1..] + b;
      FillAppend(if |t| + |a[0]| + 1 < size then t + a[0] else t, a[1..], b, size);
    }
  }

  // ---------- the short replies ----------

  datatype Reply = Reply(status: nat, title: string, body: string) | NoReply

  function Status(code: Code): (n: nat)
    ensures n <= 500
  {
    match code
    case InternalError => 500
    case BadRequest => 400
    case NoResource => 404
    case ForbiddenRequest => 403
    case _ => 200
  }

  function Title(code: Code): (title: string)
    ensures |title| <= 20
  {
    match code
    case InternalError => "Internal Error"
    case BadRequest => "Bad Request"
    case NoResource => "Not Found"
    case ForbiddenRequest => "Forbidden"
    case _ => "OK"
  }

  /** A file of size 0 is answered with a page of its own. */
  function Form(code: Code): (form: string)
    ensures |form| <= 80
  {
    match code
    case InternalError => "There was an unusual problem serving the requested file.\n"
    case BadRequest => "Your request has bad syntax or is inherently impossible to satisfy.\n"
    case NoResource => "The requested file was not found on this server.\n"
    case ForbiddenRequest => "You do not have permission to get file from this server.\n"
    case _ => "<html><body></body></html>"
  }

  function ReplyTo(code: Code): Reply
  {
    if code.InternalError? || code.BadRequest? || code.NoResource? || code.ForbiddenRequest? || code.FileRequest?
    then Reply(Status(code), Title(code), Form(code))
    else NoReply
  }

  lemma HasReply(code: Code)
    ensures ReplyTo(code).Reply? <==>
      code.InternalError? || code.BadRequest? || code.NoResource? || code.ForbiddenRequest? || code.FileRequest?
  {
    hide Status, Title, Form;
  }

  /** A status line and the headers that announce n bytes. */
  function Head(status: int, title: string, n: int, linger: bool): seq<string>
  {
    [CrLf(StatusLine(status, title))] + HeaderPieces(n, linger)
  }

  function Pieces(r: Reply, linger: bool): seq<string>
    requires r.Reply?
  {
    Head(r.status, r.title, |r.body|, linger) + [r.body]
  }

  function Pow10(k: nat): nat
  {
    if k == 0 then 1 else 10 * Pow10(k - 1)
  }

  lemma {:induction false} DecimalLength(n: nat, k: nat)
    requires k > 0 && n < Pow10(k)
    ensures |Decimal(n)| <= k
  {
    if n >= 10 {
      assert k > 1;
      DecimalLength(n / 10, k - 1);
    }
  }

  lemma PrintedLength(n: int)
    requires -INT_MAX - 1 <= n <= INT_MAX
    ensures |Printed(n)| <= 11
  {
    assert Pow10(5) == 100_000 && Pow10(10) == 10_000_000_000;
    DecimalLength(if n < 0 then -n else n, 10);
  }

  lemma HeadLength(status: int, title: string, n: int, linger: bool)
    requires -INT_MAX - 1 <= n <= INT_MAX && -INT_MAX - 1 <= status <= INT_MAX
    ensures Join(Head(status, title, n, linger)) == CrLf(StatusLine(status, title)) + Join(HeaderPieces(n, linger))
    ensures |Join(Head(status, title, n, linger))| <= |title| + 100
  {
    PrintedLength(n);
    PrintedLength(status);
    assert Head(status, title, n, linger)[1..] == HeaderPieces(n, linger);
    JoinThree(CrLf(LengthLine(n)), CrLf(LingerLine(linger)), "\r\n", []);
    assert Join(HeaderPieces(n, linger)) + [] == Join(HeaderPieces(n, linger));
  }

  /** WRITE_BUFFER_SIZE. */
  const WRITE_BUFFER_SIZE: nat := 1024

  /** Into an empty buffer a short reply goes whole: the status line, headers from which a
      client reads exactly the length of the body and the flag, and the body. */
  lemma ReplyIsWhole(code: Code, linger: bool)
    requires ReplyTo(code).Reply?
    ensures var r := ReplyTo(code);
            var headers := Join(HeaderPieces(|r.body|, linger));
            var line := CrLf(StatusLine(r.status, r.title));
            && Fill([], Pieces(r, linger), WRITE_BUFFER_SIZE) == (line + headers) + r.body
            && Read(Header, NO_HEADERS, headers + r.body) == Request(Announced(|r.body|, linger), r.body)
  {
    hide ReplyTo, Head, Fill, HeaderPieces, StatusLine;
    var r := ReplyTo(code);
    ReplyIsShort(code);
    HeadLength(r.status, r.title, |r.body|, linger);
    var head := Head(r.status, r.title, |r.body|, linger);
    JoinLast(head + [r.body]);
    assert (head + [r.body])[..|head|] == head;
    FillsAll([], Pieces(r, linger), WRITE_BUFFER_SIZE);
    assert [] + Join(Pieces(r, linger)) == Join(Pieces(r, linger));
    HeadersReadBack(NO_HEADERS, |r.body|, linger, r.body);
  }

  lemma ReplyIsShort(code: Code)
    requires ReplyTo(code).Reply?
    ensures var r := ReplyTo(code); |r.title| <= 20 && |r.body| <= 80 && r.status <= 500
  {
    hide Status, Title, Form;
  }

  /** In front of a file the head goes whole too, and announces the file's size exactly when
      the size is an int. */
  lemma FileHead(size: nat, linger: bool)
    ensures Fill([], Head(200, "OK", ToInt(size), linger), WRITE_BUFFER_SIZE) ==
            CrLf(StatusLine(200, "OK")) + Join(HeaderPieces(ToInt(size), linger))
    ensures var n := ToInt(size);
            forall rest ::
              Read(Header, NO_HEADERS, Join(HeaderPieces(n, linger)) + rest) == Request(Announced(n, linger), rest)
    ensures ToInt(size) == size <==> size <= INT_MAX
  {
    var n := ToInt(size);
    hide ToInt;
    HeadLength(200, "OK", n, linger);
    FillsAll([], Head(200, "OK", n, linger), WRITE_BUFFER_SIZE);
    var whole := Join(Head(200, "OK", n, linger));
    assert [] + whole == whole;
    forall rest: string | true
      ensures Read(Header, NO_HEADERS, Join(HeaderPieces(n, linger)) + rest) == Request(Announced(n, linger), rest)
    {
      HeadersReadBack(NO_HEADERS, n, linger, rest);
    }
  }

  /** The block was ended, but a client finds no length in it. */
  predicate EndedWithoutLength(t: string, n: int, linger: bool, size: nat)
    requires |t| + 1 < size
  {
    var r := Fill(t, HeaderPieces(n, linger), size);
    r == t + "\r\n" || r == (t + CrLf(LingerLine(linger))) + "\r\n"
  }

  /** add_headers ignores refusals: it ends the block without a length exactly when there is no
      room for the length line, but still for the blank line behind whatever the connection
      line left. */
  lemma LengthCanBeLost(t: string, n: int, linger: bool, size: nat)
    requires |t| + 1 < size
    ensures var b := CrLf(LingerLine(linger));
            var t2 := if |t| + |b| + 1 < size then t + b else t;
            EndedWithoutLength(t, n, linger, size) <==> |t| + |CrLf(LengthLine(n))| + 1 >= size && |t2| + 3 < size
  {
    var a, b, c := CrLf(LengthLine(n)), CrLf(LingerLine(linger)), "\r\n";
    FillsThree(t, a, b, c, size);
    assert a[3] == 't' && b[3] == 'n' && |b| > 10;
    hide LengthLine, LingerLine, CrLf;
    Unlike(t, a, b, c, c);
    Unlike(t, a, b, c, b + c);
    Assoc(t, b, c);
    Assoc(t, a, c);
    Assoc(t, a, b);
    Assoc(t, a + b, c);
  }

  /** No call in the program does: every one follows a short status line into an empty buffer. */
  lemma NoCallLosesLength(status: int, title: string, n: int, linger: bool)
    requires -INT_MAX - 1 <= n <= INT_MAX && -INT_MAX - 1 <= status <= INT_MAX && |title| <= 20
    ensures var t := CrLf(StatusLine(status, title));
            |t| + 1 < WRITE_BUFFER_SIZE && !EndedWithoutLength(t, n, linger, WRITE_BUFFER_SIZE)
  {
    hide Fill, StatusLine, Printed, LingerLine, EndedWithoutLength;
    var t := CrLf(StatusLine(status, title));
    HeadLength(status, title, n, linger);
    assert HeaderPieces(n, linger)[0] == CrLf(LengthLine(n));
    assert |Join(HeaderPieces(n, linger))| >= |CrLf(LengthLine(n))|;
    LengthCanBeLost(t, n, linger, WRITE_BUFFER_SIZE);
  }

  /** What begins with a, or is not complete, is neither of the two endings. */
  lemma Unlike(t: string, a: string, b: string, c: string, ending: string)
    requires |c| == 2 && |a| > 3 && |b| > 3 && a[3] != b[3] && (ending == c || ending == b + c)
    ensures t + ending != t && t + ending != t + b
    ensures t + ending != t + a && t + ending != t + (a + c)
    ensures t + ending != t + (a + b) && t + ending != t + ((a + b) + c)
  {
    assert forall x: string | |x| > 3 && x[3] == a[3] :: ending != x;
    assert forall x: string | t + ending == t + x :: (t + ending)[|t|..] == ending && (t + x)[|t|..] == x;
    assert t + [] == t;
  }

  lemma FillsThree(t: string, a: string, b: string, c: string, size: nat)
    requires |t| + 1 < size
    ensures var t1 := if |t| + |a| + 1 < size then t + a else t;
            var t2 := if |t1| + |b| + 1 < size then t1 + b else t1;
            Fill(t, [a, b, c], size) == if |t2| + |c| + 1 < size then t2 + c else t2
  {
    var t1 := if |t| + |a| + 1 < size then t + a else t;
    var t2 := if |t1| + |b| + 1 < size then t1 + b else t1;
    assert [a, b, c][1..] == [b, c] && [b, c][1..] == [c] && [c][1..] == [];
    assert Fill(t, [a, b, c], size) == Fill(t1, [b, c], size);
    assert Fill(t1, [b, c], size) == Fill(t2, [c], size);
    assert Fill(t2, [c], size) == Fill(if |t2| + |c| + 1 < size then t2 + c else t2, [], size);
  }

  lemma ReplyFits(code: Code, linger: bool)
    requires ReplyTo(code).Reply?
    ensures var r := ReplyTo(code);
            |Fill([], Head(r.status, r.title, |r.body|, linger), WRITE_BUFFER_SIZE)| + |r.body| + 1 < WRITE_BUFFER_SIZE
  {
    hide ReplyTo, Head, Fill, Join;
    var r := ReplyTo(code);
    ReplyIsShort(code);
    var head := Head(r.status, r.title, |r.body|, linger);
    HeadLength(r.status, r.title, |r.body|, linger);
    FillsAll([], head, WRITE_BUFFER_SIZE);
    assert [] + Join(head) == Join(head);
  }

  lemma HeadersFit(n: int, linger: bool)
    requires -INT_MAX - 1 <= n <= INT_MAX
    ensures Fill([], HeaderPieces(n, linger), WRITE_BUFFER_SIZE) == Join(HeaderPieces(n, linger))
  {
    hide HeaderPieces, Fill;
    HeadLength(0, [], n, linger);
    FillsAll([], HeaderPieces(n, linger), WRITE_BUFFER_SIZE);
    assert [] + Join(HeaderPieces(n, linger)) == Join(HeaderPieces(n, linger));
  }

  /** What add_headers writes into an empty buffer, the header parser reads back: exactly that
      length and flag, up to the blank line; a length other than 0 makes it expect a body. */
  lemma AddedHeadersReadBack(n: int, linger: bool)
    requires -INT_MAX - 1 <= n <= INT_MAX
    ensures var text := Fill([], HeaderPieces(n, linger), WRITE_BUFFER_SIZE);
            var h := Announced(n, linger);
            && Read(Header, NO_HEADERS, text) == Request(h, [])
            && OutcomeOf(Read(Header, NO_HEADERS, text)) == if n == 0 then Complete(h) else BodyNext(h)
  {
    hide HeaderPieces, Read, Fill;
    HeadersFit(n, linger);
    HeadersReadBack(NO_HEADERS, n, linger, []);
    assert Join(HeaderPieces(n, linger)) + [] == Join(HeaderPieces(n, linger));
  }

  // ---------- the bytes of the replies ----------

  /** The line add_linger writes. */
  lemma ConnectionLine(linger: bool)
    ensures CrLf(LingerLine(linger)) == if linger then "Connection: keep-alive\r\n" else "Connection: close\r\n"
  {
  }

  lemma TwoDigits(n: nat, a: char, b: char)
    requires 10 <= n < 100 && a as int == 48 + n / 10 && b as int == 48 + n % 10
    ensures Printed(n) == [a, b]
  {
    assert Digit(n / 10) == a && Digit(n % 10) == b;
    assert Decimal(n / 10) == [a];
  }

  lemma ThreeDigits(n: nat, a: char, b: char, c: char)
    requires 100 <= n < 1000 && a as int == 48 + n / 100 && b as int == 48 + n / 10 % 10 && c as int == 48 + n % 10
    ensures Printed(n) == [a, b, c]
  {
    TwoDigits(n / 10, a, b);
    assert Digit(n % 10) == c;
  }

  /** A status line, the headers of a page of n bytes, and the page. */
  lemma ReplyText(code: Code, linger: bool, line: string, number: string)
    requires ReplyTo(code).Reply?
    requires line == CrLf(StatusLine(ReplyTo(code).status, ReplyTo(code).title))
    requires number == Printed(|ReplyTo(code).body|)
    ensures var rest := CrLf(LingerLine(linger)) + ("\r\n" + ReplyTo(code).body);
            Fill([], Pieces(ReplyTo(code), linger), WRITE_BUFFER_SIZE) ==
              line + ("Content-Length: " + (number + ("\r\n" + rest)))
  {
    hide ReplyTo, Fill, StatusLine, Printed, LingerLine, Pieces;
    var r := ReplyTo(code);
    ReplyIsWhole(code, linger);
    var a, b := CrLf(LengthLine(|r.body|)), CrLf(LingerLine(linger));
    JoinThree(a, b, "\r\n", r.body);
    Assoc(line, Join(HeaderPieces(|r.body|, linger)), r.body);
    assert a == ("Content-Length: " + number) + "\r\n";
    Assoc("Content-Length: " + number, "\r\n", b + ("\r\n" + r.body));
    Assoc("Content-Length: ", number, "\r\n" + (b + ("\r\n" + r.body)));
  }

  /** Into an empty buffer: every byte of each short reply. */
  lemma BadRequestText(linger: bool)
    ensures Fill([], Pieces(ReplyTo(Code.BadRequest), linger), WRITE_BUFFER_SIZE) ==
      (("HTTP/1.1 " + ("400" + (" " + "Bad Request"))) + "\r\n") + ("Content-Length: " + ("68" + ("\r\n" + (
        (if linger then "Connection: keep-alive\r\n" else "Connection: close\r\n") + ("\r\n" +
        "Your request has bad syntax or is inherently impossible to satisfy.\n")))))
  {
    hide Fill, Pieces, LingerLine, Printed;
    ThreeDigits(400, '4', '0', '0');
    TwoDigits(68, '6', '8');
    ConnectionLine(linger);
    ReplyText(Code.BadRequest, linger, CrLf(StatusLine(400, "Bad Request")), "68");
  }

  lemma ForbiddenText(linger: bool)
    ensures Fill([], Pieces(ReplyTo(Code.ForbiddenRequest), linger), WRITE_BUFFER_SIZE) ==
      (("HTTP/1.1 " + ("403" + (" " + "Forbidden"))) + "\r\n") + ("Content-Length: " + ("57" + ("\r\n" + (
        (if linger then "Connection: keep-alive\r\n" else "Connection: close\r\n") + ("\r\n" +
        "You do not have permission to get file from this server.\n")))))
  {
    hide Fill, Pieces, LingerLine, Printed;
    ThreeDigits(403, '4', '0', '3');
    TwoDigits(57, '5', '7');
    ConnectionLine(linger);
    ReplyText(Code.ForbiddenRequest, linger, CrLf(StatusLine(403, "Forbidden")), "57");
  }

  lemma NotFoundText(linger: bool)
    ensures Fill([], Pieces(ReplyTo(Code.NoResource), linger), WRITE_BUFFER_SIZE) ==
      (("HTTP/1.1 " + ("404" + (" " + "Not Found"))) + "\r\n") + ("Content-Length: " + ("49" + ("\r\n" + (
        (if linger then "Connection: keep-alive\r\n" else "Connection: close\r\n") + ("\r\n" +
        "The requested file was not found on this server.\n")))))
  {
    hide Fill, Pieces, LingerLine, Printed;
    ThreeDigits(404, '4', '0', '4');
    TwoDigits(49, '4', '9');
    ConnectionLine(linger);
    ReplyText(Code.NoResource, linger, CrLf(StatusLine(404, "Not Found")), "49");
  }

  lemma InternalErrorText(linger: bool)
    ensures Fill([], Pieces(ReplyTo(Code.InternalError), linger), WRITE_BUFFER_SIZE) ==
      (("HTTP/1.1 " + ("500" + (" " + "Internal Error"))) + "\r\n") + ("Content-Length: " + ("57" + ("\r\n" + (
        (if linger then "Connection: keep-alive\r\n" else "Connection: close\r\n") + ("\r\n" +
        "There was an unusual problem serving the requested file.\n")))))
  {
    hide Fill, Pieces, LingerLine, Printed;
    ThreeDigits(500, '5', '0', '0');
    TwoDigits(57, '5', '7');
    ConnectionLine(linger);
    ReplyText(Code.InternalError, linger, CrLf(StatusLine(500, "Internal Error")), "57");
  }

  lemma EmptyFileText(linger: bool)
    ensures Fill([], Pieces(ReplyTo(Code.FileRequest), linger), WRITE_BUFFER_SIZE) ==
      (("HTTP/1.1 " + ("200" + (" " + "OK"))) + "\r\n") + ("Content-Length: " + ("26" + ("\r\n" + (
        (if linger then "Connection: keep-alive\r\n" else "Connection: close\r\n") + ("\r\n" +
        "<html><body></body></html>")))))
  {
    hide Fill, Pieces, LingerLine, Printed;
    ThreeDigits(200, '2', '0', '0');
    TwoDigits(26, '2', '6');
    ConnectionLine(linger);
    ReplyText(Code.FileRequest, linger, CrLf(StatusLine(200, "OK")), "26");
  }

  /** And every byte in front of a file. */
  lemma FileHeadText(size: nat, linger: bool)
    requires size <= INT_MAX
    ensures Fill([], Head(200, "OK", ToInt(size), linger), WRITE_BUFFER_SIZE) ==
      (("HTTP/1.1 " + ("200" + (" " + "OK"))) + "\r\n") + ("Content-Length: " + (Printed(size) + ("\r\n" + (
        (if linger then "Connection: keep-alive\r\n" else "Connection: close\r\n") + "\r\n"))))
  {
    hide Fill, LingerLine, Printed, Head;
    ThreeDigits(200, '2', '0', '0');
    ConnectionLine(linger);
    FileHead(size, linger);
    var a, b := CrLf(LengthLine(size)), CrLf(LingerLine(linger));
    JoinThree(a, b, "\r\n", []);
    assert Join(HeaderPieces(size, linger)) + [] == Join(HeaderPieces(size, linger));
    assert "\r\n" + [] == "\r\n";
    assert a == ("Content-Length: " + Printed(size)) + "\r\n";
    Assoc("Content-Length: " + Printed(size), "\r\n", b + "\r\n");
    Assoc("Content-Length: ", Printed(size), "\r\n" + (b + "\r\n"));
  }
}
