/** The body state of 15/15-5http_conn.cpp: a body is accepted when enough bytes follow the
    place the line scanner has reached, and after an incomplete body the scanner moves on
    over the body's own bytes. */
module RequestBody {
  import opened Sequences
  import opened RequestGrammar

  /** Where the line scanner stops in s, after all its complete lines: at a CR that ends s, at
      a stray CR or LF, or at the end. */
  function Unscanned(s: string): (r: string)
    ensures |r| <= |s|
  {
    if s == [] then []
    else if s[0] == '\r' then if |s| > 1 && s[1] == '\n' then Unscanned(s[2..]) else s
    else if s[0] == '\n' then s
    else Unscanned(s[1..])
  }

  /** The scanner takes one line after the other. */
  lemma {:induction false} UnscannedByLines(s: string)
    ensures match NextLine(s)
            case Line(text, rest) => Unscanned(s) == Unscanned(rest)
            case _ => true
  {
    if s != [] && s[0] != '\r' && s[0] != '\n' {
      UnscannedByLines(s[1..]);
    }
  }

  /** The scanner passes plain bytes. */
  lemma {:induction false} PassPlain(s: string, k: nat)
    requires k <= |s| && PlainUpTo(s, k)
    ensures Unscanned(s) == Unscanned(s[k..])
    decreases k
  {
    if k > 0 {
      assert forall i | 0 <= i < k - 1 :: s[1..][i] == s[i + 1];
      PassPlain(s[1..], k - 1);
      assert s[1..][k - 1..] == s[k..];
    }
  }

  /** Scanning what arrived so far and then the rest is scanning it all. */
  lemma {:induction false} ScannedInPieces(s: string, t: string)
    ensures Unscanned(Unscanned(s) + t) == Unscanned(s + t)
  {
    if s == [] {
      assert Unscanned(s) + t == s + t;
    } else if s[0] == '\r' {
      if |s| > 1 && s[1] == '\n' {
        assert (s + t)[2..] == s[2..] + t;
        ScannedInPieces(s[2..], t);
      }
    } else if s[0] != '\n' {
      assert (s + t)[1..] == s[1..] + t;
      ScannedInPieces(s[1..], t);
    }
  }

  /** The scanner cannot move in s: it is empty, or begins with LF or with a CR that no LF
      follows. */
  predicate Unscannable(s: string)
  {
    s == [] || s[0] == '\n' || (s[0] == '\r' && (|s| == 1 || s[1] != '\n'))
  }

  lemma {:induction false} NothingScanned(s: string)
    ensures |Unscanned(s)| == |s| <==> Unscannable(s)
    ensures Unscannable(s) ==> Unscanned(s) == s
    ensures Unscannable(Unscanned(s))
  {
    if s != [] {
      if s[0] == '\r' {
        if |s| > 1 && s[1] == '\n' {
          NothingScanned(s[2..]);
        }
      } else if s[0] != '\n' {
        NothingScanned(s[1..]);
      }
    }
  }

  /** Answered, or the bytes from the scanner's place on. */
  datatype Body = Answered | Waits(left: string)

  /** One call of process_read after a chunk of the body has arrived. */
  function Arrive(length: int, left: string, chunk: string): Body
  {
    if |left + chunk| >= length then Answered else Waits(Unscanned(left + chunk))
  }

  function Arrivals(length: int, left: string, chunks: seq<string>): Body
    decreases |chunks|
  {
    if chunks == [] then Waits(left)
    else
      match Arrive(length, left, chunks[0])
      case Answered => Answered
      case Waits(more) => Arrivals(length, more, chunks[1..])
  }

  /** Chunk k brings enough bytes behind what the scanner left of those before it. */
  predicate EnoughAt(length: int, left: string, chunks: seq<string>, k: int)
  {
    0 <= k < |chunks| && |Unscanned(left + Join(chunks[..k]))| + |chunks[k]| >= length
  }

  /** A body is accepted exactly when some chunk, with the bytes of the earlier ones that the
      scanner has not passed, is as long as was announced. */
  lemma {:induction false} EnoughBytes(length: int, left: string, chunks: seq<string>)
    requires Unscannable(left)
    ensures Arrivals(length, left, chunks).Answered? <==> exists k :: EnoughAt(length, left, chunks, k)
    decreases |chunks|
  {
    if chunks != [] {
      var first, rest := chunks[0], chunks[1..];
      NothingScanned(left);
      assert Join(chunks[..0]) == [] && left + [] == left;
      assert EnoughAt(length, left, chunks, 0) <==> |left + first| >= length;
      var more := Unscanned(left + first);
      NothingScanned(left + first);
      EnoughBytes(length, more, rest);
      forall k | 0 <= k < |rest|
        ensures EnoughAt(length, more, rest, k) <==> EnoughAt(length, left, chunks, k + 1)
      {
        assert chunks[..k + 1] == [first] + rest[..k];
        assert ([first] + rest[..k])[1..] == rest[..k];
        Assoc(left, first, Join(rest[..k]));
        ScannedInPieces(left + first, Join(rest[..k]));
      }
      if k :| EnoughAt(length, left, chunks, k) && k > 0 {
        assert EnoughAt(length, more, rest, k - 1);
      }
      if k :| EnoughAt(length, more, rest, k) {
        assert EnoughAt(length, left, chunks, k + 1);
      }
    }
  }

  /** All later chunks are empty, and the scanner cannot move in the earlier ones. */
  predicate LastPiece(chunks: seq<string>, k: int)
  {
    0 <= k < |chunks| && Join(chunks[k + 1..]) == [] && Unscannable(Join(chunks[..k]))
  }

  /** A client that sends exactly the body it announced is answered if and only if the scanner
      could not move in what came before the last piece: then there was nothing before it, or
      that began with LF or with a CR that no LF followed. */
  lemma BodyAccepted(length: nat, chunks: seq<string>)
    requires length > 0 && |Join(chunks)| == length
    ensures Arrivals(length, [], chunks).Answered? <==> exists k :: LastPiece(chunks, k)
  {
    EnoughBytes(length, [], chunks);
    forall k | 0 <= k < |chunks|
      ensures EnoughAt(length, [], chunks, k) <==> LastPiece(chunks, k)
    {
      var before := Join(chunks[..k]);
      SplitAt(chunks, k);
      assert [] + before == before;
      NothingScanned(before);
    }
    if k :| EnoughAt(length, [], chunks, k) {
      assert LastPiece(chunks, k);
    }
    if k :| LastPiece(chunks, k) {
      assert EnoughAt(length, [], chunks, k);
    }
  }

  lemma {:induction false} SplitAt(chunks: seq<string>, k: nat)
    requires k < |chunks|
    ensures |Join(chunks)| == |Join(chunks[..k])| + |chunks[k]| + |Join(chunks[k + 1..])|
  {
    if k > 0 {
      var rest := chunks[1..];
      SplitAt(rest, k - 1);
      assert chunks[..k] == [chunks[0]] + rest[..k - 1];
      assert ([chunks[0]] + rest[..k - 1])[1..] == rest[..k - 1];
      assert rest[k - 1 + 1..] == chunks[k + 1..];
    }
  }

  /** In particular, a body that begins with any other byte has to arrive in one piece. */
  lemma BodyInOnePiece(length: nat, chunks: seq<string>)
    requires length > 0 && |Join(chunks)| == length && Join(chunks)[0] != '\r' && Join(chunks)[0] != '\n'
    ensures Arrivals(length, [], chunks).Answered? <==>
      exists k :: 0 <= k < |chunks| && Join(chunks[..k]) == [] && Join(chunks[k + 1..]) == []
  {
    BodyAccepted(length, chunks);
    forall k | 0 <= k < |chunks| && Join(chunks[..k]) != []
      ensures Join(chunks[..k])[0] == Join(chunks)[0]
    {
      SameFirst(chunks, k);
    }
    if k :| LastPiece(chunks, k) {
      assert Join(chunks[..k]) == [];
    }
    if k :| 0 <= k < |chunks| && Join(chunks[..k]) == [] && Join(chunks[k + 1..]) == [] {
      assert LastPiece(chunks, k);
    }
  }

  lemma {:induction false} SameFirst(chunks: seq<string>, k: nat)
    requires k < |chunks| && Join(chunks[..k]) != []
    ensures Join(chunks) != [] && Join(chunks[..k])[0] == Join(chunks)[0]
  {
    var rest := chunks[1..];
    assert chunks[..k] == [chunks[0]] + rest[..k - 1];
    assert ([chunks[0]] + rest[..k - 1])[1..] == rest[..k - 1];
    if chunks[0] == [] {
      SameFirst(rest, k - 1);
    }
  }

  /** Two bodies of three bytes in two pieces: one is accepted, one is not. */
  lemma CutBodies()
    ensures Arrivals(3, [], ["\n", "ab"]) == Answered
    ensures Arrivals(3, [], ["a", "\nb"]).Waits?
  {
    assert ["\n", "ab"][1..] == ["ab"] && ["a", "\nb"][1..] == ["\nb"] && ["\nb"][1..] == [];
  }
}
