/** The answer under the high watermark, in closed form: where every line is cut. */
module Cutting {
  import opened Arithmetic
  import opened Bytes
  import opened LineMachine
  import opened Transcript
  import opened Fragmentation

  /** A forced piece has `limit` bytes, any other piece fewer. */
  predicate Exact(limit: Limit, p: Piece) {
    LF !in p.body && |p.body| <= limit && (p.Forced? <==> |p.body| == limit)
  }

  ghost predicate AllExact(limit: Limit, ps: seq<Piece>) {
    forall p :: p in ps ==> Exact(limit, p)
  }

  lemma {:induction false} LinePiecesShort(t: seq<byte>)
    ensures forall p :: p in LinePieces(t) ==> p.Line? && |p.body| < |t|
  {
    if t != [] {
      LinePiecesShort(t[..|t| - 1]);
    }
  }

  /** A run that honours the watermark cuts exactly, never late. */
  lemma {:induction false} CappedPieces(limit: Limit, frags: seq<seq<byte>>)
    requires Capped(limit, frags)
    ensures AllExact(limit, RunPieces(limit, frags))
  {
    if frags != [] {
      var c := LastInput(limit, frags);
      CappedPieces(limit, frags[..|frags| - 1]);
      LinePiecesShort(c.input);
      CallbackPiecesFit(limit, c);
      assert AllExact(limit, CallbackPieces(limit, c)) by {
        forall p | p in CallbackPieces(limit, c)
          ensures Exact(limit, p)
        {
          assert p.Lawful(limit);
          assert p in LinePieces(c.input) || p == Forced(Tail(c.input));
        }
      }
    }
  }

  /** A text that starts with an LF-free piece: what its first bytes are. */
  lemma FirstPiece(limit: Limit, p: Piece, rest: seq<byte>)
    requires Exact(limit, p)
    ensures var s := p.Source() + rest;
            && (p.Forced? <==> |s| >= limit && LF !in s[..limit])
            && (p.Forced? ==> p.body == s[..limit] && rest == s[limit..])
            && (p.Line? ==> |s| > |p.body| && s[|p.body|] == LF
                            && p.body == s[..|p.body|] && rest == s[|p.body| + 1..])
  {
    var s := p.Source() + rest;
    if p.Line? {
      assert s[|p.body|] == LF;
      if |s| >= limit {
        assert s[..limit][|p.body|] == LF;
      }
    } else {
      assert s[..limit] == p.body;
    }
  }

  lemma SameFirst(limit: Limit, p: Piece, a: seq<byte>, q: Piece, b: seq<byte>)
    requires Exact(limit, p)
    requires Exact(limit, q)
    requires p.Source() + a == q.Source() + b
    ensures p == q && a == b
  {
    FirstPiece(limit, p, a);
    FirstPiece(limit, q, b);
  }

  lemma SameList<T>(ps: seq<T>, qs: seq<T>)
    requires ps != [] && qs != [] && ps[0] == qs[0] && ps[1..] == qs[1..]
    ensures ps == qs
  {
    assert ps == [ps[0]] + ps[1..];
    assert qs == [qs[0]] + qs[1..];
  }

  lemma ConsumedCons(p: Piece, qs: seq<Piece>, rest: seq<byte>)
    ensures Consumed([p] + qs) + rest == p.Source() + (Consumed(qs) + rest)
  {
    PiecesAppend([p], qs);
    assert Consumed([p]) == p.Source() by {
      PiecesSnoc([], p);
      assert [] + [p] == [p];
    }
    Assoc(p.Source(), Consumed(qs), rest);
  }

  lemma FirstConsumed(ps: seq<Piece>, rest: seq<byte>)
    requires ps != []
    ensures Consumed(ps) + rest == ps[0].Source() + (Consumed(ps[1..]) + rest)
  {
    assert ps == [ps[0]] + ps[1..];
    ConsumedCons(ps[0], ps[1..], rest);
  }

  lemma NoPiece(limit: Limit, p: Piece, a: seq<byte>)
    requires Exact(limit, p)
    ensures LF in p.Source() + a || |p.Source() + a| >= limit
  {
    if p.Line? {
      assert (p.Source() + a)[|p.body|] == LF;
    }
  }

  /** There is one way only to cut a stream exactly. */
  lemma {:induction false} ExactIsUnique(
    limit: Limit, ps: seq<Piece>, r: seq<byte>, qs: seq<Piece>, r': seq<byte>)
    requires AllExact(limit, ps) && LF !in r && |r| < limit
    requires AllExact(limit, qs) && LF !in r' && |r'| < limit
    requires Consumed(ps) + r == Consumed(qs) + r'
    ensures ps == qs && r == r'
  {
    if ps == [] {
      NothingFirst(limit, r, qs, r');
    } else if qs == [] {
      NothingFirst(limit, r', ps, r);
    } else {
      var a, b := Consumed(ps[1..]) + r, Consumed(qs[1..]) + r';
      assert ps[0].Source() + a == qs[0].Source() + b by {
        FirstConsumed(ps, r);
        FirstConsumed(qs, r');
      }
      SameFirst(limit, ps[0], a, qs[0], b);
      ExactIsUnique(limit, ps[1..], r, qs[1..], r');
      SameList(ps, qs);
    }
  }

  lemma NothingFirst(limit: Limit, r: seq<byte>, qs: seq<Piece>, r': seq<byte>)
    requires LF !in r && |r| < limit
    requires AllExact(limit, qs)
    requires [] + r == Consumed(qs) + r'
    ensures qs == [] && r == r'
  {
    assert [] + r == r;
    if qs != [] {
      FirstConsumed(qs, r');
      NoPiece(limit, qs[0], Consumed(qs[1..]) + r');
    } else {
      assert [] + r' == r';
    }
  }

  /** All whole pieces of `limit` bytes that a line starts with. */
  function Chunks(limit: Limit, l: seq<byte>): seq<Piece>
    decreases |l|
  {
    if |l| < limit then [] else [Forced(l[..limit])] + Chunks(limit, l[limit..])
  }

  /** Each line cut after every `limit` bytes, its rest ended by the LF that was received. */
  function CutLines(limit: Limit, lines: seq<seq<byte>>): seq<Piece> {
    if lines == [] then []
    else
      var l := lines[|lines| - 1];
      CutLines(limit, lines[..|lines| - 1]) + Chunks(limit, l) + [Line(Rest(limit, l))]
  }

  /** The pieces of a stream: those of its lines, and the whole ones of the open line. */
  function Cuts(limit: Limit, s: seq<byte>): seq<Piece> {
    CutLines(limit, Lines(s)) + Chunks(limit, Tail(s))
  }

  lemma RestOfShort(limit: Limit, l: seq<byte>)
    requires |l| < limit
    ensures Rest(limit, l) == l
  {
    QuotientIs(|l|, limit, 0, |l|);
  }

  lemma RestOfLong(limit: Limit, l: seq<byte>)
    requires |l| >= limit
    ensures Rest(limit, l) == Rest(limit, l[limit..])
  {
    var n := |l| - limit;
    MulSucc(n / limit, limit);
    QuotientIs(|l|, limit, n / limit + 1, n % limit);
  }

  lemma ChunkFits(limit: Limit, l: seq<byte>, qs: seq<Piece>)
    requires |l| >= limit
    requires Consumed(qs) + Rest(limit, l[limit..]) == l[limit..]
    ensures Consumed([Forced(l[..limit])] + qs) + Rest(limit, l) == l
  {
    RestOfLong(limit, l);
    ConsumedCons(Forced(l[..limit]), qs, Rest(limit, l));
    JoinedAt(l, limit);
  }

  lemma JoinedAt(l: seq<byte>, k: nat)
    requires k <= |l|
    ensures l[..k] + l[k..] == l
  {
  }

  lemma {:induction false} ChunksFit(limit: Limit, l: seq<byte>)
    requires LF !in l
    ensures AllExact(limit, Chunks(limit, l))
    ensures Consumed(Chunks(limit, l)) + Rest(limit, l) == l
    decreases |l|
  {
    if |l| < limit {
      RestOfShort(limit, l);
      assert [] + l == l;
    } else {
      ChunksFit(limit, l[limit..]);
      ChunkFits(limit, l, Chunks(limit, l[limit..]));
    }
  }

  lemma ChunksLine(limit: Limit, ps: seq<Piece>, l: seq<byte>)
    requires AllExact(limit, ps) && LF !in l
    ensures AllExact(limit, ps + Chunks(limit, l) + [Line(Rest(limit, l))])
    ensures Consumed(ps + Chunks(limit, l) + [Line(Rest(limit, l))]) == Consumed(ps) + (l + [LF])
  {
    var c, r := Chunks(limit, l), Rest(limit, l);
    ChunksFit(limit, l);
    PiecesAppend(ps, c);
    PiecesSnoc(ps + c, Line(r));
    Assoc(Consumed(c), r, [LF]);
    Assoc(Consumed(ps), Consumed(c), r + [LF]);
  }

  lemma {:induction false} CutLinesFit(limit: Limit, s: seq<byte>)
    ensures AllExact(limit, CutLines(limit, Lines(s)))
    ensures Consumed(CutLines(limit, Lines(s))) == Head(s)
  {
    if s != [] {
      var p := s[..|s| - 1];
      CutLinesFit(limit, p);
      if s[|s| - 1] == LF {
        assert Lines(s)[..|Lines(p)|] == Lines(p);
        LastLine(s);
        ChunksLine(limit, CutLines(limit, Lines(p)), Tail(p));
      }
    }
  }

  lemma CutsFit(limit: Limit, s: seq<byte>)
    ensures AllExact(limit, Cuts(limit, s))
    ensures Consumed(Cuts(limit, s)) + Rest(limit, Tail(s)) == s
  {
    Split(s);
    CutLinesFit(limit, s);
    ChunksFit(limit, Tail(s));
    PiecesAppend(CutLines(limit, Lines(s)), Chunks(limit, Tail(s)));
    Assoc(Head(s), Consumed(Chunks(limit, Tail(s))), Rest(limit, Tail(s)));
  }

  /** Under the watermark the answer is known from the stream: every line is cut after every `limit` bytes. */
  lemma CappedAnswer(limit: Limit, frags: seq<seq<byte>>)
    requires Capped(limit, frags)
    ensures var s := Concat(frags);
            && RunPieces(limit, frags) == Cuts(limit, s)
            && Run(limit, frags) == Conn(Rest(limit, Tail(s)), Echoed(Cuts(limit, s)))
  {
    var s := Concat(frags);
    CappedPieces(limit, frags);
    RunIsExplained(limit, frags);
    CutsFit(limit, s);
    assert LF !in Rest(limit, Tail(s)) by {
      Split(s);
    }
    ExactIsUnique(limit, RunPieces(limit, frags), Run(limit, frags).input, Cuts(limit, s), Rest(limit, Tail(s)));
  }
}
