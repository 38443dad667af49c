/**
 What a run may answer, described without any callback: the output is a list of lines, each of
 them one piece of a received line. Every answer of a run is of this form, and every answer of
 this form is given by some run.
 */
module Transcript {
  import opened Bytes
  import opened CharMap
  import opened LineMachine

  /** One line of output: a Line ends where the received line does, a Forced piece earlier. */
  datatype Piece = Line(body: seq<byte>) | Forced(body: seq<byte>) {
    function Source(): seq<byte> {
      if Line? then body + [LF] else body
    }

    function Echo(): seq<byte> {
      Rot13(body) + [LF]
    }

    predicate Lawful(limit: Limit) {
      LF !in body && (Forced? ==> |body| >= limit)
    }
  }

  /** The received bytes that the pieces account for. */
  function Consumed(ps: seq<Piece>): seq<byte> {
    if ps == [] then [] else Consumed(ps[..|ps| - 1]) + ps[|ps| - 1].Source()
  }

  /** The output that the pieces stand for. */
  function Echoed(ps: seq<Piece>): seq<byte> {
    if ps == [] then [] else Echoed(ps[..|ps| - 1]) + ps[|ps| - 1].Echo()
  }

  function ForcedCount(ps: seq<Piece>): nat {
    if ps == [] then 0 else ForcedCount(ps[..|ps| - 1]) + if ps[|ps| - 1].Forced? then 1 else 0
  }

  ghost predicate AllLawful(limit: Limit, ps: seq<Piece>) {
    forall p :: p in ps ==> p.Lawful(limit)
  }

  /** c is a possible state of a connection that received `stream`, with the pieces to show it. */
  ghost predicate Explains(limit: Limit, ps: seq<Piece>, stream: seq<byte>, c: Conn) {
    && AllLawful(limit, ps)
    && stream == Consumed(ps) + c.input
    && c.output == Echoed(ps)
    && LF !in c.input && |c.input| < limit
  }

  lemma {:induction false} PiecesAppend(a: seq<Piece>, b: seq<Piece>)
    ensures Consumed(a + b) == Consumed(a) + Consumed(b)
    ensures Echoed(a + b) == Echoed(a) + Echoed(b)
    ensures ForcedCount(a + b) == ForcedCount(a) + ForcedCount(b)
  {
    if b == [] {
      assert a + b == a;
    } else {
      var n := |b| - 1;
      assert (a + b)[..|a + b| - 1] == a + b[..n];
      PiecesAppend(a, b[..n]);
      Assoc(Consumed(a), Consumed(b[..n]), b[n].Source());
      Assoc(Echoed(a), Echoed(b[..n]), b[n].Echo());
    }
  }

  lemma PiecesSnoc(ps: seq<Piece>, p: Piece)
    ensures Consumed(ps + [p]) == Consumed(ps) + p.Source()
    ensures Echoed(ps + [p]) == Echoed(ps) + p.Echo()
    ensures ForcedCount(ps + [p]) == ForcedCount(ps) + if p.Forced? then 1 else 0
  {
    assert (ps + [p])[..|ps|] == ps;
  }

  /** The pieces of a text of terminated lines. */
  function LinePieces(t: seq<byte>): seq<Piece> {
    if t == [] then []
    else
      var p := t[..|t| - 1];
      if t[|t| - 1] == LF then LinePieces(p) + [Line(Tail(p))] else LinePieces(p)
  }

  lemma EchoOfLine(p: Piece)
    requires p.Line?
    ensures Rot13(p.Source()) == p.Echo()
  {
    Rot13Append(p.body, [LF]);
    Rot13One(LF);
  }

  /** A text that ends in LF: its last line, and the piece that stands for it. */
  lemma LastLineIsPiece(t: seq<byte>, ps: seq<Piece>)
    requires t != [] && t[|t| - 1] == LF
    requires Consumed(ps) == Head(t[..|t| - 1]) && Echoed(ps) == Rot13(Head(t[..|t| - 1]))
    ensures LF !in Tail(t[..|t| - 1])
    ensures Consumed(ps + [Line(Tail(t[..|t| - 1]))]) == t
    ensures Echoed(ps + [Line(Tail(t[..|t| - 1]))]) == Rot13(t)
  {
    var p := t[..|t| - 1];
    var line := Line(Tail(p));
    LastLine(t);
    PiecesSnoc(ps, line);
    EchoOfLine(line);
    Rot13Append(Head(p), line.Source());
  }

  lemma {:induction false} LinePiecesFit(limit: Limit, t: seq<byte>)
    ensures AllLawful(limit, LinePieces(t))
    ensures Consumed(LinePieces(t)) == Head(t)
    ensures Echoed(LinePieces(t)) == Rot13(Head(t))
    ensures ForcedCount(LinePieces(t)) == 0
  {
    if t != [] {
      var p := t[..|t| - 1];
      LinePiecesFit(limit, p);
      if t[|t| - 1] == LF {
        LastLineIsPiece(t, LinePieces(p));
        PiecesSnoc(LinePieces(p), Line(Tail(p)));
      }
    }
  }

  /** The pieces one callback echoes. */
  function CallbackPieces(limit: Limit, c: Conn): seq<Piece> {
    LinePieces(c.input) + if Overflows(limit, c) then [Forced(Tail(c.input))] else []
  }

  lemma CallbackPiecesFit(limit: Limit, c: Conn)
    ensures AllLawful(limit, CallbackPieces(limit, c))
    ensures c.input == Consumed(CallbackPieces(limit, c)) + Callback(limit, c).input
    ensures Callback(limit, c).output == c.output + Echoed(CallbackPieces(limit, c))
    ensures ForcedCount(CallbackPieces(limit, c)) == if Overflows(limit, c) then 1 else 0
  {
    var head, tail := Head(c.input), Tail(c.input);
    LinePiecesFit(limit, c.input);
    Split(c.input);
    if Overflows(limit, c) {
      PiecesSnoc(LinePieces(c.input), Forced(tail));
      Rot13Append(head, tail);
      Assoc(Rot13(head), Rot13(tail), [LF]);
      assert c.input + [] == c.input;
    } else {
      assert CallbackPieces(limit, c) == LinePieces(c.input);
    }
  }

  /** The pieces a run echoes. */
  function RunPieces(limit: Limit, frags: seq<seq<byte>>): seq<Piece> {
    if frags == [] then []
    else RunPieces(limit, frags[..|frags| - 1]) + CallbackPieces(limit, LastInput(limit, frags))
  }

  lemma CallbackIsExplained(limit: Limit, ps: seq<Piece>, stream: seq<byte>, c: Conn, f: seq<byte>)
    requires Explains(limit, ps, stream, c)
    ensures Explains(limit, ps + CallbackPieces(limit, Feed(c, f)), stream + f, Callback(limit, Feed(c, f)))
  {
    var d := Feed(c, f);
    var r, more := Callback(limit, d), CallbackPieces(limit, d);
    CallbackPiecesFit(limit, d);
    CallbackSettles(limit, d);
    PiecesAppend(ps, more);
    assert stream + f == Consumed(ps) + Consumed(more) + r.input by {
      Assoc(Consumed(ps), c.input, f);
      Assoc(Consumed(ps), Consumed(more), r.input);
    }
  }

  /** Line splitting, every run: the answer is made of lawful pieces of the received stream. */
  lemma {:induction false} RunIsExplained(limit: Limit, frags: seq<seq<byte>>)
    ensures Explains(limit, RunPieces(limit, frags), Concat(frags), Run(limit, frags))
    ensures ForcedCount(RunPieces(limit, frags)) == Flushes(limit, frags)
  {
    if frags != [] {
      var n := |frags| - 1;
      RunIsExplained(limit, frags[..n]);
      var ps, c := RunPieces(limit, frags[..n]), Run(limit, frags[..n]);
      CallbackIsExplained(limit, ps, Concat(frags[..n]), c, frags[n]);
      CallbackPiecesFit(limit, Feed(c, frags[n]));
      PiecesAppend(ps, CallbackPieces(limit, Feed(c, frags[n])));
    }
  }

  /** The fragmentation that makes the callback echo exactly the given pieces. */
  function Schedule(ps: seq<Piece>): seq<seq<byte>> {
    if ps == [] then [] else Schedule(ps[..|ps| - 1]) + [ps[|ps| - 1].Source()]
  }

  lemma PieceEchoed(limit: Limit, p: Piece, output: seq<byte>)
    requires p.Lawful(limit)
    ensures Callback(limit, Conn(p.Source(), output)) == Conn([], output + p.Echo())
  {
    if p.Line? {
      SplitClosed(p.Source());
      EchoOfLine(p);
    } else {
      SplitOpen(p.body);
    }
  }

  lemma {:induction false} ScheduleRuns(limit: Limit, ps: seq<Piece>)
    requires AllLawful(limit, ps)
    ensures Concat(Schedule(ps)) == Consumed(ps)
    ensures Run(limit, Schedule(ps)) == Conn([], Echoed(ps))
  {
    if ps != [] {
      var p, qs := ps[|ps| - 1], ps[..|ps| - 1];
      ScheduleRuns(limit, qs);
      ConcatSnoc(Schedule(qs), p.Source());
      RunSnoc(limit, Schedule(qs), p.Source());
      assert [] + p.Source() == p.Source();
      PieceEchoed(limit, p, Echoed(qs));
    }
  }

  lemma ExplainedIsRun(limit: Limit, ps: seq<Piece>, stream: seq<byte>, c: Conn) returns (frags: seq<seq<byte>>)
    requires Explains(limit, ps, stream, c)
    ensures Concat(frags) == stream && Run(limit, frags) == c
  {
    var whole := Schedule(ps);
    ScheduleRuns(limit, ps);
    frags := whole + [c.input];
    ConcatSnoc(whole, c.input);
    RunSnoc(limit, whole, c.input);
    assert Feed(Conn([], c.output), c.input) == c;
    assert Callback(limit, c) == c by { CallbackSettled(limit, c); }
  }

  /** The possible answers to a stream are exactly those that lawful pieces explain. */
  lemma OutcomesExactly(limit: Limit, stream: seq<byte>, c: Conn)
    ensures (exists frags :: Concat(frags) == stream && Run(limit, frags) == c)
       <==> (exists ps :: Explains(limit, ps, stream, c))
  {
    if frags :| Concat(frags) == stream && Run(limit, frags) == c {
      RunIsExplained(limit, frags);
    }
    if ps :| Explains(limit, ps, stream, c) {
      var frags := ExplainedIsRun(limit, ps, stream, c);
    }
  }

  /** The pieces put together again: whole lines, and the part of a line after the last Line piece. */
  function Joined(ps: seq<Piece>): (seq<seq<byte>>, seq<byte>) {
    if ps == [] then ([], [])
    else
      var (lines, part) := Joined(ps[..|ps| - 1]);
      match ps[|ps| - 1]
      case Line(body) => (lines + [part + body], [])
      case Forced(body) => (lines, part + body)
  }

  /** The lines of output the pieces stand for. */
  function EchoedLines(ps: seq<Piece>): seq<seq<byte>> {
    if ps == [] then [] else EchoedLines(ps[..|ps| - 1]) + [Rot13(ps[|ps| - 1].body)]
  }

  /** The pieces of each received line are consecutive and make up that line. */
  lemma {:induction false} PiecesOfLines(limit: Limit, ps: seq<Piece>)
    requires AllLawful(limit, ps)
    ensures Joined(ps) == (Lines(Consumed(ps)), Tail(Consumed(ps)))
  {
    if ps != [] {
      var p, qs := ps[|ps| - 1], ps[..|ps| - 1];
      PiecesOfLines(limit, qs);
      assert p.Lawful(limit);
      if p.Line? {
        LinesSnoc(Consumed(qs), p.body);
        SplitClosed(Consumed(qs) + p.Source());
      } else {
        LinesIgnoreTail(Consumed(qs), p.body);
        SplitOpenAppend(Consumed(qs), p.body);
      }
    }
  }

  /** Each piece is one line of output. */
  lemma {:induction false} LinesOfPieces(limit: Limit, ps: seq<Piece>)
    requires AllLawful(limit, ps)
    ensures Lines(Echoed(ps)) == EchoedLines(ps)
    ensures Closed(Echoed(ps))
  {
    if ps != [] {
      var p, qs := ps[|ps| - 1], ps[..|ps| - 1];
      LinesOfPieces(limit, qs);
      assert p.Lawful(limit);
      var body := Rot13(p.body);
      Rot13KeepsLf(p.body);
      LinesSnoc(Echoed(qs), body);
      SplitClosed(Echoed(qs));
      assert [] + body == body;
    }
  }

  /**
   The same for a whole run: grouping the output lines up to each Line piece gives the received
   lines, and the part still open is the rest of the last group and the residue.
   */
  lemma RunSplitsLines(limit: Limit, frags: seq<seq<byte>>)
    ensures var c, ps, s := Run(limit, frags), RunPieces(limit, frags), Concat(frags);
            && AllLawful(limit, ps)
            && Closed(c.output) && Lines(c.output) == EchoedLines(ps)
            && Joined(ps).0 == Lines(s)
            && Joined(ps).1 + c.input == Tail(s)
  {
    RunIsExplained(limit, frags);
    var c, ps := Run(limit, frags), RunPieces(limit, frags);
    PiecesOfLines(limit, ps);
    LinesOfPieces(limit, ps);
    LinesIgnoreTail(Consumed(ps), c.input);
    SplitOpenAppend(Consumed(ps), c.input);
  }
}
