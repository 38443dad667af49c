/** What every run keeps, however its input was cut up: counts and contents. */
module Accounting {
  import opened Arithmetic
  import opened Bytes
  import opened CharMap
  import opened LineMachine
  import opened Transcript

  lemma {:induction false} PiecesAccount(ps: seq<Piece>)
    ensures |Echoed(ps)| == |Consumed(ps)| + ForcedCount(ps)
  {
    if ps != [] {
      PiecesAccount(ps[..|ps| - 1]);
    }
  }

  lemma {:induction false} ForcedArePaid(limit: Limit, ps: seq<Piece>)
    requires AllLawful(limit, ps)
    ensures ForcedCount(ps) * limit <= |Strip(Consumed(ps))|
  {
    if ps != [] {
      var p, qs := ps[|ps| - 1], ps[..|ps| - 1];
      ForcedArePaid(limit, qs);
      StripAppend(Consumed(qs), p.Source());
      assert |Strip(p.Source())| >= if p.Forced? then limit else 0 by {
        assert p.Lawful(limit);
        if p.Forced? {
          StripOpen(p.body);
        }
      }
      MulSucc(ForcedCount(qs), limit);
    }
  }

  lemma StripOfLine(body: seq<byte>)
    requires LF !in body
    ensures Strip(body + [LF]) == body
  {
    StripOpen(body);
    assert (body + [LF])[..|body|] == body;
  }

  lemma {:induction false} PiecesContent(limit: Limit, ps: seq<Piece>)
    requires AllLawful(limit, ps)
    ensures Strip(Echoed(ps)) == Rot13(Strip(Consumed(ps)))
  {
    if ps != [] {
      var p, qs := ps[|ps| - 1], ps[..|ps| - 1];
      PiecesContent(limit, qs);
      assert p.Lawful(limit);
      Rot13KeepsLf(p.body);
      StripAppend(Echoed(qs), p.Echo());
      StripOfLine(Rot13(p.body));
      StripAppend(Consumed(qs), p.Source());
      assert Strip(p.Source()) == p.body by {
        StripOpen(p.body);
        StripOfLine(p.body);
      }
      Rot13Append(Strip(Consumed(qs)), p.body);
    }
  }

  lemma {:induction false} UnforcedPieces(ps: seq<Piece>)
    requires ForcedCount(ps) == 0
    ensures Echoed(ps) == Rot13(Consumed(ps)) && Closed(Consumed(ps))
  {
    if ps != [] {
      var p, qs := ps[|ps| - 1], ps[..|ps| - 1];
      UnforcedPieces(qs);
      EchoOfLine(p);
      Rot13Append(Consumed(qs), p.Source());
    }
  }

  /** Every byte received is echoed or still waiting, and every flush adds one byte. */
  lemma Conservation(limit: Limit, frags: seq<seq<byte>>)
    ensures var c := Run(limit, frags);
            |c.output| + |c.input| == |Concat(frags)| + Flushes(limit, frags)
  {
    RunIsExplained(limit, frags);
    PiecesAccount(RunPieces(limit, frags));
  }

  /** A flush is paid for by `limit` bytes that are not LFs, so output exceeds input by little. */
  lemma Overhead(limit: Limit, frags: seq<seq<byte>>)
    ensures var s, c := Concat(frags), Run(limit, frags);
            && Flushes(limit, frags) * limit + |c.input| <= |Strip(s)|
            && |c.output| + |c.input| <= |s| + |Strip(s)| / limit
  {
    var ps, c := RunPieces(limit, frags), Run(limit, frags);
    RunIsExplained(limit, frags);
    PiecesAccount(ps);
    ForcedArePaid(limit, ps);
    StripAppend(Consumed(ps), c.input);
    StripOpen(c.input);
    AtMostQuotient(Flushes(limit, frags), limit, |Strip(Concat(frags))|);
  }

  /** Apart from LFs, the answer is rot13 of what was received, in order and up to the residue. */
  lemma ContentPreserved(limit: Limit, frags: seq<seq<byte>>)
    ensures var s, c := Concat(frags), Run(limit, frags);
            Strip(c.output) + Rot13(c.input) == Rot13(Strip(s))
  {
    var ps, c := RunPieces(limit, frags), Run(limit, frags);
    RunIsExplained(limit, frags);
    PiecesContent(limit, ps);
    StripAppend(Consumed(ps), c.input);
    StripOpen(c.input);
    Rot13Append(Strip(Consumed(ps)), c.input);
  }

  /** A run that never flushes answers with rot13 of the stream up to its last LF. */
  lemma UnflushedRun(limit: Limit, frags: seq<seq<byte>>)
    requires Flushes(limit, frags) == 0
    ensures Run(limit, frags) == Conn(Tail(Concat(frags)), Rot13(Head(Concat(frags))))
  {
    var ps, c := RunPieces(limit, frags), Run(limit, frags);
    RunIsExplained(limit, frags);
    UnforcedPieces(ps);
    SplitIs(Consumed(ps), c.input);
  }

  /** At every callback, the open line of the stream so far is shorter than the limit. */
  predicate StaysShort(limit: Limit, frags: seq<seq<byte>>) {
    frags != [] ==> StaysShort(limit, frags[..|frags| - 1]) && |Tail(Concat(frags))| < limit
  }

  /** Which fragmentations flush can be told from the stream and the places where it is cut. */
  lemma {:induction false} UnflushedExactly(limit: Limit, frags: seq<seq<byte>>)
    ensures Flushes(limit, frags) == 0 <==> StaysShort(limit, frags)
    ensures StaysShort(limit, frags) ==> Run(limit, frags) == Conn(Tail(Concat(frags)), Rot13(Head(Concat(frags))))
  {
    if frags != [] {
      var n := |frags| - 1;
      UnflushedExactly(limit, frags[..n]);
      if Flushes(limit, frags[..n]) == 0 {
        SplitResumes(Concat(frags[..n]), frags[n]);
      }
    }
    if Flushes(limit, frags) == 0 {
      UnflushedRun(limit, frags);
    }
  }
}
