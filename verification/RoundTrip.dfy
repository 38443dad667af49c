/** Sending the answer of one connection through a second one. */
module RoundTrip {
  import opened Bytes
  import opened CharMap
  import opened LineMachine
  import opened Transcript
  import opened Accounting
  import opened Fragmentation
  import opened FlushCounts

  /** The second leg gives back the stream exactly when nothing was flushed or left behind. */
  lemma ReturnsUnflushed(limit: Limit, f: seq<seq<byte>>, g: seq<seq<byte>>)
    requires Concat(g) == Run(limit, f).output
    ensures Run(limit, g).input == []
    ensures Run(limit, g).output == Concat(f)
       <==> Flushes(limit, f) == 0 && Run(limit, f).input == [] && Flushes(limit, g) == 0
  {
    var c, d, s := Run(limit, f), Run(limit, g), Concat(f);
    assert d.input == [] by {
      RunSplitsLines(limit, f);
      RunSplitsLines(limit, g);
    }
    if Flushes(limit, f) == 0 && c.input == [] && Flushes(limit, g) == 0 {
      UnflushedRun(limit, f);
      Split(s);
      Rot13Involution(s);
      Rot13KeepsLf(s);
      UnflushedRun(limit, g);
      SplitClosed(s);
      SplitClosed(Rot13(s));
    }
    if d.output == s {
      ContentPreserved(limit, f);
      ContentPreserved(limit, g);
      assert |c.input| == 0;
      Conservation(limit, f);
      Conservation(limit, g);
    }
  }

  /**
   For two given fragmentations: the stream comes back exactly when it ends in LF and neither leg is
   cut where its open line has reached the limit.
   */
  lemma ReturnsExactly(limit: Limit, f: seq<seq<byte>>, g: seq<seq<byte>>)
    requires Concat(g) == Run(limit, f).output
    ensures Run(limit, g).input == []
    ensures Run(limit, g).output == Concat(f)
       <==> Closed(Concat(f)) && StaysShort(limit, f) && StaysShort(limit, g)
  {
    ReturnsUnflushed(limit, f, g);
    UnflushedExactly(limit, f);
    UnflushedExactly(limit, g);
  }

  /** The stream holds terminated lines only, all of them shorter than the limit. */
  predicate Clean(limit: Limit, s: seq<byte>) {
    Closed(s) && forall l :: l in Lines(s) ==> |l| < limit
  }

  lemma CleanRun(limit: Limit, f: seq<seq<byte>>)
    requires Clean(limit, Concat(f))
    ensures Run(limit, f) == Conn([], Rot13(Concat(f)))
    ensures Flushes(limit, f) == 0
  {
    SplitClosed(Concat(f));
    QuietRun(limit, f);
    Conservation(limit, f);
  }

  lemma {:induction false} Rot13Lines(limit: Limit, s: seq<byte>)
    requires forall l :: l in Lines(s) ==> |l| < limit
    ensures forall l :: l in Lines(Rot13(s)) ==> |l| < limit
  {
    if s != [] {
      var p, b := s[..|s| - 1], s[|s| - 1];
      assert Rot13(s)[..|s| - 1] == Rot13(p);
      assert forall l :: l in Lines(p) ==> l in Lines(s);
      Rot13Lines(limit, p);
      if b == LF {
        Rot13Split(p);
        assert Lines(s)[|Lines(p)|] == Tail(p);
      }
    }
  }

  ghost predicate AlwaysReturns(limit: Limit, s: seq<byte>) {
    forall f, g :: Concat(f) == s && Concat(g) == Run(limit, f).output ==> Run(limit, g).output == s
  }

  /** The stream comes back under all fragmentations of both legs exactly when it is clean. */
  lemma ReturnsAlwaysExactly(limit: Limit, s: seq<byte>)
    ensures AlwaysReturns(limit, s) <==> Clean(limit, s)
  {
    if Clean(limit, s) {
      forall f, g | Concat(f) == s && Concat(g) == Run(limit, f).output
        ensures Run(limit, g).output == s
      {
        CleanRun(limit, f);
        Rot13Lines(limit, s);
        Rot13Involution(s);
        Rot13KeepsLf(s);
        CleanRun(limit, g);
      }
    } else {
      var f := [s];
      ConcatOne(s);
      if Closed(s) {
        var l :| l in Lines(s) && |l| >= limit;
        f := LongLineDisagrees(limit, s, l);
      } else {
        RunOne(limit, s);
        assert Tail(s) != [];
      }
      var g := [Run(limit, f).output];
      ConcatOne(g[0]);
      ReturnsUnflushed(limit, f, g);
    }
  }

  /** With the watermark honoured on the first leg, one condition decides every single round trip. */
  lemma CappedReturnsExactly(limit: Limit, f: seq<seq<byte>>, g: seq<seq<byte>>)
    requires Capped(limit, f) && Concat(g) == Run(limit, f).output
    ensures Run(limit, g).output == Concat(f) <==> Clean(limit, Concat(f))
  {
    if Clean(limit, Concat(f)) {
      ReturnsAlwaysExactly(limit, Concat(f));
    }
    if Run(limit, g).output == Concat(f) {
      ReturnsUnflushed(limit, f, g);
      UnflushedRun(limit, f);
      CappedFlushes(limit, f);
      NoCuts(limit, Concat(f));
    }
  }
}
