/** When the answer depends on how the stream was cut up, and when it does not. */
module Fragmentation {
  import opened Arithmetic
  import opened Bytes
  import opened CharMap
  import opened LineMachine
  import opened Transcript
  import opened Accounting

  /** Terminated lines are shorter than the limit, and the unterminated end is no longer than it. */
  predicate Quiet(limit: Limit, s: seq<byte>) {
    (forall l :: l in Lines(s) ==> |l| < limit) && |Tail(s)| <= limit
  }

  lemma {:induction false} QuietPrefix(limit: Limit, a: seq<byte>, b: seq<byte>)
    requires Quiet(limit, a + b)
    ensures Quiet(limit, a)
    ensures b != [] ==> |Tail(a)| < limit
  {
    if b == [] {
      assert a + b == a;
    } else {
      var n := |b| - 1;
      var s := a + b;
      var p := s[..|s| - 1];
      assert p == a + b[..n];
      if s[|s| - 1] == LF {
        assert Lines(s)[|Lines(p)|] == Tail(p);
      }
      assert forall l :: l in Lines(p) ==> l in Lines(s);
      QuietPrefix(limit, a, b[..n]);
      assert n == 0 ==> p == a;
    }
  }

  /** On a quiet stream, every run gives what a single callback on the whole stream gives. */
  lemma {:induction false} QuietRun(limit: Limit, frags: seq<seq<byte>>)
    requires Quiet(limit, Concat(frags))
    ensures Run(limit, frags) == Callback(limit, Conn(Concat(frags), []))
  {
    if frags == [] {
      assert Rot13([]) == [] && Head([]) == [];
    } else {
      var n := |frags| - 1;
      var p, f := Concat(frags[..n]), frags[n];
      QuietPrefix(limit, p, f);
      QuietRun(limit, frags[..n]);
      if f == [] {
        assert p + f == p;
        var c := Run(limit, frags[..n]);
        assert Feed(c, f) == c;
        RunSettles(limit, frags[..n]);
        CallbackSettled(limit, c);
      } else {
        CallbackResumes(limit, Conn(p, []), f);
      }
    }
  }

  ghost predicate AllRunsAgree(limit: Limit, s: seq<byte>) {
    forall f, g :: Concat(f) == s && Concat(g) == s ==> Run(limit, f) == Run(limit, g)
  }

  lemma TailAfterLf(a: seq<byte>, b: seq<byte>)
    requires LF in b
    ensures Tail(a + b) == Tail(b)
  {
    Split(b);
    Assoc(a, Head(b), Tail(b));
    SplitIs(a + Head(b), Tail(b));
  }

  lemma {:induction false} FindLine(s: seq<byte>, l: seq<byte>) returns (j: nat)
    requires l in Lines(s)
    ensures j < |s| && s[j] == LF && Tail(s[..j]) == l
  {
    j := |s| - 1;
    var p := s[..j];
    if s[j] != LF || l != Tail(p) {
      assert l in Lines(p);
      j := FindLine(p, l);
      assert s[..j] == p[..j];
    }
  }

  lemma RunTwo(limit: Limit, a: seq<byte>, b: seq<byte>)
    requires |Tail(a)| >= limit
    ensures Concat([a, b]) == a + b
    ensures Run(limit, [a, b]) == Callback(limit, Conn(b, Rot13(a) + [LF]))
    ensures Flushes(limit, [a, b]) == 1 + if |Tail(b)| >= limit then 1 else 0
  {
    assert [a, b] == [a] + [b];
    ConcatSnoc([a], b);
    ConcatOne(a);
    RunOne(limit, a);
    RunSnoc(limit, [a], b);
    assert [] + (Rot13(a) + [LF]) == Rot13(a) + [LF];
    assert [] + b == b;
  }

  /** A cut where the open line has reached the limit inserts an LF that the uncut stream does not get. */
  lemma CutDisagrees(limit: Limit, a: seq<byte>, b: seq<byte>)
    requires |Tail(a)| >= limit && LF in b
    ensures Concat([a, b]) == a + b && Flushes(limit, [a, b]) > 0
    ensures Run(limit, [a, b]) != Run(limit, [a + b])
  {
    RunTwo(limit, a, b);
    TailAfterLf(a, b);
    RunOne(limit, a + b);
    ConcatOne(a + b);
    Conservation(limit, [a, b]);
    Conservation(limit, [a + b]);
  }

  lemma LongLineDisagrees(limit: Limit, s: seq<byte>, l: seq<byte>) returns (f: seq<seq<byte>>)
    requires l in Lines(s) && |l| >= limit
    ensures Concat(f) == s && Flushes(limit, f) > 0
    ensures Run(limit, f) != Run(limit, [s])
  {
    var j := FindLine(s, l);
    var a, b := s[..j], s[j..];
    assert b[0] == LF;
    CutDisagrees(limit, a, b);
    assert s == a + b;
    f := [a, b];
  }

  /** Cutting an overlong end flushes the first part and not the rest with it. */
  lemma LongTailDisagrees(limit: Limit, s: seq<byte>) returns (f: seq<seq<byte>>)
    requires |Tail(s)| > limit
    ensures Concat(f) == s && Run(limit, f) != Run(limit, [s])
  {
    Split(s);
    var t := Tail(s);
    var a, b := Head(s) + t[..limit], t[limit..];
    assert t == t[..limit] + b;
    Assoc(Head(s), t[..limit], b);
    SplitIs(Head(s), t[..limit]);
    f := [a, b];
    RunTwo(limit, a, b);
    RunOne(limit, s);
    ConcatOne(s);
    SplitOpen(b);
    Conservation(limit, f);
    Conservation(limit, [s]);
  }

  /** The answer to a stream is independent of its fragmentation exactly when the stream is quiet. */
  lemma IndependentExactly(limit: Limit, s: seq<byte>)
    ensures AllRunsAgree(limit, s) <==> Quiet(limit, s)
  {
    if Quiet(limit, s) {
      forall f | Concat(f) == s
        ensures Run(limit, f) == Callback(limit, Conn(s, []))
      {
        QuietRun(limit, f);
      }
    } else {
      ConcatOne(s);
      if |Tail(s)| > limit {
        var f := LongTailDisagrees(limit, s);
      } else {
        var l :| l in Lines(s) && |l| >= limit;
        var f := LongLineDisagrees(limit, s, l);
      }
    }
  }

  /** No callback of the run ever finds more than `high` bytes in the input buffer. */
  predicate Within(limit: Limit, high: nat, frags: seq<seq<byte>>) {
    frags != [] ==> Within(limit, high, frags[..|frags| - 1]) && |LastInput(limit, frags).input| <= high
  }

  /** The run honours a high watermark equal to the limit, as do_accept sets it. */
  predicate Capped(limit: Limit, frags: seq<seq<byte>>) {
    Within(limit, limit, frags)
  }

  lemma {:induction false} WithinLess(limit: Limit, high: nat, frags: seq<seq<byte>>)
    requires Within(limit, high, frags) && high <= limit
    ensures Capped(limit, frags)
  {
    if frags != [] {
      WithinLess(limit, high, frags[..|frags| - 1]);
    }
  }

  /** The stream, a byte at a time. */
  function Singles(s: seq<byte>): seq<seq<byte>> {
    if s == [] then [] else Singles(s[..|s| - 1]) + [[s[|s| - 1]]]
  }

  lemma {:induction false} SinglesAppend(a: seq<byte>, b: seq<byte>)
    ensures Singles(a + b) == Singles(a) + Singles(b)
  {
    if b == [] {
      assert a + b == a;
    } else {
      var n := |b| - 1;
      assert (a + b)[..|a + b| - 1] == a + b[..n];
      SinglesAppend(a, b[..n]);
    }
  }

  lemma {:induction false} ConcatSingles(s: seq<byte>)
    ensures Concat(Singles(s)) == s
  {
    if s != [] {
      ConcatSingles(s[..|s| - 1]);
      ConcatSnoc(Singles(s[..|s| - 1]), [s[|s| - 1]]);
    }
  }

  lemma SingleResumes(limit: Limit, h: seq<seq<byte>>, c: Conn, p: seq<byte>, b: byte)
    requires Run(limit, h) == Callback(limit, Feed(c, p)) && |c.input| + |p| < limit
    ensures Run(limit, h + [[b]]) == Callback(limit, Feed(c, p + [b]))
  {
    RunSnoc(limit, h, [b]);
    CallbackResumes(limit, Feed(c, p), [b]);
    Assoc(c.input, p, [b]);
  }

  lemma {:induction false} FragmentAsSingles(limit: Limit, g: seq<seq<byte>>, f: seq<byte>)
    requires |Run(limit, g).input| + |f| <= limit
    ensures Run(limit, g + Singles(f)) == Callback(limit, Feed(Run(limit, g), f))
  {
    var c := Run(limit, g);
    if f == [] {
      assert g + [] == g;
      assert Feed(c, f) == c;
      RunSettles(limit, g);
      CallbackSettled(limit, c);
    } else {
      var p, b := f[..|f| - 1], f[|f| - 1];
      FragmentAsSingles(limit, g, p);
      Assoc(g, Singles(p), [[b]]);
      SingleResumes(limit, g + Singles(p), c, p, b);
      assert f == p + [b];
    }
  }

  lemma {:induction false} CappedAsSingles(limit: Limit, frags: seq<seq<byte>>)
    requires Capped(limit, frags)
    ensures Run(limit, frags) == Run(limit, Singles(Concat(frags)))
  {
    if frags != [] {
      var n := |frags| - 1;
      var s, f := Concat(frags[..n]), frags[n];
      CappedAsSingles(limit, frags[..n]);
      FragmentAsSingles(limit, Singles(s), f);
      SinglesAppend(s, f);
    }
  }

  /** Under the watermark the answer is a function of the stream alone, however long its lines. */
  lemma CappedRunsAgree(limit: Limit, f: seq<seq<byte>>, g: seq<seq<byte>>)
    requires Capped(limit, f) && Capped(limit, g) && Concat(f) == Concat(g)
    ensures Run(limit, f) == Run(limit, g)
    ensures Flushes(limit, f) == Flushes(limit, g)
  {
    CappedAsSingles(limit, f);
    CappedAsSingles(limit, g);
    Conservation(limit, f);
    Conservation(limit, g);
  }

  /** How many times `limit` goes into the lines, each counted by itself. */
  function Quotients(limit: Limit, lines: seq<seq<byte>>): nat {
    if lines == [] then 0 else Quotients(limit, lines[..|lines| - 1]) + |lines[|lines| - 1]| / limit
  }

  /** The flushes of a stream whose every line is cut as often as `limit` goes into it. */
  function AllCuts(limit: Limit, s: seq<byte>): nat {
    Quotients(limit, Lines(s)) + |Tail(s)| / limit
  }

  /** The last |t| % limit bytes of t. */
  function Rest(limit: Limit, t: seq<byte>): (r: seq<byte>)
    ensures |r| == |t| % limit
  {
    Last(t, |t| % limit)
  }

  /** The last k bytes of t. */
  function Last(t: seq<byte>, k: nat): seq<byte>
    requires k <= |t|
  {
    t[|t| - k..]
  }

  lemma LastSnoc(t: seq<byte>, b: byte, k: nat)
    requires k <= |t|
    ensures Last(t + [b], k + 1) == Last(t, k) + [b]
  {
  }

  lemma QuotientsSnoc(limit: Limit, lines: seq<seq<byte>>, l: seq<byte>)
    ensures Quotients(limit, lines + [l]) == Quotients(limit, lines) + |l| / limit
  {
    assert (lines + [l])[..|lines|] == lines;
  }

  lemma NothingOpen(limit: Limit)
    ensures Rest(limit, []) == [] && 0 / limit == 0
  {
    QuotientIs(0, limit, 0, 0);
  }

  lemma RestSnoc(limit: Limit, t: seq<byte>, b: byte)
    ensures Rest(limit, t + [b]) == if |t| % limit + 1 == limit then [] else Rest(limit, t) + [b]
    ensures |t + [b]| / limit == |t| / limit + if |t| % limit + 1 == limit then 1 else 0
  {
    NextQuotient(|t|, limit);
    LastSnoc(t, b, |t| % limit);
  }

  lemma OneByte(limit: Limit, c: Conn, b: byte)
    requires Settled(limit, c)
    ensures var d := Feed(c, [b]);
            && (Overflows(limit, d) <==> b != LF && |c.input| + 1 == limit)
            && Callback(limit, d).input == if b == LF || |c.input| + 1 == limit then [] else c.input + [b]
  {
    var d := Feed(c, [b]);
    if b == LF {
      SplitClosed(d.input);
    } else {
      SplitOpen(d.input);
    }
  }

  lemma {:induction false} SinglesFlush(limit: Limit, s: seq<byte>)
    ensures Run(limit, Singles(s)).input == Rest(limit, Tail(s))
    ensures Flushes(limit, Singles(s)) == AllCuts(limit, s)
  {
    NothingOpen(limit);
    if s != [] {
      var p, b := s[..|s| - 1], s[|s| - 1];
      SinglesFlush(limit, p);
      RunSnoc(limit, Singles(p), [b]);
      RunSettles(limit, Singles(p));
      OneByte(limit, Run(limit, Singles(p)), b);
      if b == LF {
        QuotientsSnoc(limit, Lines(p), Tail(p));
      } else {
        RestSnoc(limit, Tail(p), b);
      }
    }
  }

  /** Under the watermark, every line is flushed as often as `limit` goes into it. */
  lemma CappedFlushes(limit: Limit, frags: seq<seq<byte>>)
    requires Capped(limit, frags)
    ensures Flushes(limit, frags) == AllCuts(limit, Concat(frags))
  {
    var s := Concat(frags);
    CappedAsSingles(limit, frags);
    SinglesFlush(limit, s);
    ConcatSingles(s);
    Conservation(limit, frags);
    Conservation(limit, Singles(s));
  }

  /** What is left waiting is the rest that `limit` leaves of the open line. */
  lemma CappedResidue(limit: Limit, frags: seq<seq<byte>>)
    requires Capped(limit, frags)
    ensures Run(limit, frags).input == Rest(limit, Tail(Concat(frags)))
  {
    CappedAsSingles(limit, frags);
    SinglesFlush(limit, Concat(frags));
  }

  lemma {:induction false} SinglesCapped(limit: Limit, s: seq<byte>)
    ensures Capped(limit, Singles(s))
  {
    if s != [] {
      var p, b := s[..|s| - 1], s[|s| - 1];
      var frags := Singles(s);
      SinglesCapped(limit, p);
      RunSettles(limit, Singles(p));
      assert frags[..|frags| - 1] == Singles(p) && frags[|frags| - 1] == [b];
    }
  }

  /** A line cannot be cut more often than `limit` goes into it. */
  lemma {:induction false} ForcedPerLine(limit: Limit, ps: seq<Piece>)
    requires AllLawful(limit, ps)
    ensures ForcedCount(ps) <= Quotients(limit, Joined(ps).0) + |Joined(ps).1| / limit
  {
    if ps == [] {
      NothingOpen(limit);
    } else {
      var p, qs := ps[|ps| - 1], ps[..|ps| - 1];
      ForcedPerLine(limit, qs);
      assert p.Lawful(limit);
      var (lines, part) := Joined(qs);
      QuotientGrows(|part|, |p.body|, limit);
      if p.Line? {
        QuotientsSnoc(limit, lines, part + p.body);
        NothingOpen(limit);
      }
    }
  }

  lemma FewestFlushes(limit: Limit, frags: seq<seq<byte>>)
    ensures Flushes(limit, [Concat(frags)]) <= Flushes(limit, frags)
  {
    RunOne(limit, Concat(frags));
    if Flushes(limit, frags) == 0 {
      UnflushedRun(limit, frags);
      RunSettles(limit, frags);
    }
  }

  lemma MostFlushes(limit: Limit, frags: seq<seq<byte>>)
    ensures Flushes(limit, frags) <= AllCuts(limit, Concat(frags))
  {
    var ps, c := RunPieces(limit, frags), Run(limit, frags);
    assert AllLawful(limit, ps) && ForcedCount(ps) == Flushes(limit, frags) by {
      RunIsExplained(limit, frags);
    }
    ForcedPerLine(limit, ps);
    assert Joined(ps).0 == Lines(Concat(frags)) && |Joined(ps).1| + |c.input| == |Tail(Concat(frags))| by {
      RunSplitsLines(limit, frags);
    }
    QuotientGrows(|Joined(ps).1|, |c.input|, limit);
  }

  /**
   Of all ways to deliver a stream, all at once causes the fewest flushes and byte by byte the most:
   for each line, as often as `limit` goes into it.
   */
  lemma FlushRange(limit: Limit, frags: seq<seq<byte>>)
    ensures var s := Concat(frags);
            && Flushes(limit, [s]) <= Flushes(limit, frags) <= Flushes(limit, Singles(s))
            && Flushes(limit, Singles(s)) == AllCuts(limit, s)
            && Concat([s]) == s == Concat(Singles(s))
  {
    ConcatOne(Concat(frags));
    ConcatSingles(Concat(frags));
    FewestFlushes(limit, frags);
    MostFlushes(limit, frags);
    SinglesFlush(limit, Concat(frags));
  }
}
