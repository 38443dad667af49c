/** Which runs of the single-connection machine a server can have, and what follows for its answers. */
module ServerRuns {
  import opened Bytes
  import opened Cutting
  import opened LineMachine
  import opened Transcript
  import opened Fragmentation
  import opened RoundTrip
  import opened Server

  /** A connection that is accepted and gets the fragments one by one, each followed by its callback. */
  function Script(fd: int, frags: seq<seq<byte>>): seq<Event> {
    if frags == [] then [Accept(fd)]
    else Script(fd, frags[..|frags| - 1]) + [Deliver(fd, frags[|frags| - 1])] + [ReadCb(fd)]
  }

  /** No fragment is empty, and reading is never paused when one arrives. */
  predicate Readable(cfg: Config, frags: seq<seq<byte>>) {
    frags != [] ==>
      var n := |frags| - 1;
      && Readable(cfg, frags[..n])
      && frags[n] != []
      && |Run(cfg.limit, frags[..n]).input| <= cfg.high
  }

  lemma HistorySnoc(cfg: Config, t: seq<Event>, e: Event, fd: int)
    requires e.fd == fd && History(cfg, t, fd).Open?
    ensures var h := History(cfg, t, fd);
            && (e.Deliver? ==> History(cfg, t + [e], fd) == h.(unread := h.unread + e.bytes))
            && (e.ReadCb? ==> History(cfg, t + [e], fd) == h.(frags := h.frags + [h.unread], unread := []))
  {
    assert (t + [e])[..|t|] == t;
  }

  /** In t, descriptor fd has been given the fragments and is in the state that they lead to. */
  ghost predicate Plays(cfg: Config, t: seq<Event>, fd: int, frags: seq<seq<byte>>)
    requires Valid(cfg, t)
  {
    && History(cfg, t, fd) == Open(frags, [], 0)
    && fd in After(cfg, t) && !After(cfg, t)[fd].pending && After(cfg, t)[fd].sent == []
    && After(cfg, t)[fd].Conn() == Run(cfg.limit, frags)
    && (Honours(cfg, t) <==> Within(cfg.limit, cfg.high, frags))
  }

  lemma ScriptStarts(cfg: Config, fd: int)
    requires Admits(cfg, fd)
    ensures Valid(cfg, [Accept(fd)]) && Plays(cfg, [Accept(fd)], fd, [])
    ensures Honours(cfg, [Accept(fd)])
  {
    AfterSnoc(cfg, [], Accept(fd));
    assert [] + [Accept(fd)] == [Accept(fd)];
    assert [Accept(fd)][..0] == [];
  }

  /** One more fragment and its callback: when they can happen, and what they lead to. */
  lemma ScriptGoesOn(cfg: Config, t: seq<Event>, fd: int, frags: seq<seq<byte>>, f: seq<byte>)
    requires Valid(cfg, t) && Plays(cfg, t, fd, frags)
    ensures var u := t + [Deliver(fd, f)] + [ReadCb(fd)];
            && (Valid(cfg, u) <==> f != [] && |Run(cfg.limit, frags).input| <= cfg.high)
            && (Valid(cfg, u) ==> Plays(cfg, u, fd, frags + [f]))
  {
    var d, r := Deliver(fd, f), ReadCb(fd);
    SessionsFit(cfg, t, fd);
    assert (t + [d])[..|t|] == t;
    assert (t + [d] + [r])[..|t| + 1] == t + [d];
    if f != [] && |Run(cfg.limit, frags).input| <= cfg.high {
      AfterSnoc(cfg, t, d);
      AfterSnoc(cfg, t + [d], r);
      HistorySnoc(cfg, t, d, fd);
      HistorySnoc(cfg, t + [d], r, fd);
      assert [] + f == f;
      assert (frags + [f])[..|frags|] == frags;
      SettledSession(cfg, t + [d] + [r], fd);
    }
  }

  lemma ValidBefore(cfg: Config, t: seq<Event>, e: Event)
    ensures Valid(cfg, t + [e]) ==> Valid(cfg, t)
  {
    assert (t + [e])[..|t|] == t;
  }

  /** A server can have a run exactly when it is readable, and then the session is that run. */
  lemma {:induction false} ScriptRuns(cfg: Config, fd: int, frags: seq<seq<byte>>)
    requires Admits(cfg, fd)
    ensures Valid(cfg, Script(fd, frags)) <==> Readable(cfg, frags)
    ensures Readable(cfg, frags) ==> Plays(cfg, Script(fd, frags), fd, frags)
  {
    if frags == [] {
      ScriptStarts(cfg, fd);
    } else {
      var p, f := frags[..|frags| - 1], frags[|frags| - 1];
      var t := Script(fd, p);
      ScriptRuns(cfg, fd, p);
      ValidBefore(cfg, t, Deliver(fd, f));
      ValidBefore(cfg, t + [Deliver(fd, f)], ReadCb(fd));
      if Readable(cfg, p) {
        ScriptGoesOn(cfg, t, fd, p, f);
        assert p + [f] == frags;
      }
    }
  }

  /** The fragments that hold something. */
  function NonEmpty(frags: seq<seq<byte>>): seq<seq<byte>> {
    if frags == [] then []
    else
      var p, f := NonEmpty(frags[..|frags| - 1]), frags[|frags| - 1];
      if f == [] then p else p + [f]
  }

  /** Where reading never stalls, every run without empty fragments is readable, and they do not matter. */
  lemma {:induction false} NonEmptyRuns(cfg: Config, frags: seq<seq<byte>>)
    requires cfg.limit <= cfg.high + 1
    ensures Concat(NonEmpty(frags)) == Concat(frags)
    ensures Run(cfg.limit, NonEmpty(frags)) == Run(cfg.limit, frags)
    ensures Readable(cfg, NonEmpty(frags))
  {
    if frags != [] {
      var n := |frags| - 1;
      var p, f := NonEmpty(frags[..n]), frags[n];
      NonEmptyRuns(cfg, frags[..n]);
      RunSettles(cfg.limit, p);
      if f == [] {
        assert Feed(Run(cfg.limit, p), []) == Run(cfg.limit, p);
        CallbackSettled(cfg.limit, Run(cfg.limit, p));
        assert Concat(frags[..n]) + [] == Concat(frags[..n]);
      } else {
        RunSnoc(cfg.limit, p, f);
        ConcatSnoc(p, f);
        assert (p + [f])[..|p|] == p;
      }
    }
  }

  /** A run of the server and a connection in it that has received `stream` and had its callback. */
  ghost predicate Answers(cfg: Config, t: seq<Event>, fd: int, stream: seq<byte>) {
    Valid(cfg, t) && fd in After(cfg, t) && !After(cfg, t)[fd].pending && Received(History(cfg, t, fd)) == stream
  }

  lemma ScriptAnswers(cfg: Config, frags: seq<seq<byte>>)
    requires Readable(cfg, frags)
    ensures var t := Script(0, frags);
            && Answers(cfg, t, 0, Concat(frags))
            && After(cfg, t)[0].Conn() == Run(cfg.limit, frags)
            && (Honours(cfg, t) <==> Within(cfg.limit, cfg.high, frags))
  {
    ScriptRuns(cfg, 0, frags);
    assert Concat(frags) + [] == Concat(frags);
  }

  /** Every run of the single machine on a stream is one of the server, on descriptor 0. */
  lemma RunIsServed(cfg: Config, frags: seq<seq<byte>>) returns (t: seq<Event>)
    requires cfg.limit <= cfg.high + 1
    ensures Answers(cfg, t, 0, Concat(frags))
    ensures After(cfg, t)[0].Conn() == Run(cfg.limit, frags)
  {
    t := Script(0, NonEmpty(frags));
    NonEmptyRuns(cfg, frags);
    ScriptAnswers(cfg, NonEmpty(frags));
  }

  /** The states that server runs can bring a connection to with a stream: those that pieces explain. */
  lemma ServedOutcomesExactly(cfg: Config, stream: seq<byte>, c: Conn)
    requires NeverStalls(cfg)
    ensures (exists t, fd :: Answers(cfg, t, fd, stream) && After(cfg, t)[fd].Conn() == c)
       <==> (exists ps :: Explains(cfg.limit, ps, stream, c))
  {
    NeverStallsExactly(cfg);
    if t, fd :| Answers(cfg, t, fd, stream) && After(cfg, t)[fd].Conn() == c {
      SettledSession(cfg, t, fd);
      RunIsExplained(cfg.limit, History(cfg, t, fd).frags);
    }
    if ps :| Explains(cfg.limit, ps, stream, c) {
      var frags := ExplainedIsRun(cfg.limit, ps, stream, c);
      var t := RunIsServed(cfg, frags);
    }
  }

  ghost predicate ServedAlike(cfg: Config, stream: seq<byte>) {
    forall t, fd, u, gd :: Answers(cfg, t, fd, stream) && Answers(cfg, u, gd, stream)
      ==> After(cfg, t)[fd].Conn() == After(cfg, u)[gd].Conn()
  }

  /** All connections of all runs give one answer to a stream exactly when it is quiet. */
  lemma ServedAlikeExactly(cfg: Config, stream: seq<byte>)
    requires NeverStalls(cfg)
    ensures ServedAlike(cfg, stream) <==> Quiet(cfg.limit, stream)
  {
    NeverStallsExactly(cfg);
    IndependentExactly(cfg.limit, stream);
    if Quiet(cfg.limit, stream) {
      forall t, fd, u, gd | Answers(cfg, t, fd, stream) && Answers(cfg, u, gd, stream)
        ensures After(cfg, t)[fd].Conn() == After(cfg, u)[gd].Conn()
      {
        SettledSession(cfg, t, fd);
        SettledSession(cfg, u, gd);
      }
    } else {
      var f, g :| Concat(f) == stream && Concat(g) == stream && Run(cfg.limit, f) != Run(cfg.limit, g);
      var t := RunIsServed(cfg, f);
      var u := RunIsServed(cfg, g);
    }
  }

  /** Where the watermark is honoured: the answer to any stream, in closed form. */
  lemma ServedAnswer(cfg: Config, t: seq<Event>, fd: int, stream: seq<byte>)
    requires cfg.high <= cfg.limit && Answers(cfg, t, fd, stream) && Honours(cfg, t)
    ensures After(cfg, t)[fd].Conn() == Conn(Rest(cfg.limit, Tail(stream)), Echoed(Cuts(cfg.limit, stream)))
  {
    SettledSession(cfg, t, fd);
    HonoursKeepsWithin(cfg, t, fd);
    WithinLess(cfg.limit, cfg.high, History(cfg, t, fd).frags);
    CappedAnswer(cfg.limit, History(cfg, t, fd).frags);
  }

  /** AnswerIsFunctionOfStream read backwards: if two answers differ, a watermark was overrun. */
  lemma DisagreementOverruns(cfg: Config, t: seq<Event>, fd: int, u: seq<Event>, gd: int, stream: seq<byte>)
    requires cfg.high <= cfg.limit && Answers(cfg, t, fd, stream) && Answers(cfg, u, gd, stream)
    requires After(cfg, t)[fd].Conn() != After(cfg, u)[gd].Conn()
    ensures !Honours(cfg, t) || !Honours(cfg, u)
  {
    if Honours(cfg, t) && Honours(cfg, u) {
      AnswerIsFunctionOfStream(cfg, t, fd, cfg, u, gd);
    }
  }

  /** What one connection answers, sent through any connection of any run, is the stream again. */
  ghost predicate ServedBack(cfg: Config, stream: seq<byte>) {
    forall t, fd, u, gd ::
      Answers(cfg, t, fd, stream) && Answers(cfg, u, gd, After(cfg, t)[fd].Conn().output)
      ==> After(cfg, u)[gd].Conn().output == stream
  }

  lemma ServedBackExactly(cfg: Config, stream: seq<byte>)
    requires NeverStalls(cfg)
    ensures ServedBack(cfg, stream) <==> Clean(cfg.limit, stream)
  {
    NeverStallsExactly(cfg);
    ReturnsAlwaysExactly(cfg.limit, stream);
    if Clean(cfg.limit, stream) {
      forall t, fd, u, gd | Answers(cfg, t, fd, stream) && Answers(cfg, u, gd, After(cfg, t)[fd].Conn().output)
        ensures After(cfg, u)[gd].Conn().output == stream
      {
        SettledSession(cfg, t, fd);
        SettledSession(cfg, u, gd);
      }
    } else {
      var f, g :| Concat(f) == stream && Concat(g) == Run(cfg.limit, f).output && Run(cfg.limit, g).output != stream;
      var t := RunIsServed(cfg, f);
      var u := RunIsServed(cfg, g);
    }
  }

  /** Where the watermark is honoured on the first leg, one condition decides every single round trip. */
  lemma ServedBackHonoured(cfg: Config, t: seq<Event>, fd: int, u: seq<Event>, gd: int, stream: seq<byte>)
    requires cfg.high <= cfg.limit && Answers(cfg, t, fd, stream) && Honours(cfg, t)
    requires Answers(cfg, u, gd, After(cfg, t)[fd].Conn().output)
    ensures After(cfg, u)[gd].Conn().output == stream <==> Clean(cfg.limit, stream)
  {
    var f, g := History(cfg, t, fd), History(cfg, u, gd);
    SettledSession(cfg, t, fd);
    SettledSession(cfg, u, gd);
    HonoursKeepsWithin(cfg, t, fd);
    WithinLess(cfg.limit, cfg.high, f.frags);
    CappedReturnsExactly(cfg.limit, f.frags, g.frags);
  }

  /** Some bytes can arrive on fd after t without overrunning its watermark. */
  ghost predicate CanReceive(cfg: Config, t: seq<Event>, fd: int) {
    exists b :: Valid(cfg, t + [Deliver(fd, b)]) && Honours(cfg, t + [Deliver(fd, b)])
  }

  lemma CanReceiveExactly(cfg: Config, t: seq<Event>, fd: int)
    requires Valid(cfg, t) && Honours(cfg, t) && fd in After(cfg, t)
    ensures CanReceive(cfg, t, fd) <==> |After(cfg, t)[fd].input| < cfg.high
  {
    SessionsFit(cfg, t, fd);
    forall b
      ensures Valid(cfg, t + [Deliver(fd, b)]) <==> Enabled(After(cfg, t), Deliver(fd, b))
      ensures Valid(cfg, t + [Deliver(fd, b)]) ==>
                (Honours(cfg, t + [Deliver(fd, b)]) <==> |After(cfg, t)[fd].input + b| <= cfg.high)
    {
      assert (t + [Deliver(fd, b)])[..|t|] == t;
    }
    if |After(cfg, t)[fd].input| < cfg.high {
      assert Valid(cfg, t + [Deliver(fd, [LF])]);
    }
  }

  /** Where no delivery may overrun the watermark: a connection without a callback due can receive more. */
  ghost predicate HonouringNeverStalls(cfg: Config) {
    forall t, fd :: Valid(cfg, t) && Honours(cfg, t) && fd in After(cfg, t) && !After(cfg, t)[fd].pending
      ==> CanReceive(cfg, t, fd)
  }

  /** Where no delivery may overrun the watermark, the answer to a stream is determined. */
  ghost predicate HonouringDetermines(cfg: Config) {
    forall t, fd, u, gd, stream ::
      Answers(cfg, t, fd, stream) && Honours(cfg, t) && Answers(cfg, u, gd, stream) && Honours(cfg, u)
      ==> After(cfg, t)[fd].Conn() == After(cfg, u)[gd].Conn()
  }

  lemma HonouringNeverStallsExactly(cfg: Config)
    ensures HonouringNeverStalls(cfg) <==> cfg.limit <= cfg.high
  {
    if cfg.limit <= cfg.high {
      forall t, fd | Valid(cfg, t) && Honours(cfg, t) && fd in After(cfg, t) && !After(cfg, t)[fd].pending
        ensures CanReceive(cfg, t, fd)
      {
        NoReadStall(cfg, t, fd);
        CanReceiveExactly(cfg, t, fd);
      }
    } else if cfg.high == 0 {
      ScriptStarts(cfg, 0);
      CanReceiveExactly(cfg, [Accept(0)], 0);
    } else {
      var f := Filler(cfg.high);
      OneFragment(cfg, f);
      SplitOpen(f);
      CanReceiveExactly(cfg, Script(0, [f]), 0);
    }
  }

  /** A readable run within the watermark, and a fragment more. */
  lemma ReadMore(cfg: Config, frags: seq<seq<byte>>, f: seq<byte>)
    requires Readable(cfg, frags) && Within(cfg.limit, cfg.high, frags)
    requires f != [] && |Run(cfg.limit, frags).input| + |f| <= cfg.high
    ensures Readable(cfg, frags + [f]) && Within(cfg.limit, cfg.high, frags + [f])
  {
    assert (frags + [f])[..|frags|] == frags;
  }

  lemma OneFragment(cfg: Config, f: seq<byte>)
    requires 0 < |f| <= cfg.high
    ensures Readable(cfg, [f]) && Within(cfg.limit, cfg.high, [f])
    ensures Answers(cfg, Script(0, [f]), 0, f) && Honours(cfg, Script(0, [f]))
    ensures After(cfg, Script(0, [f]))[0].Conn() == Run(cfg.limit, [f]) == Callback(cfg.limit, Conn(f, []))
  {
    ReadMore(cfg, [], f);
    assert [] + [f] == [f];
    ScriptAnswers(cfg, [f]);
    RunOne(cfg.limit, f);
    ConcatOne(f);
  }

  /** A script that flushes `limit` bytes and then gets one more. */
  lemma TwoFragments(cfg: Config, f: seq<byte>, g: seq<byte>)
    requires |f| == cfg.limit < cfg.high && LF !in f && |g| == 1
    ensures Answers(cfg, Script(0, [f, g]), 0, f + g) && Honours(cfg, Script(0, [f, g]))
    ensures After(cfg, Script(0, [f, g]))[0].Conn() == Run(cfg.limit, [f, g])
  {
    OneFragment(cfg, f);
    SplitOpen(f);
    ReadMore(cfg, [f], g);
    assert [f] + [g] == [f, g];
    ScriptAnswers(cfg, [f, g]);
    ConcatOne(f);
    ConcatSnoc([f], g);
  }

  lemma HonouringDeterminesExactly(cfg: Config)
    ensures HonouringDetermines(cfg) <==> cfg.high <= cfg.limit
  {
    if cfg.high <= cfg.limit {
      forall t, fd, u, gd, stream |
        Answers(cfg, t, fd, stream) && Honours(cfg, t) && Answers(cfg, u, gd, stream) && Honours(cfg, u)
        ensures After(cfg, t)[fd].Conn() == After(cfg, u)[gd].Conn()
      {
        AnswerIsFunctionOfStream(cfg, t, fd, cfg, u, gd);
      }
    } else {
      var f, g := Filler(cfg.limit), Filler(1);
      OneFragment(cfg, f + g);
      TwoFragments(cfg, f, g);
      SplitOpen(f);
      SplitOpen(g);
      SplitOpen(f + g);
      RunTwo(cfg.limit, f, g);
    }
  }

  /**
   The watermark of do_accept is the only one that does both: where it is never overrun, reading goes
   on for ever and the answer depends on the stream alone exactly when it equals the flush limit.
   */
  lemma WatermarkIsRight(cfg: Config)
    ensures HonouringNeverStalls(cfg) && HonouringDetermines(cfg) <==> cfg.high == cfg.limit
  {
    HonouringNeverStallsExactly(cfg);
    HonouringDeterminesExactly(cfg);
  }

  /** What a connection has sent, and what it has echoed, only grows while it lives. */
  lemma {:induction false} ServedOutputGrows(cfg: Config, t: seq<Event>, u: seq<Event>, fd: int)
    requires Valid(cfg, t + u) && Valid(cfg, t) && fd in After(cfg, t)
    requires ErrorCb(fd) !in u
    ensures fd in After(cfg, t + u)
    ensures After(cfg, t)[fd].sent <= After(cfg, t + u)[fd].sent
    ensures After(cfg, t)[fd].Conn().output <= After(cfg, t + u)[fd].Conn().output
  {
    if u == [] {
      assert t + u == t;
    } else {
      var v, e := u[..|u| - 1], u[|u| - 1];
      assert (t + u)[..|t + u| - 1] == t + v;
      ServedOutputGrows(cfg, t, v, fd);
      LinkOutputGrows(cfg, t + u, fd);
    }
  }

  /** The same for a single event. */
  lemma LinkOutputGrows(cfg: Config, t: seq<Event>, fd: int)
    requires t != [] && Valid(cfg, t) && t[|t| - 1] != ErrorCb(fd)
    requires fd in After(cfg, t[..|t| - 1])
    ensures var s, s' := After(cfg, t[..|t| - 1]), After(cfg, t);
            && fd in s'
            && s[fd].sent <= s'[fd].sent
            && s[fd].Conn().output <= s'[fd].Conn().output
  {
    var e, l := t[|t| - 1], After(cfg, t[..|t| - 1])[fd];
    if e.fd == fd && e.Write? {
      assert l.queued == l.queued[..e.n] + l.queued[e.n..];
      Assoc(l.sent, l.queued[..e.n], l.queued[e.n..]);
    }
  }
}
