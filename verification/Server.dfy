/**
 The server of rot13/main.cpp as a state machine: connections that are accepted, receive bytes,
 have their callback run, have output written to the network, and are freed, in any order.
 */
module Server {
  import opened Bytes
  import opened LineMachine
  import opened Transcript
  import opened Fragmentation

  /**
   The limit that readcb flushes at, the high read watermark that do_accept sets, and the highest
   descriptor that it keeps (FD_SETSIZE). The source gives the first two the same value.
   */
  datatype Config = Config(limit: Limit, high: nat, fdMax: nat)

  /** The settings of the source, for a given FD_SETSIZE. */
  function SourceConfig(fdMax: nat): Config {
    Config(MAX_LINE, MAX_LINE, fdMax)
  }

  /**
   A live connection: its two buffers, what has left the output buffer, its high read watermark, and
   whether readcb is due.
   */
  datatype Link = Link(input: seq<byte>, queued: seq<byte>, sent: seq<byte>, high: nat, pending: bool) {
    function Conn(): LineMachine.Conn {
      LineMachine.Conn(input, sent + queued)
    }

    /** The input buffer is beyond the high watermark, so libevent has stopped reading. */
    predicate Paused() {
      |input| > high
    }
  }

  function NewLink(high: nat): Link {
    Link([], [], [], high, false)
  }

  datatype Event =
    | Accept(fd: int)                     // accept returned fd, negative for an error
    | Deliver(fd: int, bytes: seq<byte>)  // bytes arrived from the network
    | ReadCb(fd: int)
    | Write(fd: int, n: nat)              // n bytes of output went out to the network
    | ErrorCb(fd: int)

  type State = map<int, Link>

  predicate Admits(cfg: Config, fd: int) {
    0 <= fd <= cfg.fdMax
  }

  /**
   libevent reads unless that is paused, and then owes a callback. One read may take the buffer over
   the watermark. A connection can fail at any time.
   */
  predicate Enabled(s: State, e: Event) {
    match e
    case Accept(fd) => fd !in s
    case Deliver(fd, bytes) => fd in s && bytes != [] && !s[fd].Paused()
    case ReadCb(fd) => fd in s && s[fd].pending
    case Write(fd, n) => fd in s && n <= |s[fd].queued|
    case ErrorCb(fd) => fd in s
  }

  function LinkCallback(limit: Limit, l: Link): Link {
    var r := Callback(limit, LineMachine.Conn(l.input, l.queued));
    l.(input := r.input, queued := r.output, pending := false)
  }

  function Step(cfg: Config, s: State, e: Event): State
    requires Enabled(s, e)
  {
    match e
    case Accept(fd) => if Admits(cfg, fd) then s[fd := NewLink(cfg.high)] else s
    case Deliver(fd, bytes) => s[fd := s[fd].(input := s[fd].input + bytes, pending := true)]
    case ReadCb(fd) => s[fd := LinkCallback(cfg.limit, s[fd])]
    case Write(fd, n) => s[fd := s[fd].(queued := s[fd].queued[n..], sent := s[fd].sent + s[fd].queued[..n])]
    case ErrorCb(fd) => s - {fd}
  }

  /** t can happen, from a server without connections. */
  predicate Valid(cfg: Config, t: seq<Event>)
    decreases |t|, 0
  {
    t != [] ==> Valid(cfg, t[..|t| - 1]) && Enabled(After(cfg, t[..|t| - 1]), t[|t| - 1])
  }

  function After(cfg: Config, t: seq<Event>): State
    requires Valid(cfg, t)
    decreases |t|, 1
  {
    if t == [] then map[] else Step(cfg, After(cfg, t[..|t| - 1]), t[|t| - 1])
  }

  /** What happened on a descriptor since it was last accepted. */
  datatype Session = NoSession | Open(frags: seq<seq<byte>>, unread: seq<byte>, written: nat)

  function History(cfg: Config, t: seq<Event>, fd: int): Session {
    if t == [] then NoSession
    else
      var before, e := History(cfg, t[..|t| - 1], fd), t[|t| - 1];
      if e.fd != fd then before
      else if e.Accept? then if Admits(cfg, fd) then Open([], [], 0) else before
      else if e.ErrorCb? || before.NoSession? then NoSession
      else
        match e
        case Deliver(_, bytes) => before.(unread := before.unread + bytes)
        case ReadCb(_) => before.(frags := before.frags + [before.unread], unread := [])
        case Write(_, n) => before.(written := before.written + n)
  }

  /** The link is in the state that its own session, run by itself, leads to. */
  predicate Fits(cfg: Config, l: Link, h: Session)
    requires h.Open?
  {
    && l.Conn() == Feed(Run(cfg.limit, h.frags), h.unread)
    && l.high == cfg.high
    && |l.sent| == h.written
    && (l.pending <==> h.unread != [])
  }

  lemma {:induction false} CallbackFits(cfg: Config, l: Link, h: Session)
    requires h.Open? && Fits(cfg, l, h)
    ensures Fits(cfg, LinkCallback(cfg.limit, l), h.(frags := h.frags + [h.unread], unread := []))
  {
    RunSnoc(cfg.limit, h.frags, h.unread);
    var r := Callback(cfg.limit, l.Conn());
    assert LinkCallback(cfg.limit, l).Conn() == r by {
      Assoc(l.sent, l.queued, CharMap.Rot13(Head(l.input)));
      Assoc(l.sent, l.queued, CharMap.Rot13(l.input) + [LF]);
    }
    assert Feed(r, []) == r;
  }

  /**
   Every run, any number of connections, any interleaving: a descriptor is live exactly while its
   session is open, and its buffers are those of the single-connection machine.
   */
  lemma {:induction false} SessionsFit(cfg: Config, t: seq<Event>, fd: int)
    requires Valid(cfg, t)
    ensures fd in After(cfg, t) <==> History(cfg, t, fd).Open?
    ensures fd in After(cfg, t) ==> Fits(cfg, After(cfg, t)[fd], History(cfg, t, fd))
  {
    if t != [] {
      var p, e := t[..|t| - 1], t[|t| - 1];
      SessionsFit(cfg, p, fd);
      if e.fd == fd && fd in After(cfg, p) {
        var l, h := After(cfg, p)[fd], History(cfg, p, fd);
        match e
        case Accept(_) =>
        case Deliver(_, bytes) => Assoc(Run(cfg.limit, h.frags).input, h.unread, bytes);
        case ReadCb(_) => CallbackFits(cfg, l, h);
        case Write(_, n) =>
          assert l.queued == l.queued[..n] + l.queued[n..];
          Assoc(l.sent, l.queued[..n], l.queued[n..]);
        case ErrorCb(_) =>
      }
    }
  }

  /** The events of one descriptor. */
  function Project(t: seq<Event>, fd: int): seq<Event> {
    if t == [] then []
    else if t[|t| - 1].fd == fd then Project(t[..|t| - 1], fd) + [t[|t| - 1]]
    else Project(t[..|t| - 1], fd)
  }

  lemma AfterSnoc(cfg: Config, t: seq<Event>, e: Event)
    requires Valid(cfg, t) && Enabled(After(cfg, t), e)
    ensures Valid(cfg, t + [e]) && After(cfg, t + [e]) == Step(cfg, After(cfg, t), e)
  {
    assert (t + [e])[..|t|] == t;
  }

  /** s and s' hold the same connection, or none, on fd. */
  predicate SameOn(s: State, s': State, fd: int) {
    (fd in s <==> fd in s') && (fd in s ==> s[fd] == s'[fd])
  }

  /** One event after two runs that agree on fd: the second run needs it only if it is fd's. */
  lemma SameStep(cfg: Config, t: seq<Event>, t': seq<Event>, e: Event, fd: int)
    requires Valid(cfg, t + [e]) && Valid(cfg, t) && Valid(cfg, t')
    requires SameOn(After(cfg, t), After(cfg, t'), fd)
    ensures var u := if e.fd == fd then t' + [e] else t';
            Valid(cfg, u) && SameOn(After(cfg, t + [e]), After(cfg, u), fd)
  {
    assert (t + [e])[..|t|] == t;
    if e.fd == fd {
      AfterSnoc(cfg, t', e);
    }
  }

  lemma ProjectSnoc(t: seq<Event>, e: Event, fd: int)
    ensures Project(t + [e], fd) == if e.fd == fd then Project(t, fd) + [e] else Project(t, fd)
  {
    assert (t + [e])[..|t|] == t;
  }

  /** Leaving out all other connections changes nothing for this one. */
  lemma {:induction false} Isolation(cfg: Config, t: seq<Event>, fd: int)
    requires Valid(cfg, t)
    ensures Valid(cfg, Project(t, fd))
    ensures SameOn(After(cfg, t), After(cfg, Project(t, fd)), fd)
  {
    if t != [] {
      var p, e := t[..|t| - 1], t[|t| - 1];
      Isolation(cfg, p, fd);
      assert p + [e] == t;
      SameStep(cfg, p, Project(p, fd), e, fd);
    }
  }

  /** A connection on a descriptor that was in use before is as on a server that never used it. */
  lemma {:induction false} ReuseStartsAfresh(cfg: Config, t: seq<Event>, u: seq<Event>, fd: int)
    requires Valid(cfg, t + [Accept(fd)] + u) && Admits(cfg, fd)
    ensures var v := Project([Accept(fd)] + u, fd);
            && Valid(cfg, v)
            && SameOn(After(cfg, t + [Accept(fd)] + u), After(cfg, v), fd)
  {
    if u == [] {
      FirstAccept(cfg, t, fd);
    } else {
      var v, e := u[..|u| - 1], u[|u| - 1];
      var all, own := t + [Accept(fd)] + v, [Accept(fd)] + v;
      assert t + [Accept(fd)] + u == all + [e] && Valid(cfg, all) by {
        assert u == v + [e];
        Assoc(t + [Accept(fd)], v, [e]);
        assert (all + [e])[..|all|] == all;
      }
      assert [Accept(fd)] + u == own + [e];
      ReuseStartsAfresh(cfg, t, v, fd);
      SameStep(cfg, all, Project(own, fd), e, fd);
      ProjectSnoc(own, e, fd);
    }
  }

  lemma FirstAccept(cfg: Config, t: seq<Event>, fd: int)
    requires Valid(cfg, t + [Accept(fd)] + []) && Admits(cfg, fd)
    ensures var v := Project([Accept(fd)] + [], fd);
            && Valid(cfg, v)
            && SameOn(After(cfg, t + [Accept(fd)] + []), After(cfg, v), fd)
  {
    var all := t + [Accept(fd)];
    assert all + [] == all && all[..|all| - 1] == t;
    ProjectSnoc([], Accept(fd), fd);
    assert [Accept(fd)] + [] == [] + [Accept(fd)];
    AfterSnoc(cfg, [], Accept(fd));
  }

  /**
   A connection with `limit` bytes or more has a callback due, and any callback takes it below that.
   With a watermark at the limit, or one below, reading goes on whenever no callback is due.
   */
  lemma {:induction false} NoReadStall(cfg: Config, t: seq<Event>, fd: int)
    requires Valid(cfg, t) && fd in After(cfg, t)
    ensures var l := After(cfg, t)[fd];
            && (|l.input| >= cfg.limit ==> Enabled(After(cfg, t), ReadCb(fd)))
            && |LinkCallback(cfg.limit, l).input| < cfg.limit
            && (cfg.limit <= cfg.high + 1 && !l.pending
                ==> forall b :: b != [] ==> Enabled(After(cfg, t), Deliver(fd, b)))
  {
    SessionsFit(cfg, t, fd);
    RunSettles(cfg.limit, History(cfg, t, fd).frags);
    var l := After(cfg, t)[fd];
    CallbackSettles(cfg.limit, LineMachine.Conn(l.input, l.queued));
  }

  /** In every run, reading is paused only while a callback is due. */
  ghost predicate NeverStalls(cfg: Config) {
    forall t, fd :: Valid(cfg, t) && fd in After(cfg, t) && !After(cfg, t)[fd].pending
      ==> !After(cfg, t)[fd].Paused()
  }

  /** Accept, one delivery, and its callback. */
  lemma OneDelivery(cfg: Config, f: seq<byte>)
    requires f != []
    ensures var t := [Accept(0), Deliver(0, f), ReadCb(0)];
            && Valid(cfg, t) && 0 in After(cfg, t)
            && After(cfg, t)[0] == LinkCallback(cfg.limit, Link(f, [], [], cfg.high, true))
  {
    AfterSnoc(cfg, [], Accept(0));
    AfterSnoc(cfg, [Accept(0)], Deliver(0, f));
    AfterSnoc(cfg, [Accept(0), Deliver(0, f)], ReadCb(0));
    assert [] + [Accept(0)] == [Accept(0)];
    assert [Accept(0)] + [Deliver(0, f)] == [Accept(0), Deliver(0, f)];
    assert [Accept(0), Deliver(0, f)] + [ReadCb(0)] == [Accept(0), Deliver(0, f), ReadCb(0)];
    assert [] + f == f;
  }

  /** Some LF-free text of n bytes. */
  function Filler(n: nat): (f: seq<byte>)
    ensures |f| == n && LF !in f
  {
    seq(n, _ => 0)
  }

  /** An LF-free text shorter than the limit stays in the input buffer. */
  lemma FillerStays(cfg: Config, n: nat)
    requires 0 < n < cfg.limit
    ensures var t := [Accept(0), Deliver(0, Filler(n)), ReadCb(0)];
            && Valid(cfg, t) && 0 in After(cfg, t)
            && After(cfg, t)[0].input == Filler(n) && !After(cfg, t)[0].pending && After(cfg, t)[0].high == cfg.high
  {
    OneDelivery(cfg, Filler(n));
    CallbackSettled(cfg.limit, LineMachine.Conn(Filler(n), []));
  }

  /** No read stall in any run: exactly when the watermark is at most one byte below the flush limit. */
  lemma NeverStallsExactly(cfg: Config)
    ensures NeverStalls(cfg) <==> cfg.limit <= cfg.high + 1
  {
    if cfg.limit <= cfg.high + 1 {
      forall t, fd | Valid(cfg, t) && fd in After(cfg, t) && !After(cfg, t)[fd].pending
        ensures !After(cfg, t)[fd].Paused()
      {
        NoReadStall(cfg, t, fd);
        assert Enabled(After(cfg, t), Deliver(fd, [LF]));
      }
    } else {
      FillerStays(cfg, cfg.limit - 1);
    }
  }

  /** The received bytes of a session, none if there is no session. */
  function Received(h: Session): seq<byte> {
    if h.Open? then Concat(h.frags) + h.unread else []
  }

  /**
   What errorcb throws away, in any state: the received bytes that no piece accounts for and the
   echoed bytes still queued. Those received bytes are an LF-free end shorter than the limit exactly
   when the unread part of them is, which holds whenever no callback is due.
   */
  lemma {:induction false} LostOnError(cfg: Config, t: seq<Event>, fd: int)
    requires Valid(cfg, t) && fd in After(cfg, t)
    ensures var l, h := After(cfg, t)[fd], History(cfg, t, fd);
            && h.Open?
            && var ps, c := RunPieces(cfg.limit, h.frags), Run(cfg.limit, h.frags);
            && AllLawful(cfg.limit, ps)
            && Received(h) == Consumed(ps) + l.input
            && l.sent + l.queued == c.output == Echoed(ps)
            && h.written <= |c.output| && l.sent == c.output[..h.written]
            && (Settled(cfg.limit, l.Conn()) <==> LF !in h.unread && |l.input| < cfg.limit)
            && (!l.pending ==> h.unread == [] && Explains(cfg.limit, ps, Received(h), l.Conn()))
  {
    SessionsFit(cfg, t, fd);
    var l, h := After(cfg, t)[fd], History(cfg, t, fd);
    var ps, c := RunPieces(cfg.limit, h.frags), Run(cfg.limit, h.frags);
    RunIsExplained(cfg.limit, h.frags);
    Assoc(Consumed(ps), c.input, h.unread);
    assert (l.sent + l.queued)[..|l.sent|] == l.sent;
    RunSettles(cfg.limit, h.frags);
  }

  /** No delivery takes a connection's input buffer over the high watermark. */
  predicate Honours(cfg: Config, t: seq<Event>)
    requires Valid(cfg, t)
  {
    t != [] ==>
      var p, e := t[..|t| - 1], t[|t| - 1];
      && Honours(cfg, p)
      && (e.Deliver? ==> |After(cfg, p)[e.fd].input + e.bytes| <= cfg.high)
  }

  lemma {:induction false} HonoursKeepsWithin(cfg: Config, t: seq<Event>, fd: int)
    requires Valid(cfg, t) && Honours(cfg, t) && fd in After(cfg, t)
    ensures var h := History(cfg, t, fd);
            h.Open? && Within(cfg.limit, cfg.high, h.frags) && |After(cfg, t)[fd].input| <= cfg.high
  {
    if t != [] {
      var p, e := t[..|t| - 1], t[|t| - 1];
      if fd in After(cfg, p) {
        HonoursKeepsWithin(cfg, p, fd);
        SessionsFit(cfg, p, fd);
        if e == ReadCb(fd) {
          var h := History(cfg, p, fd);
          var frags := h.frags + [h.unread];
          assert frags[..|frags| - 1] == h.frags;
        }
      }
    }
  }

  /**
   On servers that honour a watermark no higher than the limit, two connections that received the
   same bytes have echoed the same bytes: not the fragments, not the descriptor, not other
   connections make a difference.
   */
  lemma AnswerIsFunctionOfStream(cfg: Config, t: seq<Event>, fd: int, cfg': Config, u: seq<Event>, gd: int)
    requires cfg.high <= cfg.limit && cfg'.high <= cfg'.limit && cfg.limit == cfg'.limit
    requires Valid(cfg, t) && Honours(cfg, t) && fd in After(cfg, t) && !After(cfg, t)[fd].pending
    requires Valid(cfg', u) && Honours(cfg', u) && gd in After(cfg', u) && !After(cfg', u)[gd].pending
    requires Received(History(cfg, t, fd)) == Received(History(cfg', u, gd))
    ensures After(cfg, t)[fd].Conn() == After(cfg', u)[gd].Conn()
  {
    SettledSession(cfg, t, fd);
    SettledSession(cfg', u, gd);
    HonoursKeepsWithin(cfg, t, fd);
    HonoursKeepsWithin(cfg', u, gd);
    WithinLess(cfg.limit, cfg.high, History(cfg, t, fd).frags);
    WithinLess(cfg.limit, cfg'.high, History(cfg', u, gd).frags);
    CappedRunsAgree(cfg.limit, History(cfg, t, fd).frags, History(cfg', u, gd).frags);
  }

  /** A connection without a callback due is in the state that a run on all it received ends in. */
  lemma SettledSession(cfg: Config, t: seq<Event>, fd: int)
    requires Valid(cfg, t) && fd in After(cfg, t) && !After(cfg, t)[fd].pending
    ensures var h := History(cfg, t, fd);
            && h.Open? && Received(h) == Concat(h.frags)
            && After(cfg, t)[fd].Conn() == Run(cfg.limit, h.frags)
  {
    SessionsFit(cfg, t, fd);
    var h := History(cfg, t, fd);
    assert Feed(Run(cfg.limit, h.frags), []) == Run(cfg.limit, h.frags);
  }
}
