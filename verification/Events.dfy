/**
 What each event of the server does, said of its runs: when the event can happen next, what it
 changes, and that it changes no other connection.
 */
module Events {
  import opened Bytes
  import opened CharMap
  import opened LineMachine
  import opened Server
  import opened Transcript

  /** e changes nothing but the connection on its own descriptor. */
  ghost predicate OthersKept(cfg: Config, t: seq<Event>, e: Event)
    requires Valid(cfg, t) && Valid(cfg, t + [e])
  {
    forall fd :: fd != e.fd ==>
      && (fd in After(cfg, t) <==> fd in After(cfg, t + [e]))
      && (fd in After(cfg, t) ==> After(cfg, t)[fd] == After(cfg, t + [e])[fd])
  }

  lemma ValidSnoc(cfg: Config, t: seq<Event>, e: Event)
    requires Valid(cfg, t)
    ensures Valid(cfg, t + [e]) <==> Enabled(After(cfg, t), e)
    ensures Valid(cfg, t + [e]) ==> After(cfg, t + [e]) == Step(cfg, After(cfg, t), e)
  {
    assert (t + [e])[..|t|] == t;
  }

  /** accept can return any descriptor that is not in use; those from 0 to the highest one are kept. */
  lemma AcceptKeeps(cfg: Config, t: seq<Event>, fd: int)
    requires Valid(cfg, t)
    ensures Valid(cfg, t + [Accept(fd)]) <==> fd !in After(cfg, t)
    ensures Valid(cfg, t + [Accept(fd)]) ==>
              var s := After(cfg, t + [Accept(fd)]);
              && (fd in s <==> 0 <= fd <= cfg.fdMax)
              && (fd in s ==> s[fd].input == s[fd].queued == s[fd].sent == [] && !s[fd].pending)
              && (fd in s ==> s[fd].high == cfg.high)
              && OthersKept(cfg, t, Accept(fd))
  {
    ValidSnoc(cfg, t, Accept(fd));
  }

  /** So no other descriptor ever becomes a connection. */
  lemma {:induction false} LiveDescriptors(cfg: Config, t: seq<Event>, fd: int)
    requires Valid(cfg, t) && fd in After(cfg, t)
    ensures 0 <= fd <= cfg.fdMax
  {
    if fd in After(cfg, t[..|t| - 1]) {
      LiveDescriptors(cfg, t[..|t| - 1], fd);
    }
  }

  /** Bytes can arrive while the input is not beyond the watermark; they go to its end, and readcb is due. */
  lemma DeliverAppends(cfg: Config, t: seq<Event>, fd: int, bytes: seq<byte>)
    requires Valid(cfg, t) && fd in After(cfg, t)
    ensures Valid(cfg, t + [Deliver(fd, bytes)]) <==> bytes != [] && |After(cfg, t)[fd].input| <= cfg.high
    ensures Valid(cfg, t + [Deliver(fd, bytes)]) ==>
              var l, s := After(cfg, t)[fd], After(cfg, t + [Deliver(fd, bytes)]);
              && fd in s && s[fd].pending
              && s[fd].input == l.input + bytes && s[fd].queued == l.queued && s[fd].sent == l.sent
              && OthersKept(cfg, t, Deliver(fd, bytes))
  {
    SessionsFit(cfg, t, fd);
    ValidSnoc(cfg, t, Deliver(fd, bytes));
  }

  /** readcb runs when it is due, on the input and on all that was echoed; it sends nothing by itself. */
  lemma ReadCbAnswers(cfg: Config, t: seq<Event>, fd: int)
    requires Valid(cfg, t) && fd in After(cfg, t)
    ensures Valid(cfg, t + [ReadCb(fd)]) <==> After(cfg, t)[fd].pending
    ensures Valid(cfg, t + [ReadCb(fd)]) ==>
              var l, s := After(cfg, t)[fd], After(cfg, t + [ReadCb(fd)]);
              && fd in s && !s[fd].pending
              && s[fd].Conn() == Callback(cfg.limit, l.Conn()) && s[fd].sent == l.sent
              && OthersKept(cfg, t, ReadCb(fd))
  {
    var l := After(cfg, t)[fd];
    ValidSnoc(cfg, t, ReadCb(fd));
    Assoc(l.sent, l.queued, Rot13(Head(l.input)));
    Assoc(l.sent, l.queued, Rot13(l.input) + [LF]);
  }

  /** Any part of the queued output can go out next; it is the next part of what was echoed. */
  lemma WriteSends(cfg: Config, t: seq<Event>, fd: int, n: nat)
    requires Valid(cfg, t) && fd in After(cfg, t)
    ensures Valid(cfg, t + [Write(fd, n)]) <==> n <= |After(cfg, t)[fd].queued|
    ensures Valid(cfg, t + [Write(fd, n)]) ==>
              var l, s := After(cfg, t)[fd], After(cfg, t + [Write(fd, n)]);
              && fd in s && s[fd].pending == l.pending
              && |l.sent| + n <= |l.Conn().output|
              && s[fd].sent == l.Conn().output[..|l.sent| + n]
              && s[fd].Conn() == l.Conn()
              && OthersKept(cfg, t, Write(fd, n))
  {
    var l := After(cfg, t)[fd];
    ValidSnoc(cfg, t, Write(fd, n));
    if n <= |l.queued| {
      assert l.queued == l.queued[..n] + l.queued[n..];
      Assoc(l.sent, l.queued[..n], l.queued[n..]);
    }
  }

  /** Any live connection can fail at any time, and is gone then. */
  lemma ErrorFrees(cfg: Config, t: seq<Event>, fd: int)
    requires Valid(cfg, t)
    ensures Valid(cfg, t + [ErrorCb(fd)]) <==> fd in After(cfg, t)
    ensures Valid(cfg, t + [ErrorCb(fd)]) ==>
              && After(cfg, t + [ErrorCb(fd)]).Keys == After(cfg, t).Keys - {fd}
              && OthersKept(cfg, t, ErrorCb(fd))
  {
    ValidSnoc(cfg, t, ErrorCb(fd));
  }

  /** No event but Accept can happen on a descriptor that has no connection. */
  lemma OnlyAccept(cfg: Config, t: seq<Event>, e: Event)
    requires Valid(cfg, t) && e.fd !in After(cfg, t)
    ensures Valid(cfg, t + [e]) <==> e.Accept?
  {
    ValidSnoc(cfg, t, e);
  }

  /** A first delivery and its callback: what has been echoed then. */
  lemma FirstAnswer(cfg: Config, f: seq<byte>)
    requires f != []
    ensures var t := [Accept(0), Deliver(0, f), ReadCb(0)];
            && Valid(cfg, t) && 0 in After(cfg, t)
            && After(cfg, t)[0].Conn() == Callback(cfg.limit, Conn(f, []))
  {
    OneDelivery(cfg, f);
    var r := Callback(cfg.limit, Conn(f, []));
    assert [] + r.output == r.output;
  }

  /** The numbers of the source: text without byte 10 waits as long as it is shorter than 16384 bytes. */
  lemma SourceWaits(fdMax: nat, f: seq<byte>)
    requires f != [] && 10 !in f
    ensures var cfg, t := SourceConfig(fdMax), [Accept(0), Deliver(0, f), ReadCb(0)];
            && Valid(cfg, t) && 0 in After(cfg, t)
            && After(cfg, t)[0].Conn() == if |f| < 16384 then Conn(f, []) else Conn([], Rot13(f) + [10])
  {
    FirstAnswer(SourceConfig(fdMax), f);
    if |f| < 16384 {
      CallbackSettled(16384, Conn(f, []));
    } else {
      PieceEchoed(16384, Forced(f), []);
      assert [] + (Rot13(f) + [10]) == Rot13(f) + [10];
    }
  }

  /** A line of any length that arrives with its byte 10 is answered as it is. */
  lemma SourceAnswers(fdMax: nat, s: seq<byte>)
    requires 10 !in s
    ensures var cfg, t := SourceConfig(fdMax), [Accept(0), Deliver(0, s + [10]), ReadCb(0)];
            && Valid(cfg, t) && 0 in After(cfg, t)
            && After(cfg, t)[0].Conn() == Conn([], Rot13(s) + [10])
  {
    FirstAnswer(SourceConfig(fdMax), s + [10]);
    PieceEchoed(16384, Line(s), []);
    assert [] + (Rot13(s) + [10]) == Rot13(s) + [10];
  }

  /** Reading is paused beyond 16384 waiting bytes. */
  lemma SourcePauses(fdMax: nat, t: seq<Event>, fd: int)
    requires Valid(SourceConfig(fdMax), t) && fd in After(SourceConfig(fdMax), t)
    ensures Valid(SourceConfig(fdMax), t + [Deliver(fd, [LF])])
       <==> |After(SourceConfig(fdMax), t)[fd].input| <= 16384
  {
    DeliverAppends(SourceConfig(fdMax), t, fd, [LF]);
  }
}
