/** The connections of rot13/main.cpp as objects, each method one step of the state machine. */
module EventLoops {
  import opened Bytes
  import opened Evbuffers
  import opened LineMachine
  import opened ReadCallback
  import opened Server

  class Bufferevent {
    const input: Evbuffer
    const output: Evbuffer
    var readHigh: nat
    var pending: bool
    var sent: seq<byte>

    // The watermark is 0 until it is set, so reading would pause at the first byte; DoAccept sets it at once.
    constructor ()
      ensures fresh(input) && fresh(output) && input != output
      ensures Value() == NewLink(0)
    {
      input := new Evbuffer();
      output := new Evbuffer();
      readHigh, pending, sent := 0, false, [];
    }

    method SetReadWatermark(high: nat)
      modifies this`readHigh
      ensures readHigh == high
    {
      readHigh := high;
    }

    ghost function Value(): Link
      reads this, input, output
    {
      Link(input.data, output.data, sent, readHigh, pending)
    }

    method Receive(bytes: seq<byte>)
      requires input != output
      modifies this`pending, input
      ensures Value() == old(Value()).(input := old(input.data) + bytes, pending := true)
    {
      input.Add(bytes);
      pending := true;
    }

    method RunReadCb() returns (ghost lines: nat, ghost drains: nat)
      requires input != output
      modifies this`pending, input, output
      ensures Value() == LinkCallback(MAX_LINE, old(Value()))
      ensures lines == |Lines(old(input.data))|
      ensures drains == if |Tail(old(input.data))| < 16384 then 0 else (|Tail(old(input.data))| + 1023) / 1024
    {
      lines, drains := ReadCallback.ReadCb(input, output, MAX_LINE, CHUNK);
      pending := false;
    }

    method Transmit(n: nat)
      requires input != output && n <= |output.data|
      modifies this`sent, output
      ensures Value() == old(Value()).(queued := old(output.data)[n..], sent := old(sent + output.data[..n]))
    {
      var part := new byte[n];
      var _ := output.Remove(part);
      assert part[..] == part[..n];
      sent := sent + part[..];
    }
  }

  /** The two bufferevents share no object. */
  ghost predicate Apart(b: Bufferevent, c: Bufferevent) {
    b != c && {b.input, b.output} !! {c.input, c.output}
  }

  class EventLoop {
    const fdMax: nat
    var conns: map<int, Bufferevent>

    constructor (fdMax: nat)
      ensures this.fdMax == fdMax && Valid() && Repr() == {this} && Model() == map[]
    {
      this.fdMax := fdMax;
      conns := map[];
    }

    ghost function Config(): Config {
      SourceConfig(fdMax)
    }

    ghost function Repr(): set<object>
      reads this
    {
      {this} + (set fd | fd in conns :: conns[fd])
      + (set fd | fd in conns :: conns[fd].input) + (set fd | fd in conns :: conns[fd].output)
    }

    lemma ReprHolds(fd: int)
      requires fd in conns
      ensures {conns[fd], conns[fd].input, conns[fd].output} <= Repr()
    {
    }

    ghost predicate Valid()
      reads Repr()
    {
      && (forall fd :: fd in conns ==> conns[fd].input != conns[fd].output)
      && forall fd, gd :: fd in conns && gd in conns && fd != gd ==> Apart(conns[fd], conns[gd])
    }

    ghost function Model(): State
      reads Repr()
    {
      map fd | fd in conns :: conns[fd].Value()
    }

    /** The listener is ready: fd is what accept returned. */
    method DoAccept(fd: int)
      requires Valid() && Enabled(Model(), Accept(fd))
      modifies this`conns
      ensures Valid() && forall o :: o in Repr() ==> o in old(Repr()) || fresh(o)
      ensures Model() == Step(Config(), old(Model()), Accept(fd))
      ensures conns.Keys == old(conns.Keys) + if 0 <= fd <= fdMax then {fd} else {}
    {
      if fd < 0 {
      } else if fd > fdMax {
      } else {
        var bev := new Bufferevent();
        bev.SetReadWatermark(MAX_LINE);
        assert Valid() && Model() == old(Model());
        Register(fd, bev);
      }
    }

    method Register(fd: int, bev: Bufferevent)
      requires Valid() && fd !in conns
      requires bev.input != bev.output
      requires forall gd :: gd in conns ==> Apart(conns[gd], bev)
      modifies this`conns
      ensures Valid() && Repr() <= old(Repr()) + {bev, bev.input, bev.output}
      ensures Model() == old(Model())[fd := bev.Value()]
      ensures conns == old(conns)[fd := bev]
    {
      ghost var before := conns;
      conns := conns[fd := bev];
      assert forall gd :: gd in conns ==> gd == fd || (gd in before && conns[gd] == before[gd]);
    }

    /** libevent has read bytes from the network into a connection's input buffer. */
    method Receive(fd: int, bytes: seq<byte>)
      requires Valid() && Enabled(Model(), Deliver(fd, bytes))
      modifies conns[fd], conns[fd].input
      ensures Valid() && Repr() == old(Repr())
      ensures Model() == Step(Config(), old(Model()), Deliver(fd, bytes))
    {
      conns[fd].Receive(bytes);
      assert forall gd :: gd in conns && gd != fd ==>
                            Apart(conns[gd], conns[fd]) && conns[gd].Value() == old(conns[gd].Value());
      assert Model() == old(Model())[fd := conns[fd].Value()];
    }

    /** libevent runs the read callback that is due. */
    method RunReadCb(fd: int)
      requires Valid() && Enabled(Model(), Server.ReadCb(fd))
      modifies conns[fd], conns[fd].input, conns[fd].output
      ensures Valid() && Repr() == old(Repr())
      ensures Model() == Step(Config(), old(Model()), Server.ReadCb(fd))
    {
      var _, _ := conns[fd].RunReadCb();
      assert forall gd :: gd in conns && gd != fd ==>
                            Apart(conns[gd], conns[fd]) && conns[gd].Value() == old(conns[gd].Value());
      assert Model() == old(Model())[fd := conns[fd].Value()];
    }

    /** libevent has written n bytes of a connection's output buffer to the network. */
    method Transmit(fd: int, n: nat)
      requires Valid() && Enabled(Model(), Write(fd, n))
      modifies conns[fd], conns[fd].output
      ensures Valid() && Repr() == old(Repr())
      ensures Model() == Step(Config(), old(Model()), Write(fd, n))
      ensures conns[fd].sent == old(conns[fd].sent + conns[fd].output.data[..n])
    {
      conns[fd].Transmit(n);
      assert forall gd :: gd in conns && gd != fd ==>
                            Apart(conns[gd], conns[fd]) && conns[gd].Value() == old(conns[gd].Value());
      assert Model() == old(Model())[fd := conns[fd].Value()];
    }

    /** End of file, error or timeout: whatever the reason, the connection is freed. */
    method RunErrorCb(fd: int)
      requires Valid() && Enabled(Model(), ErrorCb(fd))
      modifies this`conns
      ensures Valid() && Repr() <= old(Repr())
      ensures Model() == Step(Config(), old(Model()), ErrorCb(fd))
      ensures conns == old(conns) - {fd}
    {
      conns := conns - {fd};
    }
  }

  /** The dispatch loop on a given run of events: the objects follow the state machine. */
  method Dispatch(fdMax: nat, t: seq<Event>) returns (loop: EventLoop)
    requires Server.Valid(SourceConfig(fdMax), t)
    ensures fresh(loop) && loop.Valid()
    ensures loop.Model() == After(SourceConfig(fdMax), t)
  {
    loop := new EventLoop(fdMax);
    ghost var cfg := loop.Config();
    for i := 0 to |t|
      invariant fresh(loop.Repr()) && loop.Valid() && loop.Config() == cfg
      invariant Server.Valid(cfg, t[..i]) && loop.Model() == After(cfg, t[..i])
    {
      RunPrefix(cfg, t, i);
      var fd := t[i].fd;
      if fd in loop.conns {
        loop.ReprHolds(fd);
      }
      match t[i]
      case Accept(_) => loop.DoAccept(fd);
      case Deliver(_, bytes) => loop.Receive(fd, bytes);
      case ReadCb(_) => loop.RunReadCb(fd);
      case Write(_, n) => loop.Transmit(fd, n);
      case ErrorCb(_) => loop.RunErrorCb(fd);
    }
    assert t[..|t|] == t;
  }

  lemma RunPrefix(cfg: Config, t: seq<Event>, i: nat)
    requires Server.Valid(cfg, t) && i < |t|
    ensures Server.Valid(cfg, t[..i]) && Enabled(After(cfg, t[..i]), t[i])
    ensures Server.Valid(cfg, t[..i + 1]) && After(cfg, t[..i + 1]) == Step(cfg, After(cfg, t[..i]), t[i])
  {
    if i + 1 == |t| {
      assert t[..i + 1] == t;
    } else {
      var p := t[..|t| - 1];
      RunPrefix(cfg, p, i);
      assert p[..i] == t[..i] && p[..i + 1] == t[..i + 1];
    }
  }
}
