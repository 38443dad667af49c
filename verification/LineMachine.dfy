/**
 The read callback of the server (readcb in rot13/main.cpp) as a function on the contents
 of a connection's two buffers, and its runs over fragmented input.
 */
module LineMachine {
  import opened Arithmetic
  import opened Bytes
  import opened CharMap

  /** The line limit; the source fixes it at MAX_LINE. */
  type Limit = Positive

  const MAX_LINE: Limit := 16384

  /** The contents of a connection's input buffer, and all that was ever added to its output buffer. */
  datatype Conn = Conn(input: seq<byte>, output: seq<byte>)

  const FRESH := Conn([], [])

  function Feed(c: Conn, f: seq<byte>): Conn {
    c.(input := c.input + f)
  }

  /** The callback ends in the overflow branch. */
  predicate Overflows(limit: Limit, c: Conn) {
    |Tail(c.input)| >= limit
  }

  /** Complete lines are echoed; an overlong tail is echoed too, and gets an LF of its own. */
  function Callback(limit: Limit, c: Conn): Conn {
    if Overflows(limit, c) then Conn([], c.output + (Rot13(c.input) + [LF]))
    else Conn(Tail(c.input), c.output + Rot13(Head(c.input)))
  }

  /** What a callback leaves behind is a piece of a line, too short to be flushed. */
  predicate Settled(limit: Limit, c: Conn) {
    LF !in c.input && |c.input| < limit
  }

  lemma CallbackSettles(limit: Limit, c: Conn)
    ensures Settled(limit, Callback(limit, c))
  {
    Split(c.input);
  }

  /** A new connection after its callback has run once for each fragment. */
  function Run(limit: Limit, frags: seq<seq<byte>>): Conn
    decreases |frags|, 1
  {
    if frags == [] then FRESH else Callback(limit, LastInput(limit, frags))
  }

  /** What the last callback of a run finds in the buffers. */
  function LastInput(limit: Limit, frags: seq<seq<byte>>): Conn
    requires frags != []
    decreases |frags| - 1, 2
  {
    var n := |frags| - 1;
    Feed(Run(limit, frags[..n]), frags[n])
  }

  /** How often a run takes the overflow branch. */
  function Flushes(limit: Limit, frags: seq<seq<byte>>): nat {
    if frags == [] then 0
    else Flushes(limit, frags[..|frags| - 1]) + if Overflows(limit, LastInput(limit, frags)) then 1 else 0
  }

  lemma RunSnoc(limit: Limit, frags: seq<seq<byte>>, f: seq<byte>)
    ensures Run(limit, frags + [f]) == Callback(limit, Feed(Run(limit, frags), f))
    ensures Flushes(limit, frags + [f])
         == Flushes(limit, frags) + if Overflows(limit, Feed(Run(limit, frags), f)) then 1 else 0
  {
    assert (frags + [f])[..|frags|] == frags;
  }

  lemma RunOne(limit: Limit, f: seq<byte>)
    ensures Run(limit, [f]) == Callback(limit, Conn(f, []))
    ensures Flushes(limit, [f]) == if Overflows(limit, Conn(f, [])) then 1 else 0
  {
    RunSnoc(limit, [], f);
    assert [] + [f] == [f];
    assert Feed(FRESH, f) == Conn(f, []);
  }

  /** Output only ever grows at its end. */
  lemma {:induction false} OutputGrows(limit: Limit, frags: seq<seq<byte>>, more: seq<seq<byte>>)
    ensures Run(limit, frags).output <= Run(limit, frags + more).output
  {
    if more == [] {
      assert frags + more == frags;
    } else {
      var n := |more| - 1;
      OutputGrows(limit, frags, more[..n]);
      assert frags + more == frags + more[..n] + [more[n]];
      RunSnoc(limit, frags + more[..n], more[n]);
    }
  }

  lemma RunSettles(limit: Limit, frags: seq<seq<byte>>)
    ensures Settled(limit, Run(limit, frags))
  {
    if frags != [] {
      CallbackSettles(limit, LastInput(limit, frags));
    }
  }

  /** Without new bytes, a further callback changes nothing. */
  lemma CallbackSettled(limit: Limit, c: Conn)
    requires Settled(limit, c)
    ensures Callback(limit, c) == c
  {
    SplitOpen(c.input);
    assert c.output + [] == c.output;
  }

  /** After a callback that does not overflow, the bytes still waiting behave as if it had never run. */
  lemma CallbackResumes(limit: Limit, c: Conn, f: seq<byte>)
    requires !Overflows(limit, c)
    ensures Callback(limit, Feed(Callback(limit, c), f)) == Callback(limit, Feed(c, f))
    ensures Overflows(limit, Feed(Callback(limit, c), f)) == Overflows(limit, Feed(c, f))
  {
    var head, tail, done := Head(c.input), Tail(c.input), c.output + Rot13(Head(c.input));
    SplitResumes(c.input, f);
    Split(c.input);
    if Overflows(limit, Feed(c, f)) {
      Assoc(head, tail, f);
      Rot13Append(head, tail + f);
      Assoc(Rot13(head), Rot13(tail + f), [LF]);
      Assoc(c.output, Rot13(head), Rot13(tail + f) + [LF]);
    } else {
      Rot13Append(head, Head(tail + f));
      Assoc(c.output, Rot13(head), Rot13(Head(tail + f)));
    }
  }
}
