/** readcb of rot13/main.cpp as it runs: in place, on arrays and on the two buffers of a connection. */
module ReadCallback {
  import opened Arithmetic
  import opened Bytes
  import opened CharMap
  import opened Evbuffers
  import opened LineMachine

  /** The size of the array that overlong lines are drained through. */
  const CHUNK: Positive := 1024

  /** The loop over the characters of a line or chunk. */
  method RotateInPlace(a: array<byte>, n: nat)
    requires n <= a.Length
    modifies a
    ensures a[..n] == Rot13(old(a[..n])) && a[n..] == old(a[n..])
  {
    ghost var was := a[..n];
    for i := 0 to n
      invariant a[..i] == Rot13(was[..i])
      invariant a[i..n] == was[i..]
      invariant a[n..] == old(a[n..])
    {
      ghost var before := a[..i];
      assert a[i] == a[i..n][0] == was[i];
      a[i] := Rot(a[i]);
      assert a[..i + 1] == before + [Rot(was[i])];
      assert was[..i + 1][..i] == was[..i];
      assert a[i + 1..n] == was[i + 1..];
    }
    assert was[..n] == was;
  }

  /** The line loop: one pass for each complete line in the input. */
  method EchoLines(input: Evbuffer, output: Evbuffer) returns (ghost passes: nat)
    requires input != output
    modifies input, output
    ensures input.data == Tail(old(input.data))
    ensures output.data == old(output.data) + Rot13(Head(old(input.data)))
    ensures passes == |Lines(old(input.data))|
  {
    ghost var received, sent, done := input.data, output.data, [];
    passes := 0;
    while true
      invariant received == done + input.data
      invariant Closed(done) && output.data == sent + Rot13(done)
      invariant passes == |Lines(done)|
      decreases |input.data|
    {
      var line, n := input.Readln();
      if line == null {
        break;
      }
      ghost var body := line[..n];
      RotateInPlace(line, n);
      output.Add(line[..n]);
      output.Add([LF]);
      OneMoreLine(sent, done, body);
      Assoc(done, body + [LF], input.data);
      done := done + (body + [LF]);
      passes := passes + 1;
    }
    SplitIs(done, input.data);
    LinesIgnoreTail(done, input.data);
  }

  lemma OneMoreLine(sent: seq<byte>, done: seq<byte>, body: seq<byte>)
    requires LF !in body && Closed(done)
    ensures sent + Rot13(done + (body + [LF])) == sent + Rot13(done) + Rot13(body) + [LF]
    ensures |Lines(done + (body + [LF]))| == |Lines(done)| + 1
  {
    LinesSnoc(done, body);
    Rot13Append(done, body + [LF]);
    Rot13Append(body, [LF]);
    Rot13One(LF);
    Assoc(sent, Rot13(done), Rot13(body) + [LF]);
    Assoc(sent + Rot13(done), Rot13(body), [LF]);
  }

  lemma OneMoreChunk(sent: seq<byte>, done: seq<byte>, part: seq<byte>, left: seq<byte>)
    ensures sent + Rot13(done + part) == sent + Rot13(done) + Rot13(part)
    ensures done + (part + left) == done + part + left
  {
    Rot13Append(done, part);
    Assoc(sent, Rot13(done), Rot13(part));
  }

  /** The drain loop: everything left goes through one array that is used again and again. */
  method EchoRest(input: Evbuffer, output: Evbuffer, chunk: Positive) returns (ghost passes: nat)
    requires input != output
    modifies input, output
    ensures input.data == []
    ensures output.data == old(output.data) + Rot13(old(input.data))
    ensures passes == (|old(input.data)| + chunk - 1) / chunk
  {
    ghost var rest, sent, done := input.data, output.data, [];
    passes := 0;
    var buf := new byte[chunk];
    while |input.data| > 0
      invariant rest == done + input.data
      invariant output.data == sent + Rot13(done)
      invariant if input.data == [] then |rest| <= passes * chunk < |rest| + chunk
                else |done| == passes * chunk
    {
      ghost var before := input.data;
      var n := input.Remove(buf);
      ghost var part := buf[..n];
      RotateInPlace(buf, n);
      output.Add(buf[..n]);
      OneMoreChunk(sent, done, part, input.data);
      assert before == part + input.data;
      done := done + part;
      MulSucc(passes, chunk);
      passes := passes + 1;
    }
    assert done == rest;
    QuotientIs(|rest| + chunk - 1, chunk, passes, |rest| + chunk - 1 - passes * chunk);
  }

  /** The callback: complete lines, and then whatever is left if that is `limit` bytes or more. */
  method ReadCb(input: Evbuffer, output: Evbuffer, limit: Limit, chunk: Positive)
    returns (ghost lines: nat, ghost drains: nat)
    requires input != output
    modifies input, output
    ensures Conn(input.data, output.data) == Callback(limit, Conn(old(input.data), old(output.data)))
    ensures lines == |Lines(old(input.data))|
    ensures drains == if |Tail(old(input.data))| < limit then 0
                      else (|Tail(old(input.data))| + chunk - 1) / chunk
  {
    ghost var received, sent := input.data, output.data;
    drains := 0;
    lines := EchoLines(input, output);
    if |input.data| >= limit {
      drains := EchoRest(input, output, chunk);
      output.Add([LF]);
      assert output.data == sent + (Rot13(received) + [LF]) by {
        var head, tail := Head(received), Tail(received);
        Split(received);
        Rot13Append(head, tail);
        Assoc(sent, Rot13(head), Rot13(tail));
        Assoc(sent, Rot13(received), [LF]);
      }
    }
  }
}
