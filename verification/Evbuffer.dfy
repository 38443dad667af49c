/** The libevent byte queue, to the contracts of include/event2/buffer.h. */
module Evbuffers {
  import opened Bytes

  class Evbuffer {
    var data: seq<byte>

    constructor ()
      ensures data == []
    {
      data := [];
    }

    method Add(bytes: seq<byte>)
      modifies this
      ensures data == old(data) + bytes
    {
      data := data + bytes;
    }

    /** Moves as many bytes as dst can take, or all there are; what dst holds behind them stays. */
    method Remove(dst: array<byte>) returns (n: nat)
      modifies this, dst
      ensures n == if |old(data)| < dst.Length then |old(data)| else dst.Length
      ensures dst[..n] == old(data)[..n] && dst[n..] == old(dst[n..])
      ensures data == old(data)[n..]
    {
      n := if |data| < dst.Length then |data| else dst.Length;
      for i := 0 to n
        invariant data == old(data)
        invariant dst[..i] == data[..i]
        invariant dst[n..] == old(dst[n..])
      {
        dst[i] := data[i];
      }
      data := data[n..];
    }

    /**
     The first line that ends in LF, as a fresh NUL-terminated string of n bytes; null when there is
     none. The LF is drained but not returned, and the line may hold NULs.
     */
    method Readln() returns (line: array?<byte>, n: nat)
      modifies this
      ensures line == null <==> LF !in old(data)
      ensures line == null ==> data == old(data)
      ensures line != null ==>
                && fresh(line) && line.Length == n + 1 && line[n] == 0
                && LF !in line[..n]
                && old(data) == line[..n] + [LF] + data
    {
      n := 0;
      while n < |data| && data[n] != LF
        invariant n <= |data|
        invariant LF !in data[..n]
      {
        n := n + 1;
      }
      if n == |data| {
        assert data[..n] == data;
        return null, 0;
      }
      line := new byte[n + 1](i requires 0 <= i <= n reads this => if i < n && i < |data| then data[i] else 0);
      assert line[..n] == data[..n];
      assert data == data[..n] + [LF] + data[n + 1..];
      data := data[n + 1..];
    }
  }
}
