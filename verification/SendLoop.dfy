/** The send loop of client/client.cpp against a socket that may fail, stop, or take part of a request. */
module SendLoop {
  import opened Arithmetic
  import opened Bytes

  /** Number of calls after which the loop gives up. */
  const MAX_CALLS: Positive := 1000

  /** What the socket is willing to do on each call; it never takes more than it is offered. */
  type Will = nat -> int

  /** The result of call k when `offered` bytes are offered. */
  function Answer(will: Will, k: nat, offered: nat): (r: int)
    ensures r <= offered
  {
    if will(k) <= offered then will(k) else offered
  }

  class Socket {
    const will: Will
    var calls: nat
    var taken: seq<byte>

    constructor (will: Will)
      ensures this.will == will && calls == 0 && taken == []
    {
      this.will := will;
      calls, taken := 0, [];
    }

    method Send(data: seq<byte>) returns (r: int)
      modifies this
      ensures r == Answer(will, old(calls), |data|)
      ensures calls == old(calls) + 1
      ensures taken == old(taken) + if r > 0 then data[..r] else []
    {
      r := if will(calls) <= |data| then will(calls) else |data|;
      taken := taken + if r > 0 then data[..r] else [];
      calls := calls + 1;
    }
  }

  /** Bytes taken by the first k calls of a transfer of len bytes that goes on regardless. */
  function Pos(will: Will, len: nat, k: nat): (p: nat)
    ensures p <= len
  {
    if k == 0 then 0
    else
      var p := Pos(will, len, k - 1);
      var r := Answer(will, k - 1, len - p);
      if r > 0 then p + r else p
  }

  /** The result of call k of such a transfer. */
  function Result(will: Will, len: nat, k: nat): int {
    Answer(will, k, len - Pos(will, len, k))
  }

  /** The loop ends with call k: the socket closed, the message is complete, or the calls are used up. */
  predicate Ends(will: Will, len: nat, cap: Positive, k: nat) {
    || Result(will, len, k) == 0
    || Pos(will, len, k + 1) == len
    || k + 1 >= cap
  }

  /** Call k is the one that the loop ends with. */
  ghost predicate IsLast(will: Will, len: nat, cap: Positive, k: nat) {
    Ends(will, len, cap, k) && forall j :: 0 <= j < k ==> !Ends(will, len, cap, j)
  }

  /** The do-while loop of the client: len bytes of buf, at most cap calls. */
  method SendAll(sock: Socket, buf: array<byte>, len: nat, cap: Positive) returns (ret: int, pos: nat)
    requires len <= buf.Length && sock.calls == 0
    modifies sock
    ensures pos == Pos(sock.will, len, sock.calls)
    ensures sock.taken == old(sock.taken) + buf[..pos]
    ensures 1 <= sock.calls <= cap && IsLast(sock.will, len, cap, sock.calls - 1)
    ensures ret == if Result(sock.will, len, sock.calls - 1) == 0 then -1 else 0
    ensures ret == 0 ==> pos == len || sock.calls == cap
  {
    ghost var before, message := sock.taken, buf[..len];
    ret, pos := 0, 0;
    var loop := 0;
    assert message[..0] == [];
    while true
      invariant sock.calls == loop < cap
      invariant pos == Pos(sock.will, len, loop)
      invariant sock.taken == before + message[..pos]
      invariant forall k :: 0 <= k < loop ==> !Ends(sock.will, len, cap, k)
      decreases cap - loop
    {
      assert buf[pos..len] == message[pos..];
      var sendBytes := sock.Send(buf[pos..len]);
      if sendBytes > 0 {
        TakenMore(before, message, pos, sendBytes);
        pos := pos + sendBytes;
      } else if sendBytes < 0 {
      } else {
        assert message[..pos] == buf[..pos];
        return -1, pos;
      }
      if pos >= len {
        break;
      }
      loop := loop + 1;
      if loop >= cap {
        break;
      }
    }
    assert message[..pos] == buf[..pos];
  }

  lemma TakenMore(before: seq<byte>, message: seq<byte>, pos: nat, r: nat)
    requires pos + r <= |message|
    ensures before + message[..pos + r] == before + message[..pos] + message[pos..][..r]
  {
    assert message[..pos + r] == message[..pos] + message[pos..][..r];
    Assoc(before, message[..pos], message[pos..][..r]);
  }

  /**
   The loop goes on while calls are left, no call has returned 0 and bytes are left, and it stops as
   soon as one of these is no longer so.
   */
  lemma LastExactly(will: Will, len: nat, cap: Positive, k: nat)
    ensures IsLast(will, len, cap, k) <==>
              && k < cap
              && (forall j: nat :: j < k ==> Result(will, len, j) != 0)
              && (forall j: nat :: 0 < j <= k ==> Pos(will, len, j) < len)
              && (Result(will, len, k) == 0 || Pos(will, len, k + 1) == len || k + 1 == cap)
  {
    if IsLast(will, len, cap, k) {
      LastIsFirst(will, len, cap, k);
    } else {
      var ended := k < cap && (Result(will, len, k) == 0 || Pos(will, len, k + 1) == len || k + 1 == cap);
      assert ended ==> Ends(will, len, cap, k);
      if ended {
        var j: nat :| j < k && Ends(will, len, cap, j);
        EndsHow(will, len, cap, j, j + 1);
      }
    }
  }

  lemma EndsHow(will: Will, len: nat, cap: Positive, j: nat, next: nat)
    requires Ends(will, len, cap, j) && next == j + 1
    ensures Result(will, len, j) == 0 || Pos(will, len, next) == len || next >= cap
  {
  }

  lemma LastIsFirst(will: Will, len: nat, cap: Positive, k: nat)
    requires IsLast(will, len, cap, k)
    ensures k < cap && (Result(will, len, k) == 0 || Pos(will, len, k + 1) == len || k + 1 == cap)
    ensures forall j: nat :: j < k ==> Result(will, len, j) != 0
    ensures forall j: nat :: 0 < j <= k ==> Pos(will, len, j) < len
  {
    assert k >= cap ==> Ends(will, len, cap, cap - 1);
    forall j: nat | j < k
      ensures Result(will, len, j) != 0
    {
      assert !Ends(will, len, cap, j);
    }
    forall j: nat | 0 < j <= k
      ensures Pos(will, len, j) < len
    {
      assert !Ends(will, len, cap, j - 1);
    }
  }

  /** A call takes all that the socket is willing to take and that is left; it returns 0 or fails as it will. */
  lemma CallTakes(will: Will, len: nat, k: nat)
    ensures Pos(will, len, 0) == 0
    ensures Pos(will, len, k + 1) == if will(k) <= 0 then Pos(will, len, k)
                                     else if Pos(will, len, k) + will(k) <= len then Pos(will, len, k) + will(k)
                                     else len
    ensures Result(will, len, k) == 0 <==> will(k) == 0 || (will(k) > 0 && Pos(will, len, k) == len)
    ensures Result(will, len, k) < 0 <==> will(k) < 0
  {
  }

  /** How many of the first k calls fail. */
  function Failures(will: Will, len: nat, k: nat): nat {
    if k == 0 then 0 else Failures(will, len, k - 1) + if Result(will, len, k - 1) < 0 then 1 else 0
  }

  /** None of the first k calls returns 0. */
  ghost predicate NeverZero(will: Will, len: nat, k: nat) {
    forall j :: 0 <= j < k ==> Result(will, len, j) != 0
  }

  /** A call that does not fail takes at least one byte, until there is none left. */
  lemma {:induction false} Progress(will: Will, len: nat, k: nat)
    requires NeverZero(will, len, k)
    ensures Pos(will, len, k) == len || Pos(will, len, k) + Failures(will, len, k) >= k
  {
    if k > 0 {
      Progress(will, len, k - 1);
      assert Result(will, len, k - 1) != 0;
    }
  }

  /** Every transfer in which no call returns 0 and at most f calls fail is complete when the loop ends. */
  ghost predicate Tolerates(len: nat, cap: Positive, f: nat) {
    forall will, k: nat ::
      IsLast(will, len, cap, k) && NeverZero(will, len, k + 1) && Failures(will, len, k + 1) <= f
      ==> Pos(will, len, k + 1) == len
  }

  /** A socket whose first f calls fail and that then takes one byte a call. */
  function Sluggish(f: nat): Will {
    k => if k < f then -1 else 1
  }

  lemma {:induction false} SluggishTransfer(f: nat, len: nat, k: nat)
    requires k <= f + len
    ensures Pos(Sluggish(f), len, k) == if k <= f then 0 else k - f
    ensures Failures(Sluggish(f), len, k) == if k <= f then k else f
  {
    if k > 0 {
      SluggishTransfer(f, len, k - 1);
    }
  }

  lemma SluggishEnds(f: nat, len: nat, cap: Positive)
    requires f <= cap < f + len
    ensures var will := Sluggish(f);
            && IsLast(will, len, cap, cap - 1) && NeverZero(will, len, cap)
            && Failures(will, len, cap) <= f && Pos(will, len, cap) < len
  {
    var will := Sluggish(f);
    forall j: nat | j < cap
      ensures Result(will, len, j) != 0 && Pos(will, len, j + 1) < len
    {
      SluggishTransfer(f, len, j);
      SluggishTransfer(f, len, j + 1);
    }
    SluggishTransfer(f, len, cap);
  }

  /** The loop survives f failures on every transfer exactly when message and failures fit the calls. */
  lemma ToleratesExactly(len: nat, cap: Positive, f: nat)
    requires len > 0
    ensures Tolerates(len, cap, f) <==> f + len <= cap
  {
    if f + len <= cap {
      forall will, k: nat | IsLast(will, len, cap, k) && NeverZero(will, len, k + 1) && Failures(will, len, k + 1) <= f
        ensures Pos(will, len, k + 1) == len
      {
        Progress(will, len, k + 1);
        assert Result(will, len, k) != 0;
      }
    } else {
      var g := if f <= cap then f else cap;
      SluggishEnds(g, len, cap);
      assert IsLast(Sluggish(g), len, cap, cap - 1);
    }
  }

  /** The digit of d in lower-case hexadecimal. */
  function HexDigit(d: nat): byte
    requires d < 16
  {
    if d < 10 then '0' as int + d else 'a' as int + d - 10
  }

  /** The number n with zeros in front, as "%0<width>x" prints it when it fits. */
  function Hex(n: nat, width: nat): (s: seq<byte>)
    ensures |s| == width
  {
    if width == 0 then [] else Hex(n / 16, width - 1) + [HexDigit(n % 16)]
  }

  /** The number that a string of hexadecimal digits stands for. */
  function HexValue(s: seq<byte>): int {
    if s == [] then 0
    else
      var c: int := s[|s| - 1];
      16 * HexValue(s[..|s| - 1]) + if c < 97 then c - 48 else c - 87
  }

  function Pow16(k: nat): nat {
    if k == 0 then 1 else 16 * Pow16(k - 1)
  }

  lemma {:induction false} HexReads(n: nat, width: nat)
    requires n < Pow16(width)
    ensures HexValue(Hex(n, width)) == n
  {
    if width > 0 {
      HexReads(n / 16, width - 1);
      assert Hex(n, width)[..width - 1] == Hex(n / 16, width - 1);
    }
  }

  /** What the client sends: a number as sixteen hexadecimal digits. */
  const MESSAGE: seq<byte> := Hex(10000000, 16)

  lemma ClientMessage()
    ensures |MESSAGE| == 16 && HexValue(MESSAGE) == 10000000
  {
    assert Pow16(8) == 16 * 16 * 16 * 16 * Pow16(4) && Pow16(4) == 16 * 16 * 16 * 16;
    Pow16Grows(8, 16);
    HexReads(10000000, 16);
  }

  lemma {:induction false} Pow16Grows(j: nat, k: nat)
    requires j <= k
    ensures Pow16(j) <= Pow16(k)
  {
    if j < k {
      Pow16Grows(j, k - 1);
    }
  }

  /** The loop as the client runs it: its message is a string in a buffer of 1024 bytes. */
  method SendString(sock: Socket, message: seq<byte>) returns (ret: int, pos: nat)
    requires sock.calls == 0 && sock.taken == [] && |message| < 1024
    modifies sock
    ensures pos <= |message| && sock.taken == message[..pos] && sock.calls <= 1000
    ensures ret == 0 ==> pos == |message| || sock.calls == 1000
    ensures ret == 0 || ret == -1
  {
    var buf := new byte[1024](i => if 0 <= i < |message| then message[i] else 0);
    assert buf[..|message|] == message;
    ret, pos := SendAll(sock, buf, |message|, MAX_CALLS);
    assert buf[..pos] == message[..pos];
  }

  lemma ClientTolerates(f: nat)
    ensures Tolerates(|MESSAGE|, MAX_CALLS, f) <==> f <= 984
  {
    ToleratesExactly(|MESSAGE|, MAX_CALLS, f);
  }
}
