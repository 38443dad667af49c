/** Byte strings: line boundaries, and streams cut into fragments. */
module Bytes {

  type byte = b: int | 0 <= b < 256

  const LF: byte := 10

  lemma Assoc<T>(a: seq<T>, b: seq<T>, c: seq<T>)
    ensures a + (b + c) == a + b + c
  {
  }

  lemma Glue(t: seq<byte>, a: seq<byte>, b: seq<byte>)
    requires t != [] && |a| + |b| == |t| - 1
    requires forall i :: 0 <= i < |a| ==> t[i] == a[i]
    requires forall i :: 0 <= i < |b| ==> t[|a| + i] == b[i]
    ensures a + (b + [t[|t| - 1]]) == t
  {
  }

  /** s holds terminated lines only. */
  predicate Closed(s: seq<byte>) {
    s == [] || s[|s| - 1] == LF
  }

  /** The terminated lines of s, with their LFs: s up to its last LF. */
  function Head(s: seq<byte>): seq<byte> {
    if Closed(s) then s else Head(s[..|s| - 1])
  }

  /** The unterminated end of s: what follows its last LF. */
  function Tail(s: seq<byte>): (t: seq<byte>)
    ensures |t| <= |s|
  {
    if Closed(s) then [] else Tail(s[..|s| - 1]) + [s[|s| - 1]]
  }

  lemma {:induction false} Split(s: seq<byte>)
    ensures s == Head(s) + Tail(s)
    ensures Closed(Head(s)) && LF !in Tail(s)
  {
    if !Closed(s) {
      var p, b := s[..|s| - 1], s[|s| - 1];
      Split(p);
      Assoc(Head(p), Tail(p), [b]);
      assert s == p + [b];
    }
  }

  /** A text that ends in LF: what precedes its last line, that line, and its LF. */
  lemma LastLine(t: seq<byte>)
    requires t != [] && t[|t| - 1] == LF
    ensures var p := t[..|t| - 1];
            LF !in Tail(p) && Head(p) + (Tail(p) + [LF]) == t
  {
    var p := t[..|t| - 1];
    var head, tail := Head(p), Tail(p);
    Split(p);
    forall i | 0 <= i < |p|
      ensures t[i] == if i < |head| then head[i] else tail[i - |head|]
    {
      assert t[i] == p[i] == (head + tail)[i];
    }
    Glue(t, head, tail);
  }

  /** There is one way only to split s into terminated lines and an unterminated end. */
  lemma {:induction false} SplitIs(head: seq<byte>, tail: seq<byte>)
    requires Closed(head) && LF !in tail
    ensures Head(head + tail) == head && Tail(head + tail) == tail
  {
    if tail == [] {
      assert head + tail == head;
    } else {
      var n := |tail| - 1;
      SplitIs(head, tail[..n]);
      assert (head + tail)[..|head + tail| - 1] == head + tail[..n];
      assert tail == tail[..n] + [tail[n]];
    }
  }

  lemma SplitClosed(s: seq<byte>)
    requires Closed(s)
    ensures Head(s) == s && Tail(s) == []
  {
  }

  lemma SplitOpen(s: seq<byte>)
    requires LF !in s
    ensures Head(s) == [] && Tail(s) == s
  {
    SplitIs([], s);
    assert [] + s == s;
  }

  /** Where the lines of a stream end can be decided piecemeal: only the tail so far matters. */
  lemma SplitResumes(a: seq<byte>, b: seq<byte>)
    ensures Head(a + b) == Head(a) + Head(Tail(a) + b)
    ensures Tail(a + b) == Tail(Tail(a) + b)
  {
    Split(a);
    var rest := Tail(a) + b;
    Split(rest);
    Assoc(Head(a), Tail(a), b);
    Assoc(Head(a), Head(rest), Tail(rest));
    SplitIs(Head(a) + Head(rest), Tail(rest));
  }

  lemma SplitOpenAppend(s: seq<byte>, t: seq<byte>)
    requires LF !in t
    ensures Head(s + t) == Head(s) && Tail(s + t) == Tail(s) + t
  {
    Split(s);
    Assoc(Head(s), Tail(s), t);
    SplitIs(Head(s), Tail(s) + t);
  }

  /** The bytes a list of fragments carries, in order. */
  function Concat(frags: seq<seq<byte>>): seq<byte> {
    if frags == [] then [] else Concat(frags[..|frags| - 1]) + frags[|frags| - 1]
  }

  lemma ConcatOne(f: seq<byte>)
    ensures Concat([f]) == f
  {
    assert [f][..0] == [];
  }

  lemma ConcatSnoc(a: seq<seq<byte>>, f: seq<byte>)
    ensures Concat(a + [f]) == Concat(a) + f
  {
    assert (a + [f])[..|a|] == a;
  }

  /** Bytes other than LF, in order. */
  function Strip(s: seq<byte>): (r: seq<byte>)
    ensures |r| <= |s|
  {
    if s == [] then []
    else if s[|s| - 1] == LF then Strip(s[..|s| - 1])
    else Strip(s[..|s| - 1]) + [s[|s| - 1]]
  }

  lemma {:induction false} StripAppend(a: seq<byte>, b: seq<byte>)
    ensures Strip(a + b) == Strip(a) + Strip(b)
  {
    if b == [] {
      assert a + b == a;
    } else {
      var n := |b| - 1;
      assert (a + b)[..|a + b| - 1] == a + b[..n];
      StripAppend(a, b[..n]);
    }
  }

  lemma {:induction false} StripOpen(s: seq<byte>)
    requires LF !in s
    ensures Strip(s) == s
  {
    if s != [] {
      StripOpen(s[..|s| - 1]);
      assert s == s[..|s| - 1] + [s[|s| - 1]];
    }
  }

  /** The terminated lines of s, without their LFs. */
  function Lines(s: seq<byte>): seq<seq<byte>> {
    if s == [] then []
    else
      var p := s[..|s| - 1];
      if s[|s| - 1] == LF then Lines(p) + [Tail(p)] else Lines(p)
  }

  /** Lines does not see an unterminated addition. */
  lemma {:induction false} LinesIgnoreTail(s: seq<byte>, t: seq<byte>)
    requires LF !in t
    ensures Lines(s + t) == Lines(s)
  {
    if t == [] {
      assert s + t == s;
    } else {
      var n := |t| - 1;
      assert (s + t)[..|s + t| - 1] == s + t[..n];
      LinesIgnoreTail(s, t[..n]);
    }
  }

  /** One more terminated line. */
  lemma LinesSnoc(s: seq<byte>, body: seq<byte>)
    requires LF !in body
    ensures Lines(s + (body + [LF])) == Lines(s) + [Tail(s) + body]
  {
    Assoc(s, body, [LF]);
    LinesAtLf(s + body);
    SplitOpenAppend(s, body);
    LinesIgnoreTail(s, body);
  }

  lemma LinesAtLf(p: seq<byte>)
    ensures Lines(p + [LF]) == Lines(p) + [Tail(p)]
  {
    assert (p + [LF])[..|p|] == p;
  }
}
