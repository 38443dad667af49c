/** How often the overflow branch can be taken on a stream. */
module FlushCounts {
  import opened Arithmetic
  import opened Bytes
  import opened LineMachine
  import opened Fragmentation

  /** Every line of the stream is shorter than the limit, the open one too. */
  predicate AllShort(limit: Limit, s: seq<byte>) {
    (forall l :: l in Lines(s) ==> |l| < limit) && |Tail(s)| < limit
  }

  lemma {:induction false} NoQuotients(limit: Limit, lines: seq<seq<byte>>)
    ensures Quotients(limit, lines) == 0 <==> forall l :: l in lines ==> |l| < limit
  {
    if lines != [] {
      var p, l := lines[..|lines| - 1], lines[|lines| - 1];
      NoQuotients(limit, p);
      NoQuotient(|l|, limit);
      assert forall x :: x in lines <==> x in p || x == l by {
        assert lines == p + [l];
      }
    }
  }

  lemma NoCuts(limit: Limit, s: seq<byte>)
    ensures AllCuts(limit, s) == 0 <==> AllShort(limit, s)
  {
    NoQuotients(limit, Lines(s));
    NoQuotient(|Tail(s)|, limit);
  }

  /** The overflow branch is never taken on a stream, however it is delivered. */
  ghost predicate NeverFlushes(limit: Limit, s: seq<byte>) {
    forall f :: Concat(f) == s ==> Flushes(limit, f) == 0
  }

  /** That is so exactly when all its lines are short. */
  lemma NeverFlushesExactly(limit: Limit, s: seq<byte>)
    ensures NeverFlushes(limit, s) <==> AllShort(limit, s)
  {
    NoCuts(limit, s);
    if AllShort(limit, s) {
      forall f | Concat(f) == s
        ensures Flushes(limit, f) == 0
      {
        MostFlushes(limit, f);
      }
    } else {
      ConcatSingles(s);
      SinglesFlush(limit, s);
    }
  }

  /** The first i bytes one at a time, and the others at once. */
  function Partly(s: seq<byte>, i: nat): seq<seq<byte>>
    requires i <= |s|
  {
    Singles(s[..i]) + [s[i..]]
  }

  lemma PartlyConcat(s: seq<byte>, i: nat)
    requires i <= |s|
    ensures Concat(Partly(s, i)) == s
  {
    ConcatSingles(s[..i]);
    ConcatSnoc(Singles(s[..i]), s[i..]);
  }

  lemma PartlyNot(limit: Limit, s: seq<byte>)
    ensures Flushes(limit, Partly(s, 0)) == Flushes(limit, [s])
  {
    assert Partly(s, 0) == [s] by {
      assert s[..0] == [] && s[0..] == s;
    }
  }

  lemma NothingMore(limit: Limit, g: seq<seq<byte>>)
    ensures Flushes(limit, g + [[]]) == Flushes(limit, g)
  {
    var c := Run(limit, g);
    RunSnoc(limit, g, []);
    RunSettles(limit, g);
    assert Feed(c, []) == c;
  }

  lemma PartlyAll(limit: Limit, s: seq<byte>)
    ensures Flushes(limit, Partly(s, |s|)) == AllCuts(limit, s)
  {
    assert Partly(s, |s|) == Singles(s) + [[]] by {
      assert s[..|s|] == s && s[|s|..] == [];
    }
    NothingMore(limit, Singles(s));
    SinglesFlush(limit, s);
  }

  lemma TailGrows(a: seq<byte>, b: seq<byte>)
    ensures |Tail(b)| <= |Tail(a + b)|
  {
    if LF in b {
      TailAfterLf(a, b);
    } else {
      SplitOpenAppend(a, b);
    }
  }

  /** A byte delivered by itself, before the rest, causes at most one flush more. */
  lemma OneMoreFlush(limit: Limit, g: seq<seq<byte>>, b: byte, q: seq<byte>)
    ensures Flushes(limit, g + [[b]] + [q]) <= Flushes(limit, g + [[b] + q]) + 1
  {
    var d := Feed(Run(limit, g), [b]);
    RunSnoc(limit, g, [b]);
    RunSnoc(limit, g + [[b]], q);
    RunSnoc(limit, g, [b] + q);
    assert Feed(Run(limit, g), [b] + q) == Feed(d, q) by {
      Assoc(Run(limit, g).input, [b], q);
    }
    if Overflows(limit, d) {
      assert [] + q == q;
      TailGrows(d.input, q);
    } else {
      CallbackResumes(limit, d, q);
    }
  }

  lemma PartlyNext(limit: Limit, s: seq<byte>, i: nat)
    requires i < |s|
    ensures Flushes(limit, Partly(s, i + 1)) <= Flushes(limit, Partly(s, i)) + 1
  {
    var b, q := s[i], s[i + 1..];
    OneMoreFlush(limit, Singles(s[..i]), b, q);
    assert s[i..] == [b] + q;
    assert Singles(s[..i + 1]) == Singles(s[..i]) + [[b]] by {
      assert s[..i + 1][..i] == s[..i];
    }
  }

  lemma {:induction false} FindCount(limit: Limit, s: seq<byte>, k: nat, i: nat) returns (f: seq<seq<byte>>)
    requires i <= |s| && Flushes(limit, [s]) <= k <= Flushes(limit, Partly(s, i))
    ensures Concat(f) == s && Flushes(limit, f) == k
  {
    f := Partly(s, i);
    PartlyConcat(s, i);
    if Flushes(limit, f) != k {
      PartlyNot(limit, s);
      PartlyNext(limit, s, i - 1);
      f := FindCount(limit, s, k, i - 1);
    }
  }

  /** The numbers of flushes that a stream can cause: all from the least to the most. */
  lemma FlushCountsExactly(limit: Limit, s: seq<byte>, k: nat)
    ensures (exists f :: Concat(f) == s && Flushes(limit, f) == k)
       <==> Flushes(limit, [s]) <= k <= AllCuts(limit, s)
  {
    if f :| Concat(f) == s && Flushes(limit, f) == k {
      FewestFlushes(limit, f);
      MostFlushes(limit, f);
    }
    if Flushes(limit, [s]) <= k <= AllCuts(limit, s) {
      PartlyAll(limit, s);
      var f := FindCount(limit, s, k, |s|);
    }
  }
}
