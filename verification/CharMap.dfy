/** The character map of the server (rot13/main.cpp) and its extension to byte strings. */
module CharMap {
  import opened Bytes

  predicate IsLower(c: int) { 'a' as int <= c <= 'z' as int }

  predicate IsUpper(c: int) { 'A' as int <= c <= 'Z' as int }

  /** The map on C char values, whatever range `char` has: letters go half-way round their alphabet. */
  function Rot13Char(c: int): (r: int)
    ensures IsLower(c) ==> r == 'a' as int + (c - 'a' as int + 13) % 26
    ensures IsUpper(c) ==> r == 'A' as int + (c - 'A' as int + 13) % 26
    ensures !IsLower(c) && !IsUpper(c) ==> r == c
  {
    if ('a' as int <= c <= 'm' as int) || ('A' as int <= c <= 'M' as int) then c + 13
    else if ('n' as int <= c <= 'z' as int) || ('N' as int <= c <= 'Z' as int) then c - 13
    else c
  }

  function Rot(b: byte): (r: byte)
    ensures r == LF <==> b == LF
  {
    Rot13Char(b)
  }

  /** The byte that a signed C char stands for. */
  function ToByte(c: int): byte
    requires -128 <= c < 128
  {
    c % 256
  }

  /** In the numbers of ASCII: letters change, and stay letters of the same case. */
  lemma LettersMove(c: int)
    ensures 65 <= c <= 90 ==> Rot13Char(c) != c && 65 <= Rot13Char(c) <= 90
    ensures 97 <= c <= 122 ==> Rot13Char(c) != c && 97 <= Rot13Char(c) <= 122
    ensures Rot13Char(c) != c ==> 65 <= c <= 90 || 97 <= c <= 122
  {
  }

  /** A signed char can be told from its byte: the bytes from 128 on are the negative ones. */
  lemma ToByteExactly(c: int)
    requires -128 <= c < 128
    ensures c == if ToByte(c) < 128 then ToByte(c) else ToByte(c) - 256
  {
  }

  /** A platform with signed chars maps every byte to the same byte. */
  lemma SignednessIrrelevant(c: int)
    requires -128 <= c < 128
    ensures -128 <= Rot13Char(c) < 128
    ensures ToByte(Rot13Char(c)) == Rot(ToByte(c))
  {
  }

  /** The map on a string of bytes. */
  function Rot13(s: seq<byte>): (r: seq<byte>)
    ensures |r| == |s|
  {
    if s == [] then [] else Rot13(s[..|s| - 1]) + [Rot(s[|s| - 1])]
  }

  lemma {:induction false} Rot13At(s: seq<byte>, i: nat)
    requires i < |s|
    ensures Rot13(s)[i] == Rot(s[i])
  {
    if i < |s| - 1 {
      Rot13At(s[..|s| - 1], i);
    }
  }

  lemma {:induction false} Rot13Append(a: seq<byte>, b: seq<byte>)
    ensures Rot13(a + b) == Rot13(a) + Rot13(b)
  {
    if b == [] {
      assert a + b == a;
    } else {
      var n := |b| - 1;
      assert (a + b)[..|a + b| - 1] == a + b[..n];
      Rot13Append(a, b[..n]);
    }
  }

  /** The map undoes itself. */
  lemma {:induction false} Rot13Involution(s: seq<byte>)
    ensures Rot13(Rot13(s)) == s
  {
    forall i | 0 <= i < |s|
      ensures Rot13(Rot13(s))[i] == s[i]
    {
      Rot13At(s, i);
      Rot13At(Rot13(s), i);
    }
  }

  /** The map keeps LFs where they are and makes no new ones. */
  lemma {:induction false} Rot13KeepsLf(s: seq<byte>)
    ensures LF in Rot13(s) <==> LF in s
    ensures Closed(Rot13(s)) == Closed(s)
  {
    if s != [] {
      Rot13KeepsLf(s[..|s| - 1]);
      assert s == s[..|s| - 1] + [s[|s| - 1]];
    }
  }

  lemma Rot13Split(s: seq<byte>)
    ensures Head(Rot13(s)) == Rot13(Head(s)) && Tail(Rot13(s)) == Rot13(Tail(s))
  {
    Split(s);
    Rot13Append(Head(s), Tail(s));
    Rot13KeepsLf(Head(s));
    Rot13KeepsLf(Tail(s));
    SplitIs(Rot13(Head(s)), Rot13(Tail(s)));
  }

  lemma Rot13One(b: byte)
    ensures Rot13([b]) == [Rot(b)]
  {
    assert [b][..0] == [];
  }
}
