/** The machine words and byte strings that the rest of the model is written in. */
module Bytes {

  type Byte = b: int | 0 <= b < 0x100
  type Uint16 = n: int | 0 <= n < 0x1_0000
  type Uint32 = n: int | 0 <= n < 0x1_0000_0000

  const WORD := 0x1_0000_0000

  datatype Option<+T> = None | Some(value: T)

  function Zeros(n: nat): (z: seq<Byte>)
    ensures |z| == n
    ensures forall i | 0 <= i < n :: z[i] == 0
  {
    seq(n, _ => 0)
  }

  lemma OnlyZeros(s: seq<Byte>)
    ensures s == Zeros(|s|) <==> forall b | b in s :: b == 0
  {
    if forall b | b in s :: b == 0 {
      assert forall i | 0 <= i < |s| :: s[i] in s;
    }
  }

  lemma Assoc<T>(a: seq<T>, b: seq<T>, c: seq<T>)
    ensures a + b + c == a + (b + c)
  {
  }

  lemma Parts<T>(s: seq<T>, at: nat, n: nat, use: nat)
    requires n <= use && at + use <= |s|
    ensures s[at..at + use][..n] == s[at..at + n]
    ensures s[at..at + use][n..] == s[at + n..at + use]
  {
  }

  lemma TailOfSnoc<T>(s: seq<T>, x: T)
    requires s != []
    ensures (s + [x])[0] == s[0] && (s + [x])[1..] == s[1..] + [x]
  {
  }

  lemma SamePrefix<T>(a: seq<T>, b: seq<T>, c: seq<T>)
    ensures a + b == a + c <==> b == c
  {
    if a + b == a + c {
      assert (a + b)[|a|..] == b && (a + c)[|a|..] == c;
    }
  }
}
