/** Integer packing (src/excom/protocol/pack.c). `le` says whether the host is
    little-endian, the test that the source makes with a union at run time. */
module Pack {
  import opened Bytes

  /** The four bytes of a word, least significant first. */
  function LowFirst32(n: Uint32): (d: seq<Byte>)
    ensures |d| == 4
  {
    [n % 0x100, n / 0x100 % 0x100, n / 0x1_0000 % 0x100, n / 0x100_0000]
  }

  /** Network order: most significant byte first. */
  function BigEndian32(n: Uint32): (d: seq<Byte>)
    ensures |d| == 4
  {
    [n / 0x100_0000, n / 0x1_0000 % 0x100, n / 0x100 % 0x100, n % 0x100]
  }

  function Value32(d: seq<Byte>): Uint32
    requires |d| == 4
  {
    (d[0] as int) * 0x100_0000 + (d[1] as int) * 0x1_0000 + (d[2] as int) * 0x100 + d[3]
  }

  /** `htonl` and `ntohl` on a little-endian host. */
  function Swap32(n: Uint32): Uint32 {
    Value32(LowFirst32(n))
  }

  /** What a host reads when four bytes in memory are taken as a word. */
  function Memory32(le: bool, d: seq<Byte>): Uint32
    requires |d| == 4
  {
    if le then Value32([d[3], d[2], d[1], d[0]]) else Value32(d)
  }

  function Packed32(le: bool, n: Uint32): (d: seq<Byte>)
    ensures |d| == 4
  {
    LowFirst32(if le then Swap32(n) else n)
  }

  function Unpacked32(le: bool, d: seq<Byte>): Uint32
    requires |d| == 4
  {
    if le then Swap32(Memory32(le, d)) else Memory32(le, d)
  }

  function LowFirst16(n: Uint16): (d: seq<Byte>)
    ensures |d| == 2
  {
    [n % 0x100, n / 0x100]
  }

  function BigEndian16(n: Uint16): (d: seq<Byte>)
    ensures |d| == 2
  {
    [n / 0x100, n % 0x100]
  }

  function Value16(d: seq<Byte>): Uint16
    requires |d| == 2
  {
    (d[0] as int) * 0x100 + d[1]
  }

  function Swap16(n: Uint16): Uint16 {
    Value16(LowFirst16(n))
  }

  function Memory16(le: bool, d: seq<Byte>): Uint16
    requires |d| == 2
  {
    if le then Value16([d[1], d[0]]) else Value16(d)
  }

  function Packed16(le: bool, n: Uint16): (d: seq<Byte>)
    ensures |d| == 2
  {
    LowFirst16(if le then Swap16(n) else n)
  }

  function Unpacked16(le: bool, d: seq<Byte>): Uint16
    requires |d| == 2
  {
    if le then Swap16(Memory16(le, d)) else Memory16(le, d)
  }

  // ------------------------------------------------------------------
  // Properties
  // ------------------------------------------------------------------

  /** Four digits to the base 256 are read off a sum by division. */
  lemma FourDigits(a: Byte, b: Byte, c: Byte, d: Byte)
    ensures var m := (a as int) * 0x100_0000 + (b as int) * 0x1_0000 + (c as int) * 0x100 + d;
            && m / 0x100_0000 == a && m / 0x1_0000 % 0x100 == b && m / 0x100 % 0x100 == c && m % 0x100 == d
  {
    var m: int := (a as int) * 0x100_0000 + (b as int) * 0x1_0000 + (c as int) * 0x100 + d;
    assert m / 0x100 == (a as int) * 0x1_0000 + (b as int) * 0x100 + c;
    assert m / 0x1_0000 == (a as int) * 0x100 + b;
  }

  lemma DigitSum(n: Uint32)
    ensures n / 0x100_0000 * 0x100_0000 + n / 0x1_0000 % 0x100 * 0x1_0000 + n / 0x100 % 0x100 * 0x100 + n % 0x100 == n
  {
    var m := n / 0x100;
    assert n == m * 0x100 + n % 0x100;
    assert n / 0x1_0000 == m / 0x100 && n / 0x100_0000 == m / 0x100 / 0x100;
  }

  lemma Bytes32(n: Uint32)
    ensures Value32(BigEndian32(n)) == n
    ensures LowFirst32(Swap32(n)) == BigEndian32(n)
  {
    DigitSum(n);
    Digits32(LowFirst32(n));
    assert LowFirst32(Swap32(n)) == BigEndian32(n) by {
      var d := LowFirst32(n);
      assert BigEndian32(Value32(d)) == d;
    }
  }

  lemma Digits32(d: seq<Byte>)
    requires |d| == 4
    ensures BigEndian32(Value32(d)) == d
  {
    FourDigits(d[0], d[1], d[2], d[3]);
  }

  /** On a little-endian host the wire carries the word most significant byte
      first, and unpacking reads such bytes back. */
  lemma NetworkOrder32(n: Uint32, d: seq<Byte>)
    requires |d| == 4
    ensures Packed32(true, n) == BigEndian32(n)
    ensures BigEndian32(n) == [n / 0x100_0000, n / 0x1_0000 % 0x100, n / 0x100 % 0x100, n % 0x100]
    ensures Unpacked32(true, d) == Value32(d)
    ensures Value32(d) == (d[0] as int) * 0x100_0000 + (d[1] as int) * 0x1_0000 + (d[2] as int) * 0x100 + d[3]
  {
    Bytes32(n);
    var r := [d[3], d[2], d[1], d[0]];
    Digits32(r);
    assert LowFirst32(Value32(r)) == d;
  }

  /** Unpacking inverts packing exactly on a little-endian host, or for words
      whose byte string reads the same in both directions. */
  lemma RoundTrip32(le: bool, n: Uint32)
    ensures Unpacked32(le, Packed32(le, n)) == n
       <==> le || (n % 0x100 == n / 0x100_0000 && n / 0x100 % 0x100 == n / 0x1_0000 % 0x100)
  {
    Bytes32(n);
    if le {
      NetworkOrder32(n, Packed32(le, n));
    } else if Swap32(n) == n {
      assert LowFirst32(n) == BigEndian32(n);
    }
  }

  lemma NetworkOrder16(n: Uint16, d: seq<Byte>)
    requires |d| == 2
    ensures Packed16(true, n) == BigEndian16(n) == [n / 0x100, n % 0x100]
    ensures Value16(BigEndian16(n)) == n
    ensures Unpacked16(true, d) == Value16(d) == (d[0] as int) * 0x100 + d[1]
  {
    var m := Swap16(n);
    assert m / 0x100 == n % 0x100;
    var r := Value16([d[1], d[0]]);
    assert r / 0x100 == d[1];
  }

  lemma RoundTrip16(le: bool, n: Uint16)
    ensures Unpacked16(le, Packed16(le, n)) == n <==> le || n % 0x100 == n / 0x100
  {
    if le {
      NetworkOrder16(n, Packed16(le, n));
    }
  }

  // ------------------------------------------------------------------
  // The packing loops
  // ------------------------------------------------------------------

  /** `n >> part`, for the whole-byte shifts that the loops make. */
  function ShiftRight(n: nat, part: nat): nat {
    if part < 8 then n else ShiftRight(n / 0x100, part - 8)
  }

  lemma ShiftedByte(n: Uint32, i: nat)
    requires i < 4
    ensures ShiftRight(n, 8 * i) % 0x100 == LowFirst32(n)[i]
  {
    if i == 1 {
      assert ShiftRight(n, 8) == n / 0x100;
    } else if i == 2 {
      assert ShiftRight(n, 16) == ShiftRight(n / 0x100, 8) == n / 0x100 / 0x100;
    } else if i == 3 {
      var m := n / 0x100;
      assert ShiftRight(n, 24) == ShiftRight(m, 16) == ShiftRight(m / 0x100, 8) == m / 0x100 / 0x100;
    }
  }

  /** Four bytes are the number; the loop leaves its pointer on a fifth cell,
      which the source clears, so the caller must own five. */
  method PackUint32(le: bool, dest: array<Byte>, at: nat, n: Uint32) returns (k: nat)
    requires at + 5 <= dest.Length
    modifies dest
    ensures k == 4
    ensures dest[..] == old(dest[..at]) + Packed32(le, n) + [0] + old(dest[at + 5..])
  {
    var net := if le then Swap32(n) else n;
    ghost var want := Packed32(le, n);
    forall i | 0 <= i < 4 ensures ShiftRight(net, 8 * i) % 0x100 == want[i] {
      ShiftedByte(net, i);
    }
    hide Swap32, Packed32, ShiftRight;
    var part, ptr := 0, at;
    while part < 25
      invariant 0 <= part == 8 * (ptr - at) && ptr <= at + 4
      invariant forall i | 0 <= i < ptr - at :: dest[at + i] == want[i]
      invariant forall i | 0 <= i < at || ptr <= i < dest.Length :: dest[i] == old(dest[i])
    {
      assert ShiftRight(net, 8 * (ptr - at)) % 0x100 == want[ptr - at];
      dest[ptr] := ShiftRight(net, part) % 0x100;
      ptr := ptr + 1;
      part := part + 8;
    }
    dest[ptr] := 0;
    assert dest[at..at + 4] == want;
    return 4;
  }

  method UnpackUint32(le: bool, src: array<Byte>, at: nat) returns (k: nat, n: Uint32)
    requires at + 4 <= src.Length
    ensures k == 4 && n == Unpacked32(le, src[at..at + 4])
  {
    var d := [src[at], src[at + 1], src[at + 2], src[at + 3]];
    assert d == src[at..at + 4];
    n := Memory32(le, d);
    if le {
      n := Swap32(n);
    }
    return 4, n;
  }

  method PackUint16(le: bool, dest: array<Byte>, at: nat, n: Uint16) returns (k: nat)
    requires at + 3 <= dest.Length
    modifies dest
    ensures k == 2
    ensures dest[..] == old(dest[..at]) + Packed16(le, n) + [0] + old(dest[at + 3..])
  {
    var net := if le then Swap16(n) else n;
    ghost var want := Packed16(le, n);
    forall i | 0 <= i < 2 ensures ShiftRight(net, 8 * i) % 0x100 == want[i] {
      ShiftedByte(net, i);
    }
    hide Swap16, Packed16, ShiftRight;
    var part, ptr := 0, at;
    while part < 11
      invariant 0 <= part == 8 * (ptr - at) && ptr <= at + 2
      invariant forall i | 0 <= i < ptr - at :: dest[at + i] == want[i]
      invariant forall i | 0 <= i < at || ptr <= i < dest.Length :: dest[i] == old(dest[i])
    {
      assert ShiftRight(net, 8 * (ptr - at)) % 0x100 == want[ptr - at];
      dest[ptr] := ShiftRight(net, part) % 0x100;
      ptr := ptr + 1;
      part := part + 8;
    }
    dest[ptr] := 0;
    assert dest[at..at + 2] == want;
    return 2;
  }

  method UnpackUint16(le: bool, src: array<Byte>, at: nat) returns (k: nat, n: Uint16)
    requires at + 2 <= src.Length
    ensures k == 2 && n == Unpacked16(le, src[at..at + 2])
  {
    var d := [src[at], src[at + 1]];
    assert d == src[at..at + 2];
    n := Memory16(le, d);
    if le {
      n := Swap16(n);
    }
    return 2, n;
  }
}
