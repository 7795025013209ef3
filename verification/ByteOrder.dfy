/** Byte order: the swap macros as bit operations, and what they do to the numbers bytes write. */
module ByteOrder {
  import opened XsheTypes

  // ---------------------------------------------------------------- the macros, bit by bit

  function Bswap16(x: bv16): bv16 {
    ((x & 0xff00) >> 8) | ((x & 0x00ff) << 8)
  }

  function Bswap32(x: bv32): bv32 {
    ((x & 0xff000000) >> 24) | ((x & 0x000000ff) << 24) | ((x & 0x00ff0000) >> 8) | ((x & 0x0000ff00) << 8)
  }

  function Bswap64(x: bv64): bv64 {
    ((x & 0xff00000000000000) >> 56) | ((x & 0x00000000000000ff) << 56) |
    ((x & 0x00ff000000000000) >> 40) | ((x & 0x000000000000ff00) << 40) |
    ((x & 0x0000ff0000000000) >> 24) | ((x & 0x0000000000ff0000) << 24) |
    ((x & 0x000000ff00000000) >> 8) | ((x & 0x00000000ff000000) << 8)
  }

  lemma BswapInvolutions(x: bv16, y: bv32, z: bv64)
    ensures Bswap16(Bswap16(x)) == x && Bswap32(Bswap32(y)) == y && Bswap64(Bswap64(z)) == z
  {
  }

  // A little-endian host loads the bytes of a word with `Join` and stores them with `Split`.

  function Join16(a: bv8, b: bv8): bv16 {
    (a as bv16) | ((b as bv16) << 8)
  }

  function Join32(a: bv8, b: bv8, c: bv8, d: bv8): bv32 {
    (a as bv32) | ((b as bv32) << 8) | ((c as bv32) << 16) | ((d as bv32) << 24)
  }

  function Join64(a: bv8, b: bv8, c: bv8, d: bv8, e: bv8, f: bv8, g: bv8, h: bv8): bv64 {
    (a as bv64) | ((b as bv64) << 8) | ((c as bv64) << 16) | ((d as bv64) << 24) |
    ((e as bv64) << 32) | ((f as bv64) << 40) | ((g as bv64) << 48) | ((h as bv64) << 56)
  }

  function Part0(x: bv64): bv8 { (x & 0xff) as bv8 }
  function Part1(x: bv64): bv8 { ((x >> 8) & 0xff) as bv8 }
  function Part2(x: bv64): bv8 { ((x >> 16) & 0xff) as bv8 }
  function Part3(x: bv64): bv8 { ((x >> 24) & 0xff) as bv8 }
  function Part4(x: bv64): bv8 { ((x >> 32) & 0xff) as bv8 }
  function Part5(x: bv64): bv8 { ((x >> 40) & 0xff) as bv8 }
  function Part6(x: bv64): bv8 { ((x >> 48) & 0xff) as bv8 }
  function Part7(x: bv64): bv8 { ((x >> 56) & 0xff) as bv8 }

  function Split16(x: bv16): seq<bv8> {
    [Part0(x as bv64), Part1(x as bv64)]
  }

  function Split32(x: bv32): seq<bv8> {
    [Part0(x as bv64), Part1(x as bv64), Part2(x as bv64), Part3(x as bv64)]
  }

  function Split64(x: bv64): seq<bv8> {
    [Part0(x), Part1(x), Part2(x), Part3(x), Part4(x), Part5(x), Part6(x), Part7(x)]
  }

  lemma Parts16(a: bv8, b: bv8)
    ensures var x := Join16(a, b); Part0(x as bv64) == a && Part1(x as bv64) == b
  {
  }

  lemma Bswap16OfJoin(a: bv8, b: bv8)
    ensures Bswap16(Join16(a, b)) == Join16(b, a)
  {
  }

  /** Loading, swapping and storing a word reverses its bytes. */
  lemma Swap16Reverses(a: bv8, b: bv8)
    ensures Split16(Bswap16(Join16(a, b))) == [b, a]
  {
    Bswap16OfJoin(a, b);
    Parts16(b, a);
  }

  lemma Parts32(a: bv8, b: bv8, c: bv8, d: bv8)
    ensures var x := Join32(a, b, c, d) as bv64;
            Part0(x) == a && Part1(x) == b && Part2(x) == c && Part3(x) == d
  {
  }

  lemma Bswap32OfJoin(a: bv8, b: bv8, c: bv8, d: bv8)
    ensures Bswap32(Join32(a, b, c, d)) == Join32(d, c, b, a)
  {
  }

  /** Loading, swapping and storing a word reverses its bytes. */
  lemma Swap32Reverses(a: bv8, b: bv8, c: bv8, d: bv8)
    ensures Split32(Bswap32(Join32(a, b, c, d))) == [d, c, b, a]
  {
    Bswap32OfJoin(a, b, c, d);
    Parts32(d, c, b, a);
  }

  lemma Parts64(a: bv8, b: bv8, c: bv8, d: bv8, e: bv8, f: bv8, g: bv8, h: bv8)
    ensures Part0(Join64(a, b, c, d, e, f, g, h)) == a
    ensures Part1(Join64(a, b, c, d, e, f, g, h)) == b
    ensures Part2(Join64(a, b, c, d, e, f, g, h)) == c
    ensures Part3(Join64(a, b, c, d, e, f, g, h)) == d
    ensures Part4(Join64(a, b, c, d, e, f, g, h)) == e
    ensures Part5(Join64(a, b, c, d, e, f, g, h)) == f
    ensures Part6(Join64(a, b, c, d, e, f, g, h)) == g
    ensures Part7(Join64(a, b, c, d, e, f, g, h)) == h
  {
  }

  lemma Bswap64OfJoin(a: bv8, b: bv8, c: bv8, d: bv8, e: bv8, f: bv8, g: bv8, h: bv8)
    ensures Bswap64(Join64(a, b, c, d, e, f, g, h)) == Join64(h, g, f, e, d, c, b, a)
  {
  }

  /** Loading, swapping and storing a word reverses its bytes. */
  lemma Swap64Reverses(a: bv8, b: bv8, c: bv8, d: bv8, e: bv8, f: bv8, g: bv8, h: bv8)
    ensures Split64(Bswap64(Join64(a, b, c, d, e, f, g, h))) == [h, g, f, e, d, c, b, a]
  {
    Bswap64OfJoin(a, b, c, d, e, f, g, h);
    Parts64(h, g, f, e, d, c, b, a);
  }

  // ---------------------------------------------------------------- the same on bytes and numbers

  function Reverse(b: seq<byte>): (r: seq<byte>)
    ensures |r| == |b| && forall i :: 0 <= i < |b| ==> r[i] == b[|b| - 1 - i]
  {
    seq(|b|, i requires 0 <= i < |b| => b[|b| - 1 - i])
  }

  lemma PlusOne(v: bv8)
    requires v != 0xff
    ensures (v + 1) as int == v as int + 1
  {
  }

  lemma LastByte(v: bv8)
    ensures v as int < 255 ==> v != 0xff
  {
  }

  /** The bit pattern of a byte, counted up from zero. */
  function Bits(b: byte): (v: bv8)
    ensures v as int == b
    decreases b
  {
    if b == 0 then 0
    else
      var v := Bits(b - 1);
      LastByte(v);
      PlusOne(v);
      v + 1
  }

  function Bytes(s: seq<bv8>): (b: seq<byte>)
    ensures |b| == |s| && forall i :: 0 <= i < |s| ==> b[i] == s[i] as int
  {
    seq(|s|, i requires 0 <= i < |s| => s[i] as int)
  }

  /** htn16/32/64 and their unsigned forms: the bytes of a word once it has been swapped. */
  function Htn(b: seq<byte>): seq<byte>
    requires |b| == 2 || |b| == 4 || |b| == 8
  {
    if |b| == 2 then Bytes(Split16(Bswap16(Join16(Bits(b[0]), Bits(b[1])))))
    else if |b| == 4 then
      Bytes(Split32(Bswap32(Join32(Bits(b[0]), Bits(b[1]), Bits(b[2]), Bits(b[3])))))
    else
      Bytes(Split64(Bswap64(Join64(Bits(b[0]), Bits(b[1]), Bits(b[2]), Bits(b[3]),
                                   Bits(b[4]), Bits(b[5]), Bits(b[6]), Bits(b[7])))))
  }

  lemma HtnReverses(b: seq<byte>)
    requires |b| == 2 || |b| == 4 || |b| == 8
    ensures Htn(b) == Reverse(b)
  {
    if |b| == 2 {
      Swap16Reverses(Bits(b[0]), Bits(b[1]));
    } else if |b| == 4 {
      Swap32Reverses(Bits(b[0]), Bits(b[1]), Bits(b[2]), Bits(b[3]));
    } else {
      Swap64Reverses(Bits(b[0]), Bits(b[1]), Bits(b[2]), Bits(b[3]), Bits(b[4]), Bits(b[5]), Bits(b[6]), Bits(b[7]));
    }
  }

  /** The number that bytes write on the wire, most significant byte first. */
  function Be(b: seq<byte>): nat {
    if b == [] then 0 else Be(b[..|b| - 1]) * 256 + b[|b| - 1]
  }

  /** The number that a little-endian host reads from the same bytes. */
  function Le(b: seq<byte>): nat {
    if b == [] then 0 else b[0] + 256 * Le(b[1..])
  }

  lemma {:induction false} LeOfReverse(b: seq<byte>)
    ensures Le(Reverse(b)) == Be(b)
  {
    if b != [] {
      LeOfReverse(b[..|b| - 1]);
      assert Reverse(b)[1..] == Reverse(b[..|b| - 1]);
    }
  }

  /** One byte reads as itself; of two runs the first weighs more on the wire and the second on the host. */
  lemma Weights(x: byte, a: seq<byte>, b: seq<byte>)
    ensures Be([x]) == x == Le([x])
    ensures Be(a + b) == Be(a) * Power256(|b|) + Be(b)
    ensures Le(a + b) == Le(a) + Power256(|a|) * Le(b)
  {
    assert Be([]) == Le([]) == 0;
    assert Be([x][..0]) == 0 && Le([x][1..]) == 0;
    BeOfConcat(a, b);
    LeOfConcat(a, b);
  }

  lemma {:induction false} BeOfConcat(a: seq<byte>, b: seq<byte>)
    ensures Be(a + b) == Be(a) * Power256(|b|) + Be(b)
    decreases |b|
  {
    if b == [] {
      assert a + b == a;
    } else {
      var init := b[..|b| - 1];
      assert (a + b)[..|a + b| - 1] == a + init;
      BeOfConcat(a, init);
    }
  }

  lemma ScaleProduct(p: nat, v: nat)
    ensures 256 * (p * v) == (256 * p) * v
  {
  }

  lemma {:induction false} LeOfConcat(a: seq<byte>, b: seq<byte>)
    ensures Le(a + b) == Le(a) + Power256(|a|) * Le(b)
    decreases |a|
  {
    if a == [] {
      assert a + b == b;
    } else {
      LeOfConcat(a[1..], b);
      assert (a + b)[1..] == a[1..] + b;
      ScaleProduct(Power256(|a| - 1), Le(b));
    }
  }

  function Power256(n: nat): nat { if n == 0 then 1 else 256 * Power256(n - 1) }

  lemma Powers256()
    ensures Power256(2) == 0x1_0000 && Power256(4) == 0x1_0000_0000 && Power256(8) == 0x1_0000_0000_0000_0000
  {
    assert Power256(3) == 0x100_0000;
    assert Power256(5) == 0x100_0000_0000;
    assert Power256(6) == 0x1_0000_0000_0000;
  }

  lemma {:induction false} BeBound(b: seq<byte>)
    ensures Be(b) < Power256(|b|)
  {
    if b != [] { BeBound(b[..|b| - 1]); }
  }

  lemma {:induction false} BeOfZeros(b: seq<byte>)
    requires forall i :: 0 <= i < |b| ==> b[i] == 0
    ensures Be(b) == 0
  {
    if b != [] { BeOfZeros(b[..|b| - 1]); }
  }

  lemma {:induction false} BePositive(b: seq<byte>, i: nat)
    requires i < |b| && b[i] != 0
    ensures Be(b) > 0
  {
    if i < |b| - 1 { BePositive(b[..|b| - 1], i); }
  }

  lemma {:induction false} LeOfZeros(b: seq<byte>)
    requires forall i :: 0 <= i < |b| ==> b[i] == 0
    ensures Le(b) == 0
  {
    if b != [] { LeOfZeros(b[1..]); }
  }

  /** The `width` bytes a big-endian sender writes for a number. */
  function ToBe(v: nat, width: nat): (b: seq<byte>)
    ensures |b| == width
    decreases width, v
  {
    if width == 0 then [] else ToBe(v / 256, width - 1) + [v % 256]
  }

  lemma {:induction false} BeOfToBe(v: nat, width: nat)
    requires v < Power256(width)
    ensures Be(ToBe(v, width)) == v
    decreases width
  {
    if width > 0 {
      BeOfToBe(v / 256, width - 1);
      assert ToBe(v, width)[..width - 1] == ToBe(v / 256, width - 1);
    }
  }

  lemma {:induction false} ToBeOfBe(b: seq<byte>)
    ensures ToBe(Be(b), |b|) == b
  {
    if b != [] {
      ToBeOfBe(b[..|b| - 1]);
    }
  }

  // Two's complement for 64-bit fields.

  function Signed64(v: nat): int64
    requires v < 0x1_0000_0000_0000_0000
  {
    if v < 0x8000_0000_0000_0000 then v else v - 0x1_0000_0000_0000_0000
  }

  function Unsigned64(v: int64): (u: nat)
    ensures u < 0x1_0000_0000_0000_0000 && Signed64(u) == v
  {
    if v >= 0 then v else v + 0x1_0000_0000_0000_0000
  }

  /** The signed number of eight bytes on the wire. */
  function Int64(b: seq<byte>): (x: int64)
    requires |b| == 8
    ensures x == Be(b) || x == Be(b) - 0x1_0000_0000_0000_0000
  {
    BeBound(b);
    Powers256();
    Signed64(Be(b))
  }

  /** A slice of a slice. */
  lemma SubSlice(s: seq<byte>, at: nat, n: nat, lo: nat, hi: nat)
    requires at + n <= |s| && lo <= hi <= n
    ensures s[at..at + n][lo..hi] == s[at + lo..at + hi]
  {
    var x, y := s[at..at + n][lo..hi], s[at + lo..at + hi];
    forall i | 0 <= i < hi - lo ensures x[i] == y[i] {
      assert x[i] == s[at..at + n][lo + i];
    }
  }

  /** Consecutive slices join. */
  lemma Join(s: seq<byte>, i: nat, j: nat, k: nat)
    requires i <= j <= k <= |s|
    ensures s[i..j] + s[j..k] == s[i..k]
  {
  }

  lemma SliceSame(s: seq<byte>, t: seq<byte>, a: nat, b: nat)
    requires a <= b <= |s| && b <= |t| && forall k :: a <= k < b ==> s[k] == t[k]
    ensures s[a..b] == t[a..b]
  {
  }
}
