/** The trailing checksum: a loop over signed chars in wrapping 32-bit arithmetic, and what it means. */
module Checksum {
  import opened XsheTypes
  import opened ByteOrder

  /** The sum of the first `n` bytes. */
  function SumTo(s: seq<byte>, n: nat): nat
    requires n <= |s|
  {
    if n == 0 then 0 else SumTo(s, n - 1) + s[n - 1]
  }

  function ByteSum(s: seq<byte>): nat { SumTo(s, |s|) }

  /** The checksum of a run of bytes. */
  function Check(s: seq<byte>): (c: nat)
    ensures c < 256
  {
    ByteSum(s) % 256
  }

  const WORD := 0x1_0000_0000

  /** A char is signed: widening it to uint32 wraps the negative ones. */
  function Widen(b: byte): nat {
    if b < 128 then b else b - 256 + WORD
  }

  lemma SameLowByte(a: nat, b: nat, k: int)
    requires a == b + 256 * k
    ensures a % 256 == b % 256
  {
  }

  /** One loop step, modulo 256: neither the wrap nor the sign matters. */
  lemma SumStep(cks: nat, sum: nat, b: byte)
    requires cks % 256 == sum % 256
    ensures (cks + Widen(b)) % WORD % 256 == (sum + b) % 256
  {
    var x := cks + Widen(b);
    var carry := if b < 128 then 0 else 0x100_0000 - 1;
    var q := x / WORD;
    assert x % WORD == x - 256 * (0x100_0000 * q);
    var d := cks / 256 - sum / 256;
    assert cks == sum + 256 * d;
    SameLowByte(x % WORD, sum + b, d + carry - 0x100_0000 * q);
  }

  method GenerateCheckSum(buf: array<byte>, at: nat, len: nat) returns (c: nat)
    requires at + len <= buf.Length
    ensures c == ByteSum(buf[at..at + len]) % 256 == Check(buf[at..at + len])
  {
    var cks := 0;
    var idx := 0;
    while idx < len
      invariant 0 <= idx <= len
      invariant 0 <= cks < WORD && cks % 256 == SumTo(buf[at..at + len], idx) % 256
    {
      SumStep(cks, SumTo(buf[at..at + len], idx), buf[at + idx]);
      cks := (cks + Widen(buf[at + idx])) % WORD;
      idx := idx + 1;
    }
    return cks % 256;
  }

  // ---------------------------------------------------------------- what the sum detects and ignores

  lemma {:induction false} SumOfLeft(a: seq<byte>, b: seq<byte>, n: nat)
    requires n <= |a|
    ensures SumTo(a + b, n) == SumTo(a, n)
  {
    if n > 0 { SumOfLeft(a, b, n - 1); }
  }

  lemma {:induction false} SumOfRight(a: seq<byte>, b: seq<byte>, n: nat)
    requires n <= |b|
    ensures SumTo(a + b, |a| + n) == ByteSum(a) + SumTo(b, n)
  {
    if n == 0 {
      SumOfLeft(a, b, |a|);
    } else {
      SumOfRight(a, b, n - 1);
    }
  }

  lemma SumOfConcat(a: seq<byte>, b: seq<byte>)
    ensures ByteSum(a + b) == ByteSum(a) + ByteSum(b)
  {
    SumOfRight(a, b, |b|);
  }

  lemma SumOfOne(x: byte)
    ensures ByteSum([x]) == x
  {
    assert SumTo([x], 0) == 0;
  }

  lemma SumSplit(s: seq<byte>, i: nat)
    requires i < |s|
    ensures ByteSum(s) == ByteSum(s[..i]) + s[i] + ByteSum(s[i + 1..])
  {
    SumOfOne(s[i]);
    SumOfConcat(s[..i], [s[i]]);
    SumOfConcat(s[..i] + [s[i]], s[i + 1..]);
    assert s == s[..i] + [s[i]] + s[i + 1..];
  }

  lemma WithoutOne(s: seq<byte>, i: nat)
    requires i < |s|
    ensures multiset(s[..i] + s[i + 1..]) == multiset(s) - multiset{s[i]}
  {
    assert s == s[..i] + [s[i]] + s[i + 1..];
    assert multiset(s) == multiset(s[..i]) + multiset{s[i]} + multiset(s[i + 1..]);
  }

  /** The sum is the same for every order of the bytes. */
  lemma {:induction false} SumOfPermutation(a: seq<byte>, b: seq<byte>)
    requires multiset(a) == multiset(b)
    ensures ByteSum(a) == ByteSum(b)
    decreases |a|
  {
    if a == [] {
      assert |b| == |multiset(b)|;
    } else {
      assert a[0] in multiset(b);
      var i :| 0 <= i < |b| && b[i] == a[0];
      WithoutOne(a, 0);
      WithoutOne(b, i);
      SumOfPermutation(a[..0] + a[1..], b[..i] + b[i + 1..]);
      SumSplit(a, 0);
      SumOfConcat(a[..0], a[1..]);
      SumSplit(b, i);
      SumOfConcat(b[..i], b[i + 1..]);
    }
  }

  /** Changing one byte always changes the checksum. */
  lemma OneByteChange(s: seq<byte>, i: nat, v: byte)
    requires i < |s| && v != s[i]
    ensures Check(s[i := v]) != Check(s)
  {
    SumSplit(s, i);
    SumSplit(s[i := v], i);
    assert s[i := v][..i] == s[..i] && s[i := v][i + 1..] == s[i + 1..];
    assert ByteSum(s[i := v]) - ByteSum(s) == v - s[i];
  }

  // ---------------------------------------------------------------- sealing and comparing

  /** The four bytes appendTail stores. */
  function Tail(s: seq<byte>): (t: seq<byte>)
    ensures |t| == 4
  {
    ToBe(Check(s), 4)
  }

  lemma TailReads(s: seq<byte>)
    ensures Be(Tail(s)) == ByteSum(s) % 256 == Check(s)
  {
    Powers256();
    BeOfToBe(Check(s), 4);
  }

  /** cmpCheckSum accepts a tail exactly when it is the one appendTail would store. */
  lemma TailUnique(s: seq<byte>, t: seq<byte>)
    requires |t| == 4
    ensures Be(t) == ByteSum(s) % 256 <==> t == Tail(s)
  {
    TailReads(s);
    ToBeOfBe(t);
  }

  method CmpCheckSum(buf: array<byte>, at: nat, len: nat, tail: nat) returns (ret: int)
    requires at + len <= buf.Length && tail + 4 <= buf.Length
    ensures ret == if Be(buf[tail..tail + 4]) == ByteSum(buf[at..at + len]) % 256 then 0 else -1
    ensures ret == if buf[tail..tail + 4] == Tail(buf[at..at + len]) then 0 else -1
  {
    var checksum := GenerateCheckSum(buf, at, len);
    var recvchecksum := Be(buf[tail..tail + 4]);
    TailUnique(buf[at..at + len], buf[tail..tail + 4]);
    if checksum != recvchecksum {
      return -1;
    }
    return 0;
  }

  /** appendTail(buffer, length): seals the `length` bytes at `base`, right behind them. */
  method AppendTail(buf: array<byte>, base: nat, length: nat)
    requires base + length + 4 <= buf.Length
    modifies buf
    ensures Be(buf[base + length..base + length + 4]) == ByteSum(old(buf[base..base + length])) % 256
    ensures buf[base + length..base + length + 4] == Tail(old(buf[base..base + length]))
    ensures forall k :: 0 <= k < buf.Length && !(base + length <= k < base + length + 4) ==> buf[k] == old(buf[k])
  {
    var c := GenerateCheckSum(buf, base, length);
    var t := ToBe(c, 4);
    for j := 0 to 4
      invariant forall k :: 0 <= k < j ==> buf[base + length + k] == t[k]
      invariant forall k :: 0 <= k < buf.Length && !(base + length <= k < base + length + 4) ==> buf[k] == old(buf[k])
    {
      buf[base + length + j] := t[j];
    }
    TailReads(old(buf[base..base + length]));
    assert buf[base + length..base + length + 4] == t;
  }

  /** checkBufferLength in its 32-bit arithmetic. */
  function CheckBufferLength(head: uint32, body: uint32, tail: uint32, buffer: uint32): int {
    if (head + body + tail) % WORD > buffer then -1 else 0
  }

  /** For the receive buffer the test passes exactly for bodies of at most 4084 bytes and, because the
      sum wraps, for the twelve longest lengths that can be written. */
  lemma CheckBufferLengthExact(body: uint32)
    ensures CheckBufferLength(8, body, 4, 4096) == 0 <==> body <= 4084 || body >= WORD - 12
  {
  }
}
