/** Machine integers, byte order and byte-buffer helpers.

    This module stands in for the `byteorder` crate and for the few
    `u8`/`u16` operations of the standard library the codec relies on
    (`wrapping_add`, `wrapping_neg`, `^`, `|`, `copy_from_slice`). */
module Bytes {

  type byte = x: int | 0 <= x < 0x100
  type u16 = x: int | 0 <= x < 0x1_0000
  type u32 = x: int | 0 <= x < 0x1_0000_0000
  type u64 = x: int | 0 <= x < 0x1_0000_0000_0000_0000

  /** The byte order of every integer in one stream, chosen once per
      parser or composer. */
  datatype Endian = LE | BE

  function Pow256(n: nat): (r: nat)
    ensures r > 0
  {
    if n == 0 then 1 else 256 * Pow256(n - 1)
  }

  function Pow2(n: nat): (r: nat)
    ensures r > 0
  {
    if n == 0 then 1 else 2 * Pow2(n - 1)
  }

  function Reverse(s: seq<byte>): (r: seq<byte>)
    ensures |r| == |s|
  {
    if s == [] then [] else Reverse(s[1..]) + [s[0]]
  }

  lemma {:induction false} ReverseAppend(a: seq<byte>, b: seq<byte>)
    ensures Reverse(a + b) == Reverse(b) + Reverse(a)
  {
    if a == [] {
      assert a + b == b;
      assert Reverse(b) + [] == Reverse(b);
    } else {
      assert (a + b)[0] == a[0] && (a + b)[1..] == a[1..] + b;
      ReverseAppend(a[1..], b);
    }
  }

  lemma {:induction false} ReverseReverse(s: seq<byte>)
    ensures Reverse(Reverse(s)) == s
  {
    if s != [] {
      ReverseAppend(Reverse(s[1..]), [s[0]]);
      ReverseReverse(s[1..]);
      assert Reverse([s[0]]) == [s[0]] by {
        assert [s[0]][1..] == [];
      }
    }
  }

  /** The unsigned value of `s` read least significant byte first. */
  function LeValue(s: seq<byte>): (r: nat)
    ensures r < Pow256(|s|)
  {
    if s == [] then 0 else s[0] + 256 * LeValue(s[1..])
  }

  /** The `n` bytes of `x mod 256^n`, least significant first. */
  function LeBytes(x: nat, n: nat): (r: seq<byte>)
    ensures |r| == n
  {
    if n == 0 then [] else [x % 256] + LeBytes(x / 256, n - 1)
  }

  /** `B::read_uint` of the whole of `s` (2, 4, 8 or 9 bytes in the codec). */
  function ReadUint(e: Endian, s: seq<byte>): (r: nat)
    ensures r < Pow256(|s|)
  {
    match e
    case LE => LeValue(s)
    case BE => LeValue(Reverse(s))
  }

  /** `B::write_uint(x, n)`: the `n` bytes of `x` in byte order `e`. */
  function WriteUint(e: Endian, x: nat, n: nat): (r: seq<byte>)
    ensures |r| == n
  {
    match e
    case LE => LeBytes(x, n)
    case BE => Reverse(LeBytes(x, n))
  }

  lemma {:induction false} LeValueLeBytes(x: nat, n: nat)
    requires x < Pow256(n)
    ensures LeValue(LeBytes(x, n)) == x
  {
    if n > 0 {
      LeValueLeBytes(x / 256, n - 1);
      assert LeBytes(x, n)[1..] == LeBytes(x / 256, n - 1);
    }
  }

  lemma {:induction false} LeBytesLeValue(s: seq<byte>)
    ensures LeBytes(LeValue(s), |s|) == s
  {
    if s != [] {
      LeBytesLeValue(s[1..]);
      assert LeValue(s) / 256 == LeValue(s[1..]);
    }
  }

  /** Reading back what was written gives the value (for values that fit). */
  lemma ReadWriteUint(e: Endian, x: nat, n: nat)
    requires x < Pow256(n)
    ensures ReadUint(e, WriteUint(e, x, n)) == x
  {
    LeValueLeBytes(x, n);
    ReverseReverse(LeBytes(x, n));
  }

  /** Writing back what was read gives the bytes. */
  lemma WriteReadUint(e: Endian, s: seq<byte>)
    ensures WriteUint(e, ReadUint(e, s), |s|) == s
  {
    match e
    case LE => LeBytesLeValue(s);
    case BE =>
      LeBytesLeValue(Reverse(s));
      ReverseReverse(s);
  }

  /** Two byte sequences of the same length that read to the same value are equal. */
  lemma ReadUintInjective(e: Endian, s: seq<byte>, t: seq<byte>)
    requires |s| == |t| && ReadUint(e, s) == ReadUint(e, t)
    ensures s == t
  {
    WriteReadUint(e, s);
    WriteReadUint(e, t);
  }

  function ReadU16(e: Endian, s: seq<byte>): u16
    requires |s| >= 2
  {
    ReadUint(e, s[..2])
  }

  function ReadU32(e: Endian, s: seq<byte>): u32
    requires |s| >= 4
  {
    ReadUint(e, s[..4])
  }

  function ReadU64(e: Endian, s: seq<byte>): u64
    requires |s| >= 8
  {
    ReadUint(e, s[..8])
  }

  function WriteU16(e: Endian, x: u16): (r: seq<byte>)
    ensures |r| == 2
  {
    WriteUint(e, x, 2)
  }

  function WriteU32(e: Endian, x: u32): (r: seq<byte>)
    ensures |r| == 4
  {
    WriteUint(e, x, 4)
  }

  function WriteU64(e: Endian, x: u64): (r: seq<byte>)
    ensures |r| == 8
  {
    WriteUint(e, x, 8)
  }

  lemma ReadWriteU16(e: Endian, x: u16, rest: seq<byte>)
    ensures ReadU16(e, WriteU16(e, x) + rest) == x
  {
    assert (WriteU16(e, x) + rest)[..2] == WriteU16(e, x);
    ReadWriteUint(e, x, 2);
  }

  lemma ReadWriteU32(e: Endian, x: u32, rest: seq<byte>)
    ensures ReadU32(e, WriteU32(e, x) + rest) == x
  {
    assert (WriteU32(e, x) + rest)[..4] == WriteU32(e, x);
    ReadWriteUint(e, x, 4);
  }

  lemma ReadWriteU64(e: Endian, x: u64, rest: seq<byte>)
    ensures ReadU64(e, WriteU64(e, x) + rest) == x
  {
    assert (WriteU64(e, x) + rest)[..8] == WriteU64(e, x);
    ReadWriteUint(e, x, 8);
  }

  /** `u8::wrapping_add` folded over `s`: the sum of its bytes modulo 256. */
  function ModSum(s: seq<byte>): byte
  {
    if s == [] then 0 else (ModSum(s[..|s| - 1]) + s[|s| - 1]) % 256
  }

  /** Appending one byte adds it, wrapping. */
  lemma ModSumSnoc(s: seq<byte>, b: byte)
    ensures ModSum(s + [b]) == WrappingAdd(ModSum(s), b)
  {
    assert (s + [b])[..|s|] == s;
  }

  /** The sum of two runs of bytes is the wrapping sum of their sums. */
  lemma {:induction false} ModSumAppend(a: seq<byte>, b: seq<byte>)
    ensures ModSum(a + b) == WrappingAdd(ModSum(a), ModSum(b))
    decreases |b|
  {
    if b == [] {
      assert a + b == a;
    } else {
      var b', x := b[..|b| - 1], b[|b| - 1];
      assert b == b' + [x];
      assert a + b == (a + b') + [x];
      ModSumAppend(a, b');
      ModSumSnoc(a + b', x);
      ModSumSnoc(b', x);
      WrappingAddAssoc(ModSum(a), ModSum(b'), x);
    }
  }

  lemma WrappingAddAssoc(a: byte, b: byte, c: byte)
    ensures WrappingAdd(WrappingAdd(a, b), c) == WrappingAdd(a, WrappingAdd(b, c))
  {
    var ab := if a + b < 256 then a + b else a + b - 256;
    var bc := if b + c < 256 then b + c else b + c - 256;
    assert WrappingAdd(a, b) == ab && WrappingAdd(b, c) == bc;
    if ab + c < 256 {
      assert WrappingAdd(ab, c) == ab + c;
    } else {
      assert WrappingAdd(ab, c) == ab + c - 256;
    }
    if a + bc < 256 {
      assert WrappingAdd(a, bc) == a + bc;
    } else {
      assert WrappingAdd(a, bc) == a + bc - 256;
    }
  }

  function WrappingAdd(a: byte, b: byte): byte
  {
    (a + b) % 256
  }

  function WrappingNeg(x: byte): byte
  {
    (256 - x) % 256
  }

  /** Adding the negation of a wrapped sum to its two terms gives 0. */
  lemma WrappingNegCancels(c: byte, h: byte)
    ensures WrappingAdd(c, WrappingAdd(h, WrappingNeg(WrappingAdd(c, h)))) == 0
  {
    var sum := WrappingAdd(c, h);
    WrapByte(c as int + h as int);
    var neg := WrappingNeg(sum);
    WrapByte(256 - sum as int);
    var back := WrappingAdd(h, neg);
    WrapByte(h as int + neg as int);
    WrapByte(c as int + back as int);
  }

  /** A sum of two bytes wraps at most once. */
  lemma WrapByte(x: int)
    requires 0 <= x < 512
    ensures x % 256 == if x < 256 then x else x - 256
  {
  }

  /** The only byte that brings `c + h` to 0 is the negation of their sum. */
  lemma WrappingNegUnique(c: byte, h: byte, b: byte)
    ensures WrappingAdd(c, WrappingAdd(h, b)) == 0 <==> b == WrappingNeg(WrappingAdd(c, h))
  {
    var sum := WrappingAdd(c, h);
    WrapByte(c as int + h as int);
    WrapByte(256 - sum as int);
    var hb := WrappingAdd(h, b);
    WrapByte(h as int + b as int);
    WrapByte(c as int + hb as int);
  }

  /** Bitwise exclusive or of two naturals. */
  function BitXor(a: nat, b: nat): nat
    decreases a + b
  {
    if a == 0 && b == 0 then 0 else (a % 2 + b % 2) % 2 + 2 * BitXor(a / 2, b / 2)
  }

  /** Bitwise or of two naturals. */
  function BitOr(a: nat, b: nat): nat
    decreases a + b
  {
    if a == 0 && b == 0 then 0
    else (if a % 2 == 1 || b % 2 == 1 then 1 else 0) + 2 * BitOr(a / 2, b / 2)
  }

  lemma {:induction false} BitXorBound(a: nat, b: nat, n: nat)
    requires a < Pow2(n) && b < Pow2(n)
    ensures BitXor(a, b) < Pow2(n)
    decreases n
  {
    if a != 0 || b != 0 {
      BitXorBound(a / 2, b / 2, n - 1);
    }
  }

  lemma {:induction false} BitOrBound(a: nat, b: nat, n: nat)
    requires a < Pow2(n) && b < Pow2(n)
    ensures BitOr(a, b) < Pow2(n)
    decreases n
  {
    if a != 0 || b != 0 {
      BitOrBound(a / 2, b / 2, n - 1);
    }
  }

  /** A low bit and the rest, put together and taken apart. */
  lemma Halves(b: nat, h: nat)
    requires b < 2
    ensures (b + 2 * h) % 2 == b && (b + 2 * h) / 2 == h
  {
  }

  /** One unfolding of BitXor. */
  lemma BitXorStep(a: nat, k: nat)
    ensures BitXor(a, k) == (a % 2 + k % 2) % 2 + 2 * BitXor(a / 2, k / 2)
  {
  }

  lemma XorBitTwice(ab: nat, kb: nat)
    requires ab < 2 && kb < 2
    ensures ((ab + kb) % 2 + kb) % 2 == ab
  {
  }

  lemma {:induction false} BitXorInvolution(a: nat, k: nat)
    ensures BitXor(BitXor(a, k), k) == a
    decreases a + k
  {
    if a != 0 || k != 0 {
      var ab, kb := a % 2, k % 2;
      var x := BitXor(a, k);
      var h := BitXor(a / 2, k / 2);
      BitXorStep(a, k);
      Halves((ab + kb) % 2, h);
      assert x % 2 == (ab + kb) % 2 && x / 2 == h;
      BitXorStep(x, k);
      BitXorInvolution(a / 2, k / 2);
      XorBitTwice(ab, kb);
      assert BitXor(x / 2, k / 2) == a / 2;
      assert (x % 2 + kb) % 2 == ab;
      assert BitXor(x, k) == ab + 2 * (a / 2);
      assert a == ab + 2 * (a / 2);
    } else {
      BitXorStep(0, 0);
    }
  }

  lemma {:induction false} BitXorZero(a: nat)
    ensures BitXor(a, 0) == a
    decreases a
  {
    if a != 0 {
      BitXorZero(a / 2);
    }
  }

  lemma {:induction false} BitOrZero(a: nat)
    ensures BitOr(a, 0) == a
    decreases a
  {
    if a != 0 {
      BitOrZero(a / 2);
    }
  }

  /** Or-ing a value below 2^n into a multiple of 2^n is addition. */
  lemma {:induction false} BitOrDisjoint(a: nat, b: nat, n: nat)
    requires b < Pow2(n)
    ensures BitOr(a * Pow2(n), b) == a * Pow2(n) + b
    decreases n
  {
    if n == 0 {
      BitOrZero(a);
    } else if a != 0 || b != 0 {
      var x := a * Pow2(n);
      assert x == 2 * (a * Pow2(n - 1));
      assert x % 2 == 0 && x / 2 == a * Pow2(n - 1);
      BitOrDisjoint(a, b / 2, n - 1);
      assert BitOr(x, b) == (if b % 2 == 1 then 1 else 0) + 2 * BitOr(x / 2, b / 2);
    }
  }

  lemma Pow2Values()
    ensures Pow2(8) == 0x100 && Pow2(12) == 0x1000 && Pow2(16) == 0x1_0000
  {
    assert Pow2(4) == 16;
    assert Pow2(8) == 16 * Pow2(4) by {
      assert Pow2(8) == 2 * Pow2(7) == 4 * Pow2(6) == 8 * Pow2(5) == 16 * Pow2(4);
    }
    assert Pow2(12) == 16 * Pow2(8) by {
      assert Pow2(12) == 2 * Pow2(11) == 4 * Pow2(10) == 8 * Pow2(9) == 16 * Pow2(8);
    }
    assert Pow2(16) == 16 * Pow2(12) by {
      assert Pow2(16) == 2 * Pow2(15) == 4 * Pow2(14) == 8 * Pow2(13) == 16 * Pow2(12);
    }
  }

  /** `a ^ b` on bytes. */
  function Xor8(a: byte, b: byte): (r: byte)
  {
    Pow2Values();
    BitXorBound(a, b, 8);
    BitXor(a, b)
  }

  lemma Xor8Involution(a: byte, k: byte)
    ensures Xor8(Xor8(a, k), k) == a
  {
    BitXorInvolution(a, k);
  }

  lemma Xor8Zero(a: byte)
    ensures Xor8(a, 0) == a
  {
    BitXorZero(a);
  }

  /** `a | b` on 16-bit words. */
  function Or16(a: u16, b: u16): (r: u16)
  {
    Pow2Values();
    BitOrBound(a, b, 16);
    BitOr(a, b)
  }

  lemma AppendAssoc<X>(a: seq<X>, b: seq<X>, c: seq<X>)
    ensures a + (b + c) == (a + b) + c
  {
  }

  /** `before` with `bytes` laid over it from `off` on. */
  function Splice(before: seq<byte>, off: nat, bytes: seq<byte>): (r: seq<byte>)
    requires off + |bytes| <= |before|
    ensures |r| == |before|
  {
    before[..off] + bytes + before[off + |bytes|..]
  }

  /** The model of writing `bytes` into `buf[off..]`: the buffer keeps its
      length, the bytes land at `off` and nothing else changes. */
  ghost predicate Written(before: seq<byte>, after: seq<byte>, off: nat, bytes: seq<byte>)
  {
    off + |bytes| <= |before| && after == Splice(before, off, bytes)
  }

  /** What was written can be read back from where it was written. */
  lemma WrittenSlice(before: seq<byte>, after: seq<byte>, off: nat, bytes: seq<byte>)
    requires Written(before, after, off, bytes)
    ensures after[off..off + |bytes|] == bytes
    ensures after[..off] == before[..off] && after[off + |bytes|..] == before[off + |bytes|..]
  {
  }

  /** Two writes side by side are one write of both. */
  lemma WrittenThen(b0: seq<byte>, b1: seq<byte>, b2: seq<byte>, off: nat, x: seq<byte>, y: seq<byte>)
    requires Written(b0, b1, off, x) && Written(b1, b2, off + |x|, y)
    ensures Written(b0, b2, off, x + y)
  {
    WrittenSlice(b0, b1, off, x);
    assert b1[..off + |x|] == b0[..off] + x;
    assert b1[off + |x| + |y|..] == b0[off + |x| + |y|..];
  }

  lemma WrittenNothing(b: seq<byte>, off: nat)
    requires off <= |b|
    ensures Written(b, b, off, [])
  {
    assert b == b[..off] + [] + b[off..];
  }

  /** A buffer written from the first to the last byte holds exactly what was written. */
  lemma WrittenWhole(before: seq<byte>, after: seq<byte>, bytes: seq<byte>)
    requires Written(before, after, 0, bytes) && |bytes| == |before|
    ensures after == bytes
  {
    assert before[..0] == [] && before[|bytes|..] == [];
  }

  /** `copy_from_slice` / `B::write_*`: copies `bytes` into `buf` at `off`. */
  method WriteAt(buf: array<byte>, off: nat, bytes: seq<byte>)
    requires off + |bytes| <= buf.Length
    modifies buf
    ensures Written(old(buf[..]), buf[..], off, bytes)
  {
    var i := 0;
    while i < |bytes|
      invariant 0 <= i <= |bytes|
      invariant forall j :: 0 <= j < buf.Length ==>
                  buf[j] == if off <= j < off + i then bytes[j - off] else old(buf[j])
    {
      buf[off + i] := bytes[i];
      i := i + 1;
    }
    assert buf[..] == Splice(old(buf[..]), off, bytes);
  }

  /** Euclidean quotient and remainder are unique. */
  lemma DivModUnique(x: int, m: int, a: int, t: int)
    requires m > 0 && x == m * a + t && 0 <= t < m
    ensures x / m == a && x % m == t
  {
    var k := a - x / m;
    assert m * k == x % m - t;
    MulBound(m, k);
  }

  lemma MulBound(m: int, k: int)
    requires m > 0
    ensures k >= 1 ==> m * k >= m
    ensures k <= -1 ==> m * k <= -m
  {
    if k >= 1 {
      assert m * k == m * (k - 1) + m;
    } else if k <= -1 {
      assert m * k == m * (k + 1) - m;
    }
  }
}
