/** Bytes, the bits of natural numbers, and numbers in little-endian form. */
module Bytes {

  type byte = x: int | 0 <= x < 256

  function Zeros(n: nat): (r: seq<byte>)
    ensures |r| == n && forall i :: 0 <= i < n ==> r[i] == 0
  {
    seq(n, _ => 0)
  }

  // ---------------------------------------------------------------------------------------
  // Writing into a buffer

  /** `d` with `x` written over it from position `at`. */
  function Splice(d: seq<byte>, at: nat, x: seq<byte>): (r: seq<byte>)
    requires at + |x| <= |d|
    ensures |r| == |d|
  {
    d[..at] + x + d[at + |x|..]
  }

  lemma SpliceNothing(d: seq<byte>, at: nat)
    requires at <= |d|
    ensures Splice(d, at, []) == d
  {
  }

  /** Writing one more byte after `x`. */
  lemma SplicePut(d: seq<byte>, at: nat, x: seq<byte>, b: byte)
    requires at + |x| < |d|
    ensures Splice(d, at, x)[at + |x| := b] == Splice(d, at, x + [b])
  {
  }

  /** Two writes next to each other are one. */
  lemma SpliceSplice(d: seq<byte>, at: nat, x: seq<byte>, y: seq<byte>)
    requires at + |x| + |y| <= |d|
    ensures Splice(Splice(d, at, x), at + |x|, y) == Splice(d, at, x + y)
  {
    var s := Splice(d, at, x);
    assert s[..at + |x|] == d[..at] + x;
    assert s[at + |x| + |y|..] == d[at + |x| + |y|..];
  }

  lemma SplicePrefix(d: seq<byte>, at: nat, x: seq<byte>)
    requires at + |x| <= |d|
    ensures Splice(d, at, x)[..at + |x|] == d[..at] + x
    ensures Splice(d, at, x)[at..at + |x|] == x
  {
  }

  /** memcpy of `src` to `dst[at..]`. */
  method Copy(src: seq<byte>, dst: array<byte>, at: nat)
    requires at + |src| <= dst.Length
    modifies dst
    ensures dst[..] == Splice(old(dst[..]), at, src)
  {
    hide Splice;
    ghost var d := dst[..];
    SpliceNothing(d, at);
    assert src[..0] == [];
    for i := 0 to |src|
      invariant dst[..] == Splice(d, at, src[..i])
    {
      ghost var before := dst[..];
      dst[at + i] := src[i];
      assert dst[..] == before[at + i := src[i]];
      SplicePut(d, at, src[..i], src[i]);
      assert src[..i + 1] == src[..i] + [src[i]];
    }
    assert src[..|src|] == src;
  }

  /** Equal suffixes start with the same byte and continue equally. */
  lemma SuffixStep(s: seq<byte>, i: nat, t: seq<byte>, j: nat)
    requires i < |s| && j <= |t| && s[i..] == t[j..]
    ensures j < |t| && s[i] == t[j] && s[i + 1..] == t[j + 1..]
  {
    assert |s[i..]| == |t[j..]|;
    assert s[i..][0] == t[j..][0];
    assert s[i + 1..] == s[i..][1..];
    assert t[j + 1..] == t[j..][1..];
  }

  // ---------------------------------------------------------------------------------------
  // Bits

  /** Bit `i` of `v`, bit 0 being the least significant. */
  predicate Bit(v: nat, i: nat) {
    if i == 0 then v % 2 == 1 else Bit(v / 2, i - 1)
  }

  function Pow2(n: nat): (p: nat)
    ensures p >= 1
  {
    if n == 0 then 1 else 2 * Pow2(n - 1)
  }

  /** `v >> k`. */
  function ShiftRight(v: nat, k: nat): nat {
    if k == 0 then v else ShiftRight(v / 2, k - 1)
  }

  lemma {:induction false} ShiftRightAdd(v: nat, a: nat, b: nat)
    ensures ShiftRight(v, a + b) == ShiftRight(ShiftRight(v, a), b)
    decreases a
  {
    if a == 0 {
    } else {
      ShiftRightAdd(v / 2, a - 1, b);
    }
  }

  lemma ShiftRight2(v: nat)
    ensures ShiftRight(v, 2) == v / 4
  {
    assert ShiftRight(v / 2, 1) == v / 2 / 2;
  }

  lemma ShiftRight4(v: nat)
    ensures ShiftRight(v, 4) == v / 16
  {
    hide ShiftRight;
    ShiftRight2(v);
    ShiftRight2(v / 4);
    ShiftRightAdd(v, 2, 2);
  }

  lemma ShiftRight8(v: nat)
    ensures ShiftRight(v, 8) == v / 256
  {
    hide ShiftRight;
    ShiftRight4(v);
    ShiftRight4(v / 16);
    ShiftRightAdd(v, 4, 4);
  }

  /** A bitwise operation on the low `w` bits of `a` and `b`. */
  function Bitwise(op: (bool, bool) -> bool, a: nat, b: nat, w: nat): nat {
    if w == 0 then 0
    else (if op(a % 2 == 1, b % 2 == 1) then 1 else 0) + 2 * Bitwise(op, a / 2, b / 2, w - 1)
  }

  function And(a: nat, b: nat, w: nat): nat {
    Bitwise((x, y) => x && y, a, b, w)
  }

  function Or(a: nat, b: nat, w: nat): nat {
    Bitwise((x, y) => x || y, a, b, w)
  }

  function Xor(a: nat, b: nat, w: nat): nat {
    Bitwise((x, y) => x != y, a, b, w)
  }

  lemma {:induction false} BitwiseBit(op: (bool, bool) -> bool, a: nat, b: nat, w: nat, i: nat)
    requires i < w
    ensures Bit(Bitwise(op, a, b, w), i) == op(Bit(a, i), Bit(b, i))
  {
    if i == 0 {
    } else {
      BitwiseBit(op, a / 2, b / 2, w - 1, i - 1);
    }
  }

  lemma {:induction false} BitwiseBound(op: (bool, bool) -> bool, a: nat, b: nat, w: nat)
    ensures Bitwise(op, a, b, w) < Pow2(w)
  {
    if w == 0 {
    } else {
      BitwiseBound(op, a / 2, b / 2, w - 1);
    }
  }

  lemma {:induction false} BitOfZero(i: nat)
    ensures !Bit(0, i)
  {
    if i == 0 {
    } else {
      BitOfZero(i - 1);
    }
  }

  /** A number of `w` bits is determined by its bits. */
  lemma {:induction false} SameBits(a: nat, b: nat, w: nat)
    requires a < Pow2(w) && b < Pow2(w)
    requires forall i :: 0 <= i < w ==> Bit(a, i) == Bit(b, i)
    ensures a == b
  {
    if w == 0 {
    } else {
      assert Bit(a, 0) == Bit(b, 0);
      forall i | 0 <= i < w - 1
        ensures Bit(a / 2, i) == Bit(b / 2, i)
      {
        assert Bit(a, i + 1) == Bit(b, i + 1);
      }
      SameBits(a / 2, b / 2, w - 1);
    }
  }

  /** XOR with zero on either side. */
  lemma {:induction false} XorZero(v: nat, w: nat)
    requires v < Pow2(w)
    ensures Xor(v, 0, w) == v && Xor(0, v, w) == v
  {
    if w == 0 {
    } else {
      XorZero(v / 2, w - 1);
    }
  }

  /** OR of numbers without common bits is their sum. */
  lemma {:induction false} DisjointOr(a: nat, b: nat, k: nat, w: nat)
    requires a < Pow2(k) && k <= w && b < Pow2(w - k)
    ensures Or(a, b * Pow2(k), w) == a + b * Pow2(k)
    decreases w
  {
    if k == 0 {
      OrZero(b, w);
    } else {
      assert b * Pow2(k) == 2 * (b * Pow2(k - 1));
      DisjointOr(a / 2, b, k - 1, w - 1);
    }
  }

  lemma {:induction false} OrZero(b: nat, w: nat)
    requires b < Pow2(w)
    ensures Or(0, b, w) == b
  {
    if w == 0 {
    } else {
      OrZero(b / 2, w - 1);
    }
  }

  lemma {:induction false} Pow2Add(a: nat, b: nat)
    ensures Pow2(a + b) == Pow2(a) * Pow2(b)
  {
    if a == 0 {
    } else {
      Pow2Add(a - 1, b);
    }
  }

  // ---------------------------------------------------------------------------------------
  // Little-endian numbers

  /** The low `n` bytes of `v`, least significant first. */
  function LittleEndian(v: nat, n: nat): (r: seq<byte>)
    ensures |r| == n
  {
    if n == 0 then [] else [v % 256] + LittleEndian(v / 256, n - 1)
  }

  /** The number whose little-endian form is `b`. */
  function Number(b: seq<byte>): nat {
    if b == [] then 0 else b[0] + 256 * Number(b[1..])
  }

  lemma Pow2Of8()
    ensures Pow2(8) == 256
  {
    assert Pow2(2) == 4;
    assert Pow2(4) == 16;
    assert Pow2(6) == 64;
  }

  lemma Pow2Of16()
    ensures Pow2(16) == 0x1_0000
  {
    hide Pow2;
    Pow2Of8();
    Pow2Add(8, 8);
  }

  lemma Pow2Of32()
    ensures Pow2(32) == 0x1_0000_0000
  {
    hide Pow2;
    Pow2Of16();
    Pow2Add(16, 16);
  }

  lemma Pow2Of64()
    ensures Pow2(64) == 0x1_0000_0000_0000_0000
  {
    hide Pow2;
    Pow2Of32();
    Pow2Add(32, 32);
  }

  lemma Pow2Byte(n: nat)
    requires n >= 1
    ensures Pow2(8 * n) == 256 * Pow2(8 * (n - 1))
  {
    hide Pow2;
    Pow2Of8();
    Pow2Add(8, 8 * (n - 1));
    assert 8 + 8 * (n - 1) == 8 * n;
  }

  lemma {:induction false} NumberLittleEndian(v: nat, n: nat)
    requires v < Pow2(8 * n)
    ensures Number(LittleEndian(v, n)) == v
  {
    if n == 0 {
    } else {
      Pow2Byte(n);
      NumberLittleEndian(v / 256, n - 1);
    }
  }

  lemma LowByte(lo: byte, hi: nat)
    ensures (lo + 256 * hi) % 256 == lo && (lo + 256 * hi) / 256 == hi
  {
  }

  lemma {:induction false} LittleEndianNumber(b: seq<byte>)
    ensures LittleEndian(Number(b), |b|) == b && Number(b) < Pow2(8 * |b|)
  {
    if b == [] {
    } else {
      hide Pow2;
      LittleEndianNumber(b[1..]);
      Pow2Byte(|b|);
      LowByte(b[0], Number(b[1..]));
      assert b == [b[0]] + b[1..];
    }
  }

  /** Bit `i` of a number is bit `i % 8` of its byte `i / 8`. */
  lemma {:induction false} NumberBit(b: seq<byte>, i: nat)
    requires i < 8 * |b|
    ensures Bit(Number(b), i) == Bit(b[i / 8], i % 8)
    decreases |b|
  {
    var rest := Number(b[1..]);
    BitSplit(b[0], rest, i);
    if i >= 8 {
      NumberBit(b[1..], i - 8);
      assert b[1..][(i - 8) / 8] == b[i / 8];
    }
  }

  lemma BitSplit(lo: byte, hi: nat, i: nat)
    ensures Bit(lo + 256 * hi, i) == if i < 8 then Bit(lo, i) else Bit(hi, i - 8)
  {
    BitSplitAt(lo, hi, 8, i);
    Pow2Of8();
  }

  lemma {:induction false} BitSplitAt(lo: nat, hi: nat, k: nat, i: nat)
    requires lo < Pow2(k)
    ensures Bit(lo + Pow2(k) * hi, i) == if i < k then Bit(lo, i) else Bit(hi, i - k)
    decreases k
  {
    if k == 0 {
    } else {
      var v := lo + Pow2(k) * hi;
      assert Pow2(k) * hi == 2 * (Pow2(k - 1) * hi);
      assert v / 2 == lo / 2 + Pow2(k - 1) * hi;
      if i > 0 {
        BitSplitAt(lo / 2, hi, k - 1, i - 1);
      }
    }
  }

  function Reverse(b: seq<byte>): (r: seq<byte>)
    ensures |r| == |b|
  {
    if b == [] then [] else Reverse(b[1..]) + [b[0]]
  }

  lemma {:induction false} ReverseSnoc(b: seq<byte>, x: byte)
    ensures Reverse(b + [x]) == [x] + Reverse(b)
  {
    if b == [] {
      assert b + [x] == [x] && [x][1..] == [];
    } else {
      assert (b + [x])[1..] == b[1..] + [x];
      ReverseSnoc(b[1..], x);
    }
  }

  lemma {:induction false} ReverseReverse(b: seq<byte>)
    ensures Reverse(Reverse(b)) == b
  {
    if b == [] {
    } else {
      ReverseReverse(b[1..]);
      ReverseSnoc(Reverse(b[1..]), b[0]);
      assert b == [b[0]] + b[1..];
    }
  }
}
