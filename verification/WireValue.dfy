/**
 The three forms of WireValue in c++/src/capnp/endian.h: direct on a little-endian host,
 byte-swapping on a big-endian host, and shifting on either.  A WireValue is an overlay on
 message memory, so the forms are methods that write or read `n` bytes of a byte array; the
 integer that a host would see there is made explicit by `HostBytes` and `HostNumber`.
 */
module WireValue {
  import opened Bytes

  datatype Host = LittleHost | BigHost

  datatype Form = Direct | Swapping | Shifting

  /** The forms that endian.h selects on each kind of host. */
  predicate Applicable(form: Form, host: Host) {
    match form
    case Direct => host.LittleHost?
    case Swapping => host.BigHost?
    case Shifting => true
  }

  predicate ValidSize(n: nat) {
    n == 1 || n == 2 || n == 4 || n == 8
  }

  /** How the host lays out an unsigned integer of `n` bytes. */
  function HostBytes(host: Host, v: nat, n: nat): (r: seq<byte>)
    ensures |r| == n
  {
    if host.LittleHost? then LittleEndian(v, n) else Reverse(LittleEndian(v, n))
  }

  /** The unsigned integer the host sees in `b`. */
  function HostNumber(host: Host, b: seq<byte>): nat {
    if host.LittleHost? then Number(b) else Number(Reverse(b))
  }

  /** __builtin_bswap. */
  function ByteSwap(v: nat, n: nat): nat {
    Number(Reverse(LittleEndian(v, n)))
  }

  /** The swap of SwappingWireValue: nothing, shifts and OR for two bytes, else the builtin. */
  function Swap(v: nat, n: nat): nat {
    if n == 1 then v
    else if n == 2 then Or((v * 256) % 65536, v / 256, 16)
    else ByteSwap(v, n)
  }

  lemma SwapIsByteSwap(v: nat, n: nat)
    requires ValidSize(n) && v < Pow2(8 * n)
    ensures Swap(v, n) == ByteSwap(v, n)
  {
    if n == 1 {
      Pow2Of8();
      assert Reverse(LittleEndian(v, 1)) == LittleEndian(v, 1);
      NumberLittleEndian(v, 1);
    } else if n == 2 {
      Pow2Of16();
      SwapOfTwo(v);
    }
  }

  lemma SwapOfTwo(v: nat)
    requires v < 65536
    ensures Or((v * 256) % 65536, v / 256, 16) == ByteSwap(v, 2)
  {
    hide Or, Pow2;
    var lo, hi := v % 256, v / 256;
    TwoBytesReversed(v);
    Pow2Of8();
    DisjointOr(hi, lo, 8, 16);
    OrCommutes(lo * 256, hi, 16);
    assert (v * 256) % 65536 == lo * 256;
  }

  lemma TwoBytesReversed(v: nat)
    requires v < 65536
    ensures ByteSwap(v, 2) == v / 256 + 256 * (v % 256)
  {
    var lo, hi := v % 256, v / 256;
    assert LittleEndian(v, 2) == [lo, hi] by {
      assert LittleEndian(hi, 1) == [hi];
    }
    assert Reverse([lo, hi]) == [hi, lo] by {
      assert [lo, hi][1..] == [hi] && [hi][1..] == [];
      assert Reverse([hi]) == [hi];
    }
    assert Number([hi, lo]) == hi + 256 * lo by {
      assert [hi, lo][1..] == [lo] && [lo][1..] == [];
      assert Number([lo]) == lo;
    }
  }

  lemma {:induction false} OrCommutes(a: nat, b: nat, w: nat)
    ensures Or(a, b, w) == Or(b, a, w)
  {
    if w == 0 {
    } else {
      OrCommutes(a / 2, b / 2, w - 1);
    }
  }

  /** Swapping on a big-endian host leaves the little-endian form in memory. */
  lemma SwappedLayout(v: nat, n: nat)
    requires ValidSize(n) && v < Pow2(8 * n)
    ensures HostBytes(BigHost, Swap(v, n), n) == LittleEndian(v, n)
  {
    SwapIsByteSwap(v, n);
    LittleEndianNumber(Reverse(LittleEndian(v, n)));
    ReverseReverse(LittleEndian(v, n));
  }

  lemma SwappedRead(b: seq<byte>)
    requires ValidSize(|b|)
    ensures Swap(HostNumber(BigHost, b), |b|) == Number(b)
  {
    var r := Reverse(b);
    LittleEndianNumber(r);
    SwapIsByteSwap(Number(r), |b|);
    ReverseReverse(b);
  }

  /** `v >> 8 * i`, truncated to a byte. */
  function ShiftByte(v: nat, i: nat): byte {
    ShiftRight(v, 8 * i) % 256
  }

  lemma {:induction false} ShiftByteIs(v: nat, n: nat, i: nat)
    requires i < n
    ensures LittleEndian(v, n)[i] == ShiftByte(v, i)
    decreases n
  {
    if i == 0 {
    } else {
      ShiftByteIs(v / 256, n - 1, i - 1);
      ShiftRightAdd(v, 8, 8 * (i - 1));
      ShiftRight8(v);
    }
  }

  /** One more byte shifted into place. */
  lemma {:induction false} NumberSnoc(b: seq<byte>, x: byte)
    ensures Number(b + [x]) == Number(b) + x * Pow2(8 * |b|)
  {
    if b == [] {
      assert b + [x] == [x] && [x][1..] == [];
    } else {
      assert (b + [x])[1..] == b[1..] + [x];
      NumberSnoc(b[1..], x);
      Pow2Byte(|b|);
      assert 256 * (x * Pow2(8 * (|b| - 1))) == x * Pow2(8 * |b|);
    }
  }

  lemma ShiftIn(b: seq<byte>, x: byte, n: nat)
    requires |b| < n
    ensures Or(Number(b), x * Pow2(8 * |b|), 8 * n) == Number(b + [x])
  {
    hide Or, Number;
    LittleEndianNumber(b);
    NumberSnoc(b, x);
    Pow2Fits(|b|, n);
    DisjointOr(Number(b), x, 8 * |b|, 8 * n);
  }

  /** Stores `v` through one of the forms: always the little-endian bytes. */
  method Set(form: Form, host: Host, data: array<byte>, at: nat, n: nat, v: nat)
    requires Applicable(form, host) && ValidSize(n) && at + n <= data.Length && v < Pow2(8 * n)
    modifies data
    ensures data[..] == Splice(old(data[..]), at, LittleEndian(v, n))
  {
    hide Splice, LittleEndian, Swap, ShiftByte;
    match form {
      case Direct =>
        Copy(HostBytes(host, v, n), data, at);
      case Swapping =>
        SwappedLayout(v, n);
        Copy(HostBytes(host, Swap(v, n), n), data, at);
      case Shifting =>
        ghost var d, bytes := data[..], LittleEndian(v, n);
        SpliceNothing(d, at);
        assert bytes[..0] == [];
        for i := 0 to n
          invariant data[..] == Splice(d, at, bytes[..i])
        {
          ghost var before := data[..];
          ShiftByteIs(v, n, i);
          data[at + i] := ShiftByte(v, i);
          assert data[..] == before[at + i := bytes[i]];
          SplicePut(d, at, bytes[..i], bytes[i]);
          assert bytes[..i + 1] == bytes[..i] + [bytes[i]];
        }
        assert bytes[..n] == bytes;
    }
  }

  /** Loads through one of the forms: always the little-endian number. */
  method Get(form: Form, host: Host, data: array<byte>, at: nat, n: nat) returns (v: nat)
    requires Applicable(form, host) && ValidSize(n) && at + n <= data.Length
    ensures v == Number(data[at..at + n])
  {
    hide Number, Swap, Or;
    match form {
      case Direct =>
        v := HostNumber(host, data[at..at + n]);
      case Swapping =>
        SwappedRead(data[at..at + n]);
        v := Swap(HostNumber(host, data[at..at + n]), n);
      case Shifting =>
        v := 0;
        assert data[at..at] == [];
        NumberOfNothing();
        for i := 0 to n
          invariant v == Number(data[at..at + i])
        {
          ShiftIn(data[at..at + i], data[at + i], n);
          assert data[at..at + i + 1] == data[at..at + i] + [data[at + i]];
          v := Or(v, data[at + i] * Pow2(8 * i), 8 * n);
        }
    }
  }

  lemma NumberOfNothing()
    ensures Number([]) == 0
  {
  }

  lemma Pow2Fits(i: nat, n: nat)
    requires i < n
    ensures 256 <= Pow2(8 * n - 8 * i)
  {
    Pow2Byte(n - i);
    assert 8 * (n - i) == 8 * n - 8 * i;
  }

  /** Whatever form and host stores a value, every form on every host loads it back. */
  method StoreThenLoad(w: Form, hw: Host, r: Form, hr: Host, data: array<byte>, at: nat, n: nat, v: nat)
    returns (loaded: nat)
    requires Applicable(w, hw) && Applicable(r, hr) && ValidSize(n) && at + n <= data.Length && v < Pow2(8 * n)
    modifies data
    ensures loaded == v
    ensures data[..] == Splice(old(data[..]), at, LittleEndian(v, n))
  {
    hide Splice, LittleEndian, Number;
    Set(w, hw, data, at, n, v);
    SplicePrefix(old(data[..]), at, LittleEndian(v, n));
    assert data[at..at + n] == data[..][at..at + n];
    NumberLittleEndian(v, n);
    loaded := Get(r, hr, data, at, n);
  }
}
