/**
 Data and pointer fields of structs, c++/src/capnp/layout.h: fields of 1, 8, 16, 32 or 64 bits
 that share one byte buffer, each XORed with its default value.  The bits of the buffer are
 the common specification: bit `i` is bit `i % 8` of byte `i / 8`.
 */
module StructLayout {
  import opened Bytes
  import WireValue

  predicate ValidWidth(w: nat) {
    w == 1 || w == 8 || w == 16 || w == 32 || w == 64
  }

  predicate BitAt(d: seq<byte>, i: nat)
    requires i < 8 * |d|
  {
    Bit(d[i / 8], i % 8)
  }

  /** The field of width `w` at `offset` (counted in fields of that width) lies in `d`. */
  predicate InSection(d: seq<byte>, w: nat, offset: nat) {
    ValidWidth(w) && w * (offset + 1) <= 8 * |d|
  }

  // ---------------------------------------------------------------------------------------
  // Fields as functions of the buffer

  /** setDataField: the value, masked, over its bits. */
  function SetField(d: seq<byte>, w: nat, offset: nat, value: nat, mask: nat): (r: seq<byte>)
    requires InSection(d, w, offset)
    ensures |r| == |d|
  {
    var v := Xor(value, mask, w);
    if w == 1 then d[offset / 8 := SetBit(d[offset / 8], offset % 8, v)]
    else Splice(d, offset * (w / 8), LittleEndian(v, w / 8))
  }

  /** (b & ~(1 << i)) | (v << i) for a bit `v`. */
  function SetBit(b: byte, i: nat, v: nat): byte
    requires i < 8
  {
    Pow2Of8();
    BitwiseBound((x, y) => x || y, And(b, 255 - Pow2Below(i), 8), v * Pow2(i), 8);
    Or(And(b, 255 - Pow2Below(i), 8), v * Pow2(i), 8)
  }

  /** `1 << i`, which is a byte. */
  function Pow2Below(i: nat): byte
    requires i < 8
  {
    Pow2Mono(i, 7);
    Pow2Of7();
    Pow2(i)
  }

  /** getDataField: the bits of the field, unmasked. */
  function GetField(d: seq<byte>, w: nat, offset: nat, mask: nat): nat
    requires InSection(d, w, offset)
  {
    Xor(RawField(d, w, offset), mask, w)
  }

  function RawField(d: seq<byte>, w: nat, offset: nat): nat
    requires InSection(d, w, offset)
  {
    if w == 1 then (if And(d[offset / 8], Pow2(offset % 8), 8) != 0 then 1 else 0)
    else Number(d[offset * (w / 8)..offset * (w / 8) + w / 8])
  }

  // ---------------------------------------------------------------------------------------
  // Powers of two and single bits

  lemma {:induction false} Pow2Mono(a: nat, b: nat)
    requires a <= b
    ensures Pow2(a) <= Pow2(b)
    decreases b
  {
    if a == b {
    } else {
      Pow2Mono(a, b - 1);
    }
  }

  lemma Pow2Of7()
    ensures Pow2(7) == 128
  {
    assert Pow2(1) == 2;
    assert Pow2(3) == 8;
    assert Pow2(5) == 32;
  }

  lemma {:induction false} BitOfPow2(k: nat, i: nat)
    ensures Bit(Pow2(k), i) <==> i == k
  {
    if k == 0 {
      if i > 0 {
        BitOfZero(i - 1);
      }
    } else if i > 0 {
      BitOfPow2(k - 1, i - 1);
    }
  }

  /** The complement of a `w`-bit number has the opposite bits. */
  lemma {:induction false} BitOfComplement(v: nat, w: nat, i: nat)
    requires v < Pow2(w) && i < w
    ensures Bit(Pow2(w) - 1 - v, i) == !Bit(v, i)
  {
    if i == 0 {
    } else {
      BitOfComplement(v / 2, w - 1, i - 1);
    }
    HalfComplement(Pow2(w - 1), v);
  }

  lemma HalfComplement(p: nat, v: nat)
    requires v < 2 * p
    ensures (2 * p - 1 - v) / 2 == p - 1 - v / 2
    ensures (2 * p - 1 - v) % 2 == 1 - v % 2
  {
  }

  /** A number without a set bit is zero. */
  lemma {:induction false} NoBits(v: nat, w: nat)
    requires v < Pow2(w) && forall i :: 0 <= i < w ==> !Bit(v, i)
    ensures v == 0
  {
    forall i | 0 <= i < w
      ensures Bit(v, i) == Bit(0, i)
    {
      BitOfZero(i);
    }
    SameBits(v, 0, w);
  }

  lemma SetBitBits(b: byte, k: nat, v: nat, i: nat)
    requires k < 8 && v < 2 && i < 8
    ensures Bit(SetBit(b, k, v), i) == if i == k then v == 1 else Bit(b, i)
  {
    hide Bit, Bitwise;
    var m: nat := 255 - Pow2Below(k);
    Pow2Of8();
    BitwiseBit((x, y) => x || y, And(b, m, 8), v * Pow2(k), 8, i);
    BitwiseBit((x, y) => x && y, b, m, 8, i);
    BitOfComplement(Pow2(k), 8, i);
    BitOfPow2(k, i);
    BitOfZero(i);
  }

  lemma TestBit(b: byte, k: nat)
    requires k < 8
    ensures And(b, Pow2(k), 8) != 0 <==> Bit(b, k)
  {
    hide Bit, Bitwise;
    var v := And(b, Pow2(k), 8);
    BitwiseBound((x, y) => x && y, b, Pow2(k), 8);
    BitwiseBit((x, y) => x && y, b, Pow2(k), 8, k);
    BitOfPow2(k, k);
    if Bit(b, k) {
      BitOfZero(k);
    } else {
      forall i | 0 <= i < 8
        ensures !Bit(v, i)
      {
        BitwiseBit((x, y) => x && y, b, Pow2(k), 8, i);
        BitOfPow2(k, i);
      }
      NoBits(v, 8);
    }
  }

  lemma LittleEndianBit(v: nat, n: nat, i: nat)
    requires v < Pow2(8 * n) && i < 8 * n
    ensures Bit(LittleEndian(v, n)[i / 8], i % 8) == Bit(v, i)
  {
    NumberLittleEndian(v, n);
    NumberBit(LittleEndian(v, n), i);
  }

  // ---------------------------------------------------------------------------------------
  // What a field write changes

  /** For every mix of widths a masked write changes exactly the bits of its field. */
  lemma SetFieldBits(d: seq<byte>, w: nat, offset: nat, value: nat, mask: nat, i: nat)
    requires InSection(d, w, offset) && i < 8 * |d|
    ensures BitAt(SetField(d, w, offset, value, mask), i) ==
              if w * offset <= i < w * (offset + 1) then Bit(value, i - w * offset) != Bit(mask, i - w * offset)
              else BitAt(d, i)
  {
    hide Bit, BitAt, Bitwise, LittleEndian, SetBit, Splice, Pow2;
    var v := Xor(value, mask, w);
    BitwiseBound((x, y) => x != y, value, mask, w);
    if w == 1 {
      BoolBits(d, offset, value, mask, i);
    } else {
      FieldPlace(w, offset);
      NumberWriteBits(d, offset * (w / 8), w / 8, v, i);
      if w * offset <= i < w * (offset + 1) {
        BitwiseBit((x, y) => x != y, value, mask, w, i - w * offset);
      }
    }
  }

  /** A number written over some bytes changes exactly their bits. */
  lemma NumberWriteBits(d: seq<byte>, at: nat, n: nat, v: nat, i: nat)
    requires at + n <= |d| && v < Pow2(8 * n) && i < 8 * |d|
    ensures BitAt(Splice(d, at, LittleEndian(v, n)), i) ==
              if 8 * at <= i < 8 * (at + n) then Bit(v, i - 8 * at) else BitAt(d, i)
  {
    hide Bit, LittleEndian;
    if 8 * at <= i < 8 * (at + n) {
      LittleEndianBit(v, n, i - 8 * at);
      assert (i - 8 * at) / 8 == i / 8 - at && (i - 8 * at) % 8 == i % 8;
    }
  }

  lemma NumberReadBits(d: seq<byte>, at: nat, n: nat, j: nat)
    requires at + n <= |d| && j < 8 * n
    ensures Bit(Number(d[at..at + n]), j) == BitAt(d, 8 * at + j)
  {
    NumberBit(d[at..at + n], j);
    assert (8 * at + j) / 8 == at + j / 8 && (8 * at + j) % 8 == j % 8;
  }

  lemma BoolBits(d: seq<byte>, offset: nat, value: nat, mask: nat, i: nat)
    requires InSection(d, 1, offset) && i < 8 * |d|
    ensures BitAt(SetField(d, 1, offset, value, mask), i) ==
              if i == offset then Bit(value, 0) != Bit(mask, 0) else BitAt(d, i)
  {
    hide SetBit, Bitwise;
    var v := Xor(value, mask, 1);
    BitwiseBit((x, y) => x != y, value, mask, 1, 0);
    BitwiseBound((x, y) => x != y, value, mask, 1);
    assert Pow2(1) == 2;
    if i / 8 == offset / 8 {
      SetBitBits(d[offset / 8], offset % 8, v, i % 8);
    }
  }

  /** Where a field of whole bytes starts. */
  lemma FieldPlace(w: nat, offset: nat)
    requires ValidWidth(w) && w != 1
    ensures w == 8 * (w / 8) && w * offset == 8 * (offset * (w / 8)) && w * (offset + 1) == 8 * (offset * (w / 8)) + w
  {
  }

  /** What a field read returns, bit by bit. */
  lemma GetFieldBits(d: seq<byte>, w: nat, offset: nat, mask: nat, j: nat)
    requires InSection(d, w, offset) && j < w
    ensures GetField(d, w, offset, mask) < Pow2(w)
    ensures Bit(GetField(d, w, offset, mask), j) == (BitAt(d, w * offset + j) != Bit(mask, j))
  {
    hide Bit, Bitwise, Number;
    BitwiseBound((x, y) => x != y, RawField(d, w, offset), mask, w);
    BitwiseBit((x, y) => x != y, RawField(d, w, offset), mask, w, j);
    RawFieldBits(d, w, offset, j);
  }

  lemma RawFieldBits(d: seq<byte>, w: nat, offset: nat, j: nat)
    requires InSection(d, w, offset) && j < w
    ensures Bit(RawField(d, w, offset), j) == BitAt(d, w * offset + j)
  {
    hide Bitwise, Number;
    if w == 1 {
      TestBit(d[offset / 8], offset % 8);
    } else {
      FieldPlace(w, offset);
      NumberReadBits(d, offset * (w / 8), w / 8, j);
    }
  }

  /** Reading with the mask that was used for writing returns the value. */
  lemma GetAfterSet(d: seq<byte>, w: nat, offset: nat, value: nat, mask: nat)
    requires InSection(d, w, offset)
    ensures value < Pow2(w) ==> GetField(SetField(d, w, offset, value, mask), w, offset, mask) == value
  {
    hide Bit, SetField, GetField, BitAt, InSection;
    var d' := SetField(d, w, offset, value, mask);
    InSectionFacts(d, d', w, offset);
    forall j | 0 <= j < w
      ensures Bit(GetField(d', w, offset, mask), j) == Bit(value, j)
    {
      BitAfterSet(d, w, offset, value, mask, j);
    }
    GetFieldBits(d', w, offset, mask, 0);
    if value < Pow2(w) {
      SameBits(GetField(d', w, offset, mask), value, w);
    }
  }

  lemma InSectionFacts(d: seq<byte>, d': seq<byte>, w: nat, offset: nat)
    requires InSection(d, w, offset) && |d'| == |d|
    ensures InSection(d', w, offset) && w > 0
  {
  }

  lemma BitAfterSet(d: seq<byte>, w: nat, offset: nat, value: nat, mask: nat, j: nat)
    requires InSection(d, w, offset) && j < w
    ensures Bit(GetField(SetField(d, w, offset, value, mask), w, offset, mask), j) == Bit(value, j)
  {
    hide Bit, SetField, GetField, BitAt;
    GetFieldBits(SetField(d, w, offset, value, mask), w, offset, mask, j);
    FieldBitInside(w, offset, j);
    SetFieldBits(d, w, offset, value, mask, w * offset + j);
  }

  lemma FieldBitInside(w: nat, offset: nat, j: nat)
    requires ValidWidth(w) && j < w
    ensures w * offset <= w * offset + j < w * (offset + 1)
  {
  }

  /** Fields that share no bit do not affect each other, whatever their widths. */
  lemma SetElsewhere(d: seq<byte>, w: nat, offset: nat, value: nat, mask: nat, w': nat, offset': nat, mask': nat)
    requires InSection(d, w, offset) && InSection(d, w', offset')
    requires w * (offset + 1) <= w' * offset' || w' * (offset' + 1) <= w * offset
    ensures GetField(SetField(d, w, offset, value, mask), w', offset', mask') == GetField(d, w', offset', mask')
  {
    hide Bit, SetField, GetField, BitAt;
    var d' := SetField(d, w, offset, value, mask);
    forall j | 0 <= j < w'
      ensures Bit(GetField(d', w', offset', mask'), j) == Bit(GetField(d, w', offset', mask'), j)
    {
      GetFieldBits(d', w', offset', mask', j);
      GetFieldBits(d, w', offset', mask', j);
      FieldBitInside(w', offset', j);
      SetFieldBits(d, w, offset, value, mask, w' * offset' + j);
    }
    GetFieldBits(d', w', offset', mask', 0);
    GetFieldBits(d, w', offset', mask', 0);
    SameBits(GetField(d', w', offset', mask'), GetField(d, w', offset', mask'), w');
  }

  // ---------------------------------------------------------------------------------------
  // Reading past the end

  /** The data section a StructReader sees: `size` bits of `d`. */
  datatype Section = Section(d: seq<byte>, size: nat)

  predicate ValidSection(s: Section) {
    s.size <= 8 * |s.d|
  }

  /** StructReader::getDataField: a field that is not wholly inside reads as its default. */
  function ReadField(s: Section, w: nat, offset: nat, mask: nat): nat
    requires ValidSection(s) && ValidWidth(w)
  {
    if w * (offset + 1) <= s.size then GetField(s.d, w, offset, mask) else Xor(0, mask, w)
  }

  /** `t` is `s` followed by zero bits: the same struct written by a newer schema that left its
      new fields unset. */
  ghost predicate ZeroExtends(t: Section, s: Section) {
    ValidSection(s) && ValidSection(t) && s.size <= t.size
    && forall i :: 0 <= i < t.size ==> BitAt(t.d, i) == (i < s.size && BitAt(s.d, i))
  }

  /** A field past the end reads as exactly its default. */
  lemma MissingFieldIsDefault(s: Section, w: nat, offset: nat, mask: nat)
    requires ValidSection(s) && ValidWidth(w) && mask < Pow2(w) && s.size < w * (offset + 1)
    ensures ReadField(s, w, offset, mask) == mask
  {
    XorZero(mask, w);
  }

  lemma ContainedFieldSame(s: Section, t: Section, w: nat, offset: nat, mask: nat)
    requires ZeroExtends(t, s) && ValidWidth(w) && w * (offset + 1) <= s.size
    ensures ReadField(t, w, offset, mask) == ReadField(s, w, offset, mask)
  {
    hide Bit, GetField, BitAt;
    var a, b := GetField(s.d, w, offset, mask), GetField(t.d, w, offset, mask);
    forall j | 0 <= j < w
      ensures Bit(a, j) == Bit(b, j)
    {
      GetFieldBits(s.d, w, offset, mask, j);
      GetFieldBits(t.d, w, offset, mask, j);
      FieldBitInside(w, offset, j);
    }
    GetFieldBits(s.d, w, offset, mask, 0);
    GetFieldBits(t.d, w, offset, mask, 0);
    SameBits(a, b, w);
  }

  /** Bits of the field that the short section still holds. */
  ghost predicate HeldBitsZero(s: Section, w: nat, offset: nat)
    requires ValidSection(s)
  {
    forall i :: w * offset <= i < s.size && i < w * (offset + 1) ==> !BitAt(s.d, i)
  }

  /** Reading from a section and from any zero-extension of it that holds the field agree exactly
      when the field is wholly inside the section or no bit of it that is inside is set. */
  lemma VersionToleranceExactly(s: Section, t: Section, w: nat, offset: nat, mask: nat)
    requires ZeroExtends(t, s) && ValidWidth(w) && w * (offset + 1) <= t.size
    ensures ReadField(t, w, offset, mask) == ReadField(s, w, offset, mask)
       <==> (w * (offset + 1) <= s.size || HeldBitsZero(s, w, offset))
  {
    hide Bit, GetField, BitAt, Bitwise;
    if w * (offset + 1) <= s.size {
      ContainedFieldSame(s, t, w, offset, mask);
    } else if HeldBitsZero(s, w, offset) {
      StraddlingFieldUnset(s, t, w, offset, mask);
    } else {
      var i :| w * offset <= i < s.size && i < w * (offset + 1) && BitAt(s.d, i);
      assert BitAt(t.d, i);
      DefaultBits(t, w, offset, mask, i - w * offset);
    }
  }

  /** The bits of a default next to those of the field. */
  lemma DefaultBits(t: Section, w: nat, offset: nat, mask: nat, j: nat)
    requires ValidSection(t) && ValidWidth(w) && w * (offset + 1) <= t.size && j < w
    ensures w * offset + j < 8 * |t.d|
    ensures Bit(Xor(0, mask, w), j) == Bit(GetField(t.d, w, offset, mask), j) <==> !BitAt(t.d, w * offset + j)
  {
    hide Bit, GetField, BitAt, Bitwise;
    FieldBitInside(w, offset, j);
    BitwiseBit((x, y) => x != y, 0, mask, w, j);
    BitOfZero(j);
    GetFieldBits(t.d, w, offset, mask, j);
  }

  lemma StraddlingFieldUnset(s: Section, t: Section, w: nat, offset: nat, mask: nat)
    requires ZeroExtends(t, s) && ValidWidth(w) && w * (offset + 1) <= t.size && HeldBitsZero(s, w, offset)
    ensures GetField(t.d, w, offset, mask) == Xor(0, mask, w)
  {
    hide Bit, GetField, BitAt, Bitwise;
    forall j | 0 <= j < w
      ensures Bit(Xor(0, mask, w), j) == Bit(GetField(t.d, w, offset, mask), j)
    {
      FieldBitInside(w, offset, j);
      assert BitAt(t.d, w * offset + j) == (w * offset + j < s.size && BitAt(s.d, w * offset + j));
      DefaultBits(t, w, offset, mask, j);
    }
    GetFieldBits(t.d, w, offset, mask, 0);
    BitwiseBound((x, y) => x != y, 0, mask, w);
    SameBits(Xor(0, mask, w), GetField(t.d, w, offset, mask), w);
  }

  /** Whenever the width divides the size, the two always agree: a message with more or fewer
      whole words reads the same. */
  lemma VersionTolerance(s: Section, t: Section, w: nat, offset: nat, mask: nat, fields: nat)
    requires ZeroExtends(t, s) && ValidWidth(w) && s.size == w * fields
    ensures ReadField(t, w, offset, mask) == ReadField(s, w, offset, mask)
  {
    if w * (offset + 1) <= t.size {
      VersionToleranceExactly(s, t, w, offset, mask);
      WholeFields(w, offset, fields);
    }
  }

  lemma WholeFields(w: nat, offset: nat, fields: nat)
    requires ValidWidth(w)
    ensures w * (offset + 1) <= w * fields || w * fields <= w * offset
  {
    if offset + 1 <= fields {
      assert w * (offset + 1) <= w * fields;
    } else {
      assert w * fields <= w * offset;
    }
  }

  /** StructReader::getPointerField: null past the end. */
  function PointerAt<P>(pointers: seq<P>, index: nat, missing: P): P {
    if index < |pointers| then pointers[index] else missing
  }

  // ---------------------------------------------------------------------------------------
  // The builder

  /** The contents of a pointer word: null, or some object. */
  datatype Pointer = Null | Object(id: nat)

  /** StructBuilder: writes fields in place. */
  class StructBuilder {
    const data: array<byte>
    const pointers: array<Pointer>

    /** A new struct is all zeroes and null pointers. */
    constructor (dataWords: nat, pointerCount: nat)
      ensures fresh(data) && fresh(pointers)
      ensures data[..] == Zeros(8 * dataWords) && pointers.Length == pointerCount
      ensures forall i :: 0 <= i < pointerCount ==> pointers[i] == Null
    {
      data := new byte[8 * dataWords](_ => 0);
      pointers := new Pointer[pointerCount](_ => Null);
    }

    method SetDataField(w: nat, offset: nat, value: nat, mask: nat)
      requires InSection(data[..], w, offset)
      modifies data
      ensures data[..] == SetField(old(data[..]), w, offset, value, mask)
    {
      hide Bitwise, Splice, LittleEndian, SetBit;
      ghost var before := data[..];
      var v := Xor(value, mask, w);
      if w == 1 {
        data[offset / 8] := SetBit(data[offset / 8], offset % 8, v);
        assert data[..] == before[offset / 8 := data[offset / 8]];
      } else {
        FieldPlace(w, offset);
        BitwiseBound((x, y) => x != y, value, mask, w);
        WireValue.Set(WireValue.Direct, WireValue.LittleHost, data, offset * (w / 8), w / 8, v);
      }
    }

    method SetPointerField(index: nat, p: Pointer)
      requires index < pointers.Length
      modifies pointers
      ensures pointers[..] == old(pointers[..])[index := p]
    {
      pointers[index] := p;
    }
  }
}
