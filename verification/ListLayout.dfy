/**
 Elements of lists, c++/src/capnp/layout.h: elements of 8 to 64 bits that lie a step apart, a
 step being any whole number of bytes no smaller than an element, and lists of single bits,
 which ignore the step.  Such a list is a plain sequence of numbers.
 */
module ListLayout {
  import opened Basics
  import opened Bytes
  import opened StructLayout
  import WireValue

  /** How many elements, how far apart in bits, how wide, in how many bytes. */
  datatype Shape = Shape(count: nat, step: nat, w: nat, bytes: nat)

  /** Counts have 29 bits and steps have 23. */
  predicate ValidShape(s: Shape) {
    ValidWidth(s.w) && s.count < 0x2000_0000 && s.step < 0x80_0000
    && if s.w == 1 then s.count <= 8 * s.bytes
       else s.step % 8 == 0 && s.w <= s.step && s.count * s.step <= 8 * s.bytes
  }

  /** A product in 64-bit arithmetic. */
  function Multiply64(a: nat, b: nat): nat {
    a * b % 0x1_0000_0000_0000_0000
  }

  /** Where an element starts. */
  function Address(index: nat, step: nat): nat {
    Multiply64(index, step) / 8
  }

  /** The first bit of an element. */
  function FirstBit(s: Shape, index: nat): nat {
    if s.w == 1 then index else index * s.step
  }

  function SetElement(s: Shape, d: seq<byte>, index: nat, value: nat): (r: seq<byte>)
    requires ValidShape(s) && |d| == s.bytes && index < s.count
    ensures |r| == |d|
  {
    ElementPlace(s, index);
    if s.w == 1 then SetField(d, 1, index, value, 0)
    else Splice(d, Address(index, s.step), LittleEndian(value, s.w / 8))
  }

  function GetElement(s: Shape, d: seq<byte>, index: nat): nat
    requires ValidShape(s) && |d| == s.bytes && index < s.count
  {
    ElementPlace(s, index);
    if s.w == 1 then RawField(d, 1, index)
    else Number(d[Address(index, s.step)..Address(index, s.step) + s.w / 8])
  }

  // ---------------------------------------------------------------------------------------
  // Addresses

  /** No address computation leaves 52 bits, so none wraps. */
  lemma AddressFits(index: nat, step: nat)
    requires index < 0x2000_0000 && step < 0x80_0000
    ensures index * step < 0x10_0000_0000_0000
    ensures Multiply64(index, step) == index * step && Address(index, step) == index * step / 8
  {
    var x := index * step;
    assert x < 0x10_0000_0000_0000 by {
      Scale(index, 0x1FFF_FFFF, step);
    }
    SmallProduct(x);
  }

  lemma SmallProduct(x: nat)
    requires x < 0x10_0000_0000_0000
    ensures x % 0x1_0000_0000_0000_0000 == x
  {
  }

  lemma Scale(a: nat, b: nat, c: nat)
    requires a <= b
    ensures a * c <= b * c
  {
  }

  lemma WholeBytes(index: nat, step: nat)
    requires step % 8 == 0
    ensures index * step == 8 * (index * step / 8)
  {
    assert index * step == 8 * (index * (step / 8));
  }

  lemma ElementPlace(s: Shape, index: nat)
    requires ValidShape(s) && index < s.count
    ensures s.w == 1 || (s.w == 8 * (s.w / 8) && FirstBit(s, index) == 8 * Address(index, s.step))
    ensures s.w == 1 ==> FirstBit(s, index) == index
    ensures FirstBit(s, index) + s.w <= 8 * s.bytes
  {
    if s.w != 1 {
      AddressFits(index, s.step);
      WholeBytes(index, s.step);
      Scale(index + 1, s.count, s.step);
    }
  }

  /** Elements lie a step apart from the start; the bits of a bit list follow each other. */
  lemma ElementWhere(s: Shape, index: nat)
    requires ValidShape(s) && index < s.count
    ensures FirstBit(s, index) == if s.w == 1 then index else index * s.step
    ensures s.w != 1 ==> 8 * Address(index, s.step) == index * s.step
  {
    hide Address;
    ElementPlace(s, index);
  }

  /** Different elements share no bit. */
  lemma ElementsApart(s: Shape, i: nat, j: nat)
    requires ValidShape(s) && i < j < s.count
    ensures FirstBit(s, i) + s.w <= FirstBit(s, j)
  {
    if s.w != 1 {
      NextElement(i, j, s.step);
    }
  }

  lemma NextElement(i: nat, j: nat, step: nat)
    requires i < j
    ensures i * step + step <= j * step
  {
    Scale(i + 1, j, step);
  }

  // ---------------------------------------------------------------------------------------
  // Elements

  /** Writing an element changes exactly its own bits. */
  lemma SetElementBits(s: Shape, d: seq<byte>, index: nat, value: nat, i: nat)
    requires ValidShape(s) && |d| == s.bytes && index < s.count && i < 8 * |d|
    ensures value < Pow2(s.w) ==>
            BitAt(SetElement(s, d, index, value), i) ==
              if FirstBit(s, index) <= i < FirstBit(s, index) + s.w then Bit(value, i - FirstBit(s, index))
              else BitAt(d, i)
  {
    hide Bit, BitAt, LittleEndian, Splice, SetField, Address, FirstBit, ValidShape;
    ElementPlace(s, index);
    if s.w == 1 {
      SetFieldBits(d, 1, index, value, 0, i);
      BitOfZero(0);
    } else if value < Pow2(s.w) {
      NumberWriteBits(d, Address(index, s.step), s.w / 8, value, i);
    }
  }

  lemma GetElementBits(s: Shape, d: seq<byte>, index: nat, j: nat)
    requires ValidShape(s) && |d| == s.bytes && index < s.count && j < s.w
    ensures GetElement(s, d, index) < Pow2(s.w)
    ensures FirstBit(s, index) + j < 8 * |d|
    ensures Bit(GetElement(s, d, index), j) == BitAt(d, FirstBit(s, index) + j)
  {
    hide Bit, BitAt, Number, RawField, Address, FirstBit, ValidShape;
    ElementPlace(s, index);
    if s.w == 1 {
      RawFieldBits(d, 1, index, j);
      RawBitBound(d, index);
    } else {
      var at, n := Address(index, s.step), s.w / 8;
      LittleEndianNumber(d[at..at + n]);
      NumberReadBits(d, at, n, j);
    }
  }

  lemma RawBitBound(d: seq<byte>, index: nat)
    requires InSection(d, 1, index)
    ensures RawField(d, 1, index) < Pow2(1)
  {
    assert Pow2(0) == 1;
  }

  /** An element reads as what was written to it; the other elements read as before. */
  lemma ElementWritten(s: Shape, d: seq<byte>, index: nat, value: nat, k: nat)
    requires ValidShape(s) && |d| == s.bytes && index < s.count && value < Pow2(s.w) && k < s.count
    ensures GetElement(s, SetElement(s, d, index, value), k) == if k == index then value else GetElement(s, d, k)
  {
    hide Bit, BitAt, SetElement, GetElement, FirstBit, ValidShape;
    var d' := SetElement(s, d, index, value);
    var wanted := if k == index then value else GetElement(s, d, k);
    WidthPositive(s);
    forall j | 0 <= j < s.w
      ensures Bit(GetElement(s, d', k), j) == Bit(wanted, j)
    {
      GetElementBits(s, d', k, j);
      GetElementBits(s, d, k, j);
      SetElementBits(s, d, index, value, FirstBit(s, k) + j);
      if k < index {
        ElementsApart(s, k, index);
      } else if index < k {
        ElementsApart(s, index, k);
      }
    }
    GetElementBits(s, d', k, 0);
    GetElementBits(s, d, k, 0);
    SameBits(GetElement(s, d', k), wanted, s.w);
  }

  lemma WidthPositive(s: Shape)
    requires ValidShape(s)
    ensures s.w > 0
  {
  }

  /** The list as a plain sequence. */
  function Elements(s: Shape, d: seq<byte>): (r: seq<nat>)
    requires ValidShape(s) && |d| == s.bytes
    ensures |r| == s.count && forall k :: 0 <= k < s.count ==> r[k] == GetElement(s, d, k)
  {
    seq(s.count, k requires 0 <= k < s.count => GetElement(s, d, k))
  }

  lemma SetElementUpdates(s: Shape, d: seq<byte>, index: nat, value: nat)
    requires ValidShape(s) && |d| == s.bytes && index < s.count && value < Pow2(s.w)
    ensures Elements(s, SetElement(s, d, index, value)) == Elements(s, d)[index := value]
  {
    hide SetElement, GetElement, ValidShape;
    forall k | 0 <= k < s.count
      ensures Elements(s, SetElement(s, d, index, value))[k] == Elements(s, d)[index := value][k]
    {
      ElementWritten(s, d, index, value, k);
    }
  }

  // ---------------------------------------------------------------------------------------
  // Runs of writes

  datatype Store = Store(index: nat, value: nat)

  ghost predicate Storable(s: Shape, stores: seq<Store>) {
    forall i :: 0 <= i < |stores| ==> stores[i].index < s.count && stores[i].value < Pow2(s.w)
  }

  /** The last value stored at `index`, or what was there. */
  function LastStored(stores: seq<Store>, index: nat, was: nat): nat {
    if stores == [] then was
    else if stores[|stores| - 1].index == index then stores[|stores| - 1].value
    else LastStored(stores[..|stores| - 1], index, was)
  }

  /** ListBuilder: elements of one type, written in place. */
  class ListBuilder {
    const shape: Shape
    const data: array<byte>

    ghost predicate Valid() {
      ValidShape(shape) && data.Length == shape.bytes
    }

    ghost function View(): seq<nat>
      requires Valid()
      reads data
    {
      Elements(shape, data[..])
    }

    constructor (shape: Shape)
      requires ValidShape(shape)
      ensures Valid() && this.shape == shape && fresh(data)
      ensures data[..] == Zeros(shape.bytes)
    {
      this.shape := shape;
      data := new byte[shape.bytes](_ => 0);
    }

    method GetDataElement(index: nat) returns (value: nat)
      requires Valid() && index < shape.count
      ensures value == View()[index]
    {
      hide ValidShape, Address, RawField, Number, FirstBit;
      ElementPlace(shape, index);
      if shape.w == 1 {
        value := RawField(data[..], 1, index);
      } else {
        ElementSize(shape);
        var at := Address(index, shape.step);
        assert data[at..at + shape.w / 8] == data[..][at..at + shape.w / 8];
        value := WireValue.Get(WireValue.Direct, WireValue.LittleHost, data, at, shape.w / 8);
      }
    }

    /** A write changes its element, and outside the element no bit of the buffer. */
    method SetDataElement(index: nat, value: nat)
      requires Valid() && index < shape.count && value < Pow2(shape.w)
      modifies data
      ensures View() == old(View())[index := value]
      ensures forall i :: 0 <= i < 8 * data.Length && !(FirstBit(shape, index) <= i < FirstBit(shape, index) + shape.w)
                ==> BitAt(data[..], i) == old(BitAt(data[..], i))
    {
      hide ValidShape, Address, SetBit, Bitwise, LittleEndian, Splice, FirstBit, BitAt, GetElement;
      ghost var d := data[..];
      ElementPlace(shape, index);
      if shape.w == 1 {
        XorZero(value, 1);
        data[index / 8] := SetBit(data[index / 8], index % 8, value);
        assert data[..] == d[index / 8 := SetBit(d[index / 8], index % 8, value)];
      } else {
        ElementSize(shape);
        WireValue.Set(WireValue.Direct, WireValue.LittleHost, data, Address(index, shape.step), shape.w / 8, value);
      }
      assert data[..] == SetElement(shape, d, index, value);
      SetElementUpdates(shape, d, index, value);
      OtherBitsKept(shape, d, index, value);
    }

    /** Over any run of writes each index holds the last value written to it. */
    method Run(stores: seq<Store>)
      requires Valid() && Storable(shape, stores)
      modifies data
      ensures forall k :: 0 <= k < shape.count ==> View()[k] == LastStored(stores, k, old(View())[k])
    {
      hide ValidShape, Elements, FirstBit, BitAt;
      for n := 0 to |stores|
        invariant forall k :: 0 <= k < shape.count ==> View()[k] == LastStored(stores[..n], k, old(View())[k])
      {
        SetDataElement(stores[n].index, stores[n].value);
        assert stores[..n + 1][..n] == stores[..n];
      }
      assert stores[..|stores|] == stores;
    }
  }

  lemma OtherBitsKept(s: Shape, d: seq<byte>, index: nat, value: nat)
    requires ValidShape(s) && |d| == s.bytes && index < s.count && value < Pow2(s.w)
    ensures forall i :: 0 <= i < 8 * |d| && !(FirstBit(s, index) <= i < FirstBit(s, index) + s.w)
                ==> BitAt(SetElement(s, d, index, value), i) == BitAt(d, i)
  {
    hide ValidShape, FirstBit, SetElement, BitAt;
    forall i | 0 <= i < 8 * |d| && !(FirstBit(s, index) <= i < FirstBit(s, index) + s.w)
      ensures BitAt(SetElement(s, d, index, value), i) == BitAt(d, i)
    {
      SetElementBits(s, d, index, value, i);
    }
  }

  lemma ElementSize(s: Shape)
    requires ValidShape(s) && s.w != 1
    ensures WireValue.ValidSize(s.w / 8)
  {
  }

  // ---------------------------------------------------------------------------------------
  // The same words under other names

  /** In a list of structs with `size` bits of data each, an element read as a plain number is
      the first field of the struct: a list of numbers can become a list of structs. */
  lemma UpgradedElement(s: Shape, d: seq<byte>, index: nat, size: nat)
    requires ValidShape(s) && |d| == s.bytes && index < s.count
    requires s.w != 1 && size % 8 == 0 && s.w <= size <= s.step
    ensures Address(index, s.step) + size / 8 <= |d|
    ensures GetElement(s, d, index) == GetField(d[Address(index, s.step)..Address(index, s.step) + size / 8], s.w, 0, 0)
  {
    hide Number, Bitwise, Address, ValidShape, FirstBit;
    ElementPlace(s, index);
    ElementWidth(s);
    var at, n := Address(index, s.step), s.w / 8;
    ElementEnds(s, index, size);
    PrefixOfSlice(d, at, at + n, at + size / 8);
    FirstField(d[at..at + size / 8], s.w);
  }

  lemma ElementWidth(s: Shape)
    requires ValidShape(s)
    ensures ValidWidth(s.w) && (s.w != 1 ==> s.w == 8 * (s.w / 8))
  {
  }

  /** Field 0, without a default, is the number in the first bytes. */
  lemma FirstField(d: seq<byte>, w: nat)
    requires ValidWidth(w) && w != 1 && w <= 8 * |d|
    ensures GetField(d, w, 0, 0) == Number(d[..w / 8])
  {
    hide Number, LittleEndian, Bitwise, Pow2, ValidWidth;
    FieldPlace(w, 0);
    var n := w / 8;
    assert 0 * n == 0 && d[0..n] == d[..n];
    LittleEndianNumber(d[..n]);
    XorZero(Number(d[..n]), w);
  }

  lemma ElementEnds(s: Shape, index: nat, size: nat)
    requires ValidShape(s) && index < s.count && s.w != 1 && size % 8 == 0 && size <= s.step
    ensures Address(index, s.step) + size / 8 <= s.bytes
  {
    hide Address;
    ElementPlace(s, index);
    NextElement(index, s.count, s.step);
  }

  /** StructBuilder/StructReader::getPointerField, as a byte address. */
  function PointerField(pointers: nat, index: nat): nat {
    pointers + 8 * index
  }

  /** ListBuilder::getPointerElement. */
  function BuilderPointerElement(ptr: nat, step: nat, index: nat): nat {
    ptr + Address(index, step)
  }

  /** ListReader::getPointerElement, which skips the element's data. */
  function ReaderPointerElement(ptr: nat, size: nat, step: nat, index: nat): nat {
    ptr + size / 8 + Address(index, step)
  }

  /** The pointer section viewed as a list names the words that getPointerField names. */
  lemma PointerSectionAsList(pointers: nat, index: nat)
    requires index < 0x2000_0000
    ensures BuilderPointerElement(pointers, 64, index) == PointerField(pointers, index)
    ensures ReaderPointerElement(pointers, 0, 64, index) == PointerField(pointers, index)
  {
    AddressFits(index, 64);
  }

  /** A pointer read from a list of structs with `size` bits of data each is the first pointer of
      the struct, whose data starts `index` steps in. */
  lemma PointerElementIs(ptr: nat, size: nat, step: nat, index: nat)
    requires index < 0x2000_0000 && step < 0x80_0000
    ensures ReaderPointerElement(ptr, size, step, index) == PointerField(ptr + index * step / 8 + size / 8, 0)
    ensures BuilderPointerElement(ptr, step, index) == ptr + index * step / 8
  {
    hide Address;
    AddressFits(index, step);
  }
}
