/**
 Structs as records: a table of fields laid over a few data words, and pointer slots.  What a
 reader observes of a struct, and what any sequence of builder calls does to it.
 */
module RecordLayout {
  import opened Basics
  import opened Bytes
  import opened StructLayout

  /** A data field: its width, its offset in units of the width, and its default value. */
  datatype Field = Field(w: nat, offset: nat, mask: nat)

  datatype Layout = Layout(fields: seq<Field>, words: nat, pointers: nat)

  predicate Apart(a: Field, b: Field) {
    a.w * (a.offset + 1) <= b.w * b.offset || b.w * (b.offset + 1) <= a.w * a.offset
  }

  predicate ValidField(l: Layout, f: Field) {
    ValidWidth(f.w) && f.w * (f.offset + 1) <= 64 * l.words && f.mask < Pow2(f.w)
  }

  ghost predicate ValidLayout(l: Layout) {
    (forall k :: 0 <= k < |l.fields| ==> ValidField(l, l.fields[k]))
    && forall j, k :: 0 <= j < k < |l.fields| ==> Apart(l.fields[j], l.fields[k])
  }

  /** The values of all fields and pointer slots. */
  datatype Struct = Struct(values: seq<nat>, pointers: seq<Pointer>)

  predicate Shaped(l: Layout, s: Struct) {
    |s.values| == |l.fields| && |s.pointers| == l.pointers
  }

  /** Field `k`, zero where there is none. */
  function Value(s: Struct, k: nat): nat {
    if k < |s.values| then s.values[k] else 0
  }

  /** Slot `i`, null where there is none. */
  function Slot(s: Struct, i: nat): Pointer {
    PointerAt(s.pointers, i, Null)
  }

  function ReadValue(s: Section, f: Field): nat
    requires ValidSection(s) && ValidWidth(f.w)
  {
    ReadField(s, f.w, f.offset, f.mask)
  }

  /** What the getters of a reader return, for a struct of any size. */
  ghost function Observe(l: Layout, s: Section, p: seq<Pointer>): (r: Struct)
    requires ValidLayout(l) && ValidSection(s)
    ensures Shaped(l, r)
    ensures forall k :: 0 <= k < |l.fields| ==> r.values[k] == ReadValue(s, l.fields[k])
    ensures forall i :: 0 <= i < l.pointers ==> r.pointers[i] == PointerAt(p, i, Null)
  {
    Struct(seq(|l.fields|, k requires 0 <= k < |l.fields| => ReadValue(s, l.fields[k])),
           seq(l.pointers, i requires 0 <= i < l.pointers => PointerAt(p, i, Null)))
  }

  /** Every field at its default and every pointer null. */
  function Default(l: Layout): Struct {
    Struct(seq(|l.fields|, k requires 0 <= k < |l.fields| => l.fields[k].mask), seq(l.pointers, _ => Null))
  }

  // ---------------------------------------------------------------------------------------
  // Versions

  /** More zero data and more null pointers, as a newer schema writes, or fewer, as an older one
      does, change nothing that a reader observes. */
  lemma ObserveTolerance(l: Layout, s: Section, p: seq<Pointer>, t: Section, q: seq<Pointer>, words: nat)
    requires ValidLayout(l) && ZeroExtends(t, s) && s.size == 64 * words
    requires p <= q && forall i :: |p| <= i < |q| ==> q[i] == Null
    ensures Observe(l, t, q) == Observe(l, s, p)
  {
    hide ReadField, ZeroExtends;
    Extended(t, s);
    forall k | 0 <= k < |l.fields|
      ensures ReadValue(t, l.fields[k]) == ReadValue(s, l.fields[k])
    {
      assert ValidField(l, l.fields[k]);
      FieldTolerance(s, t, l.fields[k], words);
    }
    assert Observe(l, t, q).values == Observe(l, s, p).values;
    assert Observe(l, t, q).pointers == Observe(l, s, p).pointers;
  }

  lemma Extended(t: Section, s: Section)
    requires ZeroExtends(t, s)
    ensures ValidSection(s) && ValidSection(t)
  {
  }

  lemma FieldTolerance(s: Section, t: Section, f: Field, words: nat)
    requires ZeroExtends(t, s) && s.size == 64 * words && ValidWidth(f.w)
    ensures ReadField(t, f.w, f.offset, f.mask) == ReadField(s, f.w, f.offset, f.mask)
  {
    hide ReadField, ZeroExtends;
    var n := 64 / f.w;
    assert f.w * n == 64;
    assert 64 * words == f.w * (n * words);
    VersionTolerance(s, t, f.w, f.offset, f.mask, n * words);
  }

  /** A struct that was never written, or is not there at all, reads as all defaults. */
  lemma ObserveNothing(l: Layout, words: nat)
    requires ValidLayout(l)
    ensures Observe(l, Section(Zeros(8 * words), 64 * words), seq(l.pointers, _ => Null)) == Default(l)
    ensures Observe(l, Section([], 0), []) == Default(l)
  {
    hide ReadField;
    var none, s := Section([], 0), Section(Zeros(8 * words), 64 * words);
    ZerosExtendNothing(words);
    ObserveTolerance(l, none, [], s, seq(l.pointers, _ => Null), 0);
    forall k | 0 <= k < |l.fields|
      ensures ReadValue(none, l.fields[k]) == l.fields[k].mask
    {
      assert ValidField(l, l.fields[k]);
      MissingFieldIsDefault(none, l.fields[k].w, l.fields[k].offset, l.fields[k].mask);
    }
    assert Observe(l, none, []).values == Default(l).values;
    assert Observe(l, none, []).pointers == Default(l).pointers;
  }

  lemma ZerosExtendNothing(words: nat)
    ensures ZeroExtends(Section(Zeros(8 * words), 64 * words), Section([], 0))
  {
    hide Bit;
    forall i | 0 <= i < 64 * words
      ensures !BitAt(Zeros(8 * words), i)
    {
      BitOfZero(i % 8);
    }
  }

  // ---------------------------------------------------------------------------------------
  // Builder calls

  /** One store of a builder: a masked data field or a pointer. */
  datatype Write = Data(k: nat, value: nat) | Ptr(index: nat, p: Pointer)

  predicate Fits(l: Layout, w: Write) {
    match w
    case Data(k, value) => k < |l.fields| && value < Pow2(l.fields[k].w)
    case Ptr(index, _) => index < l.pointers
  }

  predicate AllFit(l: Layout, ws: seq<Write>) {
    forall i :: 0 <= i < |ws| ==> Fits(l, ws[i])
  }

  function Put(s: Struct, w: Write): Struct {
    match w
    case Data(k, value) => if k < |s.values| then s.(values := s.values[k := value]) else s
    case Ptr(index, p) => if index < |s.pointers| then s.(pointers := s.pointers[index := p]) else s
  }

  function PutAll(s: Struct, ws: seq<Write>): (r: Struct)
    ensures |r.values| == |s.values| && |r.pointers| == |s.pointers|
  {
    if ws == [] then s else Put(PutAll(s, ws[..|ws| - 1]), ws[|ws| - 1])
  }

  lemma PutTwo(s: Struct, a: Write, b: Write)
    ensures PutAll(s, [a]) == Put(s, a)
    ensures PutAll(s, [a, b]) == Put(Put(s, a), b)
  {
    assert [a][..0] == [] && [a, b][..1] == [a];
  }

  lemma PutThree(s: Struct, a: Write, b: Write, c: Write)
    ensures PutAll(s, [a, b, c]) == Put(Put(Put(s, a), b), c)
  {
    PutTwo(s, a, b);
    assert [a, b, c][..2] == [a, b];
  }

  lemma {:induction false} PutAllAppend(s: Struct, a: seq<Write>, b: seq<Write>)
    ensures PutAll(s, a + b) == PutAll(PutAll(s, a), b)
  {
    if b == [] {
      assert a + b == a;
    } else {
      var ab := a + b;
      assert ab[..|ab| - 1] == a + b[..|b| - 1];
      PutAllAppend(s, a, b[..|b| - 1]);
    }
  }

  /** The last value stored in field `k`, or what was there. */
  function LastData(ws: seq<Write>, k: nat, was: nat): nat {
    if ws == [] then was
    else match ws[|ws| - 1]
      case Data(j, value) => if j == k then value else LastData(ws[..|ws| - 1], k, was)
      case Ptr(_, _) => LastData(ws[..|ws| - 1], k, was)
  }

  /** The last pointer stored in slot `i`, or what was there. */
  function LastPointer(ws: seq<Write>, i: nat, was: Pointer): Pointer {
    if ws == [] then was
    else match ws[|ws| - 1]
      case Data(_, _) => LastPointer(ws[..|ws| - 1], i, was)
      case Ptr(j, p) => if j == i then p else LastPointer(ws[..|ws| - 1], i, was)
  }

  lemma {:induction false} LastWriteWins(s: Struct, ws: seq<Write>)
    ensures forall k :: 0 <= k < |s.values| ==> PutAll(s, ws).values[k] == LastData(ws, k, s.values[k])
    ensures forall i :: 0 <= i < |s.pointers| ==> PutAll(s, ws).pointers[i] == LastPointer(ws, i, s.pointers[i])
  {
    if ws == [] {
    } else {
      LastWriteWins(s, ws[..|ws| - 1]);
    }
  }

  /** Each field and slot is as it was last stored, or at its default. */
  ghost predicate EachLast(l: Layout, s: Struct, ws: seq<Write>) {
    Shaped(l, s)
    && (forall k :: 0 <= k < |l.fields| ==> s.values[k] == LastData(ws, k, l.fields[k].mask))
    && (forall i :: 0 <= i < l.pointers ==> s.pointers[i] == LastPointer(ws, i, Null))
  }

  lemma StoredLast(l: Layout, ws: seq<Write>)
    ensures EachLast(l, PutAll(Default(l), ws), ws)
  {
    hide PutAll;
    LastWriteWins(Default(l), ws);
  }

  // ---------------------------------------------------------------------------------------
  // Stores in place

  ghost predicate Holds(l: Layout, b: StructBuilder) {
    b.data.Length == 8 * l.words && b.pointers.Length == l.pointers
  }

  ghost function View(l: Layout, b: StructBuilder): (s: Struct)
    requires ValidLayout(l) && Holds(l, b)
    reads b.data, b.pointers
    ensures Shaped(l, s)
  {
    Observe(l, Section(b.data[..], 64 * l.words), b.pointers[..])
  }

  /** A store into one field, whatever the widths, changes that field of the record only. */
  lemma StoreRefines(l: Layout, d: seq<byte>, k: nat, value: nat, p: seq<Pointer>)
    requires ValidLayout(l) && |d| == 8 * l.words && Fits(l, Data(k, value))
    ensures InSection(d, l.fields[k].w, l.fields[k].offset)
    ensures var f := l.fields[k];
            Observe(l, Section(SetField(d, f.w, f.offset, value, f.mask), 64 * l.words), p)
            == Put(Observe(l, Section(d, 64 * l.words), p), Data(k, value))
  {
    hide SetField, GetField, ValidWidth;
    var f := l.fields[k];
    assert ValidField(l, f);
    var d' := SetField(d, f.w, f.offset, value, f.mask);
    var s, s' := Section(d, 64 * l.words), Section(d', 64 * l.words);
    forall j | 0 <= j < |l.fields|
      ensures ReadValue(s', l.fields[j]) == if j == k then value else ReadValue(s, l.fields[j])
    {
      assert ValidField(l, l.fields[j]);
      if j == k {
        GetAfterSet(d, f.w, f.offset, value, f.mask);
      } else {
        assert Apart(l.fields[if j < k then j else k], l.fields[if j < k then k else j]);
        SetElsewhere(d, f.w, f.offset, value, f.mask, l.fields[j].w, l.fields[j].offset, l.fields[j].mask);
      }
    }
    assert Observe(l, s', p).values == Observe(l, s, p).values[k := value];
    assert Observe(l, s', p).pointers == Observe(l, s, p).pointers;
  }

  /** Performs the stores of one builder call, in order. */
  method Perform(l: Layout, b: StructBuilder, ws: seq<Write>)
    requires ValidLayout(l) && Holds(l, b) && AllFit(l, ws)
    modifies b.data, b.pointers
    ensures View(l, b) == PutAll(old(View(l, b)), ws)
  {
    hide SetField, ReadValue, ValidLayout;
    for n := 0 to |ws|
      invariant View(l, b) == PutAll(old(View(l, b)), ws[..n])
    {
      assert ws[..n + 1][..n] == ws[..n] && Fits(l, ws[n]);
      ghost var d, p := b.data[..], b.pointers[..];
      match ws[n] {
        case Data(k, value) =>
          StoreRefines(l, d, k, value, p);
          b.SetDataField(l.fields[k].w, l.fields[k].offset, value, l.fields[k].mask);
        case Ptr(index, q) =>
          PointerStore(l, d, p, index, q);
          b.SetPointerField(index, q);
      }
    }
    assert ws[..|ws|] == ws;
  }

  lemma PointerStore(l: Layout, d: seq<byte>, p: seq<Pointer>, index: nat, q: Pointer)
    requires ValidLayout(l) && |d| == 8 * l.words && |p| == l.pointers && index < l.pointers
    ensures Observe(l, Section(d, 64 * l.words), p[index := q])
         == Put(Observe(l, Section(d, 64 * l.words), p), Ptr(index, q))
  {
    hide ReadValue;
    var s := Section(d, 64 * l.words);
    assert Observe(l, s, p[index := q]).values == Observe(l, s, p).values;
    assert Observe(l, s, p[index := q]).pointers == Observe(l, s, p).pointers[index := q];
  }

  // ---------------------------------------------------------------------------------------
  // Refinement of abstract records

  /** An abstract record `R` with operations `Op`: how a struct represents a record, when an
      operation may be called, its effect, and the stores that implement it. */
  datatype Accessors<!R, !Op> = Accessors(
    layout: Layout,
    of: Struct -> R,
    callable: (R, Op) -> bool,
    step: (R, Op) -> R,
    writes: Op -> seq<Write>)

  /** Each operation does to the struct what it does to the record. */
  ghost predicate Refines<R(!new), Op(!new)>(a: Accessors<R, Op>) {
    ValidLayout(a.layout)
    && forall s, op :: Shaped(a.layout, s) && a.callable(a.of(s), op) ==>
         AllFit(a.layout, a.writes(op)) && a.of(PutAll(s, a.writes(op))) == a.step(a.of(s), op)
  }

  function Run<R, Op>(a: Accessors<R, Op>, r: R, ops: seq<Op>): R {
    if ops == [] then r else a.step(Run(a, r, ops[..|ops| - 1]), ops[|ops| - 1])
  }

  predicate CallableRun<R, Op>(a: Accessors<R, Op>, r: R, ops: seq<Op>) {
    ops == [] || (CallableRun(a, r, ops[..|ops| - 1]) && a.callable(Run(a, r, ops[..|ops| - 1]), ops[|ops| - 1]))
  }

  function AllWrites<R, Op>(a: Accessors<R, Op>, ops: seq<Op>): seq<Write> {
    if ops == [] then [] else AllWrites(a, ops[..|ops| - 1]) + a.writes(ops[|ops| - 1])
  }

  lemma {:induction false} CallablePrefix<R, Op>(a: Accessors<R, Op>, r: R, ops: seq<Op>, n: nat)
    requires CallableRun(a, r, ops) && n < |ops|
    ensures CallableRun(a, r, ops[..n]) && a.callable(Run(a, r, ops[..n]), ops[n])
    decreases |ops|
  {
    var m := |ops| - 1;
    if n == m {
    } else {
      CallablePrefix(a, r, ops[..m], n);
      assert ops[..m][..n] == ops[..n];
    }
  }

  /** What the last call says that says anything, or the default. */
  function Last<Op, V>(says: Op -> Option<V>, ops: seq<Op>, default: V): V {
    if ops == [] then default
    else
      match says(ops[|ops| - 1])
      case Some(v) => v
      case None => Last(says, ops[..|ops| - 1], default)
  }

  function OrElse<V>(o: Option<V>, v: V): V {
    if o.Some? then o.value else v
  }

  lemma {:induction false} LastAppend(a: seq<Write>, b: seq<Write>, k: nat, was: nat, i: nat, p: Pointer)
    ensures LastData(a + b, k, was) == LastData(b, k, LastData(a, k, was))
    ensures LastPointer(a + b, i, p) == LastPointer(b, i, LastPointer(a, i, p))
  {
    if b == [] {
      assert a + b == a;
    } else {
      var ab, m := a + b, |b| - 1;
      assert ab[..|ab| - 1] == a + b[..m] && ab[|ab| - 1] == b[m];
      LastAppend(a, b[..m], k, was, i, p);
    }
  }

  /** One more call. */
  lemma LastStep<Op, V>(says: Op -> Option<V>, ops: seq<Op>, default: V)
    ensures ops == [] ==> Last(says, ops, default) == default
    ensures ops != [] ==>
              Last(says, ops, default) == OrElse(says(ops[|ops| - 1]), Last(says, ops[..|ops| - 1], default))
  {
  }

  /** Field `k` and slot `i` after one more call. */
  lemma StoredStep<R, Op>(a: Accessors<R, Op>, ops: seq<Op>, k: nat, default: nat, i: nat)
    ensures ops == [] ==> LastData(AllWrites(a, ops), k, default) == default
    ensures ops == [] ==> LastPointer(AllWrites(a, ops), i, Null) == Null
    ensures ops != [] ==>
              var before, ws := AllWrites(a, ops[..|ops| - 1]), a.writes(ops[|ops| - 1]);
              LastData(AllWrites(a, ops), k, default) == LastData(ws, k, LastData(before, k, default))
              && LastPointer(AllWrites(a, ops), i, Null) == LastPointer(ws, i, LastPointer(before, i, Null))
  {
    if ops != [] {
      LastAppend(AllWrites(a, ops[..|ops| - 1]), a.writes(ops[|ops| - 1]), k, default, i, Null);
    }
  }

  /** The last of up to three stores. */
  lemma LastOfFew(a: Write, b: Write, c: Write, k: nat, w: nat, i: nat, p: Pointer)
    ensures LastData([a], k, w) == Datum(a, k, w)
    ensures LastData([a, b], k, w) == Datum(b, k, Datum(a, k, w))
    ensures LastData([a, b, c], k, w) == Datum(c, k, Datum(b, k, Datum(a, k, w)))
    ensures LastPointer([a], i, p) == Target(a, i, p)
    ensures LastPointer([a, b], i, p) == Target(b, i, Target(a, i, p))
    ensures LastPointer([a, b, c], i, p) == Target(c, i, Target(b, i, Target(a, i, p)))
  {
    assert [a][..0] == [] && [a, b][..1] == [a] && [a, b, c][..2] == [a, b];
  }

  /** Field `k` after one store. */
  function Datum(a: Write, k: nat, w: nat): nat {
    if a.Data? && a.k == k then a.value else w
  }

  /** Slot `i` after one store. */
  function Target(a: Write, i: nat, p: Pointer): Pointer {
    if a.Ptr? && a.index == i then a.p else p
  }

  /** What a reader of all the words gets from a field. */
  lemma ObservedField(l: Layout, d: seq<byte>, p: seq<Pointer>, k: nat)
    requires ValidLayout(l) && |d| == 8 * l.words && k < |l.fields|
    ensures ValidField(l, l.fields[k]) && InSection(d, l.fields[k].w, l.fields[k].offset)
    ensures Observe(l, Section(d, 64 * l.words), p).values[k]
         == GetField(d, l.fields[k].w, l.fields[k].offset, l.fields[k].mask)
  {
    hide GetField;
  }

  /** Any sequence of builder calls on a zeroed struct leaves the record that the operations
      describe, and each field and slot as it was last stored, or at its default. */
  method Build<R(!new), Op(!new)>(a: Accessors<R, Op>, ops: seq<Op>) returns (b: StructBuilder)
    requires Refines(a) && CallableRun(a, a.of(Default(a.layout)), ops)
    ensures Holds(a.layout, b) && fresh(b.data) && fresh(b.pointers)
    ensures a.of(View(a.layout, b)) == Run(a, a.of(Default(a.layout)), ops)
    ensures EachLast(a.layout, View(a.layout, b), AllWrites(a, ops))
  {
    hide ValidLayout, AllFit, Observe, EachLast;
    var l := a.layout;
    b := new StructBuilder(l.words, l.pointers);
    ObserveNothing(l, l.words);
    assert b.pointers[..] == seq(l.pointers, _ => Null);
    ghost var r := a.of(Default(l));
    for n := 0 to |ops|
      invariant Holds(l, b) && fresh(b.data) && fresh(b.pointers)
      invariant View(l, b) == PutAll(Default(l), AllWrites(a, ops[..n]))
      invariant a.of(View(l, b)) == Run(a, r, ops[..n])
    {
      CallablePrefix(a, r, ops, n);
      assert ops[..n + 1][..n] == ops[..n];
      PutAllAppend(Default(l), AllWrites(a, ops[..n]), a.writes(ops[n]));
      Perform(l, b, a.writes(ops[n]));
    }
    assert ops[..|ops|] == ops;
    StoredLast(l, AllWrites(a, ops));
  }
}
