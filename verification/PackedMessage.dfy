/**
 Whole messages over packed streams: writePackedMessage and PackedMessageReader, that is the
 stream framing of c++/src/capnp/serialize.c++ on top of the packed streams.  A message is a
 sequence of segments; the reader loads segments lazily, in whatever order they are asked for.
 */
module PackedMessage {
  import opened Basics
  import opened Bytes
  import opened Packing
  import opened PackedBlocks
  import opened PackedStreams
  import WireValue

  /** A segment of `size` words. */
  datatype Segment = Segment(size: nat, bytes: seq<byte>)

  predicate Valid(m: seq<Segment>) {
    0 < |m| <= WORD32 && forall i :: 0 <= i < |m| ==> |m[i].bytes| == 8 * m[i].size && m[i].size < WORD32
  }

  // ---------------------------------------------------------------------------------------
  // The serialized form

  function Body(m: seq<Segment>): seq<byte> {
    if m == [] then [] else m[0].bytes + Body(m[1..])
  }

  function TotalWords(m: seq<Segment>): nat {
    if m == [] then 0 else m[0].size + TotalWords(m[1..])
  }

  /** The 32-bit entries of the segment table. */
  function Entries(v: seq<nat>): (r: seq<byte>)
    ensures |r| == 4 * |v|
  {
    if v == [] then [] else LittleEndian(v[0], 4) + Entries(v[1..])
  }

  function SizesOf(m: seq<Segment>): (r: seq<nat>)
    ensures |r| == |m|
  {
    seq(|m|, i requires 0 <= i < |m| => m[i].size)
  }

  /** Segment count minus one, the segment sizes, and padding to a whole word. */
  function TableEntries(m: seq<Segment>): (r: seq<nat>)
    requires |m| > 0
    ensures |r| == 2 * TableWords(m)
  {
    [|m| - 1] + SizesOf(m) + (if |m| % 2 == 0 then [0] else [])
  }

  function TableWords(m: seq<Segment>): nat {
    |m| / 2 + 1
  }

  function Table(m: seq<Segment>): (r: seq<byte>)
    requires |m| > 0
    ensures |r| == 8 * TableWords(m)
  {
    Entries(TableEntries(m))
  }

  function PackedBody(m: seq<Segment>): seq<byte>
    requires forall i :: 0 <= i < |m| ==> |m[i].bytes| == 8 * m[i].size
  {
    if m == [] then [] else Pack(m[0].bytes, m[0].size) + PackedBody(m[1..])
  }

  function PackedForm(m: seq<Segment>): seq<byte>
    requires Valid(m)
  {
    Pack(Table(m), TableWords(m)) + PackedBody(m)
  }

  // ---------------------------------------------------------------------------------------
  // Facts about the serialized form

  lemma {:induction false} EntryAt(v: seq<nat>, i: nat)
    requires i < |v|
    ensures Entries(v)[4 * i..4 * i + 4] == LittleEndian(v[i], 4)
  {
    if i == 0 {
    } else {
      EntryAt(v[1..], i - 1);
      var e := Entries(v);
      assert e[4..] == Entries(v[1..]);
      assert e[4 * i..4 * i + 4] == e[4..][4 * (i - 1)..4 * (i - 1) + 4];
    }
  }

  lemma EntryNumber(m: seq<Segment>, i: nat)
    requires Valid(m) && i < 2 * TableWords(m)
    ensures TableEntries(m)[i] < WORD32
    ensures Number(Table(m)[4 * i..4 * i + 4]) == TableEntries(m)[i]
  {
    hide Entries, Number, LittleEndian;
    var v := TableEntries(m);
    EntryAt(v, i);
    Pow2Of32();
    NumberLittleEndian(v[i], 4);
  }

  lemma {:induction false} BodyLength(m: seq<Segment>)
    requires forall i :: 0 <= i < |m| ==> |m[i].bytes| == 8 * m[i].size
    ensures |Body(m)| == 8 * TotalWords(m)
  {
    if m == [] {
    } else {
      BodyLength(m[1..]);
    }
  }

  /** Where segment `i` starts in the body, in words. */
  function Offset(sizes: seq<nat>, i: nat): nat
    requires i <= |sizes|
  {
    if i == 0 then 0 else sizes[0] + Offset(sizes[1..], i - 1)
  }

  lemma {:induction false} OffsetStep(sizes: seq<nat>, i: nat)
    requires i < |sizes|
    ensures Offset(sizes, i + 1) == Offset(sizes, i) + sizes[i]
  {
    if i == 0 {
    } else {
      OffsetStep(sizes[1..], i - 1);
    }
  }

  lemma {:induction false} OffsetMonotone(sizes: seq<nat>, i: nat, j: nat)
    requires i <= j <= |sizes|
    ensures Offset(sizes, i) <= Offset(sizes, j)
    decreases j
  {
    if i == j {
    } else {
      OffsetStep(sizes, j - 1);
      OffsetMonotone(sizes, i, j - 1);
    }
  }

  lemma {:induction false} OffsetEnd(m: seq<Segment>)
    ensures Offset(SizesOf(m), |m|) == TotalWords(m)
  {
    if m == [] {
    } else {
      assert SizesOf(m)[1..] == SizesOf(m[1..]);
      OffsetEnd(m[1..]);
    }
  }

  lemma {:induction false} SegmentAt(m: seq<Segment>, i: nat)
    requires i < |m| && forall j :: 0 <= j < |m| ==> |m[j].bytes| == 8 * m[j].size
    ensures var o := Offset(SizesOf(m), i);
            |Body(m)| == 8 * TotalWords(m) && o + m[i].size <= TotalWords(m)
            && Body(m)[8 * o..8 * (o + m[i].size)] == m[i].bytes
  {
    hide Body, TotalWords, Offset, SizesOf;
    BodyLength(m);
    BodyTail(m);
    if i == 0 {
      OffsetZero(SizesOf(m));
    } else {
      SegmentAt(m[1..], i - 1);
      OffsetTail(m, i);
      var k, o := m[0].size, Offset(SizesOf(m[1..]), i - 1);
      SliceOfSuffix(Body(m), 8 * k, 8 * o, 8 * (o + m[i].size));
    }
  }

  lemma BodyTail(m: seq<Segment>)
    requires m != [] && |m[0].bytes| == 8 * m[0].size
    ensures 8 * m[0].size <= |Body(m)| && TotalWords(m) == m[0].size + TotalWords(m[1..])
    ensures Body(m)[..8 * m[0].size] == m[0].bytes && Body(m)[8 * m[0].size..] == Body(m[1..])
  {
  }

  lemma OffsetTail(m: seq<Segment>, i: nat)
    requires 0 < i <= |m|
    ensures Offset(SizesOf(m), i) == m[0].size + Offset(SizesOf(m[1..]), i - 1)
  {
    assert SizesOf(m)[1..] == SizesOf(m[1..]);
  }

  /** All segments together unpack to the body. */
  lemma {:induction false} BodyDecodes(m: seq<Segment>, tail: seq<byte>)
    requires forall i :: 0 <= i < |m| ==> |m[i].bytes| == 8 * m[i].size
    ensures Decode(PackedBody(m) + tail, TotalWords(m)) == Decoded(Body(m), tail)
    decreases |m|
  {
    hide Decode, Pack;
    if m == [] {
      assert PackedBody(m) + tail == tail;
      DecodeNothing(tail);
    } else {
      var s, rest := Pack(m[0].bytes, m[0].size), PackedBody(m[1..]);
      assert PackedBody(m) + tail == s + (rest + tail);
      RoundTrip(m[0].bytes, m[0].size, rest + tail);
      BodyDecodes(m[1..], tail);
      DecodeSplit(PackedBody(m) + tail, m[0].size, TotalWords(m[1..]));
    }
  }

  lemma TableDecodes(m: seq<Segment>, tail: seq<byte>)
    requires Valid(m)
    ensures Decode(PackedForm(m) + tail, TableWords(m)) == Decoded(Table(m), PackedBody(m) + tail)
  {
    hide Decode, Pack, Table, PackedBody;
    var t := Pack(Table(m), TableWords(m));
    assert PackedForm(m) + tail == t + (PackedBody(m) + tail);
    RoundTrip(Table(m), TableWords(m), PackedBody(m) + tail);
  }

  /** With at most 65536 segments the first word of the table can be read by itself: it never
      opens a run that reaches into the next word. */
  lemma FirstWordAlone(m: seq<Segment>, tail: seq<byte>)
    requires Valid(m) && |m| <= 65536
    ensures Decode(PackedForm(m) + tail, 1).Decoded?
  {
    hide Decode, DecodeRun, PackedBody, Expand, Table, NonZero, SetBits, Tag;
    var n, t := TableWords(m), Table(m);
    var w, rest := t[..8], PackedBody(m) + tail;
    CountBytes(m);
    SpecialTags(w);
    WordRebuilt(w);
    PackFirst(t, n);
    var run := PackRun(Tag(w), t[8..], n - 1);
    assert PackedForm(m) + tail == [Tag(w)] + NonZero(w) + (run + rest);
    DecodeBlock(Tag(w), NonZero(w), run + rest, 1);
    DecodeNothing(run + rest);
    assert w[2] == 0;
    if Tag(w) == 0 {
      assert w[0] == 0 && w[1] == 0;
      assert n == 1;
      PackOfZero(t[8..]);
      var q := [0] + rest;
      assert run + rest == q && q[1..] == rest;
      DecodeSpecial(0, q, 0);
      DecodeNothing(rest);
    } else {
      DecodeOrdinary(Tag(w), run + rest, 0);
    }
  }

  lemma PackOfZero(s: seq<byte>)
    requires s == []
    ensures PackRun(0, s, 0) == [0]
  {
  }

  lemma CountBytes(m: seq<Segment>)
    requires Valid(m) && |m| <= 65536
    ensures var w := Table(m)[..8]; w[2] == 0 && (|m| > 1 ==> w[0] != 0 || w[1] != 0)
  {
    hide Entries, LittleEndian;
    EntryAt(TableEntries(m), 0);
    var w, c := Table(m)[..8], |m| - 1;
    assert w[0..4] == Table(m)[0..4] == LittleEndian(c, 4);
    FourBytes(c);
    assert w[0] == LittleEndian(c, 4)[0] && w[1] == LittleEndian(c, 4)[1] && w[2] == LittleEndian(c, 4)[2];
  }

  lemma FourBytes(v: nat)
    ensures LittleEndian(v, 4)[0] == v % 256 && LittleEndian(v, 4)[1] == (v / 256) % 256
    ensures LittleEndian(v, 4)[2] == (v / 65536) % 256
  {
    assert LittleEndian(v / 256, 3)[0] == (v / 256) % 256;
    assert LittleEndian(v / 256 / 256, 2)[0] == (v / 65536) % 256;
  }

  // ---------------------------------------------------------------------------------------
  // Writing

  /** writePackedMessage: the table and each segment are packed one after the other. */
  method WriteMessage(form: WireValue.Form, host: WireValue.Host, output: BufferedOutput, m: seq<Segment>)
    requires WireValue.Applicable(form, host) && Valid(m)
    modifies output
    ensures output.written == old(output.written) + PackedForm(m)
  {
    hide Pack, Table;
    var table := BuildTable(form, host, m);
    Write(output, table, TableWords(m));
    ghost var start := old(output.written) + Pack(Table(m), TableWords(m));
    for i := 0 to |m|
      invariant output.written + PackedBody(m[i..]) == start + PackedBody(m)
    {
      ghost var before := output.written;
      Write(output, m[i].bytes, m[i].size);
      assert m[i..][1..] == m[i + 1..];
      Regroup(before, Pack(m[i].bytes, m[i].size), PackedBody(m[i + 1..]));
    }
    Regroup(old(output.written), Pack(Table(m), TableWords(m)), PackedBody(m));
  }

  /** Fills in the segment table entry by entry. */
  method BuildTable(form: WireValue.Form, host: WireValue.Host, m: seq<Segment>) returns (r: seq<byte>)
    requires WireValue.Applicable(form, host) && Valid(m)
    ensures r == Table(m)
  {
    hide LittleEndian, Splice, Entries, TableEntries, Pow2, Number;
    Pow2Of32();
    var table := new byte[8 * TableWords(m)](_ => 0);
    ghost var v := TableEntries(m);
    ghost var d := table[..];
    assert v[..0] == [] && d[..0] == [];
    EntriesNothing();
    for i := 0 to 2 * TableWords(m)
      invariant d == table[..] && d[..4 * i] == Entries(v[..i])
    {
      EntryNumber(m, i);
      EntryValue(m, i);
      var value := if i == 0 then |m| - 1 else if i <= |m| then m[i - 1].size else 0;
      EntriesStep(v, i, d);
      WireValue.Set(form, host, table, 4 * i, 4, value);
      d := table[..];
    }
    assert v[..|v|] == v && d[..|d|] == d;
    r := table[..];
  }

  lemma EntryValue(m: seq<Segment>, i: nat)
    requires |m| > 0 && i < 2 * TableWords(m)
    ensures TableEntries(m)[i] == if i == 0 then |m| - 1 else if i <= |m| then m[i - 1].size else 0
  {
  }

  /** The segment table in 32-bit numbers: the number of segments less one, their sizes, and a zero
      where needed to fill the last word. */
  lemma TableLayout(m: seq<Segment>)
    requires Valid(m)
    ensures |Table(m)| == 8 * (|m| / 2 + 1) && Number(Table(m)[0..4]) == |m| - 1
    ensures forall i :: 0 <= i < |m| ==> Number(Table(m)[4 * (i + 1)..4 * (i + 1) + 4]) == m[i].size
    ensures |m| % 2 == 0 ==> Number(Table(m)[4 * |m| + 4..4 * |m| + 8]) == 0
  {
    hide Table, TableEntries, Number;
    EntryNumber(m, 0);
    EntryValue(m, 0);
    forall i | 0 <= i < |m|
      ensures Number(Table(m)[4 * (i + 1)..4 * (i + 1) + 4]) == m[i].size
    {
      EntryNumber(m, i + 1);
      EntryValue(m, i + 1);
    }
    if |m| % 2 == 0 {
      EntryNumber(m, |m| + 1);
      EntryValue(m, |m| + 1);
    }
  }

  lemma EntriesNothing()
    ensures Entries([]) == []
  {
  }

  /** Writing one more entry. */
  lemma EntriesStep(v: seq<nat>, i: nat, d: seq<byte>)
    requires i < |v| && 4 * i + 4 <= |d| && d[..4 * i] == Entries(v[..i])
    ensures Splice(d, 4 * i, LittleEndian(v[i], 4))[..4 * (i + 1)] == Entries(v[..i + 1])
  {
    hide Splice, LittleEndian, Entries;
    SplicePrefix(d, 4 * i, LittleEndian(v[i], 4));
    EntriesSnoc(v[..i], v[i]);
    assert v[..i + 1] == v[..i] + [v[i]];
  }

  lemma {:induction false} EntriesSnoc(v: seq<nat>, x: nat)
    ensures Entries(v + [x]) == Entries(v) + LittleEndian(x, 4)
  {
    if v == [] {
      assert v + [x] == [x] && [x][1..] == [];
    } else {
      assert (v + [x])[1..] == v[1..] + [x];
      EntriesSnoc(v[1..], x);
    }
  }

  // ---------------------------------------------------------------------------------------
  // What a stream says, whatever is in it

  /** The segment sizes and the stream after the table, or why there is no table. */
  datatype Head = Head(sizes: seq<nat>, body: seq<byte>) | Many | Bad(error: Packing.Error)

  function Entry(table: seq<byte>, i: nat): nat
    requires 4 * i + 4 <= |table|
  {
    Number(table[4 * i..4 * i + 4])
  }

  function TableSizes(table: seq<byte>, count: nat): (sizes: seq<nat>)
    requires 4 * count + 4 <= |table|
    ensures |sizes| == count
  {
    seq(count, i requires 0 <= i < count => Entry(table, i + 1))
  }

  /** Segment count and sizes as any bytes have them; 511 segments at most. */
  function HeadOf(s: seq<byte>): (h: Head)
    ensures h.Head? ==> 1 <= |h.sizes| <= 511
  {
    match Decode(s, 1)
    case Failed(e) => Bad(e)
    case Decoded(first, rest) =>
      DecodeLength(s, 1);
      if Entry(first, 0) >= 511 then Many
      else
        var count := Entry(first, 0) + 1;
        match Decode(rest, count / 2)
        case Failed(e) => Bad(e)
        case Decoded(more, body) =>
          DecodeLength(rest, count / 2);
          Head(TableSizes(first + more, count), body)
  }

  /** A message that was written says its own sizes, unless it has too many segments. */
  lemma HeadOfMessage(m: seq<Segment>, tail: seq<byte>)
    requires Valid(m)
    ensures |m| <= 511 ==> HeadOf(PackedForm(m) + tail) == Head(SizesOf(m), PackedBody(m) + tail)
    ensures |m| > 511 ==> !HeadOf(PackedForm(m) + tail).Head?
  {
    hide Decode, Table, TableEntries, Entry, TableSizes, HeadOf, PackedBody, PackedForm;
    var s, n, body := PackedForm(m) + tail, TableWords(m), PackedBody(m) + tail;
    TableDecodes(m, tail);
    if |m| <= 65536 {
      FirstWordAlone(m, tail);
    }
    var o := Decode(s, 1);
    if o.Decoded? {
      DecodeLength(s, 1);
      SplitKnown(s, 1, n - 1, Table(m), body, o.output, o.rest);
      CountInTable(m);
      assert n - 1 == |m| / 2;
      if |m| <= 511 {
        HeadFrom(s, o.output, o.rest, Table(m)[8..], body);
        assert Table(m)[..8] + Table(m)[8..] == Table(m);
        SizesInTable(m);
      } else {
        HeadMany(s, o.output, o.rest);
      }
    } else {
      HeadBad(s);
    }
  }

  lemma HeadFrom(s: seq<byte>, first: seq<byte>, rest: seq<byte>, more: seq<byte>, body: seq<byte>)
    requires Decode(s, 1) == Decoded(first, rest) && |first| == 8 && Entry(first, 0) < 511
    requires var n := (Entry(first, 0) + 1) / 2; Decode(rest, n) == Decoded(more, body) && |more| == 8 * n
    ensures HeadOf(s) == Head(TableSizes(first + more, Entry(first, 0) + 1), body)
  {
    hide Decode, Entry, TableSizes;
  }

  lemma HeadMany(s: seq<byte>, first: seq<byte>, rest: seq<byte>)
    requires Decode(s, 1) == Decoded(first, rest) && |first| == 8 && Entry(first, 0) >= 511
    ensures HeadOf(s) == Many
  {
    hide Decode, Entry, TableSizes;
  }

  lemma HeadBad(s: seq<byte>)
    requires Decode(s, 1).Failed?
    ensures HeadOf(s).Bad?
  {
    hide Decode, Entry, TableSizes;
  }

  lemma CountInTable(m: seq<Segment>)
    requires Valid(m)
    ensures Entry(Table(m)[..8], 0) == |m| - 1
  {
    hide Table, TableEntries, Number;
    EntryNumber(m, 0);
    EntryValue(m, 0);
    SliceOfPrefix(Table(m), 0, 4, 8);
  }

  lemma SizesInTable(m: seq<Segment>)
    requires Valid(m)
    ensures TableSizes(Table(m), |m|) == SizesOf(m)
  {
    hide Table, Number;
    forall i | 0 <= i < |m|
      ensures Entry(Table(m), i + 1) == m[i].size
    {
      EntryNumber(m, i + 1);
    }
  }

  /** Continues a read that is known to succeed as a whole. */
  lemma SplitKnown(s: seq<byte>, a: nat, b: nat, t: seq<byte>, end: seq<byte>, x: seq<byte>, rest: seq<byte>)
    requires Decode(s, a + b) == Decoded(t, end) && |x| == 8 * a && |t| == 8 * (a + b)
    requires Decode(s, a) == Decoded(x, rest)
    ensures x == t[..8 * a] && Decode(rest, b) == Decoded(t[8 * a..], end)
  {
    hide Decode;
    DecodeSplit(s, a, b);
    var o := Decode(rest, b);
    assert t == x + o.output;
  }

  /** Can the stream be read up to the end of segment `id`? */
  predicate Reaches(sizes: seq<nat>, body: seq<byte>, id: nat)
    requires id < |sizes|
  {
    8 * Offset(sizes, id + 1) <= |Unpacked(body, Offset(sizes, |sizes|))|
  }

  /** Segment `id` of any stream that reaches it. */
  function SegmentIn(sizes: seq<nat>, body: seq<byte>, id: nat): seq<byte>
    requires id < |sizes| && Reaches(sizes, body, id)
  {
    OffsetStep(sizes, id);
    Unpacked(body, Offset(sizes, |sizes|))[8 * Offset(sizes, id)..8 * Offset(sizes, id + 1)]
  }

  /** In a message that was written, every segment is the one written. */
  lemma SegmentInMessage(m: seq<Segment>, tail: seq<byte>, id: nat)
    requires Valid(m)
    ensures Offset(SizesOf(m), |m|) == TotalWords(m)
    ensures Decode(PackedBody(m) + tail, TotalWords(m)) == Decoded(Body(m), tail)
    ensures id < |m| ==> Reaches(SizesOf(m), PackedBody(m) + tail, id)
                         && SegmentIn(SizesOf(m), PackedBody(m) + tail, id) == m[id].bytes
  {
    hide Decode, PackedBody, Body, Unpacked, TotalWords, Offset;
    var sizes, body, n := SizesOf(m), PackedBody(m) + tail, TotalWords(m);
    OffsetEnd(m);
    BodyDecodes(m, tail);
    BodyLength(m);
    UnpackedPrefix(body, n, n);
    FurthestDecodes(body, n, false);
    UnpackedLength(body, n, false);
    assert Unpacked(body, n) == Body(m);
    if id < |m| {
      SegmentAt(m, id);
      OffsetStep(sizes, id);
    }
  }

  // ---------------------------------------------------------------------------------------
  // Reading

  datatype Outcome = Opened(reader: Reader) | TooManySegments | TooLarge | StreamError(error: Packing.Error)

  datatype Content = Content(bytes: seq<byte>) | NoSuchSegment | Failure(error: Packing.Error)

  /** InputStream::read: fewer than `min` words is an error. */
  method Read(inner: BufferedInput, dst: array<byte>, lo: nat, max: nat, min: nat)
    returns (r: ReadResult, ghost x: seq<byte>)
    requires inner.Valid() && lo + 8 * max <= dst.Length && min <= max
    modifies inner, dst
    ensures inner.Valid()
    ensures r.Error? ==> Decode(old(inner.rest), max) == Failed(r.error)
    ensures r.Words? ==> min <= r.count <= max && |x| == 8 * r.count
    ensures r.Words? ==> dst[..] == Splice(old(dst[..]), lo, x)
    ensures r.Words? ==> Decode(old(inner.rest), r.count) == Decoded(x, inner.rest)
    ensures Certain(old(inner.rest), max, min) ==> r.Words?
  {
    hide Decode, Splice, Settled, Hopeless, Obeys, FateOf, Furthest;
    r, x := TryRead(inner, dst, lo, max, min);
    if r.Words? && r.count < min {
      NothingLeft(max);
      EmptyReadsNothing(max);
      r := Error(PrematureEnd);
    }
  }

  /** InputStreamMessageReader: `readPos` words of the message are in `space`. */
  class Reader {
    const input: BufferedInput
    const sizes: seq<nat>
    const total: nat
    const space: array<byte>
    var readPos: nat

    /** What was read so far is what the stream after the table decodes to. */
    ghost predicate Holding(body: seq<byte>)
      reads this, input, space
    {
      input.Valid() && total == Offset(sizes, |sizes|) && space.Length == 8 * total && readPos <= total
      && Decode(body, readPos) == Decoded(space[..8 * readPos], input.rest)
    }

    constructor (input: BufferedInput, sizes: seq<nat>, total: nat)
      requires input.Valid() && total == Offset(sizes, |sizes|)
      ensures this.input == input && this.sizes == sizes
      ensures fresh(space) && readPos == 0 && Holding(input.rest)
    {
      this.input, this.sizes, this.total, this.readPos := input, sizes, total, 0;
      this.space := new byte[8 * total](_ => 0);
      new;
      DecodeNothing(input.rest);
      assert space[..0] == [];
    }

    /** Reads on until at least `need` words are there; never past the message.  Fails if the
        stream does not reach that far, and only if the rest of the message is bad and the read
        is not certain. */
    method Load(need: nat, ghost body: seq<byte>) returns (r: ReadResult)
      requires Holding(body) && readPos <= need <= total
      modifies this`readPos, input, space
      ensures input.Valid()
      ensures r.Words? ==> Holding(body) && readPos >= need && readPos >= old(readPos)
      ensures r.Error? ==> Decode(body, total) == Failed(r.error)
      ensures Furthest(body, total, false).words < need ==> r.Error?
      ensures Certain(body, total, need) ==> r.Words?
    {
      hide Decode, Splice, Offset, Furthest, Certain;
      ghost var p, d := readPos, space[..];
      if Certain(body, total, need) {
        CertainOn(body, total, need, readPos);
      }
      ghost var x;
      r, x := Read(input, space, 8 * readPos, total - readPos, need - readPos);
      if r.Error? {
        DecodeSplit(body, p, total - p);
      } else {
        DecodeSplit(body, p, r.count);
        SplicePrefix(d, 8 * p, x);
        readPos := readPos + r.count;
        assert space[..8 * readPos] == space[..][..8 * readPos] == d[..8 * p] + x;
        FurthestIsFurthest(body, total, false, readPos);
      }
    }

    /** getSegment: whatever the stream holds and whatever was asked for before, the answer is
        the segment as the stream has it, or the error of the stream; an error is certain for a
        segment that the stream does not reach, and impossible if all of the message is there or
        the words up to the end of the segment are certain. */
    method GetSegment(id: nat, ghost body: seq<byte>) returns (c: Content)
      requires Holding(body)
      modifies this`readPos, input, space
      ensures c.NoSuchSegment? <==> id >= |sizes|
      ensures c.Content? ==> Reaches(sizes, body, id) && c.bytes == SegmentIn(sizes, body, id)
      ensures c.Failure? ==> Decode(body, total) == Failed(c.error) && !Certain(body, total, Offset(sizes, id + 1))
      ensures !c.Failure? ==> Holding(body)
    {
      hide Decode, Splice, Offset, Furthest, Unpacked, Certain;
      if id >= |sizes| {
        return NoSuchSegment;
      }
      var start: nat := 0;
      OffsetZero(sizes);
      for i := 0 to id
        invariant start == Offset(sizes, i) && Holding(body)
      {
        OffsetStep(sizes, i);
        start := start + sizes[i];
      }
      OffsetStep(sizes, id);
      OffsetMonotone(sizes, id + 1, |sizes|);
      var end := start + sizes[id];
      if readPos < end {
        var r := Load(end, body);
        if r.Error? {
          return Failure(r.error);
        }
      }
      UnpackedPrefix(body, total, readPos);
      ghost var x := Unpacked(body, total);
      SliceOfExtension(space[..8 * readPos], x, 8 * start, 8 * end);
      SliceOfPrefix(space[..], 8 * start, 8 * end, 8 * readPos);
      return Content(space[8 * start..8 * end]);
    }

    /** The destructor skips what was never asked for, so that the next message can follow. */
    method Close(ghost body: seq<byte>) returns (r: ReadResult)
      requires Holding(body)
      modifies input
      ensures input.Valid()
      ensures r.Error? ==> Decode(body, total) == Failed(r.error)
      ensures r.Words? ==> Decode(body, total).Decoded? && Decode(body, total).rest == input.rest
    {
      hide Decode, Offset;
      DecodeSplit(body, readPos, total - readPos);
      r := Skip(input, total - readPos);
    }
  }

  lemma OffsetZero(sizes: seq<nat>)
    ensures Offset(sizes, 0) == 0
  {
  }

  lemma SliceOfExtension(s: seq<byte>, t: seq<byte>, a: nat, b: nat)
    requires a <= b <= |s| && s <= t
    ensures s[a..b] == t[a..b]
  {
  }

  datatype TableOutcome = Got(table: array<byte>, count: nat) | NoTable(why: Outcome)

  /** Reads the segment table: its first word, then the rest of it. */
  method ReadTable(form: WireValue.Form, host: WireValue.Host, input: BufferedInput) returns (r: TableOutcome)
    requires WireValue.Applicable(form, host) && input.Valid()
    modifies input
    ensures input.Valid()
    ensures match HeadOf(old(input.rest))
            case Bad(e) => r == NoTable(StreamError(e))
            case Many => r == NoTable(TooManySegments)
            case Head(sizes, body) =>
              r.Got? && fresh(r.table) && r.table.Length == 8 * (r.count / 2 + 1)
              && sizes == TableSizes(r.table[..], r.count) && input.rest == body
  {
    hide Decode, Splice, Number, TableSizes, Certain;
    ghost var s := input.rest;
    var first := new byte[8](_ => 0);
    ghost var d := first[..];
    var got, x := Read(input, first, 0, 1, 1);
    if got.Error? {
      return NoTable(StreamError(got.error));
    }
    SpliceAll(d, x, first[..]);
    assert first[0..4] == x[0..4];
    var last := WireValue.Get(form, host, first, 0, 4);
    if last >= 511 {
      return NoTable(TooManySegments);
    }
    var count := last + 1;
    var table := new byte[8 * (count / 2 + 1)](_ => 0);
    ghost var d1 := table[..];
    Copy(first[..], table, 0);
    SplicePrefix(d1, 0, first[..]);
    assert table[..8] == table[..][..8] == x;
    if count > 1 {
      ghost var d2 := table[..];
      var more, y := Read(input, table, 8, count / 2, count / 2);
      if more.Error? {
        return NoTable(StreamError(more.error));
      }
      SplicePrefix(d2, 8, y);
      assert table[..] == table[..][..8 + |y|] == x + y;
    } else {
      DecodeNothing(input.rest);
      assert table[..] == x + [];
    }
    return Got(table, count);
  }

  lemma SpliceAll(d: seq<byte>, x: seq<byte>, r: seq<byte>)
    requires |x| == |d| && r == Splice(d, 0, x)
    ensures r == x
  {
  }

  /** Reads the segment sizes out of the table and adds them up. */
  method ReadSizes(form: WireValue.Form, host: WireValue.Host, table: array<byte>, count: nat)
    returns (sizes: seq<nat>, total: nat)
    requires WireValue.Applicable(form, host) && 4 * count + 4 <= table.Length
    ensures sizes == TableSizes(table[..], count) && total == Offset(sizes, |sizes|)
  {
    hide Number, Offset;
    sizes, total := [], 0;
    OffsetZero(sizes);
    for i := 0 to count
      invariant |sizes| == i && forall j :: 0 <= j < i ==> sizes[j] == Entry(table[..], j + 1)
      invariant total == Offset(sizes, i)
    {
      assert table[4 * (i + 1)..4 * (i + 1) + 4] == table[..][4 * (i + 1)..4 * (i + 1) + 4];
      var size := WireValue.Get(form, host, table, 4 * (i + 1), 4);
      OffsetAppend(sizes, size, i);
      sizes, total := sizes + [size], total + size;
      OffsetStep(sizes, i);
    }
  }

  lemma {:induction false} OffsetAppend(sizes: seq<nat>, size: nat, i: nat)
    requires i <= |sizes|
    ensures Offset(sizes + [size], i) == Offset(sizes, i)
  {
    if i == 0 {
    } else {
      assert (sizes + [size])[1..] == sizes[1..] + [size];
      OffsetAppend(sizes[1..], size, i - 1);
    }
  }

  /** The constructor of InputStreamMessageReader on any stream: the error that the table
      deserves, or a reader of at most 511 segments and `limit` words.  Opening fails if the
      stream does not hold the first segment, and only if the message is not all there and the
      words of the first segment are not certain. */
  method Open(form: WireValue.Form, host: WireValue.Host, input: BufferedInput, limit: nat) returns (r: Outcome)
    requires WireValue.Applicable(form, host) && input.Valid()
    modifies input
    ensures input.Valid()
    ensures match HeadOf(old(input.rest))
            case Bad(e) => r == StreamError(e)
            case Many => r == TooManySegments
            case Head(sizes, body) => if Offset(sizes, |sizes|) > limit then r == TooLarge else OpenedOn(r, sizes, body)
    ensures r.Opened? ==> fresh(r.reader) && fresh(r.reader.space) && r.reader.input == input
    ensures r.Opened? ==> 1 <= |r.reader.sizes| <= 511 && r.reader.total <= limit
  {
    hide Decode, Offset, HeadOf, Furthest, Certain;
    var got := ReadTable(form, host, input);
    if got.NoTable? {
      return got.why;
    }
    var sizes, total := ReadSizes(form, host, got.table, got.count);
    if total > limit {
      return TooLarge;
    }
    var reader := new Reader(input, sizes, total);
    ghost var body := input.rest;
    FirstFits(sizes);
    var need := if got.count == 1 then total else sizes[0];
    var loaded := reader.Load(need, body);
    r := if loaded.Error? then StreamError(loaded.error) else Opened(reader);
  }

  /** What opening a message with this table comes to. */
  ghost predicate OpenedOn(r: Outcome, sizes: seq<nat>, body: seq<byte>)
    requires sizes != []
    reads if r.Opened? then {r.reader, r.reader.input, r.reader.space} else {}
  {
    match r
    case Opened(reader) => reader.sizes == sizes && reader.Holding(body)
                           && sizes[0] <= Furthest(body, Offset(sizes, |sizes|), false).words
    case StreamError(e) =>
      Decode(body, Offset(sizes, |sizes|)) == Failed(e) && !Certain(body, Offset(sizes, |sizes|), sizes[0])
    case _ => false
  }

  lemma FirstFits(sizes: seq<nat>)
    requires sizes != []
    ensures sizes[0] <= Offset(sizes, |sizes|) && (|sizes| == 1 ==> sizes[0] == Offset(sizes, |sizes|))
  {
    OffsetZero(sizes[1..]);
    OffsetMonotone(sizes, 1, |sizes|);
  }

  /** The segment of `m` that an answer to getSegment must be. */
  function AnswerOf(m: seq<Segment>, id: nat): Content {
    if id < |m| then Content(m[id].bytes) else NoSuchSegment
  }

  /** Asks for segments, in any order. */
  method Ask(reader: Reader, ghost m: seq<Segment>, ghost tail: seq<byte>, ids: seq<nat>)
    returns (answers: seq<Content>)
    requires Valid(m) && reader.sizes == SizesOf(m) && reader.Holding(PackedBody(m) + tail)
    modifies reader`readPos, reader.input, reader.space
    ensures reader.Holding(PackedBody(m) + tail)
    ensures |answers| == |ids| && forall i :: 0 <= i < |ids| ==> answers[i] == AnswerOf(m, ids[i])
  {
    hide Decode, PackedBody, Body, TotalWords, Offset, Reaches, SegmentIn;
    answers := [];
    for i := 0 to |ids|
      invariant reader.Holding(PackedBody(m) + tail)
      invariant |answers| == i && forall j :: 0 <= j < i ==> answers[j] == AnswerOf(m, ids[j])
    {
      SegmentInMessage(m, tail, ids[i]);
      var c := reader.GetSegment(ids[i], PackedBody(m) + tail);
      answers := answers + [c];
    }
  }

  /** From one host to another: whatever the buffer sizes on both sides and whatever order the
      segments are asked for in, each answer is the segment that was sent, and the stream is left
      at what follows the message. */
  method SendAndReceive(w: WireValue.Form, hw: WireValue.Host, r: WireValue.Form, hr: WireValue.Host,
                        m: seq<Segment>, tail: seq<byte>, limit: nat, ids: seq<nat>)
    returns (accepted: bool, answers: seq<Content>, left: seq<byte>)
    requires WireValue.Applicable(w, hw) && WireValue.Applicable(r, hr) && Valid(m)
    ensures accepted <==> |m| <= 511 && TotalWords(m) <= limit
    ensures accepted ==> |answers| == |ids| && forall i :: 0 <= i < |ids| ==> answers[i] == AnswerOf(m, ids[i])
    ensures accepted ==> left == tail
  {
    hide PackedForm, PackedBody, Decode, Body, TotalWords, HeadOf, Offset, Furthest, AnswerOf;
    accepted, answers, left := false, [], [];
    var output := new BufferedOutput();
    WriteMessage(w, hw, output, m);
    output.Write(tail);
    var input := new BufferedInput(output.written);
    assert input.rest == PackedForm(m) + tail;
    HeadOfMessage(m, tail);
    ghost var body := PackedBody(m) + tail;
    SegmentInMessage(m, tail, 0);
    var outcome := Open(r, hr, input, limit);
    if outcome.Opened? {
      var reader := outcome.reader;
      accepted := true;
      answers := Ask(reader, m, tail, ids);
      var closed := reader.Close(body);
      left := input.rest;
    }
  }
}
