/**
 The blocks of a packed stream: a word and, after a special tag, its run.  How far a stream can
 be read block by block, and what becomes of a read that is served from a buffer holding only
 the first bytes of the stream.
 */
module PackedBlocks {
  import opened Bytes
  import opened Packing

  /** The first block of a stream: the words it stands for, the bytes it takes, and whether it
      carries plain words after a tag of 255. */
  datatype Block = NoBlock | Block(words: nat, size: nat, plain: bool)

  /** Tag, non-zero bytes and, for the special tags, the run count. */
  function HeaderSize(s: seq<byte>): (n: nat)
    requires s != []
    ensures 1 <= n <= 10
  {
    1 + SetBits(s[0], 0) + (if Special(s[0]) then 1 else 0)
  }

  /** None if the stream ends within the block or the block exceeds `room` words. */
  function FirstBlock(s: seq<byte>, room: nat): (b: Block)
    ensures b.Block? ==> 1 <= b.words <= room && 1 <= b.size <= |s|
  {
    if room == 0 || s == [] || |s| < HeaderSize(s) then NoBlock
    else if !Special(s[0]) then Block(1, HeaderSize(s), false)
    else
      var q := s[HeaderSize(s) - 1..];
      if !HasRun(s[0], q) || q[0] > room - 1 then NoBlock
      else Block(1 + q[0], HeaderSize(s) + (if s[0] == 255 then 8 * q[0] else 0), s[0] == 255 && q[0] > 0)
  }

  /** The words a block stands for. */
  function BlockBytes(s: seq<byte>, room: nat): (x: seq<byte>)
    requires FirstBlock(s, room).Block?
    ensures |x| == 8 * FirstBlock(s, room).words
  {
    var k := 1 + SetBits(s[0], 0);
    Expand(s[0], 0, s[1..k]) + (if Special(s[0]) then RunBytes(s[0], s[k..]) else [])
  }

  lemma BlockRest(s: seq<byte>, room: nat)
    requires FirstBlock(s, room).Block?
    ensures var q := s[1 + SetBits(s[0], 0)..];
            s[FirstBlock(s, room).size..] == if Special(s[0]) then RunRest(s[0], q) else q
  {
    hide SetBits;
    var k := 1 + SetBits(s[0], 0);
    if Special(s[0]) {
      var j := FirstBlock(s, room).size - k;
      assert s[k..][j..] == s[k + j..];
    }
  }

  /** Decoding starts with the first block, if there is one, and fails otherwise. */
  lemma BlockDecodes(s: seq<byte>, room: nat)
    requires room > 0
    ensures FirstBlock(s, room).NoBlock? ==> Decode(s, room).Failed?
    ensures var b := FirstBlock(s, room);
            b.Block? ==> Decode(s, room) == Then(BlockBytes(s, room), Decode(s[b.size..], room - b.words))
  {
    hide Decode, DecodeRun, SetBits, Expand, RunBytes, RunRest;
    var b := FirstBlock(s, room);
    if s == [] || |s| < 1 + SetBits(s[0], 0) {
      DecodeShort(s, room);
    } else {
      var k := 1 + SetBits(s[0], 0);
      DecodeFirst(s, room);
      if b.Block? {
        BlockRest(s, room);
      }
      if Special(s[0]) {
        DecodeSpecial(s[0], s[k..], room - 1);
        if b.Block? {
          ThenThen(Expand(s[0], 0, s[1..k]), RunBytes(s[0], s[k..]), Decode(s[b.size..], room - b.words));
        }
      } else {
        DecodeOrdinary(s[0], s[k..], room - 1);
        assert BlockBytes(s, room) == Expand(s[0], 0, s[1..k]);
      }
    }
  }

  lemma DecodeShort(s: seq<byte>, n: nat)
    requires n > 0 && (s == [] || |s| < 1 + SetBits(s[0], 0))
    ensures Decode(s, n) == Failed(PrematureEnd)
  {
  }

  /** A block by itself. */
  lemma BlockAlone(s: seq<byte>, room: nat)
    requires FirstBlock(s, room).Block?
    ensures var b := FirstBlock(s, room); Decode(s, b.words) == Decoded(BlockBytes(s, room), s[b.size..])
  {
    hide Decode, SetBits, Expand, RunBytes, RunRest;
    var b := FirstBlock(s, room);
    BlockDecodes(s, b.words);
    DecodeNothing(s[b.size..]);
    assert BlockBytes(s, room) + [] == BlockBytes(s, room);
  }

  /** Reading one more block after `words` words. */
  lemma ReadOn(s: seq<byte>, words: nat, x: seq<byte>, u: seq<byte>, room: nat)
    requires Decode(s, words) == Decoded(x, u) && room > 0
    ensures Decode(s, words + room) == Then(x, Decode(u, room))
    ensures var b := FirstBlock(u, room);
            b.Block? ==> Decode(s, words + b.words) == Decoded(x + BlockBytes(u, room), u[b.size..])
  {
    hide Decode, FirstBlock, BlockBytes;
    DecodeSplit(s, words, room);
    var b := FirstBlock(u, room);
    if b.Block? {
      DecodeSplit(s, words, b.words);
      BlockAlone(u, room);
    }
  }

  // ---------------------------------------------------------------------------------------
  // How far a stream can be read

  /** Where block-by-block reading of `room` words ends: the words read, what is left of the
      stream, and whether the last block carried plain words. */
  datatype End = End(words: nat, rest: seq<byte>, plain: bool)

  /** `plain` tells about the block before `s`. */
  function Furthest(s: seq<byte>, room: nat, plain: bool): (e: End)
    ensures e.words <= room && |e.rest| <= |s|
    decreases room
  {
    match FirstBlock(s, room)
    case NoBlock => End(0, s, plain)
    case Block(n, size, p) =>
      var e := Furthest(s[size..], room - n, p);
      End(n + e.words, e.rest, e.plain)
  }

  /** Reading ends early exactly when decoding fails. */
  lemma {:induction false} FurthestDecodes(s: seq<byte>, room: nat, plain: bool)
    ensures Furthest(s, room, plain).words == room <==> Decode(s, room).Decoded?
    decreases room
  {
    hide Decode, FirstBlock, BlockBytes;
    if room == 0 {
      DecodeNothing(s);
    } else {
      BlockDecodes(s, room);
      var b := FirstBlock(s, room);
      if b.Block? {
        FurthestDecodes(s[b.size..], room - b.words, b.plain);
      }
    }
  }

  lemma MoreRoom(s: seq<byte>, n: nat, room: nat)
    requires n <= room && FirstBlock(s, n).Block?
    ensures FirstBlock(s, room) == FirstBlock(s, n)
  {
  }

  /** Every read that ends between blocks ends no further along. */
  lemma {:induction false} FurthestIsFurthest(s: seq<byte>, room: nat, plain: bool, n: nat)
    requires n <= room && Decode(s, n).Decoded?
    ensures n <= Furthest(s, room, plain).words
    decreases room
  {
    hide Decode, BlockBytes, FirstBlock;
    if n == 0 {
    } else {
      BlockDecodes(s, n);
      var b := FirstBlock(s, n);
      MoreRoom(s, n, room);
      FurthestIsFurthest(s[b.size..], room - b.words, b.plain, n - b.words);
    }
  }

  /** All the bytes that reading block by block gets at. */
  function Unpacked(s: seq<byte>, room: nat): seq<byte>
    decreases room
  {
    match FirstBlock(s, room)
    case NoBlock => []
    case Block(n, size, _) => BlockBytes(s, room) + Unpacked(s[size..], room - n)
  }

  lemma {:induction false} UnpackedLength(s: seq<byte>, room: nat, plain: bool)
    ensures |Unpacked(s, room)| == 8 * Furthest(s, room, plain).words
    decreases room
  {
    hide FirstBlock, BlockBytes;
    var b := FirstBlock(s, room);
    if b.NoBlock? {
    } else {
      UnpackedLength(s[b.size..], room - b.words, b.plain);
    }
  }

  /** Every read that ends between blocks delivers a prefix of those. */
  lemma {:induction false} UnpackedPrefix(s: seq<byte>, room: nat, n: nat)
    requires n <= room && Decode(s, n).Decoded?
    ensures Decode(s, n).output <= Unpacked(s, room)
    decreases room
  {
    hide Decode, BlockBytes, FirstBlock;
    if n == 0 {
      DecodeNothing(s);
    } else {
      BlockDecodes(s, n);
      var b := FirstBlock(s, n);
      MoreRoom(s, n, room);
      SameBytes(s, n, room);
      UnpackedPrefix(s[b.size..], room - b.words, n - b.words);
    }
  }

  lemma SameBytes(s: seq<byte>, n: nat, room: nat)
    requires n <= room && FirstBlock(s, n).Block? && FirstBlock(s, room).Block?
    ensures BlockBytes(s, room) == BlockBytes(s, n)
  {
  }

  // ---------------------------------------------------------------------------------------
  // Reads served from a first buffer

  /** What becomes of a read while it is served from the first buffer. */
  datatype Fate = Returns(words: nat) | Fails | Leaves

  function After(words: nat, f: Fate): Fate {
    if f.Returns? then Returns(words + f.words) else f
  }

  function Less(need: nat, n: nat): nat {
    if n <= need then need - n else 0
  }

  /** A read of `room` words, of which `need` are required, when the buffer holds the first `b`
      bytes of `u`.  With less than ten bytes left in the buffer a read that has what it needs
      returns; a run of plain words that overruns the buffer is read as a whole, and then the
      next buffer is asked for if there is room for more. */
  function FirstBuffer(u: seq<byte>, b: nat, room: nat, need: nat): Fate
    requires b <= |u|
    decreases room
  {
    if room == 0 || (b < 10 && need == 0) then Returns(0)
    else if b == 0 || b < HeaderSize(u) then Leaves
    else
      match FirstBlock(u, room)
      case NoBlock => Fails
      case Block(n, size, _) =>
        if size <= b then After(n, FirstBuffer(u[size..], b - size, room - n, Less(need, n)))
        else if n == room then Returns(n)
        else if size == |u| then Fails
        else Leaves
  }

  /** Every way of cutting the stream into buffers lets the read return. */
  predicate Settled(s: seq<byte>, max: nat, min: nat) {
    var e := Furthest(s, max, false);
    s == [] || e.words == max || (min <= e.words && |e.rest| < 10 && (e.rest == [] ==> !e.plain))
  }

  /** The stream does not hold the words that are required. */
  predicate Hopeless(s: seq<byte>, max: nat, min: nat) {
    s != [] && Furthest(s, max, false).words < min
  }

  /** A read of `need` words that returns however the stream is cut, and does get them. */
  predicate Certain(s: seq<byte>, max: nat, need: nat) {
    Settled(s, max, need) && need <= Furthest(s, max, false).words
  }

  /** After `n` words, reading on ends where reading from the start does. */
  lemma {:induction false} FurthestOn(s: seq<byte>, room: nat, plain: bool, n: nat) returns (p: bool)
    requires n <= room && Decode(s, n).Decoded?
    ensures var e := Furthest(Decode(s, n).rest, room - n, p);
            Furthest(s, room, plain) == End(n + e.words, e.rest, e.plain)
    decreases room
  {
    hide Decode, BlockBytes, FirstBlock;
    if n == 0 {
      DecodeNothing(s);
      p := plain;
    } else {
      BlockDecodes(s, n);
      var b := FirstBlock(s, n);
      MoreRoom(s, n, room);
      p := FurthestOn(s[b.size..], room - b.words, b.plain, n - b.words);
      assert room - b.words - (n - b.words) == room - n;
    }
  }

  /** What came before matters only if nothing more is read. */
  lemma PlainBefore(s: seq<byte>, room: nat, plain: bool)
    ensures var e, f := Furthest(s, room, plain), Furthest(s, room, false);
            e.words == f.words && e.rest == f.rest && (if e.words > 0 then e.plain == f.plain else !f.plain)
  {
    hide FirstBlock;
  }

  /** A certain read stays certain after `n` words, as long as it needs more. */
  lemma CertainOn(s: seq<byte>, room: nat, need: nat, n: nat)
    requires Certain(s, room, need) && n <= need <= room && Decode(s, n).Decoded?
    ensures Certain(Decode(s, n).rest, room - n, need - n)
  {
    hide Decode, Furthest;
    var p := FurthestOn(s, room, false, n);
    PlainBefore(Decode(s, n).rest, room - n, p);
    EmptyReadsNothing(room);
  }

  lemma EmptyReadsNothing(room: nat)
    ensures Furthest([], room, false) == End(0, [], false)
  {
  }

  /** A buffer that ends right where the read can go no further lets it return. */
  lemma {:induction false} ReturnsAtTheEnd(s: seq<byte>, room: nat, need: nat, plain: bool)
    requires need <= Furthest(s, room, plain).words
    ensures FirstBuffer(s, |s| - |Furthest(s, room, plain).rest|, room, need).Returns?
    decreases room
  {
    hide HeaderSize, FirstBlock;
    var b := FirstBlock(s, room);
    if b.NoBlock? {
    } else {
      HeaderWithin(s, room);
      ReturnsAtTheEnd(s[b.size..], room - b.words, Less(need, b.words), b.plain);
    }
  }

  lemma FurthestStep(s: seq<byte>, room: nat, plain: bool)
    ensures FirstBlock(s, room).NoBlock? ==> Furthest(s, room, plain) == End(0, s, plain)
    ensures var b := FirstBlock(s, room);
            b.Block? ==> var e := Furthest(s[b.size..], room - b.words, b.plain);
                         Furthest(s, room, plain) == End(b.words + e.words, e.rest, e.plain)
  {
    hide FirstBlock;
  }

  /** A block whose header is in the buffer. */
  lemma FirstBufferStep(u: seq<byte>, b: nat, room: nat, need: nat)
    requires u != [] && HeaderSize(u) <= b <= |u| && room > 0 && (b >= 10 || need > 0)
    ensures var f := FirstBlock(u, room);
            FirstBuffer(u, b, room, need)
            == if f.NoBlock? then Fails
               else if f.size <= b then
                 After(f.words, FirstBuffer(u[f.size..], b - f.size, room - f.words, Less(need, f.words)))
               else if f.words == room then Returns(f.words)
               else if f.size == |u| then Fails
               else Leaves
  {
    hide FirstBlock, HeaderSize;
  }

  lemma HeaderWithin(s: seq<byte>, room: nat)
    requires FirstBlock(s, room).Block?
    ensures HeaderSize(s) <= FirstBlock(s, room).size
  {
  }

  /** With all of the stream in one buffer, a read that meets a bad block of ten bytes fails. */
  lemma {:induction false} FailsInOneBuffer(s: seq<byte>, room: nat, need: nat, plain: bool)
    requires Furthest(s, room, plain).words < room && |Furthest(s, room, plain).rest| >= 10
    ensures FirstBuffer(s, |s|, room, need).Fails?
    decreases room
  {
    hide HeaderSize, FirstBlock, FirstBuffer, Furthest;
    var b := FirstBlock(s, room);
    FurthestStep(s, room, plain);
    FirstBufferStep(s, |s|, room, need);
    if b.NoBlock? {
    } else {
      FailsInOneBuffer(s[b.size..], room - b.words, Less(need, b.words), b.plain);
    }
  }

  /** A buffer that ends right before the plain words of the last block makes a read that wants
      more than there is fail. */
  lemma {:induction false} FailsBeforePlainWords(s: seq<byte>, room: nat, need: nat, plain: bool) returns (cut: nat)
    requires s != [] && Furthest(s, room, plain).words < room
    requires Furthest(s, room, plain).rest == [] && Furthest(s, room, plain).plain
    ensures 10 <= cut <= |s| && FirstBuffer(s, cut, room, need).Fails?
    decreases room
  {
    hide HeaderSize, FirstBlock, FirstBuffer, Furthest;
    var b := FirstBlock(s, room);
    FurthestStep(s, room, plain);
    HeaderWithin(s, room);
    if b.size == |s| {
      FurthestStep([], room - b.words, b.plain);
      NoBlockInNothing(room - b.words);
      PlainSize(s, room);
      cut := 10;
    } else {
      var rest := FailsBeforePlainWords(s[b.size..], room - b.words, Less(need, b.words), b.plain);
      cut := b.size + rest;
    }
    FirstBufferStep(s, cut, room, need);
  }

  lemma NoBlockInNothing(room: nat)
    ensures FirstBlock([], room) == NoBlock
  {
  }

  lemma PlainSize(s: seq<byte>, room: nat)
    requires FirstBlock(s, room).Block? && FirstBlock(s, room).plain
    ensures HeaderSize(s) <= 10 < FirstBlock(s, room).size
  {
    AllBits(0);
  }

  lemma {:induction false} AllBits(i: nat)
    requires i <= 8
    ensures SetBits(255, i) == 8 - i
    decreases 8 - i
  {
    if i == 8 {
    } else {
      AllBits(i + 1);
      BitOf255(i);
    }
  }

  lemma BitOf255(i: nat)
    requires i < 8
    ensures Bit(255, i)
  {
    assert Bit(15, 0) && Bit(15, 1) && Bit(15, 2) && Bit(15, 3);
    assert i >= 4 ==> Bit(255, i) == Bit(127, i - 1) == Bit(63, i - 2) == Bit(31, i - 3) == Bit(15, i - 4);
    assert Bit(255, 1) == Bit(127, 0) && Bit(255, 2) == Bit(127, 1) == Bit(63, 0);
    assert Bit(255, 3) == Bit(127, 2) == Bit(63, 1) == Bit(31, 0);
  }

  /** A read that is neither settled nor hopeless returns with one first buffer and fails with
      another: its outcome depends on how the stream is cut. */
  lemma CutDecides(s: seq<byte>, max: nat, min: nat) returns (good: nat, bad: nat)
    requires min <= max && !Settled(s, max, min) && !Hopeless(s, max, min)
    ensures 0 < good <= |s| && FirstBuffer(s, good, max, min).Returns?
    ensures 0 < bad <= |s| && FirstBuffer(s, bad, max, min).Fails?
  {
    hide FirstBuffer, FirstBlock;
    var e := Furthest(s, max, false);
    ReturnsAtTheEnd(s, max, min, false);
    good := |s| - |e.rest|;
    if good == 0 {
      NothingNeeded(s, max, false);
      OneByte(s, max);
      good := 1;
    }
    if e.rest == [] {
      bad := FailsBeforePlainWords(s, max, min, false);
    } else {
      FailsInOneBuffer(s, max, min, false);
      bad := |s|;
    }
  }

  /** One word without zeros and a run of one plain word, of which three words are wanted and one
      is required: the first kind of input that the cut decides. */
  lemma PlainRunAtTheEnd(s: seq<byte>, w: seq<byte>, v: seq<byte>)
    requires s == [255] + w + [1] + v && |w| == |v| == 8
    ensures !Settled(s, 3, 1) && !Hopeless(s, 3, 1)
  {
    hide Furthest, SetBits, FirstBlock;
    PlainBlock(s, w, 1, v, 3);
    FurthestStep(s, 3, false);
    assert s[18..] == [];
    FurthestStep([], 1, true);
    NoBlockInNothing(1);
  }

  /** A zero word and a block that announces more words than there are, of which three words are
      wanted and one is required: the second kind. */
  lemma BadBlockInBuffer(s: seq<byte>, w: seq<byte>)
    requires s == [0, 0] + ([255] + w + [9]) && |w| == 8
    ensures !Settled(s, 3, 1) && !Hopeless(s, 3, 1)
  {
    hide Furthest, SetBits, FirstBlock;
    var t := [255] + w + [9];
    assert s[2..] == t;
    ZeroBlock(s, 3);
    PlainBlock(t, w, 9, [], 2);
    FurthestStep(s, 3, false);
    FurthestStep(t, 2, false);
  }

  lemma ZeroBlock(s: seq<byte>, room: nat)
    requires |s| >= 2 && s[0] == 0 && s[1] == 0 && room > 0
    ensures FirstBlock(s, room) == Block(1, 2, false)
  {
    ZeroTag(0);
  }

  lemma {:induction false} ZeroTag(i: nat)
    requires i <= 8
    ensures SetBits(0, i) == 0
    decreases 8 - i
  {
    if i == 8 {
    } else {
      ZeroTag(i + 1);
      BitOfZero(i);
    }
  }

  /** A block with tag 255 whose run of `count` words is `v`, if that has as many. */
  lemma PlainBlock(s: seq<byte>, w: seq<byte>, count: byte, v: seq<byte>, room: nat)
    requires s == [255] + w + [count] + v && |w| == 8 && room > 0 && count > 0
    ensures FirstBlock(s, room)
         == if 8 * count <= |v| && 1 + count <= room then Block(1 + count, 10 + 8 * count, true) else NoBlock
  {
    AllBits(0);
    assert s[0] == 255 && s[9] == count && s[9..] == [count] + v;
  }

  lemma NothingNeeded(s: seq<byte>, room: nat, plain: bool)
    requires |Furthest(s, room, plain).rest| == |s|
    ensures Furthest(s, room, plain).words == 0
  {
  }

  lemma OneByte(s: seq<byte>, room: nat)
    requires s != []
    ensures FirstBuffer(s, 1, room, 0) == Returns(0)
  {
  }
}
