/**
 Segments of c++/src/capnp/arena.h: the bounds checker of SegmentReader, with the read limiter
 it charges, and the bump allocator of SegmentBuilder.  A pointer into a segment is the index
 of a word relative to the start of the segment.
 */
module Arena {
  import opened Basics
  import RL = ReadLimiter

  // ---------------------------------------------------------------------------------------
  // Reading

  const MAX_SEGMENT_WORDS: nat := 0x1fff_ffff
  const OBJECT_SIZE_LIMIT: nat := 0x8000_0000

  /** A ReadLimiter used by one thread. */
  class Limiter {
    var limit: RL.uint64

    constructor (limit: RL.uint64)
      ensures this.limit == limit
    {
      this.limit := limit;
    }

    /** canRead without interference: the load and the store of module ReadLimiter in a row. */
    method CanRead(amount: RL.uint64) returns (ok: bool)
      modifies this
      ensures ok <==> amount <= old(limit)
      ensures limit == if ok then old(limit) - amount else old(limit)
      ensures RL.CanReadAlone(old(limit), amount) == (ok, limit)
    {
      var current := limit;
      if amount > current {
        ok := false;
      } else {
        limit := RL.Sub64(current, amount);
        ok := true;
      }
    }
  }

  /** checkOffset on a segment of `size` words: out-of-range targets become the end pointer. */
  function CheckOffset(size: nat, from: int, offset: int): (p: int)
    ensures 0 <= p <= size
    ensures p == if 0 <= from + offset <= size then from + offset else size
  {
    var min, max := 0 - from, size - from;
    if min <= offset <= max then from + offset else size
  }

  /** Addition of two `uint32_t`, wrapping as in C++. */
  function Add32(a: nat, b: nat): nat {
    (a + b) % WORD32
  }

  /** checkObject: is the object inside the segment, and may it be read? */
  method CheckObject(limiter: Limiter, size: nat, start: nat, words: nat) returns (ok: bool)
    requires start <= size <= MAX_SEGMENT_WORDS && words < OBJECT_SIZE_LIMIT
    modifies limiter
    ensures ok <==> start + words <= size && words <= old(limiter.limit)
    ensures limiter.limit == if ok then old(limiter.limit) - words else old(limiter.limit)
  {
    ok := false;
    if Add32(start, words) <= size {
      ok := limiter.CanRead(words);
    }
  }

  /** The check every pointer goes through.  Success means that the object lies inside the
      segment; for a non-empty object within the budget it means exactly that the unclamped
      range is in bounds; an empty object always passes; a failure charges nothing. */
  method CheckTarget(limiter: Limiter, size: nat, from: int, offset: int, words: nat) returns (ok: bool, start: nat)
    requires size <= MAX_SEGMENT_WORDS && words < OBJECT_SIZE_LIMIT
    modifies limiter
    ensures ok ==> start + words <= size
    ensures 0 < words <= old(limiter.limit) ==> (ok <==> 0 <= from + offset && from + offset + words <= size)
    ensures ok && words > 0 ==> start == from + offset
    ensures words == 0 ==> ok
    ensures limiter.limit == if ok then old(limiter.limit) - words else old(limiter.limit)
  {
    start := CheckOffset(size, from, offset);
    ok := CheckObject(limiter, size, start, words);
  }

  /** What a message traversal asks of the limiter: an object in some segment, or a charge for
      data that is not there (amplifiedRead). */
  datatype Request = Object(segment: nat, from: int, offset: int, words: nat) | Amplified(amount: RL.uint64)

  predicate ValidRequest(sizes: seq<nat>, r: Request) {
    r.Object? ==> r.segment < |sizes| && r.words < OBJECT_SIZE_LIMIT
  }

  /** The words a request asks for. */
  function Cost(r: Request): nat {
    if r.Object? then r.words else r.amount
  }

  /** Is what the request names there at all?  Empty objects are everywhere. */
  predicate InBounds(sizes: seq<nat>, r: Request)
    requires ValidRequest(sizes, r)
  {
    r.Amplified? || r.words == 0 || (0 <= r.from + r.offset && r.from + r.offset + r.words <= sizes[r.segment])
  }

  /** The words granted. */
  function Granted(requests: seq<Request>, oks: seq<bool>): nat
    requires |oks| <= |requests|
  {
    if oks == [] then 0
    else
      var n := |oks| - 1;
      Granted(requests, oks[..n]) + (if oks[n] then Cost(requests[n]) else 0)
  }

  /** Over any run of requests on any number of segments sharing a limiter, a request is granted
      exactly when it is in bounds and what was granted before leaves enough of the limit; the
      words granted and the words left add up to the initial limit. */
  method Traverse(limiter: Limiter, sizes: seq<nat>, requests: seq<Request>) returns (oks: seq<bool>)
    requires forall i :: 0 <= i < |sizes| ==> sizes[i] <= MAX_SEGMENT_WORDS
    requires forall i :: 0 <= i < |requests| ==> ValidRequest(sizes, requests[i])
    modifies limiter
    ensures |oks| == |requests| && Granted(requests, oks) + limiter.limit == old(limiter.limit)
    ensures forall i :: 0 <= i < |requests| ==>
              (oks[i] <==> InBounds(sizes, requests[i])
                           && Granted(requests, oks[..i]) + Cost(requests[i]) <= old(limiter.limit))
  {
    oks := [];
    for i := 0 to |requests|
      invariant |oks| == i && Granted(requests, oks) + limiter.limit == old(limiter.limit)
      invariant forall j :: 0 <= j < i ==>
                  (oks[j] <==> InBounds(sizes, requests[j])
                               && Granted(requests, oks[..j]) + Cost(requests[j]) <= old(limiter.limit))
    {
      assert ValidRequest(sizes, requests[i]);
      var ok;
      match requests[i] {
        case Object(segment, from, offset, words) =>
          var start;
          ok, start := CheckTarget(limiter, sizes[segment], from, offset, words);
        case Amplified(words) =>
          ok := limiter.CanRead(words);
      }
      ghost var before := oks;
      oks := oks + [ok];
      assert oks[..i] == before;
      assert forall j :: 0 <= j < i ==> oks[..j] == before[..j];
    }
  }

  // ---------------------------------------------------------------------------------------
  // Building

  /** A block of words `start..end` that some object of the message owns. */
  datatype Block = Block(start: nat, end: nat)

  predicate Disjoint(a: Block, b: Block) {
    a.start == a.end || b.start == b.end || a.end <= b.start || b.end <= a.start
  }

  /** The storage of a writable segment and its allocation point. */
  class SegmentBuilder {
    const words: array<nat>
    var pos: nat

    ghost predicate InBounds()
      reads this
    {
      pos <= words.Length
    }

    constructor (size: nat)
      ensures pos == 0 && words.Length == size && fresh(words)
      ensures forall k :: 0 <= k < size ==> words[k] == 0
    {
      words := new nat[size](_ => 0);
      pos := 0;
    }

    method Allocate(amount: nat) returns (start: nat, ok: bool)
      requires InBounds()
      modifies this
      ensures InBounds()
      ensures ok <==> old(pos) + amount <= words.Length
      ensures start == old(pos) && pos == if ok then start + amount else start
    {
      start := pos;
      ok := !(words.Length - pos < amount);
      if ok {
        pos := pos + amount;
      }
    }

    method TryTruncate(from: nat, to: nat)
      modifies this
      ensures pos == if old(pos) == from then to else old(pos)
    {
      if pos == from {
        pos := to;
      }
    }

    method TryExtend(from: nat, to: nat) returns (ok: bool)
      modifies this
      ensures ok <==> old(pos) == from && from <= to <= words.Length
      ensures pos == if ok then to else old(pos)
    {
      ok := pos == from && to <= words.Length && to >= from;
      if ok {
        pos := to;
      }
    }

    /** reset clears only what was allocated. */
    method Reset()
      requires InBounds()
      modifies this, words
      ensures pos == 0
      ensures forall k :: 0 <= k < words.Length ==> words[k] == if k < old(pos) then 0 else old(words[k])
    {
      for k := 0 to pos
        invariant InBounds() && pos == old(pos)
        invariant forall j :: 0 <= j < words.Length ==> words[j] == if j < k then 0 else old(words[j])
      {
        words[k] := 0;
      }
      pos := 0;
    }
  }

  /** Non-empty blocks are pairwise disjoint and end by `pos`. */
  ghost predicate Apart(blocks: seq<Block>, pos: nat) {
    (forall i :: 0 <= i < |blocks| ==> blocks[i].start <= blocks[i].end)
    && (forall i :: 0 <= i < |blocks| && blocks[i].start < blocks[i].end ==> blocks[i].end <= pos)
    && (forall i, j :: 0 <= i < j < |blocks| ==> Disjoint(blocks[i], blocks[j]))
  }

  lemma AllocateKeepsApart(blocks: seq<Block>, pos: nat, amount: nat)
    requires Apart(blocks, pos)
    ensures Apart(blocks + [Block(pos, pos + amount)], pos + amount)
  {
  }

  /** Giving up the end of the last block, wherever empty blocks may sit, frees nobody's words. */
  lemma TruncateKeepsApart(blocks: seq<Block>, pos: nat, i: nat, to: nat)
    requires Apart(blocks, pos) && i < |blocks| && blocks[i].start <= to <= blocks[i].end
    ensures Apart(blocks[i := Block(blocks[i].start, to)], if pos == blocks[i].end then to else pos)
  {
  }

  lemma ExtendKeepsApart(blocks: seq<Block>, i: nat, to: nat)
    requires i < |blocks| && blocks[i].end <= to && Apart(blocks, blocks[i].end)
    ensures Apart(blocks[i := Block(blocks[i].start, to)], to)
  {
  }

  // ---------------------------------------------------------------------------------------
  // What the objects of a message see

  /** The calls that the objects of a message make. */
  datatype Op =
    | Allocate(amount: nat)
    | Truncate(block: nat, to: nat)
    | Extend(block: nat, to: nat)
    | Store(block: nat, index: nat, value: nat)

  function ZeroWords(n: nat): (z: seq<nat>)
    ensures |z| == n && forall k :: 0 <= k < n ==> z[k] == 0
  {
    seq(n, _ => 0)
  }

  /** Where the blocks are, and the words of each as its owner alone would see them. */
  datatype Objects = Objects(blocks: seq<Block>, pos: nat, contents: seq<seq<nat>>)

  predicate WellFormed(m: Objects) {
    |m.contents| == |m.blocks|
    && forall i :: 0 <= i < |m.blocks| ==>
         m.blocks[i].start <= m.blocks[i].end && |m.contents[i]| == m.blocks[i].end - m.blocks[i].start
  }

  /** May the objects make this call? */
  predicate Callable(m: Objects, op: Op) {
    match op
    case Allocate(_) => true
    case Truncate(i, to) => i < |m.blocks| && m.blocks[i].start <= to <= m.blocks[i].end
    case Extend(i, _) => i < |m.blocks|
    case Store(i, index, _) => i < |m.blocks| && m.blocks[i].start + index < m.blocks[i].end
  }

  /** Each call changes the words of one object, as if it had memory of its own. */
  function Step(m: Objects, size: nat, op: Op): (m': Objects)
    requires WellFormed(m) && Callable(m, op)
    ensures WellFormed(m')
  {
    match op
    case Allocate(amount) =>
      if m.pos + amount <= size then
        Objects(m.blocks + [Block(m.pos, m.pos + amount)], m.pos + amount, m.contents + [ZeroWords(amount)])
      else m
    case Truncate(i, to) =>
      var b := m.blocks[i];
      Objects(m.blocks[i := Block(b.start, to)], if m.pos == b.end then to else m.pos,
              m.contents[i := m.contents[i][..to - b.start]])
    case Extend(i, to) =>
      var b := m.blocks[i];
      if m.pos == b.end <= to <= size then
        Objects(m.blocks[i := Block(b.start, to)], to, m.contents[i := m.contents[i] + ZeroWords(to - b.end)])
      else m
    case Store(i, index, value) =>
      var c: seq<nat> := m.contents[i][index := value];
      m.(contents := m.contents[i := c])
  }

  /** All calls that may be made, in order. */
  function Steps(m: Objects, size: nat, ops: seq<Op>): (m': Objects)
    requires WellFormed(m)
    ensures WellFormed(m')
  {
    if ops == [] then m
    else
      var before := Steps(m, size, ops[..|ops| - 1]);
      if Callable(before, ops[|ops| - 1]) then Step(before, size, ops[|ops| - 1]) else before
  }

  /** Every call that may be made takes effect, right after those before it. */
  lemma StepsStep(m: Objects, size: nat, ops: seq<Op>, op: Op)
    requires WellFormed(m)
    ensures Steps(m, size, []) == m
    ensures var before := Steps(m, size, ops);
            Steps(m, size, ops + [op]) == if Callable(before, op) then Step(before, size, op) else before
  {
    hide Step, Callable;
    assert (ops + [op])[..|ops|] == ops;
  }

  /** Is there a word `j` in object `i`? */
  predicate Has(m: Objects, i: nat, j: nat)
    requires WellFormed(m)
  {
    i < |m.blocks| && m.blocks[i].start + j < m.blocks[i].end
  }

  /** A call changes the word it stores into and no other; words that were not there are zero. */
  lemma StepWords(m: Objects, size: nat, op: Op, i: nat, j: nat)
    requires WellFormed(m) && Callable(m, op) && Has(Step(m, size, op), i, j)
    ensures Step(m, size, op).contents[i][j]
         == if op.Store? && op.block == i && op.index == j then op.value
            else if Has(m, i, j) then m.contents[i][j]
            else 0
  {
  }

  /** The last value stored in word `j` of object `i`, or what was there. */
  function LastStore(ops: seq<Op>, i: nat, j: nat, was: nat): nat {
    if ops == [] then was
    else
      var last := ops[|ops| - 1];
      if last.Store? && last.block == i && last.index == j then last.value
      else LastStore(ops[..|ops| - 1], i, j, was)
  }

  /** The word is there after each of the calls from the `n`-th on. */
  ghost predicate Stays(m: Objects, size: nat, ops: seq<Op>, n: nat, i: nat, j: nat)
    requires WellFormed(m)
  {
    forall k :: n <= k <= |ops| ==> Has(Steps(m, size, ops[..k]), i, j)
  }

  /** While a word is there, it holds the last value stored in it: no call of any other object,
      and no other call of its own, ever changes it. */
  lemma {:induction false} WordsAreLastStores(m: Objects, size: nat, ops: seq<Op>, n: nat, i: nat, j: nat)
    requires WellFormed(m) && n <= |ops| && Stays(m, size, ops, n, i, j)
    ensures Has(Steps(m, size, ops), i, j) && Has(Steps(m, size, ops[..n]), i, j)
    ensures Steps(m, size, ops).contents[i][j]
         == LastStore(ops[n..], i, j, Steps(m, size, ops[..n]).contents[i][j])
  {
    hide Step, Has, LastStore, WellFormed, Callable;
    assert ops[..|ops|] == ops;
    StoreNeeds(Steps(m, size, ops[..n]), Allocate(0), i, j);
    if n == |ops| {
      assert ops[n..] == [];
      LastStoreSteps([], Allocate(0), i, j, Steps(m, size, ops).contents[i][j]);
    } else {
      var e := |ops| - 1;
      assert forall k :: n <= k <= e ==> ops[..e][..k] == ops[..k];
      WordsAreLastStores(m, size, ops[..e], n, i, j);
      var before, was := Steps(m, size, ops[..e]), Steps(m, size, ops[..n]).contents[i][j];
      LastStoreSteps(ops[..e][n..], ops[e], i, j, was);
      assert ops[n..] == ops[..e][n..] + [ops[e]];
      StoreNeeds(before, ops[e], i, j);
      if Callable(before, ops[e]) {
        StepWords(before, size, ops[e], i, j);
      }
    }
  }

  lemma LastStoreSteps(ops: seq<Op>, op: Op, i: nat, j: nat, was: nat)
    ensures LastStore([], i, j, was) == was
    ensures LastStore(ops + [op], i, j, was)
         == if op.Store? && op.block == i && op.index == j then op.value else LastStore(ops, i, j, was)
  {
    assert (ops + [op])[..|ops|] == ops;
  }

  /** A word that is there can be stored into. */
  lemma StoreNeeds(m: Objects, op: Op, i: nat, j: nat)
    requires WellFormed(m) && Has(m, i, j)
    ensures op.Store? && op.block == i && op.index == j ==> Callable(m, op)
    ensures i < |m.contents| && j < |m.contents[i]|
  {
  }

  /** When a word appears, it is zero. */
  lemma NewWordsAreZero(m: Objects, size: nat, ops: seq<Op>, i: nat, j: nat)
    requires WellFormed(m) && ops != []
    requires Has(Steps(m, size, ops), i, j) && !Has(Steps(m, size, ops[..|ops| - 1]), i, j)
    ensures Steps(m, size, ops).contents[i][j] == 0
  {
    hide Step;
    var before := Steps(m, size, ops[..|ops| - 1]);
    StepWords(before, size, ops[|ops| - 1], i, j);
  }

  function BlockWords(words: seq<nat>, b: Block): seq<nat> {
    if b.start < b.end <= |words| then words[b.start..b.end] else []
  }

  function Contents(words: seq<nat>, blocks: seq<Block>): (c: seq<seq<nat>>)
    ensures |c| == |blocks| && forall i :: 0 <= i < |c| ==> c[i] == BlockWords(words, blocks[i])
  {
    seq(|blocks|, i requires 0 <= i < |blocks| => BlockWords(words, blocks[i]))
  }

  lemma SeeOneMore(words: seq<nat>, blocks: seq<Block>, b: Block)
    ensures Contents(words, blocks + [b]) == Contents(words, blocks) + [BlockWords(words, b)]
  {
  }

  /** Words that change only inside block `i` leave what all other owners see. */
  lemma OthersSeeTheSame(words: seq<nat>, words': seq<nat>, blocks: seq<Block>, pos: nat, i: nat, b: Block)
    requires Apart(blocks, pos) && pos <= |words| == |words'| && i < |blocks|
    requires forall k :: 0 <= k < |words| && !(blocks[i].start <= k < blocks[i].end) ==> words'[k] == words[k]
    ensures Contents(words', blocks[i := b]) == Contents(words, blocks)[i := BlockWords(words', b)]
  {
    var c, after := Contents(words, blocks), Contents(words', blocks[i := b]);
    forall j | 0 <= j < |blocks|
      ensures after[j] == c[i := BlockWords(words', b)][j]
    {
      if j != i {
        assert Disjoint(blocks[if i < j then i else j], blocks[if i < j then j else i]);
        SameBlock(words, words', blocks[j]);
      }
    }
  }

  lemma SameBlock(words: seq<nat>, words': seq<nat>, b: Block)
    requires |words| == |words'| && forall k :: b.start <= k < b.end <= |words| ==> words'[k] == words[k]
    ensures BlockWords(words', b) == BlockWords(words, b)
  {
    if b.start < b.end <= |words| {
      assert words'[b.start..b.end] == words[b.start..b.end];
    }
  }

  /** A block that shrinks keeps its first words. */
  lemma PrefixKept(words: seq<nat>, words': seq<nat>, b: Block, to: nat)
    requires |words| == |words'| && b.start <= to <= b.end && (b.start < b.end ==> b.end <= |words|)
    requires forall k :: b.start <= k < to && k < |words| ==> words'[k] == words[k]
    ensures |BlockWords(words, b)| == b.end - b.start
    ensures BlockWords(words', Block(b.start, to)) == BlockWords(words, b)[..to - b.start]
  {
    if b.start < to {
      assert words'[b.start..to] == words[b.start..to];
      PrefixOfSlice(words, b.start, to, b.end);
    }
  }

  /** The objects of a message in one segment: each knows its own block and nothing else. */
  class Message {
    const segment: SegmentBuilder
    var blocks: seq<Block>

    /** Blocks do not overlap, and everything from the allocation point on is zero. */
    ghost predicate Valid()
      reads this, segment, segment.words
    {
      segment.InBounds() && Apart(blocks, segment.pos)
      && forall k :: segment.pos <= k < segment.words.Length ==> segment.words[k] == 0
    }

    ghost function View(): (m: Objects)
      requires Valid()
      reads this, segment, segment.words
      ensures WellFormed(m)
    {
      Objects(blocks, segment.pos, Contents(segment.words[..], blocks))
    }

    constructor (segment: SegmentBuilder)
      requires segment.pos == 0 && forall k :: 0 <= k < segment.words.Length ==> segment.words[k] == 0
      ensures Valid() && this.segment == segment && View() == Objects([], 0, [])
    {
      this.segment, blocks := segment, [];
    }

    /** A new block, if there is room for it, consists of zeroes. */
    method NewBlock(amount: nat) returns (ok: bool)
      requires Valid()
      modifies this, segment
      ensures Valid() && View() == Step(old(View()), segment.words.Length, Allocate(amount))
      ensures blocks == old(blocks) + if ok then [Block(old(segment.pos), old(segment.pos) + amount)] else []
      ensures segment.words[..] == old(segment.words[..])
      ensures ok ==> forall k :: old(segment.pos) <= k < old(segment.pos) + amount ==> segment.words[k] == 0
      ensures ok <==> old(segment.pos) + amount <= segment.words.Length
    {
      hide Apart, Contents;
      var start;
      start, ok := segment.Allocate(amount);
      if ok {
        ghost var words := segment.words[..];
        AllocateKeepsApart(blocks, start, amount);
        SeeOneMore(words, blocks, Block(start, start + amount));
        assert BlockWords(words, Block(start, start + amount)) == ZeroWords(amount);
        blocks := blocks + [Block(start, start + amount)];
      }
    }

    /** A block shrinks: its owner zeroes what it gives up and offers it back. */
    method ShrinkBlock(i: nat, to: nat)
      requires Valid() && Callable(View(), Truncate(i, to))
      modifies this, segment, segment.words
      ensures Valid() && View() == Step(old(View()), segment.words.Length, Truncate(i, to))
      ensures blocks == old(blocks)[i := Block(old(blocks[i].start), to)]
      ensures segment.pos == if old(segment.pos) == old(blocks[i].end) then to else old(segment.pos)
      ensures forall k :: 0 <= k < segment.words.Length ==>
                segment.words[k] == if to <= k < old(blocks[i].end) then 0 else old(segment.words[k])
    {
      var b := blocks[i];
      ghost var words := segment.words[..];
      TruncateKeepsApart(blocks, segment.pos, i, to);
      for k := to to b.end
        invariant segment.pos == old(segment.pos) && blocks == old(blocks)
        invariant forall j :: 0 <= j < segment.words.Length ==>
                    segment.words[j] == if to <= j < k then 0 else words[j]
      {
        segment.words[k] := 0;
      }
      OthersSeeTheSame(words, segment.words[..], blocks, segment.pos, i, Block(b.start, to));
      PrefixKept(words, segment.words[..], b, to);
      segment.TryTruncate(b.end, to);
      blocks := blocks[i := Block(b.start, to)];
    }

    /** A block grows in place, if it is last and there is room, by zeroed words. */
    method GrowBlock(i: nat, to: nat) returns (ok: bool)
      requires Valid() && Callable(View(), Extend(i, to))
      modifies this, segment
      ensures Valid() && View() == Step(old(View()), segment.words.Length, Extend(i, to))
      ensures blocks == if ok then old(blocks)[i := Block(old(blocks[i].start), to)] else old(blocks)
      ensures segment.words[..] == old(segment.words[..])
      ensures ok ==> forall k :: old(blocks[i].end) <= k < to ==> segment.words[k] == 0
      ensures ok <==> old(segment.pos) == old(blocks)[i].end <= to <= segment.words.Length
    {
      var b := blocks[i];
      ok := segment.TryExtend(b.end, to);
      if ok {
        ExtendKeepsApart(blocks, i, to);
        ghost var words := segment.words[..];
        OthersSeeTheSame(words, words, blocks, b.end, i, Block(b.start, to));
        assert BlockWords(words, Block(b.start, to)) == BlockWords(words, b) + ZeroWords(to - b.end);
        blocks := blocks[i := Block(b.start, to)];
      }
    }

    /** An owner writes a word of its own block. */
    method StoreWord(i: nat, index: nat, value: nat)
      requires Valid() && Callable(View(), Store(i, index, value))
      modifies segment.words
      ensures Valid() && View() == Step(old(View()), segment.words.Length, Store(i, index, value))
      ensures segment.words[..] == old(segment.words[..])[old(blocks[i].start) + index := value]
    {
      var b := blocks[i];
      ghost var words := segment.words[..];
      segment.words[b.start + index] := value;
      assert blocks[i := b] == blocks && segment.words[..] == words[b.start + index := value];
      OthersSeeTheSame(words, segment.words[..], blocks, segment.pos, i, b);
      assert BlockWords(segment.words[..], b) == BlockWords(words, b)[index := value];
    }

    /** Over every run of calls blocks stay disjoint and inside the segment, words beyond the
        allocation point zero, and every object sees memory that no other object touches. */
    method Run(ops: seq<Op>)
      requires Valid()
      modifies this, segment, segment.words
      ensures Valid() && View() == Steps(old(View()), segment.words.Length, ops)
    {
      hide Apart, Step;
      for n := 0 to |ops|
        invariant Valid() && View() == Steps(old(View()), segment.words.Length, ops[..n])
      {
        assert ops[..n + 1][..n] == ops[..n];
        var op := ops[n];
        match op {
          case Allocate(amount) =>
            var ok := NewBlock(amount);
          case Truncate(i, to) =>
            if i < |blocks| && blocks[i].start <= to <= blocks[i].end {
              ShrinkBlock(i, to);
            }
          case Extend(i, to) =>
            if i < |blocks| {
              var ok := GrowBlock(i, to);
            }
          case Store(i, index, value) =>
            if i < |blocks| && blocks[i].start + index < blocks[i].end {
              StoreWord(i, index, value);
            }
        }
      }
      assert ops[..|ops|] == ops;
    }

    /** Reset after any run leaves the whole segment zero, ready for another message. */
    method Recycle()
      requires Valid()
      modifies this, segment, segment.words
      ensures Valid() && View() == Objects([], 0, [])
      ensures forall k :: 0 <= k < segment.words.Length ==> segment.words[k] == 0
    {
      segment.Reset();
      blocks := [];
    }
  }
}
