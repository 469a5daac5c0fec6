/**
 The packed streams of c++/src/capnp/serialize-packed.c++, over inner streams that hand out
 buffers of any size.  Every method is proved against the functions of module Packing: the
 words read or written do not depend on where the buffer boundaries happen to fall, nor does
 success, except for reads that want more words than they require and come to the end of what
 can be read; for those the exact condition is given.  Sizes are counted in words, since the
 streams accept whole words only.
 */
module PackedStreams {
  import opened Basics
  import opened Bytes
  import opened Packing
  import opened PackedBlocks

  /** kj::BufferedInputStream: each refill of the buffer may deliver any positive amount. */
  class BufferedInput {
    var rest: seq<byte>   // all bytes not yet skipped
    var avail: nat        // how many of them the buffer holds

    ghost predicate Valid()
      reads this
    {
      avail <= |rest|
    }

    constructor (data: seq<byte>)
      ensures Valid() && rest == data
    {
      rest, avail := data, 0;
    }

    /** A stream whose first buffer holds the first `n` bytes. */
    constructor Cut(data: seq<byte>, n: nat)
      requires n <= |data|
      ensures Valid() && rest == data && avail == n
    {
      rest, avail := data, n;
    }

    /** Leaves the buffer empty only at the end of the stream. */
    method TryGetReadBuffer()
      requires Valid()
      modifies this`avail
      ensures Valid() && (old(avail) > 0 ==> avail == old(avail))
      ensures avail == 0 <==> rest == []
    {
      if avail == 0 && rest != [] {
        var n :| 1 <= n <= |rest|;
        avail := n;
      }
    }

    method Skip(n: nat) returns (ok: bool)
      requires Valid()
      modifies this
      ensures Valid()
      ensures ok <==> n <= |old(rest)|
      ensures ok ==> rest == old(rest)[n..]
      ensures n <= old(avail) ==> avail == old(avail) - n
    {
      ok := n <= |rest|;
      if n <= avail {
        rest, avail := rest[n..], avail - n;
      } else if ok {
        rest := rest[n..];
        var left :| 0 <= left <= |rest|;
        avail := left;
      }
    }

    /** Reads exactly `n` bytes into `dst[at..]`. */
    method Read(dst: array<byte>, at: nat, n: nat) returns (ok: bool)
      requires Valid() && at + n <= dst.Length
      modifies this, dst
      ensures Valid()
      ensures ok <==> n <= |old(rest)|
      ensures ok ==> rest == old(rest)[n..] && dst[..] == Splice(old(dst[..]), at, old(rest)[..n])
    {
      if n <= |rest| {
        Copy(rest[..n], dst, at);
      }
      ok := Skip(n);
    }
  }

  method Fill(dst: array<byte>, at: nat, n: nat)
    requires at + n <= dst.Length
    modifies dst
    ensures dst[..] == Splice(old(dst[..]), at, Zeros(n))
  {
    Copy(Zeros(n), dst, at);
  }

  /** REFRESH_BUFFER: give up the whole buffer and get the next one. */
  method Refresh(inner: BufferedInput) returns (ok: bool)
    requires inner.Valid()
    modifies inner
    ensures inner.Valid() && inner.rest == old(inner.rest)[old(inner.avail)..]
    ensures ok <==> inner.rest != []
    ensures ok ==> inner.avail > 0
  {
    ok := inner.Skip(inner.avail);
    inner.TryGetReadBuffer();
    ok := inner.avail > 0;
  }

  // ---------------------------------------------------------------------------------------
  // Reading

  /** What is left of the stream, behind the read position `pos` in the buffer. */
  ghost predicate At(inner: BufferedInput, pos: nat, unread: seq<byte>)
    reads inner
  {
    inner.Valid() && pos <= inner.avail && inner.rest[pos..] == unread
  }

  /** Unfolds one byte of a word. */
  lemma ExpandByte(tag: byte, i: nat, body: seq<byte>)
    requires i < 8 && |body| == SetBits(tag, i)
    ensures Bit(tag, i) ==>
              |body| == 1 + SetBits(tag, i + 1) && Expand(tag, i, body) == [body[0]] + Expand(tag, i + 1, body[1..])
    ensures !Bit(tag, i) ==> |body| == SetBits(tag, i + 1) && Expand(tag, i, body) == [0] + Expand(tag, i + 1, body)
  {
  }

  lemma SetBitsStep(tag: byte, i: nat)
    requires i < 8
    ensures SetBits(tag, i) == (if Bit(tag, i) then 1 else 0) + SetBits(tag, i + 1)
  {
  }

  lemma ExpandEnd(tag: byte)
    ensures SetBits(tag, 8) == 0 && Expand(tag, 8, []) == []
  {
  }

  /** While a word is being written: `done` precedes what its bytes `i..7` expand to. */
  ghost predicate WordSoFar(tag: byte, i: nat, u: seq<byte>, k: nat, done: seq<byte>)
    requires i <= 8
  {
    k + SetBits(tag, i) == SetBits(tag, 0) && |done| == i && k <= |u|
    && (SetBits(tag, 0) <= |u| ==>
          done + Expand(tag, i, u[k..SetBits(tag, 0)]) == Expand(tag, 0, u[..SetBits(tag, 0)]))
  }

  lemma WordStart(tag: byte, u: seq<byte>)
    ensures WordSoFar(tag, 0, u, 0, [])
  {
  }

  lemma WordGrows(tag: byte, i: nat, u: seq<byte>, k: nat, done: seq<byte>)
    requires i < 8 && WordSoFar(tag, i, u, k, done)
    ensures Bit(tag, i) && k < |u| ==> WordSoFar(tag, i + 1, u, k + 1, done + [u[k]])
    ensures !Bit(tag, i) ==> WordSoFar(tag, i + 1, u, k, done + [0])
  {
    hide SetBits, Expand, Bit;
    var end := SetBits(tag, 0);
    SetBitsStep(tag, i);
    if end <= |u| {
      ExpandByte(tag, i, u[k..end]);
      if Bit(tag, i) {
        assert u[k..end][1..] == u[k + 1..end];
      }
    }
  }

  lemma WordComplete(tag: byte, u: seq<byte>, k: nat, done: seq<byte>)
    requires WordSoFar(tag, 8, u, k, done)
    ensures k == SetBits(tag, 0) <= |u| && done == Expand(tag, 0, u[..k])
  {
    ExpandEnd(tag);
    assert u[k..k] == [] && done + [] == done;
  }

  /** The word of `tag`, with a bounds check before every byte. */
  method SlowWord(inner: BufferedInput, start: nat, ghost u: seq<byte>, tag: byte, dst: array<byte>, out: nat)
    returns (ok: bool, pos: nat)
    requires At(inner, start, u) && out + 8 <= dst.Length
    modifies inner, dst
    ensures inner.Valid()
    ensures ok <==> SetBits(tag, 0) <= |u|
    ensures ok ==> At(inner, pos, u[SetBits(tag, 0)..])
    ensures ok ==> dst[..] == Splice(old(dst[..]), out, Expand(tag, 0, u[..SetBits(tag, 0)]))
    ensures start + SetBits(tag, 0) <= old(inner.avail) ==>
              inner.avail - pos == old(inner.avail) - start - SetBits(tag, 0)
  {
    hide SetBits, Expand, Bit, WordSoFar, Splice;
    pos := start;
    ghost var k, done, d, held := 0, [], dst[..], inner.avail - start;
    WordStart(tag, u);
    SpliceNothing(d, out);
    for i := 0 to 8
      invariant k <= |u| && |done| == i && WordSoFar(tag, i, u, k, done)
      invariant k + SetBits(tag, i) == SetBits(tag, 0)
      invariant At(inner, pos, u[k..]) && (SetBits(tag, 0) <= held ==> inner.avail - pos == held - k)
      invariant dst[..] == Splice(d, out, done)
    {
      WordGrows(tag, i, u, k, done);
      SetBitsStep(tag, i);
      ghost var before := dst[..];
      if Bit(tag, i) {
        if inner.avail == pos {
          var more := Refresh(inner);
          pos := 0;
          if !more {
            RunsOut(tag, i, u, k, done);
            ok := false;
            return;
          }
        }
        SuffixStep(inner.rest, pos, u, k);
        dst[out + i] := inner.rest[pos];
        assert dst[..] == before[out + i := u[k]];
        SplicePut(d, out, done, u[k]);
        done, pos, k := done + [u[k]], pos + 1, k + 1;
      } else {
        dst[out + i] := 0;
        assert dst[..] == before[out + i := 0];
        SplicePut(d, out, done, 0);
        done := done + [0];
      }
    }
    WordComplete(tag, u, k, done);
    ok := true;
  }

  lemma RunsOut(tag: byte, i: nat, u: seq<byte>, k: nat, done: seq<byte>)
    requires i < 8 && WordSoFar(tag, i, u, k, done) && Bit(tag, i) && k == |u|
    ensures |u| < SetBits(tag, 0)
  {
    SetBitsStep(tag, i);
  }

  /** The word of `tag` when the buffer is known to hold all of it. */
  method FastWord(inner: BufferedInput, start: nat, ghost u: seq<byte>, tag: byte, dst: array<byte>, out: nat)
    returns (pos: nat)
    requires At(inner, start, u) && out + 8 <= dst.Length && start + 9 <= inner.avail
    modifies dst
    ensures SetBits(tag, 0) <= |u| && At(inner, pos, u[SetBits(tag, 0)..])
    ensures pos == start + SetBits(tag, 0) < inner.avail
    ensures dst[..] == Splice(old(dst[..]), out, Expand(tag, 0, u[..SetBits(tag, 0)]))
  {
    hide SetBits, Expand, Bit, WordSoFar, Splice;
    pos := start;
    ghost var k, done, d := 0, [], dst[..];
    WordStart(tag, u);
    SpliceNothing(d, out);
    for i := 0 to 8
      invariant k <= i && |done| == i && WordSoFar(tag, i, u, k, done) && pos == start + k
      invariant dst[..] == Splice(d, out, done)
    {
      WordGrows(tag, i, u, k, done);
      ghost var before := dst[..];
      assert inner.rest[pos] == u[k];
      var isNonzero := Bit(tag, i);
      dst[out + i] := if isNonzero then inner.rest[pos] else 0;
      ghost var b := if isNonzero then u[k] else 0;
      assert dst[..] == before[out + i := b];
      SplicePut(d, out, done, b);
      done := done + [b];
      if isNonzero {
        pos, k := pos + 1, k + 1;
      }
    }
    WordComplete(tag, u, k, done);
    assert inner.rest[pos..] == u[k..];
  }

  datatype Status = Done(pos: nat) | Broken(error: Error)

  /** The bytes of a run: the count and, after tag 255, the words it announces. */
  function RunSize(tag: byte, u: seq<byte>): nat
    requires u != []
  {
    var count: nat := u[0];
    1 + (if tag == 255 then 8 * count else 0)
  }

  /** The run after a special tag; `room` words of output remain.  A complete run fails when it
      overruns the buffer, ends the stream and leaves room for more. */
  method ReadRun(inner: BufferedInput, start: nat, ghost u: seq<byte>, tag: byte, dst: array<byte>, out: nat, room: nat)
    returns (r: Status, count: nat)
    requires At(inner, start, u) && start < inner.avail && Special(tag) && out + 8 * room <= dst.Length
    modifies inner, dst
    ensures inner.Valid() && u != []
    ensures r.Broken? ==> DecodeRun(tag, u, room) == Failed(r.error)
    ensures r.Done? ==> HasRun(tag, u) && count == u[0] <= room && At(inner, r.pos, RunRest(tag, u))
    ensures r.Done? ==> dst[..] == Splice(old(dst[..]), out, RunBytes(tag, u))
    ensures HasRun(tag, u) && u[0] <= room ==>
              (r.Broken? <==> start + RunSize(tag, u) > old(inner.avail) && u[0] < room && RunRest(tag, u) == [])
    ensures r.Done? && start + RunSize(tag, u) <= old(inner.avail) ==>
              inner.avail - r.pos == old(inner.avail) - start - RunSize(tag, u)
  {
    hide Decode, Expand, SetBits, Zeros, Splice;
    count := inner.rest[start];
    var pos := start + 1;
    assert inner.rest[start..] == u[0..];
    SuffixStep(inner.rest, start, u, 0);
    if count > room {
      return Broken(NotOnBoundary), count;
    }
    if tag == 0 {
      Fill(dst, out, 8 * count);
      return Done(pos), count;
    }
    if inner.avail - pos >= 8 * count {
      SameSuffix(inner.rest, pos, u, 1, 8 * count);
      Copy(inner.rest[pos..pos + 8 * count], dst, out);
      pos := pos + 8 * count;
      return Done(pos), count;
    }
    r := ReadLongRun(inner, pos, u, dst, out, room, count);
  }

  /** A run of plain words that overruns the buffer: the rest of it is one big read, after which
      the next buffer is asked for even if the stream has ended. */
  method ReadLongRun(
      inner: BufferedInput, pos: nat, ghost u: seq<byte>, dst: array<byte>, out: nat, room: nat, count: nat)
    returns (r: Status)
    requires u != [] && count == u[0] <= room && At(inner, pos, u[1..]) && inner.avail - pos < 8 * count
    requires out + 8 * room <= dst.Length
    modifies inner, dst
    ensures inner.Valid()
    ensures r.Broken? ==> DecodeRun(255, u, room) == Failed(r.error)
    ensures r.Broken? <==> !HasRun(255, u) || (count < room && RunRest(255, u) == [])
    ensures r.Done? ==> At(inner, r.pos, RunRest(255, u))
    ensures r.Done? ==> dst[..] == Splice(old(dst[..]), out, RunBytes(255, u))
  {
    hide Decode, Expand, SetBits, Zeros, Splice;
    var m, n := inner.avail - pos, 8 * count;
    SameSuffix(inner.rest, pos, u, 1, m);
    Copy(inner.rest[pos..inner.avail], dst, out);
    var ok := inner.Skip(inner.avail);
    ok := inner.Read(dst, out + m, n - m);
    if !ok {
      return Broken(PrematureEnd);
    }
    SliceOfSuffix(u, 1 + m, 0, n - m);
    SuffixOfSuffix(u, 1 + m, n - m);
    JoinSlices(u, 1, 1 + m, 1 + n);
    SpliceSplice(old(dst[..]), out, u[1..1 + m], u[1 + m..1 + n]);
    if count < room {
      inner.TryGetReadBuffer();
      if inner.avail == 0 {
        NothingLeft(room - count);
        return Broken(PrematureEnd);
      }
    }
    return Done(0);
  }

  lemma NothingLeft(n: nat)
    requires n > 0
    ensures Decode([], n) == Failed(PrematureEnd)
  {
  }

  /** The first word of a block; after a special tag the run count is then in the buffer. */
  method ReadHeader(inner: BufferedInput, start: nat, ghost u: seq<byte>, dst: array<byte>, out: nat)
    returns (ok: bool, tag: byte, pos: nat)
    requires At(inner, start, u) && start < inner.avail && out + 8 <= dst.Length
    modifies inner, dst
    ensures inner.Valid() && u != [] && tag == u[0]
    ensures ok <==> HeaderSize(u) <= |u|
    ensures var k := 1 + SetBits(u[0], 0);
            ok ==> At(inner, pos, u[k..]) && (Special(tag) ==> pos < inner.avail)
                   && dst[..] == Splice(old(dst[..]), out, Expand(u[0], 0, u[1..k]))
                   && (start + HeaderSize(u) <= old(inner.avail) ==> inner.avail - pos == old(inner.avail) - start - k)
  {
    hide SetBits, Expand, Splice;
    tag := inner.rest[start];
    assert tag == u[0] && At(inner, start + 1, u[1..]);
    ghost var k := 1 + SetBits(tag, 0);
    if inner.avail - start < 10 {
      ok, pos := SlowWord(inner, start + 1, u[1..], tag, dst, out);
    } else {
      ok := true;
      pos := FastWord(inner, start + 1, u[1..], tag, dst, out);
    }
    if ok {
      SliceOfSuffix(u, 1, 0, k - 1);
      SuffixOfSuffix(u, 1, k - 1);
      if Special(tag) && inner.avail == pos {
        ok := Refresh(inner);
        pos := 0;
      }
    }
  }

  /** One block; `room` words of output remain. */
  method ReadBlock(inner: BufferedInput, start: nat, ghost u: seq<byte>, dst: array<byte>, out: nat, room: nat)
    returns (r: Status, words: nat)
    requires At(inner, start, u) && start < inner.avail && room > 0 && out + 8 * room <= dst.Length
    modifies inner, dst
    ensures inner.Valid()
    ensures r.Broken? ==> Decode(u, room) == Failed(r.error)
    ensures r.Done? ==> FirstBlock(u, room).Block? && words == FirstBlock(u, room).words
    ensures r.Done? ==> At(inner, r.pos, u[FirstBlock(u, room).size..])
    ensures r.Done? ==> dst[..] == Splice(old(dst[..]), out, BlockBytes(u, room))
    ensures r.Broken? ==> BlockBreaks(u, room)
    ensures ServedFrom(u, old(inner.avail) - start, room, r, inner.avail)
  {
    hide Decode, DecodeRun, SetBits, Expand, RunBytes, RunRest, HasRun, Splice, FirstBlock, BlockBytes;
    var ok, tag, pos := ReadHeader(inner, start, u, dst, out);
    words := 1;
    if !ok {
      ShortBlock(u, room);
      return Broken(PrematureEnd), words;
    }
    ghost var k := 1 + SetBits(tag, 0);
    if !Special(tag) {
      OrdinaryBlock(u, room);
      return Done(pos), words;
    }
    var n;
    r, n := ReadRun(inner, pos, u[k..], tag, dst, out + 8, room - 1);
    words := 1 + n;
    SpecialBlock(u, room);
    if r.Done? {
      SpliceSplice(old(dst[..]), out, Expand(tag, 0, u[1..k]), RunBytes(tag, u[k..]));
    }
  }

  /** Why a block cannot be read: it is not there, or it ends in plain words at the end of the
      stream with room for more. */
  ghost predicate BlockBreaks(u: seq<byte>, room: nat) {
    var b := FirstBlock(u, room);
    b.NoBlock? || (b.plain && b.words < room && u[b.size..] == [])
  }

  /** What is known of a block whose header is among the first `held` bytes, those in the buffer;
      `avail` is the size of the buffer afterwards. */
  ghost predicate ServedFrom(u: seq<byte>, held: nat, room: nat, r: Status, avail: nat)
    requires u != []
  {
    var b := FirstBlock(u, room);
    (b.Block? && HeaderSize(u) <= held ==> (r.Broken? <==> b.size > held && b.words < room && u[b.size..] == []))
    && (b.Block? && r.Done? && b.size <= held ==> avail - r.pos == held - b.size)
  }

  /** The stream ends within the header. */
  lemma ShortBlock(u: seq<byte>, room: nat)
    requires room > 0 && u != [] && |u| < HeaderSize(u)
    ensures Decode(u, room) == Failed(PrematureEnd)
    ensures FirstBlock(u, room).NoBlock?
  {
    hide Decode, DecodeRun, SetBits, Expand, RunBytes, RunRest;
    var k := 1 + SetBits(u[0], 0);
    if |u| < k {
      DecodeShort(u, room);
    } else {
      DecodeFirst(u, room);
      assert u[k..] == [];
      NoCount(u[0], room - 1);
    }
  }

  lemma NoCount(tag: byte, n: nat)
    requires Special(tag)
    ensures DecodeRun(tag, [], n) == Failed(PrematureEnd)
  {
  }

  lemma OrdinaryBlock(u: seq<byte>, room: nat)
    requires room > 0 && u != [] && !Special(u[0]) && HeaderSize(u) <= |u|
    ensures var k := 1 + SetBits(u[0], 0);
            FirstBlock(u, room) == Block(1, k, false) && BlockBytes(u, room) == Expand(u[0], 0, u[1..k])
  {
    hide SetBits, Expand;
    var k := 1 + SetBits(u[0], 0);
    assert Expand(u[0], 0, u[1..k]) + [] == Expand(u[0], 0, u[1..k]);
  }

  /** A block with a run. */
  lemma SpecialBlock(u: seq<byte>, room: nat)
    requires room > 0 && u != [] && Special(u[0]) && HeaderSize(u) <= |u|
    ensures var k := 1 + SetBits(u[0], 0);
            FirstBlock(u, room).Block? <==> HasRun(u[0], u[k..]) && u[k] <= room - 1
    ensures var k, b := 1 + SetBits(u[0], 0), FirstBlock(u, room);
            b.Block? ==> b.words - 1 == u[k] && b.size == k + RunSize(u[0], u[k..])
                         && u[b.size..] == RunRest(u[0], u[k..]) && b.plain == (u[0] == 255 && u[k] > 0)
                         && BlockBytes(u, room) == Expand(u[0], 0, u[1..k]) + RunBytes(u[0], u[k..])
    ensures var k := 1 + SetBits(u[0], 0);
            Decode(u, room) == Then(Expand(u[0], 0, u[1..k]), DecodeRun(u[0], u[k..], room - 1))
  {
    hide Decode, DecodeRun, SetBits, Expand, RunBytes, RunRest;
    DecodeFirst(u, room);
    if FirstBlock(u, room).Block? {
      BlockRest(u, room);
    }
  }

  datatype ReadResult = Words(count: nat) | Error(error: Error)

  /** PackedInputStream::tryRead into the `max` words at `dst[lo..]`; `x` is what it read.
      Whatever the buffer sizes, what was read is what the stream decodes to, and a failure is a
      failure of decoding.  Whether the read returns is decided by the stream alone when it is
      settled or hopeless; for what the first buffer holds, it is decided by `FirstBuffer`. */
  method TryRead(inner: BufferedInput, dst: array<byte>, lo: nat, max: nat, min: nat)
    returns (r: ReadResult, ghost x: seq<byte>)
    requires inner.Valid() && lo + 8 * max <= dst.Length && min <= max
    modifies inner, dst
    ensures inner.Valid()
    ensures r.Error? ==> Decode(old(inner.rest), max) == Failed(r.error)
    ensures r.Words? ==> r.count <= max && (r.count >= min || (r.count == 0 && old(inner.rest) == []))
    ensures r.Words? ==> |x| == 8 * r.count && dst[..] == Splice(old(dst[..]), lo, x)
    ensures r.Words? ==> Decode(old(inner.rest), r.count) == Decoded(x, inner.rest)
    ensures Settled(old(inner.rest), max, min) ==> r.Words?
    ensures Hopeless(old(inner.rest), max, min) ==> r.Error?
    ensures Obeys(r, FateOf(old(inner.rest), old(inner.avail), max, min))
  {
    hide Decode, FirstBlock, BlockBytes, Furthest, FirstBuffer, Splice, Settled, Hopeless;
    hide BlockBreaks, EndOf, FateOf, FateFrom, Obeys, ServedFrom;
    ghost var s, d, plain := inner.rest, dst[..], false;
    ghost var fate, first := FateOf(inner.rest, inner.avail, max, min), inner.avail > 0;
    x := [];
    DecodeNothing(s);
    SpliceNothing(d, lo);
    NothingToDo(s, max, min, inner.avail);
    if max == 0 {
      return Words(0), x;
    }
    inner.TryGetReadBuffer();
    if inner.avail == 0 {
      return Words(0), x;
    }
    var words: nat, pos: nat := 0, 0;
    assert inner.rest[0..] == s;
    while true
      invariant inner.Valid() && pos <= inner.avail && words < max && |x| == 8 * words
      invariant Decode(s, words) == Decoded(x, inner.rest[pos..])
      invariant dst[..] == Splice(d, lo, x)
      invariant EndOf(s, max, words, inner.rest[pos..], plain)
      invariant FateFrom(fate, first, words, inner.rest[pos..], inner.avail - pos, max, min)
      decreases max - words, if inner.avail == pos then 1 else 0
    {
      ghost var u, held := inner.rest[pos..], inner.avail - pos;
      if inner.avail - pos < 10 {
        if words >= min {
          EnoughRead(s, max, min, words, u, plain, fate, first, held);
          var skipped := inner.Skip(pos);
          return Words(words), x;
        }
        if inner.avail == pos {
          LeavesBuffer(fate, first, words, u, max, min);
          first := false;
          var more := Refresh(inner);
          pos := 0;
          assert inner.rest[0..] == u;
          if !more {
            NothingLeft(max - words);
            ReadOn(s, words, x, u, max - words);
            EndsShort(s, max, min, words, plain);
            return Error(PrematureEnd), x;
          }
          continue;
        }
      }
      var status, n := ReadBlock(inner, pos, u, dst, lo + 8 * words, max - words);
      ReadOn(s, words, x, u, max - words);
      FateStep(fate, first, words, u, held, max, min, status, inner.avail);
      if status.Broken? {
        EndsBroken(s, max, min, words, u, plain);
        return Error(status.error), x;
      }
      ghost var b := FirstBlock(u, max - words);
      EndStep(s, max, words, u, plain);
      SpliceSplice(d, lo, x, BlockBytes(u, max - words));
      x := x + BlockBytes(u, max - words);
      first, plain := first && b.size <= held, b.plain;
      pos, words := status.pos, words + n;
      if words == max {
        AllRead(s, max, min, inner.rest[pos..], plain);
        var skipped := inner.Skip(pos);
        return Words(max), x;
      }
    }
  }

  /** A read that is neither settled nor hopeless, with two different first buffers: it returns
      words in one case and fails in the other. */
  method CutMatters(s: seq<byte>, max: nat, min: nat) returns (good: ReadResult, bad: ReadResult)
    requires min <= max && !Settled(s, max, min) && !Hopeless(s, max, min)
    ensures good.Words? && bad.Error?
  {
    hide Settled, Hopeless, FirstBuffer;
    ghost var g, b := CutDecides(s, max, min);
    var n :| 0 < n <= |s| && FirstBuffer(s, n, max, min).Returns?;
    var m :| 0 < m <= |s| && FirstBuffer(s, m, max, min).Fails?;
    var dst := new byte[8 * max](_ => 0);
    var input := new BufferedInput.Cut(s, n);
    ghost var x;
    good, x := TryRead(input, dst, 0, max, min);
    input := new BufferedInput.Cut(s, m);
    bad, x := TryRead(input, dst, 0, max, min);
  }

  // ---------------------------------------------------------------------------------------
  // What the loop of tryRead knows

  /** What `FirstBuffer` says of a read that starts with `held` bytes in the buffer. */
  ghost function FateOf(s: seq<byte>, held: nat, max: nat, min: nat): Fate
    requires held <= |s|
  {
    if held == 0 then Leaves else FirstBuffer(s, held, max, min)
  }

  ghost predicate Obeys(r: ReadResult, fate: Fate) {
    (fate.Returns? ==> r == Words(fate.words)) && (fate.Fails? ==> r.Error?)
  }

  /** After `words` words `u` is left; reading on ends where reading all of `s` does. */
  ghost predicate EndOf(s: seq<byte>, max: nat, words: nat, u: seq<byte>, plain: bool)
    requires words <= max
  {
    var e := Furthest(u, max - words, plain);
    s != [] && Furthest(s, max, false) == End(words + e.words, e.rest, e.plain)
  }

  /** While the `first` buffer lasts, the fate of the read is that of the rest of it. */
  ghost predicate FateFrom(fate: Fate, first: bool, words: nat, u: seq<byte>, held: nat, max: nat, min: nat)
    requires held <= |u| && words <= max
  {
    fate == if first then After(words, FirstBuffer(u, held, max - words, Less(min, words))) else Leaves
  }

  /** Reads that never get to the loop. */
  lemma NothingToDo(s: seq<byte>, max: nat, min: nat, held: nat)
    requires min <= max && held <= |s|
    ensures max == 0 || s == [] ==> Settled(s, max, min) && !Hopeless(s, max, min)
    ensures max == 0 || s == [] ==> Obeys(Words(0), FateOf(s, held, max, min))
    ensures s != [] ==> EndOf(s, max, 0, s, false)
    ensures held > 0 ==> FateFrom(FateOf(s, held, max, min), true, 0, s, held, max, min)
    ensures forall h :: held == 0 && 0 <= h <= |s| ==> FateFrom(FateOf(s, held, max, min), false, 0, s, h, max, min)
  {
  }

  lemma EnoughRead(s: seq<byte>, max: nat, min: nat, words: nat, u: seq<byte>, plain: bool,
                   fate: Fate, first: bool, held: nat)
    requires min <= words < max && held <= |u| && held < 10
    requires EndOf(s, max, words, u, plain) && FateFrom(fate, first, words, u, held, max, min)
    ensures !Hopeless(s, max, min) && Obeys(Words(words), fate)
  {
  }

  lemma LeavesBuffer(fate: Fate, first: bool, words: nat, u: seq<byte>, max: nat, min: nat)
    requires words < min <= max && FateFrom(fate, first, words, u, 0, max, min)
    ensures forall h :: 0 <= h <= |u| ==> FateFrom(fate, false, words, u, h, max, min)
    ensures Obeys(Error(PrematureEnd), fate)
  {
  }

  lemma EndsShort(s: seq<byte>, max: nat, min: nat, words: nat, plain: bool)
    requires words < min <= max && EndOf(s, max, words, [], plain)
    ensures !Settled(s, max, min)
  {
  }

  /** Reading one more block. */
  lemma EndStep(s: seq<byte>, max: nat, words: nat, u: seq<byte>, plain: bool)
    requires words < max && EndOf(s, max, words, u, plain) && FirstBlock(u, max - words).Block?
    ensures var b := FirstBlock(u, max - words); EndOf(s, max, words + b.words, u[b.size..], b.plain)
  {
    hide FirstBlock;
  }

  /** A block that cannot be read. */
  lemma EndsBroken(s: seq<byte>, max: nat, min: nat, words: nat, u: seq<byte>, plain: bool)
    requires words < max && min <= max && (|u| < 10 ==> words < min)
    requires EndOf(s, max, words, u, plain) && BlockBreaks(u, max - words)
    ensures !Settled(s, max, min)
  {
    hide FirstBlock;
    var b := FirstBlock(u, max - words);
    if b.Block? {
      EndStep(s, max, words, u, plain);
      NoMoreBlocks(max - words - b.words, b.plain);
    }
  }

  lemma NoMoreBlocks(room: nat, plain: bool)
    ensures Furthest([], room, plain) == End(0, [], plain)
  {
  }

  /** What the block means for a read that may still be served from the first buffer. */
  lemma FateStep(fate: Fate, first: bool, words: nat, u: seq<byte>, held: nat, max: nat, min: nat,
                 r: Status, avail: nat)
    requires words < max && min <= max && 0 < held <= |u| && (held < 10 ==> words < min)
    requires FateFrom(fate, first, words, u, held, max, min) && ServedFrom(u, held, max - words, r, avail)
    requires var b := FirstBlock(u, max - words); r.Done? ==> b.Block? && r.pos <= avail <= r.pos + |u| - b.size
    ensures r.Broken? ==> Obeys(Error(r.error), fate)
    ensures var b := FirstBlock(u, max - words);
            r.Done? && words + b.words == max ==> Obeys(Words(max), fate)
    ensures var b := FirstBlock(u, max - words);
            r.Done? && words + b.words < max ==>
              FateFrom(fate, first && b.size <= held, words + b.words, u[b.size..], avail - r.pos, max, min)
  {
    hide FirstBlock, HeaderSize;
    var b, room, need := FirstBlock(u, max - words), max - words, Less(min, words);
    assert first ==> fate == After(words, FirstBuffer(u, held, room, need)) && (held < 10 ==> need > 0);
    if r.Done? && b.size <= held {
      HeaderWithin(u, room);
      SplitFate(words, b.words, FirstBuffer(u[b.size..], held - b.size, room - b.words, Less(need, b.words)), min);
      assert room - b.words == max - (words + b.words);
    }
  }

  lemma SplitFate(a: nat, b: nat, f: Fate, min: nat)
    ensures After(a, After(b, f)) == After(a + b, f)
    ensures Less(Less(min, a), b) == Less(min, a + b)
  {
  }

  lemma AllRead(s: seq<byte>, max: nat, min: nat, u: seq<byte>, plain: bool)
    requires min <= max && EndOf(s, max, max, u, plain)
    ensures !Hopeless(s, max, min)
  {
  }

  // ---------------------------------------------------------------------------------------
  // Skipping

  /** Passes over the bytes of a word, refilling the buffer when it runs dry. */
  method SkipSlowWord(inner: BufferedInput, start: nat, ghost u: seq<byte>, tag: byte) returns (ok: bool, pos: nat)
    requires At(inner, start, u)
    modifies inner
    ensures inner.Valid()
    ensures ok <==> SetBits(tag, 0) <= |u|
    ensures ok ==> At(inner, pos, u[SetBits(tag, 0)..])
  {
    hide SetBits, Bit;
    pos := start;
    ghost var k := 0;
    for i := 0 to 8
      invariant k <= |u| && k + SetBits(tag, i) == SetBits(tag, 0) && At(inner, pos, u[k..])
    {
      SetBitsStep(tag, i);
      if Bit(tag, i) {
        if inner.avail == pos {
          var more := Refresh(inner);
          pos := 0;
          if !more {
            ok := false;
            return;
          }
        }
        SuffixStep(inner.rest, pos, u, k);
        pos, k := pos + 1, k + 1;
      }
    }
    ExpandEnd(tag);
    ok := true;
  }

  method SkipFastWord(inner: BufferedInput, start: nat, ghost u: seq<byte>, tag: byte) returns (pos: nat)
    requires At(inner, start, u) && start + 9 <= inner.avail
    ensures SetBits(tag, 0) <= |u| && At(inner, pos, u[SetBits(tag, 0)..])
    ensures pos < inner.avail
  {
    hide SetBits, Bit;
    pos := start;
    for i := 0 to 8
      invariant pos <= start + i && pos - start + SetBits(tag, i) == SetBits(tag, 0)
    {
      SetBitsStep(tag, i);
      if Bit(tag, i) {
        pos := pos + 1;
      }
    }
    ExpandEnd(tag);
    assert inner.rest[pos..] == u[SetBits(tag, 0)..];
  }

  /** The run after a special tag; `left` words remain to be skipped. */
  method SkipRun(inner: BufferedInput, start: nat, ghost u: seq<byte>, tag: byte, left: nat)
    returns (r: Status, count: nat)
    requires At(inner, start, u) && start < inner.avail && Special(tag)
    modifies inner
    ensures inner.Valid() && u != []
    ensures r.Broken? ==> DecodeRun(tag, u, left) == Failed(r.error)
    ensures r.Done? ==> HasRun(tag, u) && count == u[0] <= left && At(inner, r.pos, RunRest(tag, u))
  {
    hide Decode, Expand, SetBits, Zeros;
    count := inner.rest[start];
    var pos := start + 1;
    assert inner.rest[start..] == u[0..];
    SuffixStep(inner.rest, start, u, 0);
    if count > left {
      return Broken(NotOnBoundary), count;
    }
    if tag == 0 {
      return Done(pos), count;
    }
    var inRemaining := inner.avail - pos;
    if inRemaining > 8 * count {
      SameSuffix(inner.rest, pos, u, 1, 8 * count);
      pos := pos + 8 * count;
      return Done(pos), count;
    }
    ghost var before := inner.rest;
    var ok := inner.Skip(inner.avail + 8 * count - inRemaining);
    if !ok {
      return Broken(PrematureEnd), count;
    }
    SameSuffix(before, pos, u, 1, 8 * count);
    if count < left {
      inner.TryGetReadBuffer();
      if inner.avail == 0 {
        NothingLeft(left - count);
        return Broken(PrematureEnd), count;
      }
    }
    return Done(0), count;
  }

  /** Passes over the first word of a block; after a special tag the run count is then in the
      buffer. */
  method SkipHeader(inner: BufferedInput, start: nat, ghost u: seq<byte>) returns (ok: bool, tag: byte, pos: nat)
    requires At(inner, start, u) && start < inner.avail
    modifies inner
    ensures inner.Valid() && u != [] && tag == u[0]
    ensures ok <==> HeaderSize(u) <= |u|
    ensures ok ==> At(inner, pos, u[1 + SetBits(tag, 0)..]) && (Special(tag) ==> pos < inner.avail)
  {
    hide SetBits;
    tag := inner.rest[start];
    assert tag == u[0] && At(inner, start + 1, u[1..]);
    ghost var k := 1 + SetBits(tag, 0);
    if inner.avail - start < 10 {
      ok, pos := SkipSlowWord(inner, start + 1, u[1..], tag);
    } else {
      ok := true;
      pos := SkipFastWord(inner, start + 1, u[1..], tag);
    }
    if ok {
      SuffixOfSuffix(u, 1, k - 1);
      if Special(tag) && inner.avail == pos {
        ok := Refresh(inner);
        pos := 0;
      }
    }
  }

  /** One block; `left` words remain to be skipped. */
  method SkipBlock(inner: BufferedInput, start: nat, ghost u: seq<byte>, left: nat) returns (r: Status, words: nat)
    requires At(inner, start, u) && start < inner.avail && left > 0
    modifies inner
    ensures inner.Valid()
    ensures r.Broken? ==> Decode(u, left) == Failed(r.error)
    ensures r.Done? ==> FirstBlock(u, left).Block? && words == FirstBlock(u, left).words
    ensures r.Done? ==> At(inner, r.pos, u[FirstBlock(u, left).size..])
  {
    hide Decode, DecodeRun, SetBits, Expand, RunBytes, RunRest, HasRun, FirstBlock, BlockBytes;
    var ok, tag, pos := SkipHeader(inner, start, u);
    words := 1;
    if !ok {
      ShortBlock(u, left);
      return Broken(PrematureEnd), words;
    }
    if !Special(tag) {
      OrdinaryBlock(u, left);
      return Done(pos), words;
    }
    var n;
    r, n := SkipRun(inner, pos, u[1 + SetBits(tag, 0)..], tag, left - 1);
    words := 1 + n;
    SpecialBlock(u, left);
  }

  /** PackedInputStream::skip leaves the stream exactly where reading `n` words would, and
      fails exactly when and how that would. */
  method Skip(inner: BufferedInput, n: nat) returns (r: ReadResult)
    requires inner.Valid()
    modifies inner
    ensures inner.Valid()
    ensures r.Error? ==> Decode(old(inner.rest), n) == Failed(r.error)
    ensures r.Words? ==> Decode(old(inner.rest), n).Decoded? && Decode(old(inner.rest), n).rest == inner.rest
  {
    hide Decode, FirstBlock, BlockBytes;
    ghost var s, x := inner.rest, [];
    DecodeNothing(s);
    if n == 0 {
      return Words(0);
    }
    inner.TryGetReadBuffer();
    if inner.avail == 0 {
      NothingLeft(n);
      return Error(PrematureEnd);
    }
    var left: nat, pos: nat := n, 0;
    assert inner.rest[0..] == s;
    while true
      invariant inner.Valid() && pos <= inner.avail && 0 < left <= n
      invariant Decode(s, n - left) == Decoded(x, inner.rest[pos..])
      decreases left, if inner.avail == pos then 1 else 0
    {
      ghost var u := inner.rest[pos..];
      ReadOn(s, n - left, x, u, left);
      if inner.avail == pos {
        var more := Refresh(inner);
        pos := 0;
        assert inner.rest[0..] == u;
        if !more {
          NothingLeft(left);
          return Error(PrematureEnd);
        }
        continue;
      }
      var status, words := SkipBlock(inner, pos, u, left);
      if status.Broken? {
        return Error(status.error);
      }
      x := x + BlockBytes(u, left);
      assert n - left + words == n - (left - words);
      pos, left := status.pos, left - words;
      if left == 0 {
        var skipped := inner.Skip(pos);
        return Words(n);
      }
    }
  }

  // ---------------------------------------------------------------------------------------
  // Writing

  /** kj::BufferedOutputStream: hands out write buffers of any size. */
  class BufferedOutput {
    var written: seq<byte>

    constructor ()
      ensures written == []
    {
      written := [];
    }

    method GetWriteBuffer() returns (buffer: array<byte>)
      ensures fresh(buffer)
    {
      var n: nat :| true;
      buffer := new byte[n](_ => 0);
    }

    method Write(data: seq<byte>)
      modifies this
      ensures written == old(written) + data
    {
      written := written + data;
    }
  }

  /** Counts the all-zero words from word `from` on, at most 255 of them. */
  method CountZeroWords(src: seq<byte>, from: nat, n: nat) returns (k: nat)
    requires from <= n && |src| == 8 * n
    ensures k == ZeroRun(src[8 * from..], 255)
  {
    hide ZeroRun, ZeroCount;
    ghost var s := src[8 * from..];
    var limit := if n - from > 255 then from + 255 else n;
    k := 0;
    assert s[0..] == s;
    while from + k < limit && ZeroCount(src[8 * (from + k)..8 * (from + k) + 8]) == 8
      invariant from + k <= limit
      invariant ZeroRun(s, 255) == k + ZeroRun(s[8 * k..], 255 - k)
      decreases limit - k
    {
      WordAt(src, from, k);
      RunStep(s[8 * k..], 255 - k);
      k := k + 1;
    }
    if from + k < limit {
      WordAt(src, from, k);
    }
    RunStep(s[8 * k..], 255 - k);
  }

  /** Word `k` of the suffix that starts with word `from`, and what follows it. */
  lemma WordAt(src: seq<byte>, from: nat, k: nat)
    requires 8 * (from + k) + 8 <= |src|
    ensures src[8 * from..][8 * k..][..8] == src[8 * (from + k)..8 * (from + k) + 8]
    ensures src[8 * from..][8 * k..][8..] == src[8 * from..][8 * (k + 1)..]
  {
    var s := src[8 * from..];
    SuffixOfSuffix(src, 8 * from, 8 * k);
    SuffixOfSuffix(s, 8 * k, 8);
    assert 8 * from + 8 * k == 8 * (from + k) && 8 * k + 8 == 8 * (k + 1);
    SliceOfSuffix(src, 8 * (from + k), 0, 8);
  }

  /** Counts the words with at most one zero byte from word `from` on, at most 255 of them. */
  method CountDenseWords(src: seq<byte>, from: nat, n: nat) returns (k: nat)
    requires from <= n && |src| == 8 * n
    ensures k == DenseRun(src[8 * from..], 255)
  {
    hide DenseRun, ZeroCount;
    ghost var s := src[8 * from..];
    var limit := if n - from > 255 then from + 255 else n;
    k := 0;
    assert s[0..] == s;
    while from + k < limit
      invariant from + k <= limit
      invariant DenseRun(s, 255) == k + DenseRun(s[8 * k..], 255 - k)
      decreases limit - k
    {
      var word := src[8 * (from + k)..8 * (from + k) + 8];
      WordAt(src, from, k);
      RunStep(s[8 * k..], 255 - k);
      if ZeroCount(word) >= 2 {
        return;
      }
      k := k + 1;
    }
    RunStep(s[8 * k..], 255 - k);
  }

  /** The first eight HANDLE_BYTEs: copies the non-zero bytes of word `i` behind a tag byte. */
  method WriteWord(w: seq<byte>, buffer: array<byte>, at: nat) returns (out: nat)
    requires |w| == 8 && at + 10 <= buffer.Length
    modifies buffer
    ensures out == at + 1 + |NonZero(w)| <= at + 9
    ensures buffer[..out] == old(buffer[..at]) + [Tag(w)] + NonZero(w)
  {
    hide Tag;
    out := at + 1;
    assert w[..0] == [];
    for j := 0 to 8
      invariant at + 1 <= out == at + 1 + |NonZero(w[..j])| <= at + 1 + j
      invariant buffer[at + 1..out] == NonZero(w[..j])
      invariant buffer[..at] == old(buffer[..at])
    {
      NonZeroSnoc(w[..j], w[j]);
      assert w[..j + 1] == w[..j] + [w[j]];
      ghost var so := buffer[at + 1..out];
      buffer[out] := w[j];
      assert buffer[at + 1..out] == so && buffer[at + 1..out + 1] == so + [w[j]];
      if w[j] != 0 {
        out := out + 1;
      }
    }
    assert w[..8] == w;
    buffer[at] := Tag(w);
    assert buffer[..out] == buffer[..at] + [buffer[at]] + buffer[at + 1..out];
  }

  lemma {:induction false} NonZeroSnoc(w: seq<byte>, b: byte)
    ensures NonZero(w + [b]) == NonZero(w) + (if b != 0 then [b] else [])
  {
    if w == [] {
      assert w + [b] == [b] && [b][1..] == [];
    } else {
      NonZeroSnoc(w[1..], b);
      assert (w + [b])[1..] == w[1..] + [b];
    }
  }

  /** PackedOutputStream::write emits exactly the packed form of the `n` words of `src`,
      whatever buffers the inner stream provides. */
  method Write(inner: BufferedOutput, src: seq<byte>, n: nat)
    requires |src| == 8 * n
    modifies inner
    ensures inner.written == old(inner.written) + Pack(src, n)
  {
    hide Pack;
    var buffer := inner.GetWriteBuffer();
    var slowBuffer := new byte[20](_ => 0);
    var i: nat, out: nat := 0, 0;
    assert src[0..] == src && buffer[..0] == [];
    while i < n
      invariant i <= n && out <= buffer.Length && fresh(buffer) && fresh(slowBuffer)
      invariant slowBuffer.Length == 20
      invariant inner.written + buffer[..out] + Pack(src[8 * i..], n - i) == old(inner.written) + Pack(src, n)
    {
      if buffer.Length - out < 10 {
        inner.Write(buffer[..out]);
        buffer, out := slowBuffer, 0;
        assert buffer[..0] == [];
      }
      buffer, out, i := WriteBlock(inner, src, n, i, buffer, out);
    }
    inner.Write(buffer[..out]);
    PackOfNothing(src[8 * n..]);
  }

  /** One iteration of the encoder: the block that starts at word `i`. */
  method WriteBlock(inner: BufferedOutput, src: seq<byte>, n: nat, i: nat, buffer: array<byte>, at: nat)
    returns (buffer': array<byte>, out: nat, i': nat)
    requires |src| == 8 * n && i < n && at + 10 <= buffer.Length
    modifies inner, buffer
    ensures i < i' <= n && out <= buffer'.Length && (buffer' == buffer || fresh(buffer'))
    ensures inner.written + buffer'[..out] + Pack(src[8 * i'..], n - i')
         == old(inner.written + buffer[..at]) + Pack(src[8 * i..], n - i)
  {
    hide Tag, NonZero, ZeroRun, DenseRun, Pack, PackRun;
    ghost var s, before := src[8 * i..], inner.written + buffer[..at];
    var w := src[8 * i..8 * i + 8];
    SliceOfSuffix(src, 8 * i, 0, 8);
    SuffixOfSuffix(src, 8 * i, 8);
    out := WriteWord(w, buffer, at);
    PackFirst(s, n - i);
    assert inner.written + buffer[..out] == before + ([Tag(w)] + NonZero(w));
    buffer', out, i' := FinishBlock(inner, src, n, i + 1, Tag(w), buffer, out);
    Regroup(before, [Tag(w)] + NonZero(w), PackRun(Tag(w), s[8..], n - i - 1));
  }

  /** What follows the first word of a block: nothing, or a count and for tag 255 the run. */
  method FinishBlock(inner: BufferedOutput, src: seq<byte>, n: nat, i: nat, tag: byte, buffer: array<byte>, at: nat)
    returns (buffer': array<byte>, out: nat, i': nat)
    requires |src| == 8 * n && i <= n && at < buffer.Length
    modifies inner, buffer
    ensures i <= i' <= n && out <= buffer'.Length && (buffer' == buffer || fresh(buffer'))
    ensures inner.written + buffer'[..out] + Pack(src[8 * i'..], n - i')
         == old(inner.written + buffer[..at]) + PackRun(tag, src[8 * i..], n - i)
  {
    hide ZeroRun, DenseRun, Pack, PackRun;
    ghost var s, before := src[8 * i..], inner.written + buffer[..at];
    PackRunCases(tag, s, n - i);
    if tag == 0 {
      var k := CountZeroWords(src, i, n);
      SuffixOfSuffix(src, 8 * i, 8 * k);
      buffer[at] := k;
      assert inner.written + buffer[..at + 1] == before + [k];
      buffer', out, i' := buffer, at + 1, i + k;
      Regroup(before, [k], Pack(src[8 * i'..], n - i'));
    } else if tag == 255 {
      buffer', out, i' := FinishPlain(inner, src, n, i, buffer, at);
    } else {
      buffer', out, i' := buffer, at, i;
    }
  }

  /** The count and the run of plain words after tag 255. */
  method FinishPlain(inner: BufferedOutput, src: seq<byte>, n: nat, i: nat, buffer: array<byte>, at: nat)
    returns (buffer': array<byte>, out: nat, i': nat)
    requires |src| == 8 * n && i <= n && at < buffer.Length
    modifies inner, buffer
    ensures i <= i' <= n && out <= buffer'.Length && (buffer' == buffer || fresh(buffer'))
    ensures inner.written + buffer'[..out] + Pack(src[8 * i'..], n - i')
         == old(inner.written + buffer[..at]) + PackRun(255, src[8 * i..], n - i)
  {
    hide DenseRun, Pack, PackRun;
    ghost var s, before := src[8 * i..], inner.written + buffer[..at];
    PackRunCases(255, s, n - i);
    var k := CountDenseWords(src, i, n);
    var words := src[8 * i..8 * (i + k)];
    SliceOfSuffix(src, 8 * i, 0, 8 * k);
    SuffixOfSuffix(src, 8 * i, 8 * k);
    buffer[at] := k;
    assert inner.written + buffer[..at + 1] == before + [k];
    buffer', out := WriteRun(inner, words, buffer, at + 1);
    i' := i + k;
    Regroup(before, [k], words);
    Regroup(before, [k] + words, Pack(src[8 * i'..], n - i'));
  }

  lemma Regroup(a: seq<byte>, b: seq<byte>, c: seq<byte>)
    ensures a + b + c == a + (b + c)
  {
  }

  /** A run of plain words: copied when it fits, else handed to the inner stream as a whole. */
  method WriteRun(inner: BufferedOutput, run: seq<byte>, buffer: array<byte>, at: nat)
    returns (buffer': array<byte>, out: nat)
    requires at <= buffer.Length
    modifies inner, buffer
    ensures out <= buffer'.Length && (buffer' == buffer || fresh(buffer'))
    ensures inner.written + buffer'[..out] == old(inner.written + buffer[..at]) + run
  {
    hide Splice;
    if |run| <= buffer.Length - at {
      ghost var d := buffer[..];
      Copy(run, buffer, at);
      SplicePrefix(d, at, run);
      buffer', out := buffer, at + |run|;
      assert buffer'[..out] == buffer[..][..out];
    } else {
      inner.Write(buffer[..at]);
      inner.Write(run);
      buffer' := inner.GetWriteBuffer();
      out := 0;
    }
  }
}
