/**
 How large packed data gets, and how large it unpacks.

 doc/encoding.md promises that packing costs at most 2 bytes per 2 KiB of input.  That is
 not so for this encoder; the bound it does meet is proved here, together with inputs that
 break the documented one.  computeUnpackedSizeInWords is proved to be right on every
 complete packed buffer and to accept exactly one kind of incomplete one.
 */
module PackingSize {
  import opened Basics
  import opened Bytes
  import opened Packing

  // ---------------------------------------------------------------------------------------
  // The size of the packed form

  /** Number of words of `src` with exactly two zero bytes. */
  function TwoZeroWords(src: seq<byte>, n: nat): nat
    requires |src| == 8 * n
    decreases n
  {
    if n == 0 then 0 else (if ZeroCount(src[..8]) == 2 then 1 else 0) + TwoZeroWords(src[8..], n - 1)
  }

  /** The overhead that doc/encoding.md allows for `n` words: 2 bytes per 256 words begun. */
  function DocumentedOverhead(n: nat): nat {
    2 * ((n + 255) / 256)
  }

  lemma {:induction false} TwoZeroWordsDrop(src: seq<byte>, n: nat, k: nat)
    requires |src| == 8 * n && k <= n
    ensures TwoZeroWords(src[8 * k..], n - k) <= TwoZeroWords(src, n)
    decreases k
  {
    if k > 0 {
      TwoZeroWordsDrop(src[8..], n - 1, k - 1);
      assert src[8..][8 * (k - 1)..] == src[8 * k..];
    } else {
      assert src[0..] == src;
    }
  }

  /** A dense run ends at 255 words, at the end of the input, or before a word with two zeros. */
  lemma {:induction false} DenseRunEnds(s: seq<byte>, n: nat, cap: nat)
    requires |s| == 8 * n
    ensures var c := DenseRun(s, cap);
            c == cap || c == n || (c < n && ZeroCount(s[8 * c..][..8]) >= 2)
    decreases n
  {
    if n > 0 && cap > 0 && ZeroCount(s[..8]) < 2 {
      DenseRunEnds(s[8..], n - 1, cap - 1);
      var c := DenseRun(s[8..], cap - 1);
      assert s[8..][8 * c..] == s[8 * (1 + c)..];
    } else {
      assert s[0..] == s;
    }
  }

  /** Packing `n` words costs at most the documented overhead plus one byte for every word
      with exactly two zero bytes. */
  lemma {:induction false} OverheadBound(src: seq<byte>, n: nat)
    requires |src| == 8 * n
    ensures |Pack(src, n)| <= 8 * n + DocumentedOverhead(n) + TwoZeroWords(src, n)
    decreases n, 0
  {
    hide Tag, NonZero, ZeroCount, ZeroRun, DenseRun, Pack, PackRun, DocumentedOverhead, TwoZeroWords;
    if n == 0 {
      PackOfNothing(src);
    } else {
      var w, s := src[..8], src[8..];
      PackFirst(src, n);
      PackRunCases(Tag(w), s, n - 1);
      SpecialTags(w);
      NonZeroLength(w);
      TwoZeroWordsStep(src, n);
      if Tag(w) == 255 {
        DenseTail(s, n - 1);
      } else if Tag(w) == 0 {
        var c := ZeroRun(s, 255);
        OverheadMono(n - 1 - c, n);
        OverheadBound(s[8 * c..], n - 1 - c);
        TwoZeroWordsDrop(s, n - 1, c);
      } else {
        OverheadMono(n - 1, n);
        OverheadBound(s, n - 1);
      }
    }
  }

  lemma OverheadMono(a: nat, b: nat)
    requires a <= b
    ensures DocumentedOverhead(a) <= DocumentedOverhead(b)
  {
  }

  lemma TwoZeroWordsStep(src: seq<byte>, n: nat)
    requires |src| == 8 * n && n > 0
    ensures TwoZeroWords(src, n) == (if ZeroCount(src[..8]) == 2 then 1 else 0) + TwoZeroWords(src[8..], n - 1)
  {
  }

  /** The words after a dense word: the run, and what follows it. */
  lemma {:induction false} DenseTail(s: seq<byte>, n: nat)
    requires |s| == 8 * n
    ensures var c := DenseRun(s, 255);
            8 * c + |Pack(s[8 * c..], n - c)| + 2 <= 8 * n + DocumentedOverhead(n + 1) + TwoZeroWords(s, n)
    decreases n, 2
  {
    hide Tag, NonZero, ZeroCount, ZeroRun, DenseRun, Pack, TwoZeroWords;
    var c := DenseRun(s, 255);
    DenseRunEnds(s, n, 255);
    TwoZeroWordsDrop(s, n, c);
    if c == 255 {
      OverheadBound(s[8 * c..], n - c);
    } else if c == n {
      PackOfNothing(s[8 * c..]);
    } else {
      Slack(s[8 * c..], n - c);
    }
  }

  /** A block that starts with at least two zero bytes makes up for the run count before it,
      except for one byte when it has exactly two. */
  lemma {:induction false} Slack(src: seq<byte>, n: nat)
    requires |src| == 8 * n && n > 0 && ZeroCount(src[..8]) >= 2
    ensures |Pack(src, n)| + 2 <= 8 * n + DocumentedOverhead(n) + TwoZeroWords(src, n)
    decreases n, 1
  {
    hide Tag, NonZero, ZeroCount, ZeroRun, DenseRun, Pack, PackRun, DocumentedOverhead, TwoZeroWords;
    var w, s := src[..8], src[8..];
    PackFirst(src, n);
    PackRunCases(Tag(w), s, n - 1);
    SpecialTags(w);
    NonZeroLength(w);
    TwoZeroWordsStep(src, n);
    if Tag(w) == 0 {
      var c := ZeroRun(s, 255);
      OverheadMono(n - 1 - c, n);
      OverheadBound(s[8 * c..], n - 1 - c);
      TwoZeroWordsDrop(s, n - 1, c);
    } else {
      OverheadMono(n - 1, n);
      OverheadBound(s, n - 1);
    }
  }

  /** `k` times a word `d` followed by a word `z`. */
  function Alternate(d: seq<byte>, z: seq<byte>, k: nat): (r: seq<byte>)
    requires |d| == 8 && |z| == 8
    ensures |r| == 8 * (2 * k)
  {
    if k == 0 then [] else d + z + Alternate(d, z, k - 1)
  }

  /** Each such pair costs a byte more packed than unpacked. */
  lemma {:induction false} AlternateSize(d: seq<byte>, z: seq<byte>, k: nat)
    requires |d| == 8 && |z| == 8 && ZeroCount(d) == 0 && ZeroCount(z) == 2
    ensures |Pack(Alternate(d, z, k), 2 * k)| == 17 * k
  {
    hide Tag, NonZero, ZeroCount, Pack, PackRun;
    if k == 0 {
      PackOfNothing([]);
    } else {
      var src, tail := Alternate(d, z, k), Alternate(d, z, k - 1);
      assert src[..8] == d && src[8..] == z + tail && (z + tail)[..8] == z && (z + tail)[8..] == tail;
      SpecialTags(d);
      SpecialTags(z);
      NonZeroLength(d);
      NonZeroLength(z);
      AlternateSize(d, z, k - 1);
      PackFirst(src, 2 * k);
      PackRunCases(255, z + tail, 2 * k - 1);
      assert DenseRun(z + tail, 255) == 0;
      assert (z + tail)[0..] == z + tail;
      PackFirst(z + tail, 2 * k - 1);
      PackRunCases(Tag(z), tail, 2 * k - 2);
    }
  }

  /** The documented bound fails on these inputs from the third pair on, by ever more. */
  lemma DocumentedOverheadFails(d: seq<byte>, z: seq<byte>, k: nat)
    requires |d| == 8 && |z| == 8 && ZeroCount(d) == 0 && ZeroCount(z) == 2 && k >= 3
    ensures |Pack(Alternate(d, z, k), 2 * k)| > 8 * (2 * k) + DocumentedOverhead(2 * k)
  {
    AlternateSize(d, z, k);
  }

  /** The smallest such input: six words, 48 bytes, pack into 51 instead of at most 50. */
  lemma DocumentedOverheadExample()
    ensures var d: seq<byte>, z: seq<byte> := [1, 1, 1, 1, 1, 1, 1, 1], [0, 0, 1, 1, 1, 1, 1, 1];
            |Alternate(d, z, 3)| == 48 && DocumentedOverhead(6) == 2 && |Pack(Alternate(d, z, 3), 6)| == 51
  {
    hide Pack, ZeroCount, Alternate;
    var d: seq<byte>, z: seq<byte> := [1, 1, 1, 1, 1, 1, 1, 1], [0, 0, 1, 1, 1, 1, 1, 1];
    WordZeroCount(d);
    WordZeroCount(z);
    AlternateSize(d, z, 3);
  }

  /** Every word of `src` is one of `words`. */
  predicate Over(src: seq<byte>, n: nat, words: set<seq<byte>>)
    requires |src| == 8 * n
    decreases n
  {
    n == 0 || (src[..8] in words && Over(src[8..], n - 1, words))
  }

  ghost predicate WithinDocumented(src: seq<byte>, n: nat)
    requires |src| == 8 * n
  {
    |Pack(src, n)| <= 8 * n + DocumentedOverhead(n)
  }

  lemma {:induction false} NoTwoZeroWords(src: seq<byte>, n: nat, words: set<seq<byte>>)
    requires |src| == 8 * n && Over(src, n, words) && forall w :: w in words ==> ZeroCount(w) != 2
    ensures TwoZeroWords(src, n) == 0
    decreases n
  {
    if n == 0 {
    } else {
      NoTwoZeroWords(src[8..], n - 1, words);
    }
  }

  lemma {:induction false} OverDrop(src: seq<byte>, n: nat, words: set<seq<byte>>, k: nat)
    requires |src| == 8 * n && k <= n && Over(src, n, words)
    ensures Over(src[8 * k..], n - k, words)
    decreases k
  {
    if k > 0 {
      OverDrop(src[8..], n - 1, words, k - 1);
      assert src[8..][8 * (k - 1)..] == src[8 * k..];
    } else {
      assert src[0..] == src;
    }
  }

  /** Without a word free of zeros, packing never expands. */
  lemma {:induction false} NoDenseWords(src: seq<byte>, n: nat, words: set<seq<byte>>)
    requires |src| == 8 * n && Over(src, n, words) && forall w :: w in words ==> ZeroCount(w) != 0
    ensures |Pack(src, n)| <= 8 * n
    decreases n
  {
    hide Tag, NonZero, ZeroCount, ZeroRun, DenseRun, Pack, PackRun;
    if n == 0 {
      PackOfNothing(src);
    } else {
      var w, s := src[..8], src[8..];
      PackFirst(src, n);
      PackRunCases(Tag(w), s, n - 1);
      SpecialTags(w);
      NonZeroLength(w);
      var c := if Tag(w) == 0 then ZeroRun(s, 255) else 0;
      OverDrop(s, n - 1, words, c);
      NoDenseWords(s[8 * c..], n - 1 - c, words);
      assert s[0..] == s;
    }
  }

  lemma {:induction false} AlternateOver(d: seq<byte>, z: seq<byte>, k: nat, words: set<seq<byte>>)
    requires |d| == 8 && |z| == 8 && d in words && z in words
    ensures Over(Alternate(d, z, k), 2 * k, words)
  {
    if k == 0 {
    } else {
      AlternateOver(d, z, k - 1, words);
      var tail := Alternate(d, z, k - 1);
      var src := Alternate(d, z, k);
      assert src[..8] == d && src[8..] == z + tail && (z + tail)[..8] == z && (z + tail)[8..] == tail;
      assert Over(z + tail, 2 * k - 1, words);
    }
  }

  /** The documented overhead holds for all messages over a vocabulary of words exactly when it
      does not hold both a word with no zero byte and a word with exactly two. */
  lemma DocumentedOverheadExactly(words: set<seq<byte>>)
    requires forall w :: w in words ==> |w| == 8
    ensures (forall src: seq<byte>, n: nat :: |src| == 8 * n && Over(src, n, words) ==> WithinDocumented(src, n))
       <==> !((exists d :: d in words && ZeroCount(d) == 0) && (exists z :: z in words && ZeroCount(z) == 2))
  {
    hide Pack, ZeroCount, DocumentedOverhead;
    if (exists d :: d in words && ZeroCount(d) == 0) && (exists z :: z in words && ZeroCount(z) == 2) {
      var d :| d in words && ZeroCount(d) == 0;
      var z :| z in words && ZeroCount(z) == 2;
      AlternateOver(d, z, 3, words);
      DocumentedOverheadFails(d, z, 3);
      assert !WithinDocumented(Alternate(d, z, 3), 6);
    } else {
      forall src: seq<byte>, n: nat | |src| == 8 * n && Over(src, n, words)
        ensures WithinDocumented(src, n)
      {
        if forall z :: z in words ==> ZeroCount(z) != 2 {
          NoTwoZeroWords(src, n, words);
          OverheadBound(src, n);
        } else {
          NoDenseWords(src, n, words);
        }
      }
    }
  }

  // ---------------------------------------------------------------------------------------
  // computeUnpackedSizeInWords

  datatype Size = Words(count: nat) | Invalid

  /** `s` is a sequence of complete blocks standing for `n` words. */
  predicate UnpacksTo(s: seq<byte>, n: nat) {
    Decode(s, n).Decoded? && Decode(s, n).rest == []
  }

  /** After `n - 1` words what is left is an ordinary tag with all but one of its bytes. */
  predicate LacksOneByte(s: seq<byte>, n: nat) {
    n > 0 && Decode(s, n - 1).Decoded? &&
    var q := Decode(s, n - 1).rest;
    |q| > 0 && !Special(q[0]) && |q| == SetBits(q[0], 0)
  }

  function Plus(n: nat, size: Size): Size {
    match size
    case Words(m) => Words(n + m)
    case Invalid => Invalid
  }

  /** The size computed block by block. */
  function SizeOf(s: seq<byte>): Size {
    if s == [] then Words(0)
    else
      var k := SetBits(s[0], 0);
      if |s| < k then Invalid
      else if |s| == k then (if Special(s[0]) then Invalid else Words(1))
      else if !Special(s[0]) then Plus(1, SizeOf(s[1 + k..]))
      else if !HasRun(s[0], s[1 + k..]) then Invalid
      else Plus(1 + (s[1 + k] as nat), SizeOf(RunRest(s[0], s[1 + k..])))
  }

  lemma SizeOfTruncated(s: seq<byte>)
    requires s != [] && |s| <= SetBits(s[0], 0)
    ensures SizeOf(s) == if |s| == SetBits(s[0], 0) && !Special(s[0]) then Words(1) else Invalid
  {
  }

  lemma SizeOfOrdinary(s: seq<byte>)
    requires s != [] && |s| > SetBits(s[0], 0) && !Special(s[0])
    ensures SizeOf(s) == Plus(1, SizeOf(s[1 + SetBits(s[0], 0)..]))
  {
    hide SetBits, HasRun, RunRest, Special, Plus;
  }

  lemma SizeOfRun(s: seq<byte>)
    requires s != [] && |s| > SetBits(s[0], 0) && Special(s[0])
    ensures var t := s[1 + SetBits(s[0], 0)..];
            if HasRun(s[0], t) then SizeOf(s) == Plus(1 + (t[0] as nat), SizeOf(RunRest(s[0], t)))
            else SizeOf(s) == Invalid
  {
    hide SetBits, HasRun, RunRest, Special, Plus;
  }

  /** From the tag at `ptr`, when the data ends before the block does. */
  lemma SizeAtEnd(packed: seq<byte>, ptr: nat, total: nat)
    requires ptr < |packed| <= ptr + SetBits(packed[ptr], 0)
    ensures Plus(total, SizeOf(packed[ptr..]))
         == if |packed| == ptr + SetBits(packed[ptr], 0) && !Special(packed[ptr]) then Words(total + 1) else Invalid
  {
    hide SetBits, SizeOf;
    SizeOfTruncated(packed[ptr..]);
  }

  /** From an ordinary tag at `ptr`. */
  lemma SizeAtOrdinary(packed: seq<byte>, ptr: nat, total: nat)
    requires ptr < |packed| && ptr + SetBits(packed[ptr], 0) < |packed| && !Special(packed[ptr])
    ensures Plus(total, SizeOf(packed[ptr..])) == Plus(total + 1, SizeOf(packed[ptr + SetBits(packed[ptr], 0) + 1..]))
  {
    hide SetBits, SizeOf;
    var k := SetBits(packed[ptr], 0);
    SizeOfOrdinary(packed[ptr..]);
    SuffixOfSuffix(packed, ptr, 1 + k);
  }

  /** How far a run that starts at `next` reaches. */
  function RunEnd(packed: seq<byte>, tag: byte, next: nat): nat
    requires next < |packed|
  {
    var words: nat := packed[next];
    next + 1 + (if tag == 255 then 8 * words else 0)
  }

  lemma RunAt(packed: seq<byte>, tag: byte, next: nat)
    requires next <= |packed|
    ensures HasRun(tag, packed[next..]) <==> next < |packed| && RunEnd(packed, tag, next) <= |packed|
    ensures HasRun(tag, packed[next..]) ==> RunRest(tag, packed[next..]) == packed[RunEnd(packed, tag, next)..]
  {
    if next < |packed| && RunEnd(packed, tag, next) <= |packed| {
      SuffixOfSuffix(packed, next, RunEnd(packed, tag, next) - next);
    }
  }

  /** From a special tag at `ptr`; its run is at `next`. */
  lemma SizeAtRun(packed: seq<byte>, ptr: nat, total: nat)
    requires ptr < |packed| && ptr + SetBits(packed[ptr], 0) < |packed| && Special(packed[ptr])
    ensures var tag, next := packed[ptr], ptr + SetBits(packed[ptr], 0) + 1;
            Plus(total, SizeOf(packed[ptr..]))
            == if next == |packed| || RunEnd(packed, tag, next) > |packed| then Invalid
               else Plus(total + 1 + (packed[next] as nat), SizeOf(packed[RunEnd(packed, tag, next)..]))
  {
    hide SetBits, SizeOf, HasRun, RunRest, RunEnd, Special;
    var next := ptr + SetBits(packed[ptr], 0) + 1;
    SizeOfRun(packed[ptr..]);
    SuffixOfSuffix(packed, ptr, next - ptr);
    RunAt(packed, packed[ptr], next);
  }

  /** computeUnpackedSizeInWords: walks the tags without unpacking. */
  method ComputeUnpackedSize(packed: seq<byte>) returns (size: Size)
    ensures size == SizeOf(packed)
  {
    hide SetBits, SizeOf, Plus;
    var ptr: nat, end: nat, total: nat := 0, |packed|, 0;
    assert packed[0..] == packed;
    PlusNothing(SizeOf(packed), 0);
    while ptr < end
      invariant ptr <= end + 1
      invariant ptr <= end ==> SizeOf(packed) == Plus(total, SizeOf(packed[ptr..]))
      invariant ptr > end ==> SizeOf(packed) == Words(total)
    {
      var tag := packed[ptr];
      var count := SetBits(tag, 0);
      if end - ptr <= count {
        SizeAtEnd(packed, ptr, total);
      } else if Special(tag) {
        SizeAtRun(packed, ptr, total);
      } else {
        SizeAtOrdinary(packed, ptr, total);
      }
      total := total + 1;
      if end - ptr < count {
        return Invalid;
      }
      ptr := ptr + count + 1;
      if tag == 0 {
        if ptr >= end {
          return Invalid;
        }
        total := total + packed[ptr];
        ptr := ptr + 1;
      } else if tag == 255 {
        if ptr >= end {
          return Invalid;
        }
        var words: nat := packed[ptr];
        ptr := ptr + 1;
        total := total + words;
        if end - ptr < 8 * words {
          return Invalid;
        }
        ptr := ptr + 8 * words;
      }
    }
    if ptr == end {
      assert packed[ptr..] == [];
      SizeOfNothing();
      PlusNothing(Words(0), total);
    }
    size := Words(total);
  }

  lemma PlusNothing(size: Size, n: nat)
    ensures Plus(0, size) == size && Plus(n, Words(0)) == Words(n)
  {
  }

  lemma SizeOfNothing()
    ensures SizeOf([]) == Words(0)
  {
  }

  /** The computed size is `n` exactly when the data unpacks to `n` words, or is one byte short
      in a final ordinary word. */
  lemma {:induction false} SizeOfIs(s: seq<byte>, n: nat)
    ensures SizeOf(s) == Words(n) <==> UnpacksTo(s, n) || LacksOneByte(s, n)
    decreases |s|
  {
    hide SetBits, SizeOf, UnpacksTo, LacksOneByte, RunRest;
    if s == [] {
      SizeOfNothing();
      EmptyUnpacks(n);
    } else {
      var tag, k := s[0], SetBits(s[0], 0);
      var t := if |s| > k then s[1 + k..] else [];
      if |s| <= k {
        SizeOfTruncated(s);
        SizeOfShortBlock(s, n);
      } else if !Special(tag) {
        if n >= 1 {
          SizeOfIs(t, n - 1);
        }
        SizeOfOrdinary(s);
        SizeOfOrdinaryBlock(s, n);
      } else if !HasRun(tag, t) {
        SizeOfRun(s);
        NoRun(s, n);
      } else {
        if n > t[0] {
          SizeOfIs(RunRest(tag, t), n - 1 - t[0]);
        }
        SizeOfRun(s);
        SizeOfRunBlock(s, n);
      }
    }
  }

  lemma EmptyUnpacks(n: nat)
    ensures UnpacksTo([], n) <==> n == 0
    ensures !LacksOneByte([], n)
  {
  }

  lemma SizeOfShortBlock(s: seq<byte>, n: nat)
    requires s != [] && |s| <= SetBits(s[0], 0)
    ensures !UnpacksTo(s, n)
    ensures LacksOneByte(s, n) <==> n == 1 && |s| == SetBits(s[0], 0) && !Special(s[0])
  {
    if n > 1 {
      assert Decode(s, n - 1).Failed?;
    }
  }

  lemma SizeOfOrdinaryBlock(s: seq<byte>, n: nat)
    requires s != [] && |s| > SetBits(s[0], 0) && !Special(s[0])
    ensures var t := s[1 + SetBits(s[0], 0)..];
            (UnpacksTo(s, n) <==> n >= 1 && UnpacksTo(t, n - 1))
            && (LacksOneByte(s, n) <==> n >= 1 && LacksOneByte(t, n - 1))
  {
    hide Decode, DecodeRun, Expand, SetBits, Special;
    DecodeNothing(s);
    var t := s[1 + SetBits(s[0], 0)..];
    if n >= 1 {
      DecodeFirst(s, n);
      DecodeOrdinary(s[0], t, n - 1);
    }
    if n >= 2 {
      DecodeFirst(s, n - 1);
      DecodeOrdinary(s[0], t, n - 2);
    }
  }

  lemma NoRun(s: seq<byte>, n: nat)
    requires s != [] && |s| > SetBits(s[0], 0) && Special(s[0])
    requires !HasRun(s[0], s[1 + SetBits(s[0], 0)..])
    ensures !UnpacksTo(s, n) && !LacksOneByte(s, n)
  {
    hide Decode, DecodeRun, Expand, SetBits, HasRun;
    DecodeNothing(s);
    var t := s[1 + SetBits(s[0], 0)..];
    if n >= 1 {
      DecodeFirst(s, n);
      DecodeSpecial(s[0], t, n - 1);
    }
    if n >= 2 {
      DecodeFirst(s, n - 1);
      DecodeSpecial(s[0], t, n - 2);
    }
  }

  lemma SizeOfRunBlock(s: seq<byte>, n: nat)
    requires s != [] && |s| > SetBits(s[0], 0) && Special(s[0])
    requires HasRun(s[0], s[1 + SetBits(s[0], 0)..])
    ensures var t := s[1 + SetBits(s[0], 0)..];
            (UnpacksTo(s, n) <==> n > t[0] && UnpacksTo(RunRest(s[0], t), n - 1 - t[0]))
            && (LacksOneByte(s, n) <==> n > t[0] && LacksOneByte(RunRest(s[0], t), n - 1 - t[0]))
  {
    hide Decode, DecodeRun, Expand, SetBits, RunBytes, RunRest;
    DecodeNothing(s);
    var t := s[1 + SetBits(s[0], 0)..];
    if n >= 1 {
      DecodeFirst(s, n);
      DecodeSpecial(s[0], t, n - 1);
    }
    if n >= 2 {
      DecodeFirst(s, n - 1);
      DecodeSpecial(s[0], t, n - 2);
    }
  }

  /** On the encoder's own output the size is that of the input. */
  lemma SizeOfPacked(src: seq<byte>, n: nat)
    requires |src| == 8 * n
    ensures SizeOf(Pack(src, n)) == Words(n)
  {
    RoundTrip(src, n, []);
    assert Pack(src, n) + [] == Pack(src, n);
    SizeOfIs(Pack(src, n), n);
  }

  /** A tag that announces one byte, without the byte: accepted, though it does not unpack. */
  lemma AcceptsTruncatedData()
    ensures SizeOf([1]) == Words(1) && forall n :: !UnpacksTo([1], n)
  {
    assert SetBits(1, 0) == 1 by {
      assert Bit(1, 0);
      assert !Bit(1, 1) && !Bit(1, 2) && !Bit(1, 3) && !Bit(1, 4) && !Bit(1, 5) && !Bit(1, 6) && !Bit(1, 7) by {
        assert !Bit(0, 0) && !Bit(0, 1) && !Bit(0, 2) && !Bit(0, 3) && !Bit(0, 4) && !Bit(0, 5) && !Bit(0, 6);
      }
      assert SetBits(1, 6) == 0 && SetBits(1, 4) == 0 && SetBits(1, 2) == 0;
    }
    forall n
      ensures !UnpacksTo([1], n)
    {
      SizeOfShortBlock([1], n);
    }
  }
}
