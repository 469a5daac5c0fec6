/**
 The packed encoding of c++/src/capnp/serialize-packed.c++ as functions on byte sequences:
 what the encoder emits for a word-aligned buffer, what a decoder must produce, and how the
 two fit together.
 */
module Packing {
  import opened Bytes

  // ---------------------------------------------------------------------------------------
  // Decoding

  datatype Error = PrematureEnd | NotOnBoundary

  /** `Decoded(output, rest)`: the bytes produced, and the packed bytes not yet consumed. */
  datatype Outcome = Decoded(output: seq<byte>, rest: seq<byte>) | Failed(error: Error)

  function Then(prefix: seq<byte>, o: Outcome): Outcome {
    match o
    case Decoded(output, rest) => Decoded(prefix + output, rest)
    case Failed(e) => Failed(e)
  }

  /** Number of bits set in `tag` at positions `i..7`. */
  function SetBits(tag: byte, i: nat): (n: nat)
    requires i <= 8
    ensures n <= 8 - i
    decreases 8 - i
  {
    if i == 8 then 0 else (if Bit(tag, i) then 1 else 0) + SetBits(tag, i + 1)
  }

  /** Bytes `i..7` of the word that `tag` and its non-zero bytes stand for. */
  function Expand(tag: byte, i: nat, body: seq<byte>): (w: seq<byte>)
    requires i <= 8 && |body| == SetBits(tag, i)
    ensures |w| == 8 - i
    decreases 8 - i
  {
    if i == 8 then []
    else if Bit(tag, i) then [body[0]] + Expand(tag, i + 1, body[1..])
    else [0] + Expand(tag, i + 1, body)
  }

  /** Unpack exactly `n` words from the front of `s`. */
  function Decode(s: seq<byte>, n: nat): Outcome
    decreases n, 0
  {
    if n == 0 then Decoded([], s)
    else if |s| == 0 || |s| < 1 + SetBits(s[0], 0) then Failed(PrematureEnd)
    else
      var k := 1 + SetBits(s[0], 0);
      Then(Expand(s[0], 0, s[1..k]), DecodeRun(s[0], s[k..], n - 1))
  }

  predicate Special(tag: byte) {
    tag == 0 || tag == 255
  }

  /** Does `s` hold the run count and, after tag 255, all the words it announces? */
  predicate HasRun(tag: byte, s: seq<byte>) {
    |s| > 0 && (tag == 255 ==> |s| >= 1 + 8 * (s[0] as nat))
  }

  /** The bytes that a run stands for. */
  function RunBytes(tag: byte, s: seq<byte>): (r: seq<byte>)
    requires HasRun(tag, s)
    ensures |r| == 8 * (s[0] as nat)
  {
    if tag == 255 then s[1..1 + 8 * (s[0] as nat)] else Zeros(8 * (s[0] as nat))
  }

  /** What follows a run. */
  function RunRest(tag: byte, s: seq<byte>): (r: seq<byte>)
    requires HasRun(tag, s)
    ensures |r| < |s|
  {
    if tag == 255 then s[1 + 8 * (s[0] as nat)..] else s[1..]
  }

  /** What follows the first word of a block: a run for the two special tags. */
  function DecodeRun(tag: byte, s: seq<byte>, n: nat): Outcome
    decreases n, 1
  {
    if !Special(tag) then Decode(s, n)
    else if |s| == 0 then Failed(PrematureEnd)
    else if s[0] > n then Failed(NotOnBoundary)
    else if !HasRun(tag, s) then Failed(PrematureEnd)
    else Then(RunBytes(tag, s), Decode(RunRest(tag, s), n - s[0]))
  }

  lemma DecodeNothing(s: seq<byte>)
    ensures Decode(s, 0) == Decoded([], s)
  {
  }

  lemma DecodeFirst(s: seq<byte>, n: nat)
    requires n > 0 && |s| > 0 && |s| >= 1 + SetBits(s[0], 0)
    ensures var k := 1 + SetBits(s[0], 0);
            Decode(s, n) == Then(Expand(s[0], 0, s[1..k]), DecodeRun(s[0], s[k..], n - 1))
  {
  }

  lemma DecodeOrdinary(tag: byte, q: seq<byte>, n: nat)
    requires !Special(tag)
    ensures DecodeRun(tag, q, n) == Decode(q, n)
  {
  }

  lemma DecodeSpecial(tag: byte, s: seq<byte>, n: nat)
    requires Special(tag)
    ensures DecodeRun(tag, s, n).Decoded? ==> HasRun(tag, s) && s[0] <= n
    ensures HasRun(tag, s) && s[0] <= n ==>
              DecodeRun(tag, s, n) == Then(RunBytes(tag, s), Decode(RunRest(tag, s), n - s[0]))
  {
  }

  /** Decoding a block whose parts are known. */
  lemma DecodeBlock(tag: byte, body: seq<byte>, q: seq<byte>, n: nat)
    requires |body| == SetBits(tag, 0) && n > 0
    ensures Decode([tag] + body + q, n) == Then(Expand(tag, 0, body), DecodeRun(tag, q, n - 1))
  {
    var p := [tag] + body + q;
    var k := 1 + SetBits(tag, 0);
    assert p[0] == tag && p[1..k] == body && p[k..] == q;
  }

  lemma ThenThen(a: seq<byte>, b: seq<byte>, o: Outcome)
    ensures Then(a, Then(b, o)) == Then(a + b, o)
  {
    if o.Decoded? {
      assert a + (b + o.output) == (a + b) + o.output;
    }
  }

  /** Whatever decoding succeeds with is exactly as long as was asked for. */
  lemma {:induction false} DecodeLength(s: seq<byte>, n: nat)
    ensures Decode(s, n).Decoded? ==> |Decode(s, n).output| == 8 * n
    decreases n, 0
  {
    if n > 0 && |s| > 0 && |s| >= 1 + SetBits(s[0], 0) {
      DecodeRunLength(s[0], s[1 + SetBits(s[0], 0)..], n - 1);
    }
  }

  lemma {:induction false} DecodeRunLength(tag: byte, s: seq<byte>, n: nat)
    ensures DecodeRun(tag, s, n).Decoded? ==> |DecodeRun(tag, s, n).output| == 8 * n
    decreases n, 1
  {
    if !Special(tag) {
      DecodeLength(s, n);
    } else if HasRun(tag, s) && s[0] <= n {
      DecodeLength(RunRest(tag, s), n - s[0]);
    }
  }

  /** Two reads in a row are one read: what the first leaves over, the second continues. */
  lemma {:induction false} DecodeSplit(s: seq<byte>, a: nat, b: nat)
    requires Decode(s, a).Decoded?
    ensures Decode(s, a + b) == Then(Decode(s, a).output, Decode(Decode(s, a).rest, b))
    decreases a, 0
  {
    hide Decode, DecodeRun, Expand, SetBits;
    if a == 0 {
      DecodeNothing(s);
      ThenNothing(Decode(s, b));
    } else {
      DecodeNeeds(s, a);
      var k := 1 + SetBits(s[0], 0);
      var inner := DecodeRun(s[0], s[k..], a - 1);
      DecodeFirst(s, a);
      DecodeFirst(s, a + b);
      DecodeRunSplit(s[0], s[k..], a - 1, b);
      ThenThen(Expand(s[0], 0, s[1..k]), inner.output, Decode(inner.rest, b));
      assert a + b - 1 == a - 1 + b;
    }
  }

  lemma DecodeNeeds(s: seq<byte>, n: nat)
    requires n > 0 && Decode(s, n).Decoded?
    ensures |s| > 0 && |s| >= 1 + SetBits(s[0], 0)
  {
  }

  lemma ThenNothing(o: Outcome)
    ensures Then([], o) == o
  {
    if o.Decoded? {
      assert [] + o.output == o.output;
    }
  }

  lemma {:induction false} DecodeRunSplit(tag: byte, s: seq<byte>, a: nat, b: nat)
    requires DecodeRun(tag, s, a).Decoded?
    ensures DecodeRun(tag, s, a + b) == Then(DecodeRun(tag, s, a).output, Decode(DecodeRun(tag, s, a).rest, b))
    decreases a, 1
  {
    hide Decode, DecodeRun, RunBytes, RunRest, Special;
    if !Special(tag) {
      DecodeOrdinary(tag, s, a);
      DecodeOrdinary(tag, s, a + b);
      DecodeSplit(s, a, b);
    } else {
      DecodeSpecial(tag, s, a);
      DecodeSpecial(tag, s, a + b);
      var inner := Decode(RunRest(tag, s), a - s[0]);
      DecodeSplit(RunRest(tag, s), a - s[0], b);
      ThenThen(RunBytes(tag, s), inner.output, Decode(inner.rest, b));
      assert a + b - s[0] == a - s[0] + b;
    }
  }

  // ---------------------------------------------------------------------------------------
  // Encoding

  function One(b: byte): nat {
    if b != 0 then 1 else 0
  }

  /** The tag byte: bit `i` is set when byte `i` is not zero. */
  function Tag(w: seq<byte>): byte
    requires |w| == 8
  {
    One(w[0]) + 2 * One(w[1]) + 4 * One(w[2]) + 8 * One(w[3])
    + 16 * One(w[4]) + 32 * One(w[5]) + 64 * One(w[6]) + 128 * One(w[7])
  }

  function NonZero(w: seq<byte>): seq<byte> {
    if w == [] then [] else (if w[0] != 0 then [w[0]] else []) + NonZero(w[1..])
  }

  function ZeroCount(w: seq<byte>): nat {
    if w == [] then 0 else (if w[0] == 0 then 1 else 0) + ZeroCount(w[1..])
  }

  /** Length of the run of all-zero words at the front of `s`, at most `cap` words. */
  function ZeroRun(s: seq<byte>, cap: nat): (n: nat)
    ensures n <= cap && 8 * n <= |s|
  {
    if cap > 0 && |s| >= 8 && ZeroCount(s[..8]) == 8 then 1 + ZeroRun(s[8..], cap - 1) else 0
  }

  /** Length of the run of words with at most one zero byte, at most `cap` words. */
  function DenseRun(s: seq<byte>, cap: nat): (n: nat)
    ensures n <= cap && 8 * n <= |s|
  {
    if cap > 0 && |s| >= 8 && ZeroCount(s[..8]) < 2 then 1 + DenseRun(s[8..], cap - 1) else 0
  }

  /** What the encoder emits for the `n` words of `src`. */
  function Pack(src: seq<byte>, n: nat): seq<byte>
    requires |src| == 8 * n
    decreases n, 0
  {
    if n == 0 then [] else [Tag(src[..8])] + NonZero(src[..8]) + PackRun(Tag(src[..8]), src[8..], n - 1)
  }

  function PackRun(tag: byte, s: seq<byte>, n: nat): seq<byte>
    requires |s| == 8 * n
    decreases n, 1
  {
    if tag == 0 then
      var c := ZeroRun(s, 255);
      [c] + Pack(s[8 * c..], n - c)
    else if tag == 255 then
      var c := DenseRun(s, 255);
      [c] + s[..8 * c] + Pack(s[8 * c..], n - c)
    else
      Pack(s, n)
  }

  lemma PackRunCases(tag: byte, s: seq<byte>, n: nat)
    requires |s| == 8 * n
    ensures tag == 0 ==> var c := ZeroRun(s, 255); PackRun(tag, s, n) == [c] + Pack(s[8 * c..], n - c)
    ensures tag == 255 ==> var c := DenseRun(s, 255);
                           PackRun(tag, s, n) == [c] + s[..8 * c] + Pack(s[8 * c..], n - c)
    ensures !Special(tag) ==> PackRun(tag, s, n) == Pack(s, n)
  {
  }

  lemma PackOfNothing(s: seq<byte>)
    requires s == []
    ensures Pack(s, 0) == []
  {
  }

  lemma PackFirst(s: seq<byte>, n: nat)
    requires |s| == 8 * n && n > 0
    ensures Pack(s, n) == [Tag(s[..8])] + NonZero(s[..8]) + PackRun(Tag(s[..8]), s[8..], n - 1)
  {
  }

  lemma TagBit(w: seq<byte>, i: nat)
    requires |w| == 8 && i < 8
    ensures Bit(Tag(w), i) <==> w[i] != 0
  {
    hide Bit;
    var h7 := One(w[7]);
    var h6 := One(w[6]) + 2 * h7;
    var h5 := One(w[5]) + 2 * h6;
    var h4 := One(w[4]) + 2 * h5;
    var h3 := One(w[3]) + 2 * h4;
    var h2 := One(w[2]) + 2 * h3;
    var h1 := One(w[1]) + 2 * h2;
    assert Tag(w) == One(w[0]) + 2 * h1;
    LowBit(One(w[0]), h1, i);
    LowBit(One(w[1]), h2, i - 1);
    LowBit(One(w[2]), h3, i - 2);
    LowBit(One(w[3]), h4, i - 3);
    LowBit(One(w[4]), h5, i - 4);
    LowBit(One(w[5]), h6, i - 5);
    LowBit(One(w[6]), h7, i - 6);
    LowBit(One(w[7]), 0, i - 7);
  }

  /** The lowest bit of a number and the rest of it. */
  lemma LowBit(b: nat, v: nat, i: int)
    requires b < 2
    ensures i == 0 ==> Bit(b + 2 * v, 0) == (b == 1)
    ensures i > 0 ==> Bit(b + 2 * v, i) == Bit(v, i - 1)
  {
  }

  /** A tag and the non-zero bytes rebuild the word. */
  lemma {:induction false} ExpandNonZero(tag: byte, i: nat, w: seq<byte>)
    requires i <= 8 && |w| == 8 - i
    requires forall j :: i <= j < 8 ==> (Bit(tag, j) <==> w[j - i] != 0)
    ensures |NonZero(w)| == SetBits(tag, i) && Expand(tag, i, NonZero(w)) == w
    decreases |w|
  {
    if i == 8 {
    } else {
      assert Bit(tag, i) <==> w[i - i] != 0;
      forall j | i + 1 <= j < 8
        ensures Bit(tag, j) <==> w[1..][j - (i + 1)] != 0
      {
        assert w[1..][j - (i + 1)] == w[j - i];
      }
      ExpandNonZero(tag, i + 1, w[1..]);
      if w[0] != 0 {
        assert NonZero(w)[1..] == NonZero(w[1..]);
      } else {
        assert NonZero(w) == NonZero(w[1..]);
      }
      assert w == [w[0]] + w[1..];
    }
  }

  lemma WordRebuilt(w: seq<byte>)
    requires |w| == 8
    ensures |NonZero(w)| == SetBits(Tag(w), 0) && Expand(Tag(w), 0, NonZero(w)) == w
  {
    forall j | 0 <= j < 8
      ensures Bit(Tag(w), j) <==> w[j - 0] != 0
    {
      TagBit(w, j);
    }
    ExpandNonZero(Tag(w), 0, w);
  }

  lemma {:induction false} NonZeroLength(w: seq<byte>)
    ensures |NonZero(w)| + ZeroCount(w) == |w|
    ensures ZeroCount(w) == 0 ==> NonZero(w) == w
    ensures ZeroCount(w) == |w| ==> w == Zeros(|w|)
  {
    if w == [] {
    } else {
      NonZeroLength(w[1..]);
      assert w == [w[0]] + w[1..];
    }
  }

  /** The two special tags are the words with no and with eight zero bytes. */
  lemma SpecialTags(w: seq<byte>)
    requires |w| == 8
    ensures Tag(w) == 0 <==> ZeroCount(w) == 8
    ensures Tag(w) == 255 <==> ZeroCount(w) == 0
    ensures Tag(w) == 0 <==> forall i :: 0 <= i < 8 ==> w[i] == 0
    ensures Tag(w) == 255 <==> forall i :: 0 <= i < 8 ==> w[i] != 0
  {
    WordZeroCount(w);
  }

  lemma WordZeroCount(w: seq<byte>)
    requires |w| == 8
    ensures ZeroCount(w) + One(w[0]) + One(w[1]) + One(w[2]) + One(w[3])
            + One(w[4]) + One(w[5]) + One(w[6]) + One(w[7]) == 8
  {
    ZeroCountSplit(w, 4);
    assert w[..4] == [w[0], w[1], w[2], w[3]] && w[4..] == [w[4], w[5], w[6], w[7]];
    ZeroCountFour(w[..4]);
    ZeroCountFour(w[4..]);
  }

  lemma ZeroCountFour(w: seq<byte>)
    requires |w| == 4
    ensures ZeroCount(w) + One(w[0]) + One(w[1]) + One(w[2]) + One(w[3]) == 4
  {
    assert ZeroCount(w[1..][1..][1..][1..]) == 0;
    assert w[1..][1..][1..][0] == w[3] && w[1..][1..][0] == w[2];
    assert ZeroCount(w[1..][1..][1..]) + One(w[3]) == 1;
    assert ZeroCount(w[1..][1..]) + One(w[2]) + One(w[3]) == 2;
  }

  lemma {:induction false} ZeroCountSplit(w: seq<byte>, k: nat)
    requires k <= |w|
    ensures ZeroCount(w) == ZeroCount(w[..k]) + ZeroCount(w[k..])
  {
    if k > 0 {
      ZeroCountSplit(w[1..], k - 1);
      assert w[..k][1..] == w[1..][..k - 1] && w[k..] == w[1..][k - 1..];
    } else {
      assert w[..0] == [] && w[0..] == w;
    }
  }

  lemma {:induction false} ZeroRunIsZero(s: seq<byte>, cap: nat)
    ensures s[..8 * ZeroRun(s, cap)] == Zeros(8 * ZeroRun(s, cap))
  {
    if cap > 0 && |s| >= 8 && ZeroCount(s[..8]) == 8 {
      var n := ZeroRun(s[8..], cap - 1);
      ZeroRunIsZero(s[8..], cap - 1);
      NonZeroLength(s[..8]);
      assert s[..8 + 8 * n] == s[..8] + s[8..][..8 * n];
    }
  }

  /** Unpacking what the encoder emitted gives back the input and stops right after it. */
  lemma {:induction false} RoundTrip(src: seq<byte>, n: nat, rest: seq<byte>)
    requires |src| == 8 * n
    ensures Decode(Pack(src, n) + rest, n) == Decoded(src, rest)
    decreases n, 0
  {
    hide Decode, DecodeRun, PackRun, Expand, SetBits, NonZero, Tag;
    if n == 0 {
      assert Pack(src, n) + rest == rest;
      DecodeNothing(rest);
    } else {
      var w, s := src[..8], src[8..];
      var q := PackRun(Tag(w), s, n - 1);
      WordRebuilt(w);
      DecodeBlock(Tag(w), NonZero(w), q + rest, n);
      assert Pack(src, n) + rest == [Tag(w)] + NonZero(w) + (q + rest);
      RoundTripRun(Tag(w), s, n - 1, rest);
      assert src == w + s;
    }
  }

  lemma {:induction false} RoundTripRun(tag: byte, s: seq<byte>, n: nat, rest: seq<byte>)
    requires |s| == 8 * n
    ensures DecodeRun(tag, PackRun(tag, s, n) + rest, n) == Decoded(s, rest)
    decreases n, 1
  {
    hide Decode, DecodeRun, Pack, Zeros;
    if tag == 0 {
      var c := ZeroRun(s, 255);
      var tail := Pack(s[8 * c..], n - c);
      var q := [c] + tail + rest;
      RoundTrip(s[8 * c..], n - c, rest);
      ZeroRunIsZero(s, 255);
      assert q[1..] == tail + rest;
      DecodeSpecial(tag, q, n);
      assert s == Zeros(8 * c) + s[8 * c..];
    } else if tag == 255 {
      var c := DenseRun(s, 255);
      var k := 8 * c;
      var run, tail := s[..k], Pack(s[k..], n - c);
      var q := [c] + run + tail + rest;
      RoundTrip(s[k..], n - c, rest);
      assert q == [c] + run + (tail + rest);
      assert q[1..1 + k] == run && q[1 + k..] == tail + rest;
      DecodeSpecial(tag, q, n);
      assert s == run + s[k..];
    } else {
      RoundTrip(s, n, rest);
      DecodeOrdinary(tag, Pack(s, n) + rest, n);
    }
  }

  // ---------------------------------------------------------------------------------------
  // The documented forms

  lemma RunStep(s: seq<byte>, cap: nat)
    ensures cap == 0 || |s| < 8 ==> ZeroRun(s, cap) == 0 && DenseRun(s, cap) == 0
    ensures cap > 0 && |s| >= 8 ==>
              ZeroRun(s, cap) == if ZeroCount(s[..8]) == 8 then 1 + ZeroRun(s[8..], cap - 1) else 0
    ensures cap > 0 && |s| >= 8 ==>
              DenseRun(s, cap) == if ZeroCount(s[..8]) <= 1 then 1 + DenseRun(s[8..], cap - 1) else 0
  {
    hide ZeroCount;
  }

  lemma {:induction false} ZeroRunOfZeros(n: nat, cap: nat)
    requires n <= cap
    ensures ZeroRun(Zeros(8 * n), cap) == n
  {
    hide ZeroRun, ZeroCount;
    RunStep(Zeros(8 * n), cap);
    if n == 0 {
    } else {
      ZeroRunOfZeros(n - 1, cap - 1);
      assert Zeros(8 * n)[8..] == Zeros(8 * (n - 1));
      SpecialTags(Zeros(8 * n)[..8]);
    }
  }

  /** Up to 256 zero words pack into a zero tag and the number of additional words. */
  lemma ZerosPack(n: nat)
    requires n <= 255
    ensures Pack(Zeros(8 * (n + 1)), n + 1) == [0, n]
  {
    hide ZeroRun, ZeroCount, NonZero, Tag, Pack, PackRun;
    var s := Zeros(8 * (n + 1));
    var w, rest := s[..8], s[8..];
    assert rest == Zeros(8 * n) && rest[8 * n..] == [];
    SpecialTags(w);
    NonZeroLength(w);
    ZeroRunOfZeros(n, 255);
    PackFirst(s, n + 1);
    PackRunCases(0, rest, n);
    PackOfNothing(rest[8 * n..]);
  }

  lemma {:induction false} DenseRunOfDense(s: seq<byte>, n: nat, cap: nat)
    requires |s| == 8 * n && n <= cap && forall i :: 0 <= i < |s| ==> s[i] != 0
    ensures DenseRun(s, cap) == n
  {
    hide DenseRun, ZeroCount, Tag;
    RunStep(s, cap);
    if n == 0 {
    } else {
      DenseRunOfDense(s[8..], n - 1, cap - 1);
      SpecialTags(s[..8]);
    }
  }

  /** Up to 256 words without a zero byte pack into a tag of 255, the first word, the number of
      additional words, and those as they are. */
  lemma PlainPack(s: seq<byte>, n: nat)
    requires |s| == 8 * (n + 1) && n <= 255 && forall i :: 0 <= i < |s| ==> s[i] != 0
    ensures Pack(s, n + 1) == [255] + s[..8] + [n] + s[8..]
  {
    hide DenseRun, ZeroCount, NonZero, Tag, Pack, PackRun;
    var w, rest := s[..8], s[8..];
    assert rest[..8 * n] == rest && rest[8 * n..] == [];
    SpecialTags(w);
    NonZeroLength(w);
    DenseRunOfDense(rest, n, 255);
    PackFirst(s, n + 1);
    PackRunCases(255, rest, n);
    PackOfNothing(rest[8 * n..]);
    assert [255] + w + ([n] + rest + []) == [255] + w + [n] + rest;
  }

  /** The example of doc/encoding.md. */
  lemma DocumentedExample()
    ensures Pack([0x08, 0, 0, 0, 0x03, 0, 0x02, 0, 0x19, 0, 0, 0, 0xaa, 0x01, 0, 0], 2)
         == [0x51, 0x08, 0x03, 0x02, 0x31, 0x19, 0xaa, 0x01]
  {
    hide Pack, NonZero, Tag;
    var a: seq<byte>, b: seq<byte> := [0x08, 0, 0, 0, 0x03, 0, 0x02, 0], [0x19, 0, 0, 0, 0xaa, 0x01, 0, 0];
    EightBytes(0x08, 0, 0, 0, 0x03, 0, 0x02, 0);
    EightBytes(0x19, 0, 0, 0, 0xaa, 0x01, 0, 0);
    TwoOrdinaryWords(a, b);
    assert a + b == [0x08, 0, 0, 0, 0x03, 0, 0x02, 0, 0x19, 0, 0, 0, 0xaa, 0x01, 0, 0];
  }

  /** Words with ordinary tags pack into tag and non-zero bytes, one after the other. */
  lemma TwoOrdinaryWords(a: seq<byte>, b: seq<byte>)
    requires |a| == |b| == 8 && !Special(Tag(a)) && !Special(Tag(b))
    ensures Pack(a + b, 2) == [Tag(a)] + NonZero(a) + ([Tag(b)] + NonZero(b))
  {
    hide Pack, PackRun, NonZero, Tag;
    var s := a + b;
    assert s[..8] == a && s[8..] == b && b[..8] == b && b[8..] == [];
    PackFirst(s, 2);
    PackRunCases(Tag(a), b, 1);
    PackFirst(b, 1);
    PackRunCases(Tag(b), [], 0);
    PackOfNothing([]);
    assert [Tag(b)] + NonZero(b) + [] == [Tag(b)] + NonZero(b);
  }

  lemma EightBytes(a: byte, b: byte, c: byte, d: byte, e: byte, f: byte, g: byte, h: byte)
    ensures var w := [a, b, c, d, e, f, g, h];
            NonZero(w) == Kept(a) + Kept(b) + Kept(c) + Kept(d) + (Kept(e) + Kept(f) + Kept(g) + Kept(h))
            && Tag(w) == One(a) + 2 * One(b) + 4 * One(c) + 8 * One(d)
                         + 16 * One(e) + 32 * One(f) + 64 * One(g) + 128 * One(h)
  {
    hide NonZero, Kept;
    NonZeroFour(a, b, c, d);
    NonZeroFour(e, f, g, h);
    NonZeroAppend([a, b, c, d], [e, f, g, h]);
    assert [a, b, c, d, e, f, g, h] == [a, b, c, d] + [e, f, g, h];
  }

  lemma {:induction false} NonZeroAppend(a: seq<byte>, b: seq<byte>)
    ensures NonZero(a + b) == NonZero(a) + NonZero(b)
  {
    if a == [] {
      assert a + b == b;
    } else {
      assert (a + b)[1..] == a[1..] + b;
      NonZeroAppend(a[1..], b);
    }
  }

  lemma NonZeroFour(a: byte, b: byte, c: byte, d: byte)
    ensures NonZero([a, b, c, d]) == Kept(a) + Kept(b) + Kept(c) + Kept(d)
  {
    hide NonZero;
    NonZeroAppend([a, b], [c, d]);
    NonZeroAppend([a], [b]);
    NonZeroAppend([c], [d]);
    NonZeroOne(a);
    NonZeroOne(b);
    NonZeroOne(c);
    NonZeroOne(d);
    assert [a, b, c, d] == [a, b] + [c, d] && [a, b] == [a] + [b] && [c, d] == [c] + [d];
  }

  lemma NonZeroOne(b: byte)
    ensures NonZero([b]) == Kept(b)
  {
    assert [b][1..] == [];
  }

  function Kept(b: byte): seq<byte> {
    if b != 0 then [b] else []
  }
}
