/**
 The buffering wrappers of c++/src/kj/io.c++ over streams that may read short.  Seen through
 `Rest` and `Available` the input wrapper meets the contracts of the buffered input that module
 PackedStreams works on, whatever the size of the buffer.  The output wrapper hands out its own
 buffer instead of a fresh one; what a caller puts there does not change `Written`, and writing it
 appends it, so that a caller sees the same.
 */
module BufferedStreams {
  import opened Basics
  import opened Bytes

  // ---------------------------------------------------------------------------------------
  // Input

  /** kj::InputStream: a read delivers at least what it must, unless the stream ends. */
  class RawInput {
    var rest: seq<byte>

    constructor (data: seq<byte>)
      ensures rest == data
    {
      rest := data;
    }

    method TryRead(dst: array<byte>, at: nat, max: nat, min: nat) returns (n: nat)
      requires at + max <= dst.Length && min <= max
      modifies this, dst
      ensures n <= max && n <= |old(rest)| && (n < min ==> n == |old(rest)|)
      ensures rest == old(rest)[n..] && dst[..] == Splice(old(dst[..]), at, old(rest)[..n])
    {
      var least := if min <= |rest| then min else |rest|;
      n :| least <= n <= max && n <= |rest|;
      Copy(rest[..n], dst, at);
      rest := rest[n..];
    }

    /** InputStream::skip: reads into a scratch buffer. */
    method Skip(bytes: nat) returns (ok: bool)
      modifies this
      ensures ok <==> bytes <= |old(rest)|
      ensures ok ==> rest == old(rest)[bytes..]
    {
      var scratch := new byte[8192](_ => 0);
      var left: nat := bytes;
      while left > 0
        invariant left <= bytes && bytes - left <= |old(rest)| && rest == old(rest)[bytes - left..]
        invariant fresh(scratch) && scratch.Length == 8192
      {
        var amount := if left < 8192 then left else 8192;
        var n := TryRead(scratch, 0, amount, amount);
        if n < amount {
          return false;
        }
        left := left - amount;
      }
      return true;
    }
  }

  /** BufferedInputStreamWrapper; `buffer[lo..hi]` is what is available. */
  class InputWrapper {
    const inner: RawInput
    const buffer: array<byte>
    var lo: nat
    var hi: nat

    ghost predicate Valid()
      reads this
    {
      lo <= hi <= buffer.Length && buffer.Length > 0
    }

    /** All bytes not yet skipped. */
    ghost function Rest(): seq<byte>
      requires Valid()
      reads this, inner, buffer
    {
      buffer[lo..hi] + inner.rest
    }

    /** How many of them the buffer holds. */
    ghost function Available(): nat
      requires Valid()
      reads this
    {
      hi - lo
    }

    constructor (inner: RawInput, size: nat)
      requires size > 0
      ensures Valid() && this.inner == inner && fresh(buffer) && Rest() == inner.rest && Available() == 0
    {
      this.inner, this.buffer, this.lo, this.hi := inner, new byte[size](_ => 0), 0, 0;
    }

    method TryGetReadBuffer()
      requires Valid()
      modifies this, inner, buffer
      ensures Valid() && Rest() == old(Rest()) && (old(Available()) > 0 ==> Available() == old(Available()))
      ensures Available() == 0 <==> Rest() == []
    {
      if lo == hi {
        ghost var d := buffer[..];
        var n := inner.TryRead(buffer, 0, buffer.Length, 1);
        SplicePrefix(d, 0, old(inner.rest)[..n]);
        lo, hi := 0, n;
        assert buffer[0..n] == buffer[..][..0 + n];
      }
    }

    method TryRead(dst: array<byte>, at: nat, max: nat, min: nat) returns (n: nat)
      requires Valid() && at + max <= dst.Length && min <= max && dst != buffer
      modifies this, inner, buffer, dst
      ensures Valid() && n <= max && n <= |old(Rest())| && (n < min ==> n == |old(Rest())|)
      ensures min <= old(Available()) ==> n == if old(Available()) < max then old(Available()) else max
      ensures Rest() == old(Rest())[n..] && dst[..] == Splice(old(dst[..]), at, old(Rest())[..n])
    {
      hide Splice;
      if min <= hi - lo {
        n := Serve(dst, at, if hi - lo < max then hi - lo else max);
      } else {
        n := ReadOver(dst, at, max, min);
      }
    }

    /** Takes all that is available and reads on. */
    method ReadOver(dst: array<byte>, at: nat, max: nat, min: nat) returns (n: nat)
      requires Valid() && at + max <= dst.Length && Available() < min <= max && dst != buffer
      modifies this, inner, buffer, dst
      ensures Valid() && n <= max && n <= |old(Rest())| && (n < min ==> n == |old(Rest())|)
      ensures Rest() == old(Rest())[n..] && dst[..] == Splice(old(dst[..]), at, old(Rest())[..n])
    {
      hide Splice;
      ghost var d, rest := dst[..], Rest();
      assert Available() <= |rest|;
      var first := Serve(dst, at, hi - lo);
      ghost var d', rest' := dst[..], Rest();
      var m := ReadMore(dst, at + first, max - first, min - first);
      n := first + m;
      assert Rest() == rest'[m..] && dst[..] == Splice(d', at + first, rest'[..m]);
      TwoReads(d, at, rest, first, m);
    }

    /** Reads on with nothing available: through the buffer, or directly if that is too small. */
    method ReadMore(dst: array<byte>, at: nat, max: nat, min: nat) returns (n: nat)
      requires Valid() && Available() == 0 && at + max <= dst.Length && min <= max && dst != buffer
      modifies this, inner, buffer, dst
      ensures Valid() && n <= max && n <= |old(Rest())| && (n < min ==> n == |old(Rest())|)
      ensures Rest() == old(Rest())[n..] && dst[..] == Splice(old(dst[..]), at, old(Rest())[..n])
    {
      hide Splice;
      assert buffer[lo..hi] == [] && Rest() == inner.rest;
      if max <= buffer.Length {
        n := Refill(dst, at, max, min);
      } else {
        lo, hi := 0, 0;
        n := inner.TryRead(dst, at, max, min);
        assert buffer[lo..hi] == [] && Rest() == inner.rest;
      }
    }

    /** Copies from what is available. */
    method Serve(dst: array<byte>, at: nat, n: nat) returns (served: nat)
      requires Valid() && n <= Available() && at + n <= dst.Length && dst != buffer
      modifies this`lo, dst
      ensures Valid() && served == n && Available() == old(Available()) - n && Rest() == old(Rest())[n..]
      ensures dst[..] == Splice(old(dst[..]), at, old(Rest())[..n])
    {
      hide Splice;
      ghost var rest := Rest();
      assert buffer[lo..lo + n] == rest[..n];
      Copy(buffer[lo..lo + n], dst, at);
      lo := lo + n;
      assert buffer[lo..hi] + inner.rest == rest[n..];
      return n;
    }

    /** Reads the next buffer-full and copies from it. */
    method Refill(dst: array<byte>, at: nat, max: nat, min: nat) returns (n: nat)
      requires Valid() && Available() == 0 && at + max <= dst.Length && min <= max <= buffer.Length && dst != buffer
      modifies this, inner, buffer, dst
      ensures Valid() && n <= max && n <= |old(inner.rest)| && (n < min ==> n == |old(inner.rest)|)
      ensures Rest() == old(inner.rest)[n..] && dst[..] == Splice(old(dst[..]), at, old(inner.rest)[..n])
    {
      hide Splice;
      ghost var b, raw := buffer[..], inner.rest;
      var m := inner.TryRead(buffer, 0, buffer.Length, min);
      SplicePrefix(b, 0, raw[..m]);
      assert buffer[..m] == buffer[..][..0 + m] == raw[..m];
      n := if m < max then m else max;
      Copy(buffer[..n], dst, at);
      lo, hi := n, m;
      Through(raw, buffer[..m], n);
      assert buffer[..m][..n] == buffer[..n] && buffer[..m][n..] == buffer[n..m];
    }

    /** Passes over `bytes` bytes, if there are as many. */
    method Skip(bytes: nat) returns (ok: bool)
      requires Valid()
      modifies this, inner, buffer
      ensures Valid()
      ensures ok <==> bytes <= |old(Rest())|
      ensures ok ==> Rest() == old(Rest())[bytes..]
      ensures bytes <= old(Available()) ==> Available() == old(Available()) - bytes
    {
      hide Splice;
      ghost var rest, x, raw := Rest(), buffer[lo..hi], inner.rest;
      if bytes <= hi - lo {
        lo := lo + bytes;
        assert Rest() == rest[bytes..];
        return true;
      }
      var left := bytes - (hi - lo);
      if left <= buffer.Length {
        ghost var b := buffer[..];
        var n := inner.TryRead(buffer, 0, buffer.Length, left);
        if n < left {
          lo, hi := 0, 0;
          return false;
        }
        SplicePrefix(b, 0, raw[..n]);
        lo, hi := left, n;
        assert buffer[..n] == buffer[..][..0 + n] == raw[..n] && buffer[..n][left..] == buffer[left..n];
        Through(raw, buffer[..n], left);
        Joined(x, raw, left);
        return true;
      }
      lo, hi := 0, 0;
      ok := inner.Skip(left);
      assert buffer[0..0] == [];
      if ok {
        Joined(x, raw, left);
      }
    }

    /** InputStream::read: exactly `n` bytes. */
    method Read(dst: array<byte>, at: nat, n: nat) returns (ok: bool)
      requires Valid() && at + n <= dst.Length && dst != buffer
      modifies this, inner, buffer, dst
      ensures Valid()
      ensures ok <==> n <= |old(Rest())|
      ensures ok ==> Rest() == old(Rest())[n..] && dst[..] == Splice(old(dst[..]), at, old(Rest())[..n])
    {
      var m := TryRead(dst, at, n, n);
      ok := m == n;
    }
  }

  /** Reading `a` and then `b` bytes is reading `a + b` bytes. */
  lemma TwoReads(d: seq<byte>, at: nat, rest: seq<byte>, a: nat, b: nat)
    requires a + b <= |rest| && at + a + b <= |d|
    ensures Splice(Splice(d, at, rest[..a]), at + a, rest[a..][..b]) == Splice(d, at, rest[..a + b])
    ensures rest[a..][b..] == rest[a + b..]
  {
    hide Splice;
    SliceOfSuffix(rest, a, 0, b);
    SuffixOfSuffix(rest, a, b);
    JoinSlices(rest, 0, a, a + b);
    SpliceSplice(d, at, rest[..a], rest[a..a + b]);
  }

  lemma Joined(x: seq<byte>, raw: seq<byte>, k: nat)
    requires k <= |raw|
    ensures (x + raw)[..|x| + k] == x + raw[..k] && (x + raw)[|x| + k..] == raw[k..]
  {
  }

  /** `b` went through the buffer, and `k` bytes of it further on. */
  lemma Through(raw: seq<byte>, b: seq<byte>, k: nat)
    requires k <= |b| <= |raw| && b == raw[..|b|]
    ensures b[..k] == raw[..k] && b[k..] + raw[|b|..] == raw[k..]
  {
  }

  // ---------------------------------------------------------------------------------------
  // Output

  class RawOutput {
    var written: seq<byte>

    constructor ()
      ensures written == []
    {
      written := [];
    }

    method Write(data: seq<byte>)
      modifies this
      ensures written == old(written) + data
    {
      written := written + data;
    }
  }

  /** BufferedOutputStreamWrapper; `buffer[..pos]` is not yet with the inner stream. */
  class OutputWrapper {
    const inner: RawOutput
    const buffer: array<byte>
    var pos: nat

    ghost predicate Valid()
      reads this
    {
      pos <= buffer.Length
    }

    /** Everything written.  What callers put into the buffer from `pos` on is not part of it. */
    ghost function Written(): seq<byte>
      requires Valid()
      reads this, inner, buffer
    {
      inner.written + buffer[..pos]
    }

    constructor (inner: RawOutput, size: nat)
      ensures Valid() && this.inner == inner && fresh(buffer) && Written() == inner.written
    {
      this.inner, this.buffer, this.pos := inner, new byte[size](_ => 0), 0;
    }

    /** Where callers may write directly. */
    method GetWriteBuffer() returns (target: array<byte>, from: nat)
      requires Valid()
      ensures target == buffer && from == pos
    {
      return buffer, pos;
    }

    /** Appends `src[lo..hi]`, which may be what the caller has put into the buffer itself. */
    method Write(src: array<byte>, lo: nat, hi: nat)
      requires Valid() && lo <= hi <= src.Length && (src == buffer ==> lo == pos)
      modifies this, inner, buffer
      ensures Valid() && Written() == old(Written()) + old(src[lo..hi])
    {
      ghost var data := src[lo..hi];
      if src == buffer {
        pos := pos + (hi - lo);
        assert buffer[..pos] == buffer[..lo] + data;
      } else if hi - lo <= buffer.Length - pos {
        Append(src, lo, hi);
      } else if hi - lo <= buffer.Length {
        AppendOver(src, lo, hi);
      } else {
        inner.Write(buffer[..pos]);
        pos := 0;
        inner.Write(src[lo..hi]);
        assert buffer[..0] == [];
      }
    }

    /** Fills the buffer, hands it on, and copies the rest into it. */
    method AppendOver(src: array<byte>, lo: nat, hi: nat)
      requires Valid() && lo <= hi <= src.Length && buffer.Length - pos < hi - lo <= buffer.Length && src != buffer
      modifies this, inner, buffer
      ensures Valid() && Written() == old(Written()) + src[lo..hi]
    {
      var middle := lo + (buffer.Length - pos);
      JoinSlices(src[..], lo, middle, hi);
      Append(src, lo, middle);
      assert buffer[..] == buffer[..pos];
      inner.Write(buffer[..]);
      pos := 0;
      assert buffer[..0] == [];
      Append(src, middle, hi);
    }

    /** Copies into the buffer. */
    method Append(src: array<byte>, lo: nat, hi: nat)
      requires Valid() && lo <= hi <= src.Length && hi - lo <= buffer.Length - pos && src != buffer
      modifies this`pos, buffer
      ensures Valid() && pos == old(pos) + hi - lo
      ensures Written() == old(Written()) + src[lo..hi]
    {
      hide Splice;
      ghost var d := buffer[..];
      Copy(src[lo..hi], buffer, pos);
      SplicePrefix(d, pos, src[lo..hi]);
      pos := pos + (hi - lo);
      assert buffer[..pos] == buffer[..][..pos] == d[..old(pos)] + src[lo..hi];
    }

    /** Hands everything on to the inner stream. */
    method Flush()
      requires Valid()
      modifies this, inner
      ensures Valid() && Written() == old(Written()) && inner.written == Written()
    {
      if pos > 0 {
        inner.Write(buffer[..pos]);
        pos := 0;
      }
      assert buffer[..0] == [];
    }
  }
}
