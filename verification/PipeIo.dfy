/**
 writeAll and readAll of c++/src/benchmark/common.h over a FIFO pipe whose system calls may
 transfer any positive number of bytes up to what was asked for, or fail.
 */
module PipeIo {
  import opened Basics
  import opened Bytes

  /** What a loop reports: everything transferred, or an OsException after `done` bytes. */
  datatype Result = Complete | OsException(done: nat)

  class Pipe {
    var data: seq<byte>   // written and not yet read

    const healthy: bool   // no call fails while there is something to transfer

    constructor (healthy: bool)
      ensures data == [] && this.healthy == healthy
    {
      this.healthy, data := healthy, [];
    }

    /** write(2): takes a non-empty prefix of `bytes`, or fails with `n <= 0`. */
    method Write(bytes: seq<byte>) returns (n: int)
      modifies this
      ensures n <= |bytes| && (healthy && bytes != [] ==> n > 0)
      ensures data == old(data) + (if n > 0 then bytes[..n] else [])
    {
      n :| n <= |bytes| && (healthy && bytes != [] ==> n > 0);
      if n > 0 {
        data := data + bytes[..n];
      }
    }

    /** read(2): delivers a non-empty prefix of what the pipe holds into `buffer[pos..pos + size]`,
        or fails or meets the end of the stream with `n <= 0`. */
    method Read(buffer: array<byte>, pos: nat, size: nat) returns (n: int)
      requires pos + size <= buffer.Length
      modifies this, buffer
      ensures n <= size && n <= |old(data)| && (healthy && size > 0 && old(data) != [] ==> n > 0)
      ensures n <= 0 ==> data == old(data) && buffer[..] == old(buffer[..])
      ensures n > 0 ==> data == old(data)[n..] && buffer[..] == Splice(old(buffer[..]), pos, old(data)[..n])
    {
      n :| n <= size && n <= |data| && (healthy && size > 0 && data != [] ==> n > 0);
      if n > 0 {
        Copy(data[..n], buffer, pos);
        data := data[n..];
      }
    }
  }

  /** writeAll: on success the pipe has received all of `buffer`, in order; on failure exactly
      the first `done` bytes of it. */
  method WriteAll(pipe: Pipe, buffer: seq<byte>) returns (r: Result)
    modifies pipe
    ensures pipe.healthy ==> r.Complete?
    ensures r.Complete? ==> pipe.data == old(pipe.data) + buffer
    ensures r.OsException? ==> r.done < |buffer| && pipe.data == old(pipe.data) + buffer[..r.done]
  {
    var pos, size := 0, |buffer|;
    assert buffer[..0] == [];
    while size > 0
      invariant 0 <= pos && pos + size == |buffer| && 0 <= size
      invariant pipe.data == old(pipe.data) + buffer[..pos]
    {
      var n := pipe.Write(buffer[pos..]);
      if n <= 0 {
        return OsException(pos);
      }
      assert buffer[..pos] + buffer[pos..][..n] == buffer[..pos + n];
      pos := pos + n;
      size := size - n;
    }
    assert buffer[..pos] == buffer;
    return Complete;
  }

  /** readAll: on success `buffer` holds the next bytes of the pipe, in order, and the pipe has
      lost exactly those; on failure the first `done` of them. */
  method ReadAll(pipe: Pipe, buffer: array<byte>) returns (r: Result)
    modifies pipe, buffer
    ensures pipe.healthy && buffer.Length <= |old(pipe.data)| ==> r.Complete?
    ensures r.Complete? ==> buffer.Length <= |old(pipe.data)|
    ensures r.Complete? ==> buffer[..] == old(pipe.data)[..buffer.Length]
    ensures r.Complete? ==> pipe.data == old(pipe.data)[buffer.Length..]
    ensures r.OsException? ==> r.done < buffer.Length && r.done <= |old(pipe.data)|
    ensures r.OsException? ==> buffer[..r.done] == old(pipe.data)[..r.done] && pipe.data == old(pipe.data)[r.done..]
  {
    hide Splice;
    ghost var stream, d := pipe.data, buffer[..];
    var pos, size: nat := 0, buffer.Length;
    SpliceNothing(d, 0);
    assert stream[..0] == [] && stream[0..] == stream;
    while size > 0
      invariant 0 <= pos && pos + size == buffer.Length && pos <= |stream|
      invariant buffer[..] == Splice(d, 0, stream[..pos]) && pipe.data == stream[pos..]
    {
      var n := pipe.Read(buffer, pos, size);
      if n <= 0 {
        SplicePrefix(d, 0, stream[..pos]);
        assert buffer[..pos] == buffer[..][..pos] == stream[..pos];
        return OsException(pos);
      }
      SpliceSplice(d, 0, stream[..pos], stream[pos..][..n]);
      assert stream[..pos] + stream[pos..][..n] == stream[..pos + n];
      pos := pos + n;
      size := size - n;
    }
    SplicePrefix(d, 0, stream[..pos]);
    assert buffer[..] == buffer[..][..pos] == stream[..pos];
    return Complete;
  }

  /** Whatever the individual counts, a buffer that was sent and received without an error
      arrives byte for byte; while no call fails, it always arrives. */
  method SendAndReceive(sent: seq<byte>, healthy: bool) returns (ok: bool, received: seq<byte>)
    ensures healthy ==> ok
    ensures ok ==> received == sent
  {
    var pipe := new Pipe(healthy);
    received := [];
    var w := WriteAll(pipe, sent);
    if w.OsException? {
      return false, [];
    }
    var buffer := new byte[|sent|](_ => 0);
    var r := ReadAll(pipe, buffer);
    ok, received := r.Complete?, buffer[..];
  }

  lemma TakeFromSlice(s: seq<byte>, a: nat, b: nat, n: nat)
    requires a + n <= b <= |s|
    ensures s[..a] + s[a..b][..n] == s[..a + n] && s[a..b][n..] == s[a + n..b]
  {
  }

  /** The same with both ends running at once: writes and reads alternate in any order on a
      pipe that may be drained between two writes. */
  method Interleaved(sent: seq<byte>, healthy: bool) returns (ok: bool, received: seq<byte>)
    ensures healthy ==> ok
    ensures ok ==> received == sent
    ensures received <= sent
  {
    hide Splice;
    var pipe := new Pipe(healthy);
    var buffer := new byte[|sent|](_ => 0);
    ghost var d := buffer[..];
    var w, r := 0, 0;
    SpliceNothing(d, 0);
    assert sent[..0] == [] && sent[0..0] == [];
    while r < |sent|
      invariant 0 <= r <= w <= |sent| && fresh(pipe) && fresh(buffer) && buffer.Length == |sent|
      invariant pipe.data == sent[r..w] && buffer[..] == Splice(d, 0, sent[..r])
      decreases |sent| - w + |sent| - r
    {
      var writerRuns :| w < |sent| || !writerRuns;
      if w < |sent| && (writerRuns || r == w) {
        var n := pipe.Write(sent[w..]);
        if n <= 0 {
          break;
        }
        SliceOfSuffix(sent, w, 0, n);
        JoinSlices(sent, r, w, w + n);
        w := w + n;
      } else {
        var n := pipe.Read(buffer, r, |sent| - r);
        if n <= 0 {
          break;
        }
        SpliceSplice(d, 0, sent[..r], sent[r..w][..n]);
        TakeFromSlice(sent, r, w, n);
        r := r + n;
      }
    }
    SplicePrefix(d, 0, sent[..r]);
    received := buffer[..r];
    assert received == buffer[..][..r] == sent[..r];
    ok := r == |sent|;
  }
}
