/** The two ends of a connection, and the growing buffer that reads go into. */
module Streams {
  import opened HeaderLines

  /** Bytes still to arrive. How much one read yields is up to the network. */
  class ByteSource {
    var pending: Bytes

    constructor (bytes: Bytes)
      ensures pending == bytes
    {
      pending := bytes;
    }

    /**
     * `read(&mut buf[..])` into `free` bytes of space: any non-empty prefix of what is pending that fits,
     * and nothing exactly when there is no space or the stream has ended.
     */
    method Read(free: nat) returns (chunk: Bytes)
      modifies this
      ensures chunk + pending == old(pending) && |chunk| <= free
      ensures chunk == [] <==> free == 0 || old(pending) == []
    {
      if free == 0 || pending == [] {
        return [];
      }
      var n: nat :| 1 <= n <= free && n <= |pending|;
      chunk := pending[..n];
      pending := pending[n..];
    }
  }

  class ByteSink {
    var received: Bytes

    constructor ()
      ensures received == []
    {
      received := [];
    }

    method WriteAll(bytes: Bytes)
      modifies this
      ensures received == old(received) + bytes
    {
      received := received + bytes;
    }
  }

  function Min(a: nat, b: nat): (m: nat)
    ensures m <= a && m <= b && (m == a || m == b)
  {
    if a <= b then a else b
  }

  /** `vec![0u8; max_buf.min(4096)]`. */
  function FreshBuffer(maxBuf: nat): (buf: Bytes)
    ensures |buf| == Min(maxBuf, 4096)
  {
    seq(Min(maxBuf, 4096), _ => 0)
  }

  /** `buf.resize((buf.len() * 2).min(max_buf), 0)`. */
  function Doubled(buf: Bytes, maxBuf: nat): (r: Bytes)
    requires 0 < |buf| < maxBuf
    ensures |buf| < |r| == Min(|buf| * 2, maxBuf) && r[..|buf|] == buf
  {
    buf + seq(Min(|buf| * 2, maxBuf) - |buf|, _ => 0)
  }

  /** A read lands behind the bytes already there. */
  function Placed(buf: Bytes, at: nat, chunk: Bytes): (r: Bytes)
    requires at + |chunk| <= |buf|
    ensures |r| == |buf| && r[..at + |chunk|] == buf[..at] + chunk
  {
    buf[..at] + chunk + buf[at + |chunk|..]
  }

  /** Nothing is lost or moved when a chunk goes from the stream to the buffer. */
  lemma FillKeepsStream(stream: Bytes, buf: Bytes, at: nat, chunk: Bytes, pending: Bytes)
    requires at + |chunk| <= |buf|
    requires stream == buf[..at] + (chunk + pending)
    ensures stream == Placed(buf, at, chunk)[..at + |chunk|] + pending
  {
    assert buf[..at] + (chunk + pending) == (buf[..at] + chunk) + pending;
  }

  /** `read(&mut buf[at..])`: the bytes that arrive are moved behind those already held. */
  method ReadInto(source: ByteSource, buf: Bytes, at: nat) returns (next: Bytes, n: nat)
    requires at <= |buf|
    modifies source
    ensures |next| == |buf| && at + n <= |buf|
    ensures next[..at + n] + source.pending == buf[..at] + old(source.pending)
    ensures n == 0 <==> at == |buf| || old(source.pending) == []
    ensures n == 0 ==> next == buf && source.pending == old(source.pending)
  {
    var chunk := source.Read(|buf| - at);
    n := |chunk|;
    if n == 0 {
      return buf, 0;
    }
    FillKeepsStream(buf[..at] + old(source.pending), buf, at, chunk, source.pending);
    next := Placed(buf, at, chunk);
  }
}
