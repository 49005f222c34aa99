/** Relaying the upstream's response: buffer up to the end of its head, rewrite the head, pass on the rest. */
module Relay {
  import opened Labels
  import opened HeaderLines
  import opened HeaderRewrite
  import opened Streams

  /**
   * What buffering makes of a response, as a function of its bytes alone: nothing if there is no room to
   * read into; otherwise the bytes with their head rewritten if the head ends within the buffer limit.
   */
  function Buffered(stream: Bytes, extra: seq<Header>, maxBuf: nat): Bytes {
    if maxBuf == 0 then []
    else if FindHeadEnd(stream[..Min(|stream|, maxBuf)]).Some? then Rewritten(stream, extra)
    else stream
  }

  /** Does the response get past the buffering, so that the rest is copied in both directions? */
  predicate PassesBuffer(stream: Bytes, maxBuf: nat) {
    maxBuf > 0 && (FindHeadEnd(stream[..Min(|stream|, maxBuf)]).Some? || |stream| >= maxBuf)
  }

  /** What the client must receive: with nothing to inject, the upstream's bytes themselves. */
  function Relayed(stream: Bytes, extra: seq<Header>, maxBuf: nat): Bytes {
    if extra == [] then stream else Buffered(stream, extra, maxBuf)
  }

  /** What the upstream receives of the client's further bytes. */
  function Uploaded(rest: Bytes, stream: Bytes, extra: seq<Header>, maxBuf: nat): Bytes {
    if extra == [] || PassesBuffer(stream, maxBuf) then rest else []
  }

  /** All of it over the upstream's bytes: where their first CRLF CRLF ends, and whether that is within the limit. */
  lemma RelayedIs(rest: Bytes, stream: Bytes, extra: seq<Header>, maxBuf: nat)
    ensures
      var found := FindHeadEnd(stream).Some? && FindHeadEnd(stream).value + 4 <= maxBuf;
      && Relayed(stream, extra, maxBuf) ==
         (if extra != [] && maxBuf == 0 then []
          else if extra != [] && found then Rewritten(stream, extra)
          else stream)
      && Uploaded(rest, stream, extra, maxBuf) ==
         (if extra == [] || (maxBuf > 0 && (found || |stream| >= maxBuf)) then rest else [])
  {
    HeadEndStable(stream, Min(|stream|, maxBuf));
  }

  /** Rewriting what is buffered and passing on the rest is rewriting the whole. */
  lemma RewritePrefix(s: Bytes, n: nat, hs: seq<Header>)
    requires n <= |s| && FindHeadEnd(s[..n]).Some?
    ensures Rewritten(s[..n], hs) + s[n..] == Rewritten(s, hs)
  {
    HeadEndStable(s, n);
    var cut := FindHeadEnd(s).value + 2;
    var head := Strip(s[..cut], Names(hs)) + Concat(HeaderBlock(hs));
    assert s[..n][..cut] == s[..cut];
    var held := s[..n][cut..];
    assert held + s[n..] == s[cut..];
    assert (head + held) + s[n..] == head + (held + s[n..]);
  }

  /** A head found in what is held is the stream's head. */
  lemma HeadFound(stream: Bytes, held: Bytes, rest: Bytes, extra: seq<Header>, maxBuf: nat)
    requires stream == held + rest && |held| <= maxBuf
    requires FindHeadEnd(held).Some?
    ensures Buffered(stream, extra, maxBuf) == Rewritten(held, extra) + rest
    ensures PassesBuffer(stream, maxBuf)
  {
    var n, limit := |held|, Min(|stream|, maxBuf);
    assert stream[..n] == held && stream[n..] == rest;
    HeadEndStable(stream, n);
    HeadEndStable(stream, limit);
    RewritePrefix(stream, n, extra);
  }

  /** A full buffer without a head: the limit is reached before the head ends. */
  lemma HeadTooLong(stream: Bytes, held: Bytes, rest: Bytes, extra: seq<Header>, maxBuf: nat)
    requires stream == held + rest && |held| == maxBuf > 0
    requires FindHeadEnd(held).None?
    ensures Buffered(stream, extra, maxBuf) == held + rest
    ensures PassesBuffer(stream, maxBuf)
  {
    assert stream[..maxBuf] == held;
  }

  /** The stream ended, or could not be read, with no head found in it and room left. */
  lemma StreamEnded(stream: Bytes, held: Bytes, rest: Bytes, extra: seq<Header>, maxBuf: nat)
    requires stream == held + rest && |held| <= maxBuf
    requires FindHeadEnd(held).None? && (maxBuf == 0 || (rest == [] && |held| < maxBuf))
    ensures Buffered(stream, extra, maxBuf) == held
    ensures !PassesBuffer(stream, maxBuf)
  {
    if maxBuf > 0 { assert stream[..|stream|] == held; }
  }

  /** However the read loop stopped, what it held decides what is sent. */
  lemma BufferDecides(stream: Bytes, held: Bytes, rest: Bytes, extra: seq<Header>, maxBuf: nat, ended: bool)
    requires stream == held + rest && |held| <= maxBuf
    requires ended ==> FindHeadEnd(held).None? && (maxBuf == 0 || (rest == [] && |held| < maxBuf))
    requires !ended && FindHeadEnd(held).None? ==> |held| == maxBuf > 0
    ensures Buffered(stream, extra, maxBuf) ==
            (if FindHeadEnd(held).Some? then Rewritten(held, extra) else held) + if ended then [] else rest
    ensures PassesBuffer(stream, maxBuf) <==> !ended
  {
    if ended {
      StreamEnded(stream, held, rest, extra, maxBuf);
    } else if FindHeadEnd(held).Some? {
      HeadFound(stream, held, rest, extra, maxBuf);
    } else {
      HeadTooLong(stream, held, rest, extra, maxBuf);
    }
  }

  /** With room to read, the head is rewritten exactly if its empty line ends within the limit. */
  lemma RewrittenIffWithinLimit(stream: Bytes, extra: seq<Header>, maxBuf: nat)
    requires maxBuf > 0
    ensures Relayed(stream, extra, maxBuf) ==
            if FindHeadEnd(stream).Some? && FindHeadEnd(stream).value + 4 <= maxBuf then Rewritten(stream, extra)
            else stream
  {
    HeadEndStable(stream, Min(|stream|, maxBuf));
    NothingToInject(stream);
  }

  /**
   * The shortcut for an empty header list is not a special case, as far as the client's bytes go: the general
   * path would send the same, unless it had no room to read into and there was something to read.
   */
  lemma ShortcutAgrees(stream: Bytes, maxBuf: nat)
    ensures Buffered(stream, [], maxBuf) == Relayed(stream, [], maxBuf) <==> maxBuf > 0 || stream == []
  {
    NothingToInject(stream);
  }

  /** `relay_upstream_response`, with both directions of the connection. */
  method RelayUpstreamResponse(clientIn: ByteSource, clientOut: ByteSink,
                               upstreamIn: ByteSource, upstreamOut: ByteSink, extra: seq<Header>, maxBuf: nat)
    requires clientIn != upstreamIn && clientOut != upstreamOut
    modifies clientIn, clientOut, upstreamIn, upstreamOut
    ensures clientOut.received == old(clientOut.received) + Relayed(old(upstreamIn.pending), extra, maxBuf)
    ensures upstreamOut.received ==
            old(upstreamOut.received) + Uploaded(old(clientIn.pending), old(upstreamIn.pending), extra, maxBuf)
  {
    if extra == [] {
      CopyBidirectional(clientIn, clientOut, upstreamIn, upstreamOut);
      return;
    }
    RelayBuffered(clientIn, clientOut, upstreamIn, upstreamOut, extra, maxBuf);
  }

  /** The path behind the shortcut. It would serve for an empty header list as well. */
  method RelayBuffered(clientIn: ByteSource, clientOut: ByteSink,
                       upstreamIn: ByteSource, upstreamOut: ByteSink, extra: seq<Header>, maxBuf: nat)
    requires clientIn != upstreamIn && clientOut != upstreamOut
    modifies clientIn, clientOut, upstreamIn, upstreamOut
    ensures clientOut.received == old(clientOut.received) + Buffered(old(upstreamIn.pending), extra, maxBuf)
    ensures upstreamOut.received == old(upstreamOut.received) +
                                    if PassesBuffer(old(upstreamIn.pending), maxBuf) then old(clientIn.pending) else []
  {
    ghost var stream := upstreamIn.pending;
    var buf, readBytes, headerEnd, ended := BufferHead(upstreamIn, maxBuf);
    var held := buf[..readBytes];
    BufferDecides(stream, held, upstreamIn.pending, extra, maxBuf, ended);
    var toSend := held;
    if headerEnd.Some? {
      toSend := RewriteHead(held, extra);
    }
    SendHead(clientIn, clientOut, upstreamIn, upstreamOut, toSend, ended);
  }

  /** Send what the head became, and unless the response is over, everything behind it, both ways. */
  method SendHead(clientIn: ByteSource, clientOut: ByteSink,
                  upstreamIn: ByteSource, upstreamOut: ByteSink, toSend: Bytes, ended: bool)
    requires clientIn != upstreamIn && clientOut != upstreamOut
    modifies clientIn, clientOut, upstreamIn, upstreamOut
    ensures clientOut.received ==
            old(clientOut.received) + (toSend + if ended then [] else old(upstreamIn.pending))
    ensures upstreamOut.received == old(upstreamOut.received) + if ended then [] else old(clientIn.pending)
  {
    clientOut.WriteAll(toSend);
    if !ended {
      CopyBidirectional(clientIn, clientOut, upstreamIn, upstreamOut);
    }
  }

  /** The read loop: until the head ends, the buffer is full, or the stream is over. */
  method BufferHead(upstream: ByteSource, maxBuf: nat)
    returns (buf: Bytes, readBytes: nat, headerEnd: Option<nat>, ended: bool)
    modifies upstream
    ensures readBytes <= |buf| <= maxBuf
    ensures old(upstream.pending) == buf[..readBytes] + upstream.pending
    ensures headerEnd == FindHeadEnd(buf[..readBytes])
    ensures ended ==> headerEnd.None? && (maxBuf == 0 || (upstream.pending == [] && readBytes < maxBuf))
    ensures !ended && headerEnd.None? ==> readBytes == maxBuf > 0
  {
    ghost var stream := upstream.pending;
    buf := FreshBuffer(maxBuf);
    readBytes := 0;
    headerEnd := None;
    while true
      invariant readBytes <= |buf| <= maxBuf && (maxBuf > 0 ==> readBytes < |buf|)
      invariant stream == buf[..readBytes] + upstream.pending
      invariant FindHeadEnd(buf[..readBytes]).None?
      decreases maxBuf - readBytes
    {
      var n;
      buf, n := ReadInto(upstream, buf, readBytes);
      if n == 0 {
        return buf, readBytes, None, true;
      }
      readBytes := readBytes + n;

      headerEnd := FindHeadEnd(buf[..readBytes]);
      if headerEnd.Some? {
        return buf, readBytes, headerEnd, false;
      }
      if readBytes >= |buf| {
        if |buf| >= maxBuf {
          return buf, readBytes, None, false;
        }
        assert Doubled(buf, maxBuf)[..readBytes] == buf[..readBytes];
        buf := Doubled(buf, maxBuf);
      }
    }
  }

  /** `copy_bidirectional`: what is pending on either side goes to the other; the two do not affect each other. */
  method CopyBidirectional(clientIn: ByteSource, clientOut: ByteSink, upstreamIn: ByteSource, upstreamOut: ByteSink)
    requires clientIn != upstreamIn && clientOut != upstreamOut
    modifies clientIn, clientOut, upstreamIn, upstreamOut
    ensures clientOut.received == old(clientOut.received) + old(upstreamIn.pending) && upstreamIn.pending == []
    ensures upstreamOut.received == old(upstreamOut.received) + old(clientIn.pending) && clientIn.pending == []
  {
    CopyRest(clientOut, upstreamIn);
    CopyRest(upstreamOut, clientIn);
  }

  /** One direction of it. */
  method CopyRest(sink: ByteSink, source: ByteSource)
    modifies sink, source
    ensures sink.received == old(sink.received) + old(source.pending)
    ensures source.pending == []
  {
    while source.pending != []
      invariant sink.received + source.pending == old(sink.received) + old(source.pending)
      decreases |source.pending|
    {
      var chunk := source.Read(8192);
      sink.WriteAll(chunk);
    }
  }
}
