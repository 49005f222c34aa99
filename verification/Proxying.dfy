/** One request from its first byte to the last byte of its response: `process_request_inner`. */
module Proxying {
  import opened Labels
  import opened HeaderLines
  import opened HeaderRewrite
  import opened HeaderTables
  import opened RequestBuffer
  import opened RequestHeads
  import opened Streams
  import opened Relay

  /** A service's headers for the upstream and for the client, with the global ones. */
  datatype HeadersConfig = HeadersConfig(
    globalUpstream: Table,
    globalResponse: Table,
    upstream: Option<Table>,
    response: Option<Table>)

  /**
   * What the upstream has received when all is done, for a request decided with `held` bytes: the held bytes
   * rewritten, and behind them the client's further bytes if the response got as far as copying.
   */
  function ToUpstream(request: Bytes, held: nat, response: Bytes, up: seq<Header>, down: seq<Header>, maxBuf: nat)
    : Bytes
    requires held <= |request|
  {
    Rewritten(request[..held], up) + Uploaded(request[held..], response, down, maxBuf)
  }

  /** Some amount that may be held at the decision accounts for what the upstream received. */
  ghost predicate Sent(received: Bytes, request: Bytes, response: Bytes,
                       up: seq<Header>, down: seq<Header>, maxBuf: nat, parse: Parser)
  {
    exists held: nat ::
      && HeldWhenDecided(request, maxBuf, parse, held) && held <= |request|
      && received == ToUpstream(request, held, response, up, down, maxBuf)
  }

  /** For some amount held when the parser first decided: that much rewritten, and the rest as far as it followed. */
  lemma SentIs(received: Bytes, request: Bytes, response: Bytes,
               up: seq<Header>, down: seq<Header>, maxBuf: nat, parse: Parser)
    ensures Sent(received, request, response, up, down, maxBuf, parse) <==>
            exists held: nat ::
              && HeldWhenDecided(request, maxBuf, parse, held) && held <= |request|
              && received == Rewritten(request[..held], up) + Uploaded(request[held..], response, down, maxBuf)
  {
    forall held: nat | held <= |request|
      ensures ToUpstream(request, held, response, up, down, maxBuf) ==
              Rewritten(request[..held], up) + Uploaded(request[held..], response, down, maxBuf)
    {
    }
  }

  lemma SentWith(received: Bytes, request: Bytes, held: nat, response: Bytes,
                 up: seq<Header>, down: seq<Header>, maxBuf: nat, parse: Parser)
    requires HeldWhenDecided(request, maxBuf, parse, held) && held <= |request|
    requires received == Rewritten(request[..held], up) + Uploaded(request[held..], response, down, maxBuf)
    ensures Sent(received, request, response, up, down, maxBuf, parse)
  {
  }

  /**
   * What follows an accepted request: send the held bytes rewritten, then relay the response. `up` and `down` are
   * the one listing each of the headers that go with the request and with its response.
   */
  method Exchange(clientIn: ByteSource, clientOut: ByteSink, upstreamIn: ByteSource, upstreamOut: ByteSink,
                  held: Bytes, maxBuf: nat, headers: HeadersConfig, clientIp: Bytes)
    returns (ghost up: seq<Header>, ghost down: seq<Header>)
    requires clientIn != upstreamIn && clientOut != upstreamOut
    modifies clientIn, clientOut, upstreamIn, upstreamOut
    ensures IsListing(up, UpstreamHeaders(headers.globalUpstream, headers.upstream, clientIp))
    ensures IsListing(down, Merged(headers.globalResponse, headers.response))
    ensures clientOut.received == old(clientOut.received) + Relayed(old(upstreamIn.pending), down, maxBuf)
    ensures upstreamOut.received == old(upstreamOut.received) +
              (Rewritten(held, up) + Uploaded(old(clientIn.pending), old(upstreamIn.pending), down, maxBuf))
  {
    ghost var response, rest, before := upstreamIn.pending, clientIn.pending, upstreamOut.received;
    var finalBuf := RewriteRequest(held, headers.globalUpstream, headers.upstream, clientIp);
    up :| IsListing(up, UpstreamHeaders(headers.globalUpstream, headers.upstream, clientIp));
    upstreamOut.WriteAll(finalBuf);
    var responseHeaders := SortedHeaders(Merged(headers.globalResponse, headers.response));
    down := responseHeaders;
    RelayUpstreamResponse(clientIn, clientOut, upstreamIn, upstreamOut, responseHeaders, maxBuf);
    GlueAssociative(before, finalBuf, Uploaded(rest, response, responseHeaders, maxBuf));
  }

  /**
   * A request that is accepted goes to the upstream rewritten, and its response to the client; any other
   * outcome sends the upstream nothing.
   */
  method ProcessRequest(clientIn: ByteSource, clientOut: ByteSink, upstreamIn: ByteSource, upstreamOut: ByteSink,
                        maxBuf: nat, parse: Parser, headers: HeadersConfig, clientIp: Bytes)
    returns (outcome: Outcome, ghost up: seq<Header>, ghost down: seq<Header>)
    requires clientIn != upstreamIn && clientOut != upstreamOut
    modifies clientIn, clientOut, upstreamIn, upstreamOut
    ensures PrefixStable(parse) ==> outcome == OutcomeOf(old(clientIn.pending), maxBuf, parse)
    ensures outcome != Decided(Complete) ==>
              upstreamOut.received == old(upstreamOut.received) && upstreamIn.pending == old(upstreamIn.pending)
    ensures outcome == Decided(Complete) ==>
              && IsListing(up, UpstreamHeaders(headers.globalUpstream, headers.upstream, clientIp))
              && IsListing(down, Merged(headers.globalResponse, headers.response))
              && clientOut.received == old(clientOut.received) + Relayed(old(upstreamIn.pending), down, maxBuf)
              && old(upstreamOut.received) <= upstreamOut.received
              && Sent(upstreamOut.received[|old(upstreamOut.received)|..],
                      old(clientIn.pending), old(upstreamIn.pending), up, down, maxBuf, parse)
  {
    ghost var request, response, before := clientIn.pending, upstreamIn.pending, upstreamOut.received;
    up, down := [], [];
    var buf, readBytes;
    outcome, buf, readBytes := ReadRequest(clientIn, maxBuf, parse);
    if outcome != Decided(Complete) {
      return;
    }
    assert request[..readBytes] == buf[..readBytes] && request[readBytes..] == clientIn.pending;
    up, down := Exchange(clientIn, clientOut, upstreamIn, upstreamOut, buf[..readBytes], maxBuf, headers, clientIp);
    SentWith(upstreamOut.received[|before|..], request, readBytes, response, up, down, maxBuf, parse);
  }

  /** When the response gets as far as copying, the upstream receives the rewritten held bytes and all the others. */
  lemma SentForwarded(received: Bytes, request: Bytes, response: Bytes,
                      up: seq<Header>, down: seq<Header>, maxBuf: nat, parse: Parser, n: nat)
    requires Sent(received, request, response, up, down, maxBuf, parse)
    requires down == [] || PassesBuffer(response, maxBuf)
    requires AcceptsAt(request, parse, n) && n <= maxBuf
    requires EmptyLineTooLate(request, maxBuf, n) ==> AlreadyInjected(request, up)
    ensures received == Forwarded(request, n, up)
  {
    var held: nat :| && HeldWhenDecided(request, maxBuf, parse, held) && held <= |request|
                     && received == ToUpstream(request, held, response, up, down, maxBuf);
    HeldRange(request, maxBuf, parse, n, held);
    if EmptyLineTooLate(request, maxBuf, n) { RewritingChangesNothing(request, up); }
    ForwardedSame(request, n, held, up);
  }

  /**
   * End to end for an ordinary request, one whose accepted head holds a CRLF CRLF: however its bytes and those
   * of the response were split into reads, the upstream receives the rewritten request, as far as it receives
   * it. If response headers are to be injected and the response ends too early, the rest does not follow.
   */
  lemma OrdinaryRequest(received: Bytes, request: Bytes, response: Bytes,
                        up: seq<Header>, down: seq<Header>, maxBuf: nat, parse: Parser, n: nat)
    requires Sent(received, request, response, up, down, maxBuf, parse)
    requires AcceptsAt(request, parse, n) && n <= maxBuf && FindHeadEnd(request[..n]).Some?
    ensures received <= Rewritten(request, up)
    ensures down == [] || PassesBuffer(response, maxBuf) ==> received == Rewritten(request, up)
    ensures received != Rewritten(request, up) ==>
              exists held: nat :: HeldWhenDecided(request, maxBuf, parse, held) && held < |request| &&
                                  received == Rewritten(request[..held], up)
  {
    var held: nat :| && HeldWhenDecided(request, maxBuf, parse, held) && held <= |request|
                     && received == ToUpstream(request, held, response, up, down, maxBuf);
    OrdinaryIndependent(request, maxBuf, parse, n, up);
    assert Forwarded(request, held, up) == Rewritten(request, up);
    if down != [] && !PassesBuffer(response, maxBuf) {
      assert received == Rewritten(request[..held], up);
      if held == |request| { assert request[held..] == []; }
    }
  }

  /**
   * What the upstream reads of what it received: for a request whose first CRLF CRLF ends the accepted head, its
   * start line and each configured header exactly once, if and only if the header's name is unique; for any
   * other, a configured header only if the client itself has sent just that line.
   */
  lemma UpstreamReads(received: Bytes, request: Bytes, response: Bytes, up: seq<Header>, down: seq<Header>,
                      maxBuf: nat, parse: Parser, n: nat, i: nat)
    requires Sent(received, request, response, up, down, maxBuf, parse)
    requires AcceptsAt(request, parse, n) && AcceptsAt(request, HeadRule, n) && n <= maxBuf
    requires i < |up| && ColonFree(up[i].0) && AllLfFree(up) && SpaceFreeNames(up)
    requires ReadHead(request).Some? && IsStartLine(StartLine(request))
    ensures FindHeadEnd(request) == Some(n - 4) ==>
              (ReadAsMeant(received, StartLine(request), up[i]) <==> NameUnique(up, i))
    ensures FindHeadEnd(request) != Some(n - 4) && ReadAsMeant(received, StartLine(request), up[i]) ==>
              ExactlyOnce(ReadHead(request).value, up[i])
  {
    var held: nat :| && HeldWhenDecided(request, maxBuf, parse, held) && held <= |request|
                     && received == ToUpstream(request, held, response, up, down, maxBuf);
    HeldRange(request, maxBuf, parse, n, held);
    ReceiverReads(request, n, held, up, i, Uploaded(request[held..], response, down, maxBuf));
  }
}
