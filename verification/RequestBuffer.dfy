/** Reading a request until its head can be judged, and what the upstream receives for it. */
module RequestBuffer {
  import opened Labels
  import opened HeaderLines
  import opened HeaderRewrite
  import opened HeaderTables
  import opened Streams
  import Relay

  /**
   * What becomes of the bytes held so far: more are needed, the request goes to its service, or it goes
   * nowhere: it is malformed, its framing is ambiguous, or no service is found for its host.
   */
  datatype Verdict = Partial | Complete | Refused

  type Parser = Bytes -> Verdict

  datatype Outcome = Decided(verdict: Verdict) | BufferFull | EndOfStream

  /** Once decided on a prefix, a verdict does not change as more bytes arrive. */
  ghost predicate PrefixStable(parse: Parser) {
    forall a: Bytes, b: Bytes | a <= b && parse(a) != Partial :: parse(b) == parse(a)
  }

  /** The outcome as a function of the client's bytes alone. */
  function OutcomeOf(stream: Bytes, maxBuf: nat, parse: Parser): Outcome {
    var visible := stream[..Min(|stream|, maxBuf)];
    if visible != [] && parse(visible) != Partial then Decided(parse(visible))
    else if 0 < maxBuf <= |stream| then BufferFull
    else EndOfStream
  }

  /**
   * The outcome over the prefixes of the client's bytes that fit into the buffer: decided if the parser decides
   * on any of them; else the buffer is full if the bytes fill it, and the stream has ended if they do not.
   */
  lemma OutcomeIs(stream: Bytes, maxBuf: nat, parse: Parser, verdict: Verdict)
    requires PrefixStable(parse)
    ensures
      var undecided := forall k | 0 < k <= |stream| && k <= maxBuf :: parse(stream[..k]) == Partial;
      && (OutcomeOf(stream, maxBuf, parse) == Decided(verdict) <==>
            verdict != Partial && exists k :: 0 < k <= |stream| && k <= maxBuf && parse(stream[..k]) == verdict)
      && (OutcomeOf(stream, maxBuf, parse) == BufferFull <==> undecided && 0 < maxBuf <= |stream|)
      && (OutcomeOf(stream, maxBuf, parse) == EndOfStream <==> undecided && (maxBuf == 0 || |stream| < maxBuf))
  {
    var most := Min(|stream|, maxBuf);
    forall k | 0 < k <= most ensures parse(stream[..k]) != Partial ==> parse(stream[..most]) == parse(stream[..k]) {
      assert stream[..k] <= stream[..most];
    }
  }

  // ---- How far a run of reads may go ----

  /** The buffer that has room for more after `held` bytes, having had `length`: doubled while it was full. */
  function Capacity(length: nat, held: nat, maxBuf: nat): (c: nat)
    ensures length <= maxBuf ==> length <= c <= maxBuf
    ensures 0 < length <= maxBuf && held < maxBuf ==> held < c
    decreases if length < maxBuf then maxBuf - length else 0
  {
    if 0 < length <= held && length < maxBuf then Capacity(Min(length * 2, maxBuf), held, maxBuf) else length
  }

  function CapacityAfter(held: nat, maxBuf: nat): nat {
    Capacity(Min(maxBuf, 4096), held, maxBuf)
  }

  lemma {:induction false} CapacityMonotone(length: nat, a: nat, b: nat, maxBuf: nat)
    requires 0 < length <= maxBuf && a <= b
    ensures Capacity(length, a, maxBuf) <= Capacity(length, b, maxBuf)
    decreases maxBuf - length
  {
    if length <= a && length < maxBuf { CapacityMonotone(Min(length * 2, maxBuf), a, b, maxBuf); }
  }

  /** Filling the buffer further does not change it until it is full, and then it is doubled once. */
  lemma {:induction false} CapacityStep(length: nat, before: nat, held: nat, maxBuf: nat)
    requires 0 < length <= maxBuf && before <= held <= Capacity(length, before, maxBuf)
    ensures
      var c := Capacity(length, before, maxBuf);
      Capacity(length, held, maxBuf) == if held == c && c < maxBuf then Min(c * 2, maxBuf) else c
    decreases maxBuf - length
  {
    if length <= before && length < maxBuf { CapacityStep(Min(length * 2, maxBuf), before, held, maxBuf); }
  }

  /** One read may take the buffer from `before` bytes to `after`. */
  ghost predicate CanRead(stream: Bytes, maxBuf: nat, before: nat, after: nat) {
    before < after <= |stream| && after <= CapacityAfter(before, maxBuf)
  }

  /** The totals held after each of a run of reads; all but the last left the parser undecided. */
  ghost predicate IsReading(stream: Bytes, maxBuf: nat, parse: Parser, totals: seq<nat>) {
    totals != [] &&
    var last, earlier := totals[|totals| - 1], totals[..|totals| - 1];
    if earlier == [] then CanRead(stream, maxBuf, 0, last)
    else
      var before := earlier[|earlier| - 1];
      && IsReading(stream, maxBuf, parse, earlier)
      && CanRead(stream, maxBuf, before, last)
      && parse(stream[..before]) == Partial
  }

  lemma ReadingExtends(stream: Bytes, maxBuf: nat, parse: Parser, totals: seq<nat>, after: nat)
    requires totals != [] ==> IsReading(stream, maxBuf, parse, totals)
    requires
      var before := if totals == [] then 0 else totals[|totals| - 1];
      CanRead(stream, maxBuf, before, after) && (before > 0 ==> parse(stream[..before]) == Partial)
    ensures IsReading(stream, maxBuf, parse, totals + [after])
  {
    assert (totals + [after])[..|totals|] == totals;
  }

  /** What each way out of the loop says about the bytes held when it was taken. */
  ghost predicate Judged(stream: Bytes, maxBuf: nat, parse: Parser, held: nat, outcome: Outcome) {
    && held <= |stream| && held <= maxBuf
    && match outcome
       case Decided(verdict) => held > 0 && verdict == parse(stream[..held]) && verdict != Partial
       case BufferFull => held == maxBuf > 0 && parse(stream[..held]) == Partial
       case EndOfStream => if maxBuf == 0 then held == 0
                           else held == |stream| < maxBuf && (held > 0 ==> parse(stream[..held]) == Partial)
  }

  /**
   * The loop of `read_request`: the outcome depends on the client's bytes alone, the buffer holds exactly
   * what was read, and a decision was reached by a run of reads that the buffer allows.
   */
  method ReadRequest(client: ByteSource, maxBuf: nat, parse: Parser)
    returns (outcome: Outcome, buf: Bytes, readBytes: nat)
    modifies client
    ensures readBytes <= |buf| <= maxBuf
    ensures old(client.pending) == buf[..readBytes] + client.pending
    ensures PrefixStable(parse) ==> outcome == OutcomeOf(old(client.pending), maxBuf, parse)
    ensures outcome.Decided? ==>
              && outcome.verdict == parse(buf[..readBytes])
              && HeldWhenDecided(old(client.pending), maxBuf, parse, readBytes)
  {
    ghost var stream := client.pending;
    ghost var totals;
    outcome, buf, readBytes, totals := ReadUntilJudged(client, maxBuf, parse);
    assert stream[..readBytes] == buf[..readBytes];
    if PrefixStable(parse) {
      JudgedIndependent(stream, maxBuf, parse, readBytes, outcome);
    }
    assert outcome.Decided? ==> ReachesDecision(stream, maxBuf, parse, totals, readBytes);
  }

  method ReadUntilJudged(client: ByteSource, maxBuf: nat, parse: Parser)
    returns (outcome: Outcome, buf: Bytes, readBytes: nat, ghost totals: seq<nat>)
    modifies client
    ensures readBytes <= |buf| <= maxBuf
    ensures old(client.pending) == buf[..readBytes] + client.pending
    ensures Judged(old(client.pending), maxBuf, parse, readBytes, outcome)
    ensures Recorded(old(client.pending), maxBuf, parse, totals, readBytes)
  {
    ghost var stream := client.pending;
    buf := FreshBuffer(maxBuf);
    readBytes := 0;
    totals := [];
    while true
      invariant readBytes <= |buf| <= maxBuf && (maxBuf > 0 ==> readBytes < |buf|)
      invariant stream == buf[..readBytes] + client.pending
      invariant readBytes > 0 ==> parse(stream[..readBytes]) == Partial
      invariant maxBuf > 0 ==> |buf| == CapacityAfter(readBytes, maxBuf)
      invariant Recorded(stream, maxBuf, parse, totals, readBytes)
      decreases maxBuf - readBytes
    {
      ghost var before := readBytes;
      var n;
      buf, n := ReadInto(client, buf, readBytes);
      if n == 0 {
        outcome := EndOfStream;
        return;
      }
      readBytes := readBytes + n;
      assert stream[..readBytes] == buf[..readBytes];
      totals := RecordRead(stream, maxBuf, parse, totals, before, readBytes);
      CapacityStep(Min(maxBuf, 4096), before, readBytes, maxBuf);

      var verdict := parse(buf[..readBytes]);
      if verdict != Partial {
        outcome := Decided(verdict);
        return;
      }
      if readBytes >= |buf| {
        if |buf| >= maxBuf {
          outcome := BufferFull;
          return;
        }
        assert Doubled(buf, maxBuf)[..readBytes] == buf[..readBytes];
        buf := Doubled(buf, maxBuf);
      }
    }
  }

  /** `totals` is a run of reads that ends with `held` bytes. */
  ghost predicate Recorded(stream: Bytes, maxBuf: nat, parse: Parser, totals: seq<nat>, held: nat) {
    if totals == [] then held == 0 else IsReading(stream, maxBuf, parse, totals) && totals[|totals| - 1] == held
  }

  lemma RecordRead(stream: Bytes, maxBuf: nat, parse: Parser, totals: seq<nat>, before: nat, held: nat)
    returns (more: seq<nat>)
    requires Recorded(stream, maxBuf, parse, totals, before) && CanRead(stream, maxBuf, before, held)
    requires before > 0 ==> parse(stream[..before]) == Partial
    ensures Recorded(stream, maxBuf, parse, more, held)
  {
    more := totals + [held];
    ReadingExtends(stream, maxBuf, parse, totals, held);
  }

  /** For a parser that never changes its mind, every way out is the outcome of the stream itself. */
  lemma JudgedIndependent(stream: Bytes, maxBuf: nat, parse: Parser, held: nat, outcome: Outcome)
    requires PrefixStable(parse) && Judged(stream, maxBuf, parse, held, outcome)
    ensures outcome == OutcomeOf(stream, maxBuf, parse)
  {
    var visible := stream[..Min(|stream|, maxBuf)];
    match outcome
    case Decided(_) => assert stream[..held] <= visible;
    case BufferFull => assert stream[..held] == visible;
    case EndOfStream => assert maxBuf > 0 ==> stream[..held] == visible;
  }

  // ---- What is sent upstream for a request, however its bytes arrive ----

  /** The held bytes with their head rewritten, followed by everything still to come. */
  function Forwarded(stream: Bytes, held: nat, hs: seq<Header>): Bytes
    requires held <= |stream|
  {
    Rewritten(stream[..held], hs) + stream[held..]
  }

  /** The run of reads `totals` ends in a decision, with `held` bytes. */
  ghost predicate ReachesDecision(stream: Bytes, maxBuf: nat, parse: Parser, totals: seq<nat>, held: nat) {
    && held <= |stream| && parse(stream[..held]) != Partial
    && IsReading(stream, maxBuf, parse, totals) && totals[|totals| - 1] == held
  }

  /** The amounts that can be held when the parser first decides, over all ways the bytes may arrive. */
  ghost predicate HeldWhenDecided(stream: Bytes, maxBuf: nat, parse: Parser, held: nat) {
    exists totals :: ReachesDecision(stream, maxBuf, parse, totals, held)
  }

  /** The parser accepts the request exactly from `n` bytes on. */
  ghost predicate AcceptsAt(stream: Bytes, parse: Parser, n: nat) {
    && 0 < n <= |stream|
    && forall k | 0 < k <= |stream| :: parse(stream[..k]) == if k >= n then Complete else Partial
  }

  /** A stable parser that accepts what can be held accepts from some amount on. */
  lemma {:induction false} AcceptedFrom(stream: Bytes, parse: Parser, k: nat) returns (n: nat)
    requires PrefixStable(parse) && 0 < k <= |stream| && parse(stream[..k]) == Complete
    ensures n <= k && AcceptsAt(stream, parse, n)
  {
    if k > 1 && parse(stream[..k - 1]) != Partial {
      assert stream[..k - 1] <= stream[..k];
      n := AcceptedFrom(stream, parse, k - 1);
    } else {
      n := k;
      forall j | 0 < j <= |stream| ensures parse(stream[..j]) == if j >= n then Complete else Partial {
        if j >= n { assert stream[..n] <= stream[..j]; } else { assert stream[..j] <= stream[..k - 1]; }
      }
    }
  }

  /** So every request that reaches a service is covered by the results below, for some `n`. */
  lemma ReachedIsAccepted(stream: Bytes, maxBuf: nat, parse: Parser) returns (n: nat)
    requires PrefixStable(parse) && OutcomeOf(stream, maxBuf, parse) == Decided(Complete)
    ensures n <= maxBuf && AcceptsAt(stream, parse, n)
  {
    n := AcceptedFrom(stream, parse, Min(|stream|, maxBuf));
  }

  lemma {:induction false} ReadingStaysBelow(stream: Bytes, maxBuf: nat, parse: Parser, totals: seq<nat>, n: nat)
    requires IsReading(stream, maxBuf, parse, totals) && AcceptsAt(stream, parse, n)
    ensures 0 < totals[|totals| - 1] <= |stream| && totals[|totals| - 1] <= CapacityAfter(n - 1, maxBuf)
  {
    var last, earlier := totals[|totals| - 1], totals[..|totals| - 1];
    var before := if earlier == [] then 0 else earlier[|earlier| - 1];
    if earlier != [] { ReadingStaysBelow(stream, maxBuf, parse, earlier, n); }
    if maxBuf > 0 { CapacityMonotone(Min(maxBuf, 4096), before, n - 1, maxBuf); }
  }

  /** Byte by byte, any amount short of a decision can be reached. */
  lemma {:induction false} ReadSlowly(stream: Bytes, maxBuf: nat, parse: Parser, n: nat, k: nat)
    returns (totals: seq<nat>)
    requires AcceptsAt(stream, parse, n) && 0 < k <= n <= maxBuf
    ensures IsReading(stream, maxBuf, parse, totals) && totals[|totals| - 1] == k
  {
    totals := [];
    if k > 1 {
      totals := ReadSlowly(stream, maxBuf, parse, n, k - 1);
    }
    ReadingExtends(stream, maxBuf, parse, totals, k);
    totals := totals + [k];
  }

  /** Exactly these amounts can be held at the decision: from `n` up to what the buffer and the stream allow. */
  lemma HeldRange(stream: Bytes, maxBuf: nat, parse: Parser, n: nat, held: nat)
    requires AcceptsAt(stream, parse, n) && n <= maxBuf
    ensures HeldWhenDecided(stream, maxBuf, parse, held) <==>
            n <= held <= |stream| && held <= CapacityAfter(n - 1, maxBuf)
  {
    if totals :| ReachesDecision(stream, maxBuf, parse, totals, held) {
      ReadingStaysBelow(stream, maxBuf, parse, totals, n);
    }
    if n <= held <= |stream| && held <= CapacityAfter(n - 1, maxBuf) {
      var totals := [];
      if n > 1 { totals := ReadSlowly(stream, maxBuf, parse, n, n - 1); }
      ReadingExtends(stream, maxBuf, parse, totals, held);
      assert ReachesDecision(stream, maxBuf, parse, totals + [held], held);
    }
  }

  /** Does the first empty line end beyond the accepted head, yet within reach of the buffer at the decision? */
  ghost predicate EmptyLineTooLate(stream: Bytes, maxBuf: nat, n: nat)
    requires 0 < n
  {
    var end := FindHeadEnd(stream);
    end.Some? && n < end.value + 4 <= CapacityAfter(n - 1, maxBuf)
  }

  lemma ForwardedValue(stream: Bytes, held: nat, hs: seq<Header>)
    requires held <= |stream|
    ensures Forwarded(stream, held, hs) ==
            if FindHeadEnd(stream).Some? && FindHeadEnd(stream).value + 4 <= held then Rewritten(stream, hs)
            else stream
  {
    HeadEndStable(stream, held);
    if FindHeadEnd(stream[..held]).Some? {
      Relay.RewritePrefix(stream, held, hs);
    } else {
      ForwardedAsIs(stream, held, hs);
    }
  }

  lemma ForwardedAsIs(stream: Bytes, held: nat, hs: seq<Header>)
    requires held <= |stream| && FindHeadEnd(stream[..held]).None?
    ensures Forwarded(stream, held, hs) == stream
  {
  }

  /** Holding more than the accepted head makes no difference, unless the first empty line lies in between. */
  lemma ForwardedSame(stream: Bytes, n: nat, held: nat, hs: seq<Header>)
    requires n <= held <= |stream|
    requires FindHeadEnd(stream).Some? && n < FindHeadEnd(stream).value + 4 <= held ==> Rewritten(stream, hs) == stream
    ensures Forwarded(stream, held, hs) == Forwarded(stream, n, hs)
  {
    ForwardedValue(stream, held, hs);
    ForwardedValue(stream, n, hs);
  }

  /** Whatever two runs of reads hold at the decision, the upstream receives the same. */
  ghost predicate SplitIndependent(stream: Bytes, maxBuf: nat, parse: Parser, hs: seq<Header>) {
    forall a: nat, b: nat | HeldWhenDecided(stream, maxBuf, parse, a) && HeldWhenDecided(stream, maxBuf, parse, b) ::
      a <= |stream| && b <= |stream| && Forwarded(stream, a, hs) == Forwarded(stream, b, hs)
  }

  lemma Independent(stream: Bytes, maxBuf: nat, parse: Parser, n: nat, hs: seq<Header>)
    requires AcceptsAt(stream, parse, n) && n <= maxBuf
    requires EmptyLineTooLate(stream, maxBuf, n) ==> Rewritten(stream, hs) == stream
    ensures SplitIndependent(stream, maxBuf, parse, hs)
  {
    forall held: nat | HeldWhenDecided(stream, maxBuf, parse, held)
      ensures held <= |stream| && Forwarded(stream, held, hs) == Forwarded(stream, n, hs)
    {
      HeldRange(stream, maxBuf, parse, n, held);
      ForwardedSame(stream, n, held, hs);
    }
  }

  /** With the least amount held it goes on as it is, and with the first empty line held too, rewritten. */
  lemma ForwardedBothWays(stream: Bytes, n: nat, end: nat, hs: seq<Header>)
    requires FindHeadEnd(stream).Some? && n < end == FindHeadEnd(stream).value + 4
    ensures n <= end <= |stream|
    ensures Forwarded(stream, n, hs) == stream && Forwarded(stream, end, hs) == Rewritten(stream, hs)
  {
    ForwardedValue(stream, n, hs);
    ForwardedValue(stream, end, hs);
  }

  lemma Dependent(stream: Bytes, maxBuf: nat, parse: Parser, n: nat, hs: seq<Header>)
    requires AcceptsAt(stream, parse, n) && n <= maxBuf
    requires EmptyLineTooLate(stream, maxBuf, n) && Rewritten(stream, hs) != stream
    ensures !SplitIndependent(stream, maxBuf, parse, hs)
  {
    var end := FindHeadEnd(stream).value + 4;
    ForwardedBothWays(stream, n, end, hs);
    DependentAt(stream, maxBuf, parse, n, hs, end, stream, Rewritten(stream, hs));
  }

  lemma DependentAt(stream: Bytes, maxBuf: nat, parse: Parser, n: nat, hs: seq<Header>, held: nat, a: Bytes, b: Bytes)
    requires AcceptsAt(stream, parse, n) && n <= maxBuf
    requires n <= held <= |stream| && held <= CapacityAfter(n - 1, maxBuf)
    requires Forwarded(stream, n, hs) == a && Forwarded(stream, held, hs) == b && a != b
    ensures !SplitIndependent(stream, maxBuf, parse, hs)
  {
    HeldRange(stream, maxBuf, parse, n, n);
    HeldRange(stream, maxBuf, parse, n, held);
  }

  /**
   * For a request that the parser accepts, what the upstream receives is independent of how the client's bytes
   * were split into reads, except when the first CRLF CRLF lies behind the accepted head, in what may be read
   * along with it, and the bytes up to there do not look already as rewriting would leave them.
   */
  lemma ForwardedIndependent(stream: Bytes, maxBuf: nat, parse: Parser, n: nat, hs: seq<Header>)
    requires AcceptsAt(stream, parse, n) && n <= maxBuf
    ensures SplitIndependent(stream, maxBuf, parse, hs) <==>
            (EmptyLineTooLate(stream, maxBuf, n) ==> AlreadyInjected(stream, hs))
  {
    if FindHeadEnd(stream).Some? { RewritingChangesNothing(stream, hs); }
    if EmptyLineTooLate(stream, maxBuf, n) && Rewritten(stream, hs) != stream {
      Dependent(stream, maxBuf, parse, n, hs);
    } else {
      Independent(stream, maxBuf, parse, n, hs);
    }
  }

  /** An accepted head that holds a CRLF CRLF, as every head ended by one does, is always independent of the reads. */
  lemma OrdinaryIndependent(stream: Bytes, maxBuf: nat, parse: Parser, n: nat, hs: seq<Header>)
    requires AcceptsAt(stream, parse, n) && n <= maxBuf && FindHeadEnd(stream[..n]).Some?
    ensures SplitIndependent(stream, maxBuf, parse, hs)
    ensures forall held: nat | HeldWhenDecided(stream, maxBuf, parse, held) ::
              held <= |stream| && Forwarded(stream, held, hs) == Rewritten(stream, hs)
  {
    HeadEndStable(stream, n);
    Independent(stream, maxBuf, parse, n, hs);
    forall held: nat | HeldWhenDecided(stream, maxBuf, parse, held)
      ensures held <= |stream| && Forwarded(stream, held, hs) == Rewritten(stream, hs)
    {
      HeldRange(stream, maxBuf, parse, n, held);
      ForwardedValue(stream, held, hs);
    }
  }

  // ---- A parser that takes bare line feeds for line ends, as RFC 9112 section 2.2 allows ----

  /** A line feed, and right behind it an empty line. */
  predicate BlankLineAt(s: Bytes, i: nat) {
    && i + 1 < |s| && s[i] == LF
    && (s[i + 1] == LF || (i + 2 < |s| && s[i + 1] == CR && s[i + 2] == LF))
  }

  predicate HasBlankLine(s: Bytes) {
    exists i: nat :: i < |s| && BlankLineAt(s, i)
  }

  /** Empty lines before the start line do not count. */
  function SkipEmptyLines(s: Bytes): Bytes {
    if s != [] && s[0] == LF then SkipEmptyLines(s[1..])
    else if |s| >= 2 && s[0] == CR && s[1] == LF then SkipEmptyLines(s[2..])
    else s
  }

  /** Where a request's head ends, for a request that is well formed otherwise. */
  function HeadRule(s: Bytes): Verdict {
    if HasBlankLine(SkipEmptyLines(s)) then Complete else Partial
  }

  lemma {:induction false} SkipStable(a: Bytes, b: Bytes)
    requires a <= b && HasBlankLine(SkipEmptyLines(a))
    ensures SkipEmptyLines(a) <= SkipEmptyLines(b)
  {
    if a[0] == LF {
      SkipStable(a[1..], b[1..]);
    } else if |a| >= 2 && a[0] == CR && a[1] == LF {
      SkipStable(a[2..], b[2..]);
    }
  }

  lemma HeadRuleStable()
    ensures PrefixStable(HeadRule)
  {
    forall a: Bytes, b: Bytes | a <= b && HeadRule(a) != Partial ensures HeadRule(b) == HeadRule(a) {
      SkipStable(a, b);
      var i: nat :| i < |SkipEmptyLines(a)| && BlankLineAt(SkipEmptyLines(a), i);
      assert BlankLineAt(SkipEmptyLines(b), i);
    }
  }

  ghost predicate PlainLine(l: Bytes) {
    l != [] && CR !in l && LF !in l
  }

  /** A request of two lines and an empty one, all ended by bare line feeds. */
  function BareRequest(start: Bytes, field: Bytes): Bytes {
    start + [LF] + field + [LF] + [LF]
  }

  /** It is accepted from its last byte on, whatever follows it. */
  lemma BareRequestAccepted(start: Bytes, field: Bytes, rest: Bytes)
    requires PlainLine(start) && PlainLine(field)
    ensures AcceptsAt(BareRequest(start, field) + rest, HeadRule, |BareRequest(start, field)|)
  {
    var n, s := |BareRequest(start, field)|, BareRequest(start, field) + rest;
    assert s[0] == start[0] && start[0] in start;
    BareLineFeeds(start, field, rest);
    forall k | 0 < k <= |s| ensures HeadRule(s[..k]) == if k >= n then Complete else Partial {
      assert SkipEmptyLines(s[..k]) == s[..k];
      if k >= n { assert BlankLineAt(s[..k], n - 2); }
    }
  }

  lemma BareLineFeeds(start: Bytes, field: Bytes, rest: Bytes)
    requires PlainLine(start) && PlainLine(field)
    ensures
      var n, s := |BareRequest(start, field)|, BareRequest(start, field) + rest;
      && s[n - 2] == LF && s[n - 1] == LF && s[n - 3] != CR && s[|start| + 1] != LF && s[|start| + 1] != CR
      && forall i | 0 <= i < n && (s[i] == LF || s[i] == CR) :: s[i] == LF && (i == |start| || i >= n - 2)
  {
    var n, s := |BareRequest(start, field)|, BareRequest(start, field) + rest;
    assert forall i | 0 <= i < |start| :: s[i] == start[i] && start[i] in start;
    assert forall i | 0 <= i < |field| :: s[|start| + 1 + i] == field[i] && field[i] in field;
    assert s[|start| + 1 + 0] == field[0];
  }

  /** The first empty line behind it, if it follows at once, begins with its last byte. */
  lemma BareHeadEnd(start: Bytes, field: Bytes, rest: Bytes)
    requires PlainLine(start) && PlainLine(field)
    ensures FindHeadEnd(BareRequest(start, field) + (CRLF + CRLF + rest)) == Some(|BareRequest(start, field)|)
  {
    var n, s := |BareRequest(start, field)|, BareRequest(start, field) + (CRLF + CRLF + rest);
    BareLineFeeds(start, field, CRLF + CRLF + rest);
    assert s[n..] == CRLF + CRLF + rest;
    assert s[n] == CR && s[n + 1] == LF && s[n + 2] == CR && s[n + 3] == LF;
    assert EmptyLineAt(s, n);
  }

  /** A head whose last line is empty is none that rewriting would leave, if there is anything to inject. */
  lemma EmptyEndChanged(s: Bytes, hs: seq<Header>)
    requires FindHeadEnd(s).Some? && FindHeadEnd(s).value > 0 && s[FindHeadEnd(s).value - 1] == LF && hs != []
    ensures !AlreadyInjected(s, hs)
  {
    var head, block := s[..FindHeadEnd(s).value + 2], Concat(HeaderBlock(hs));
    assert block == HeaderLine(hs[0]) + Concat(HeaderBlock(hs)[1..]);
    var front := s[..FindHeadEnd(s).value];
    assert head == front + CRLF;
    LinesAppend(front, CRLF);
    LinesCons(CRLF, []);
    assert CRLF + [] == CRLF;
    LinesAreLines(block);
    assert Lines(block) != [];
    assert !CarriesAny(CRLF, Names(hs));
    if AlreadyInjected(s, hs) { LastLineCarried(head, Names(hs), block); }
  }

  lemma LastLineCarried(head: Bytes, names: seq<Bytes>, block: Bytes)
    requires EndsWithBlock(head, names, block) && Lines(block) != []
    ensures Lines(head) != [] && CarriesAny(Lines(head)[|Lines(head)| - 1], names)
  {
    assert Lines(head)[|Lines(head)| - 1] == Lines(block)[|Lines(block)| - 1];
  }

  /**
   * Every request of this kind depends on how it is read, if CRLF CRLF comes right behind it and fits into the
   * buffer along with it: whether that is read at once decides whether the request is rewritten.
   */
  lemma BareRequestDependent(start: Bytes, field: Bytes, rest: Bytes, maxBuf: nat, hs: seq<Header>)
    requires PlainLine(start) && PlainLine(field) && hs != []
    requires
      var n := |BareRequest(start, field)|;
      n <= maxBuf && n + 4 <= CapacityAfter(n - 1, maxBuf)
    ensures !SplitIndependent(BareRequest(start, field) + (CRLF + CRLF + rest), maxBuf, HeadRule, hs)
  {
    var n, stream := |BareRequest(start, field)|, BareRequest(start, field) + (CRLF + CRLF + rest);
    BareRequestAccepted(start, field, CRLF + CRLF + rest);
    BareHeadEnd(start, field, rest);
    assert stream[n - 1] == LF;
    EmptyEndChanged(stream, hs);
    ForwardedIndependent(stream, maxBuf, HeadRule, n, hs);
  }

  /** Such a request: `GET / HTTP/1.1` and `Host: a`, each ended by a bare line feed, and an empty line likewise. */
  lemma SplitDependenceWitness(stream: Bytes, hs: seq<Header>)
    requires stream == BareRequest([71, 69, 84, 32, 47, 32, 72, 84, 84, 80, 47, 49, 46, 49],
                                   [72, 111, 115, 116, 58, 32, 97]) + (CRLF + CRLF + [])
    requires hs != []
    ensures PrefixStable(HeadRule) && AcceptsAt(stream, HeadRule, 24)
    ensures !SplitIndependent(stream, 4096, HeadRule, hs)
  {
    var start: Bytes := [71, 69, 84, 32, 47, 32, 72, 84, 84, 80, 47, 49, 46, 49];
    var field: Bytes := [72, 111, 115, 116, 58, 32, 97];
    HeadRuleStable();
    BareRequestAccepted(start, field, CRLF + CRLF + []);
    BareRequestDependent(start, field, [], 4096, hs);
  }
}
