/**
 * What the receiver of a rewritten message reads: it skips empty lines in front, takes lines up to the first
 * empty one, and lets bare line feeds end them, like the parser that accepted the request.
 */
module RequestHeads {
  import opened Labels
  import opened HeaderLines
  import opened HeaderRewrite
  import opened HeaderTables
  import opened RequestBuffer
  import opened Streams

  /** The lines of the head that is read, if it is complete. */
  ghost function ReadHead(s: Bytes): (r: Option<seq<Bytes>>)
    ensures r.Some? ==> r.value != [] && NoneBlank(r.value)
  {
    SkipDropsBlank(s);
    UntilBlank(Lines(SkipEmptyLines(s)))
  }

  ghost function StartLine(s: Bytes): Bytes
    requires ReadHead(s).Some?
  {
    ReadHead(s).value[0]
  }

  predicate StartsBlank(s: Bytes) {
    (s != [] && s[0] == LF) || (|s| >= 2 && s[0] == CR && s[1] == LF)
  }

  lemma LineStartsBlank(l: Bytes, rest: Bytes)
    requires IsLine(l) && (rest != [] ==> EndsInLf(l))
    ensures StartsBlank(l + rest) <==> Blank(l)
  {
    var s := l + rest;
    assert s[0] == l[0] && (|l| >= 2 ==> s[1] == l[1]);
  }

  /** Skipping empty lines as bytes is dropping them as lines. */
  lemma {:induction false} SkipDropsBlank(s: Bytes)
    ensures Lines(SkipEmptyLines(s)) == DropBlank(Lines(s))
    decreases |s|
  {
    if s != [] {
      var l, rest := FirstAndRest(s);
      LineStartsBlank(l, rest);
      if Blank(l) {
        SkipDropsBlank(rest);
        SkipOne(l, rest);
        BlankInFront(l, rest);
      } else {
        NothingSkipped(s);
      }
    }
  }

  lemma SkipOne(blank: Bytes, rest: Bytes)
    requires Blank(blank)
    ensures SkipEmptyLines(blank + rest) == SkipEmptyLines(rest)
  {
    assert (blank + rest)[|blank|..] == rest;
  }

  lemma NothingSkipped(s: Bytes)
    requires !StartsBlank(s)
    ensures SkipEmptyLines(s) == s
  {
  }

  lemma BlankInFront(blank: Bytes, rest: Bytes)
    requires Blank(blank)
    ensures DropBlank(Lines(blank + rest)) == DropBlank(Lines(rest))
  {
    LinesCons(blank, rest);
    assert ([blank] + Lines(rest))[1..] == Lines(rest);
  }

  lemma ReadHeadLines(s: Bytes)
    ensures ReadHead(s) == UntilBlank(DropBlank(Lines(s)))
  {
    SkipDropsBlank(s);
  }

  // ---- The parser's rule says when there is a head to read ----

  /** A blank line lies behind a line that is not blank: at its end, or further on. */
  lemma BlankLineBehind(l: Bytes, rest: Bytes)
    requires IsLine(l) && (rest != [] ==> EndsInLf(l)) && !Blank(l)
    ensures HasBlankLine(l + rest) <==> rest != [] && (StartsBlank(rest) || HasBlankLine(rest))
  {
    var s := l + rest;
    assert forall i | 0 <= i < |l| :: s[i] == l[i];
    assert forall i | 0 <= i < |rest| :: s[|l| + i] == rest[i];
    if i: nat :| i < |s| && BlankLineAt(s, i) {
      if i >= |l| { assert BlankLineAt(rest, i - |l|); } else { assert i == |l| - 1; BlankAtJoint(l, rest); }
    }
    if rest != [] && StartsBlank(rest) {
      BlankAtJoint(l, rest);
      assert BlankLineAt(s, |l| - 1);
    }
    if i: nat :| i < |rest| && BlankLineAt(rest, i) { BlankShifted(l, rest, i); }
  }

  lemma BlankAtJoint(l: Bytes, rest: Bytes)
    requires l != []
    ensures BlankLineAt(l + rest, |l| - 1) <==> l[|l| - 1] == LF && StartsBlank(rest)
  {
    var s := l + rest;
    assert rest != [] ==> s[|l|] == rest[0];
    assert |rest| >= 2 ==> s[|l| + 1] == rest[1];
  }

  lemma BlankShifted(l: Bytes, rest: Bytes, i: nat)
    ensures BlankLineAt(l + rest, |l| + i) <==> BlankLineAt(rest, i)
  {
    var s := l + rest;
    assert forall k | 0 <= k < |rest| :: s[|l| + k] == rest[k];
  }

  lemma {:induction false} BlankLineRead(s: Bytes)
    ensures UntilBlank(Lines(s)).Some? <==> StartsBlank(s) || HasBlankLine(s)
    decreases |s|
  {
    if s != [] {
      var l, rest := FirstAndRest(s);
      LineStartsBlank(l, rest);
      assert ([l] + Lines(rest))[1..] == Lines(rest);
      if !Blank(l) {
        BlankLineRead(rest);
        BlankLineBehind(l, rest);
      }
    }
  }

  lemma {:induction false} SkippedNotBlank(s: Bytes)
    ensures !StartsBlank(SkipEmptyLines(s))
    decreases |s|
  {
    if s != [] && s[0] == LF {
      SkippedNotBlank(s[1..]);
    } else if |s| >= 2 && s[0] == CR && s[1] == LF {
      SkippedNotBlank(s[2..]);
    }
  }

  /** The rule is satisfied exactly when there is a head to read. */
  lemma CompleteIffRead(s: Bytes)
    ensures HeadRule(s) == Complete <==> ReadHead(s).Some?
  {
    SkippedNotBlank(s);
    BlankLineRead(SkipEmptyLines(s));
  }

  // ---- What an accepted message looks like ----

  /** Empty lines, then lines that are not empty, at least one, then an empty line. */
  ghost predicate IsMessage(blanks: seq<Bytes>, head: seq<Bytes>, blank: Bytes) {
    AllBlank(blanks) && head != [] && NoneBlank(head) && WholeLines(head) && Blank(blank)
  }

  ghost function MessageLines(blanks: seq<Bytes>, head: seq<Bytes>, blank: Bytes): seq<Bytes> {
    blanks + (head + [blank])
  }

  lemma MessageWhole(blanks: seq<Bytes>, head: seq<Bytes>, blank: Bytes)
    requires IsMessage(blanks, head, blank)
    ensures WholeLines(MessageLines(blanks, head, blank))
  {
    var ls := MessageLines(blanks, head, blank);
    forall i | 0 <= i < |ls| ensures IsLine(ls[i]) && EndsInLf(ls[i]) {
      if |blanks| <= i < |blanks| + |head| { assert ls[i] == head[i - |blanks|]; } else { assert Blank(ls[i]); }
    }
  }

  /** Whatever follows such a message, its head is what is read. */
  lemma ReadMessage(blanks: seq<Bytes>, head: seq<Bytes>, blank: Bytes, tail: Bytes)
    requires IsMessage(blanks, head, blank)
    ensures ReadHead(Concat(MessageLines(blanks, head, blank)) + tail) == Some(head)
  {
    var ls := MessageLines(blanks, head, blank);
    MessageWhole(blanks, head, blank);
    WholeAreLines(ls);
    LinesOfConcat(ls, tail);
    ReadHeadLines(Concat(ls) + tail);
    ReadMessageLines(blanks, head, blank, Lines(tail));
  }

  lemma ReadMessageLines(blanks: seq<Bytes>, head: seq<Bytes>, blank: Bytes, more: seq<Bytes>)
    requires IsMessage(blanks, head, blank)
    ensures UntilBlank(DropBlank(MessageLines(blanks, head, blank) + more)) == Some(head)
  {
    GlueAssociative(blanks, head + [blank], more);
    GlueAssociative(head, [blank], more);
    DropAllBlank(blanks, head + ([blank] + more));
    UntilBlankFirst(head, blank, more);
  }

  /** If there is a head to read, the bytes begin with such a message. */
  lemma ReadSplits(s: Bytes) returns (blanks: seq<Bytes>, head: seq<Bytes>, blank: Bytes, tail: Bytes)
    requires ReadHead(s).Some?
    ensures IsMessage(blanks, head, blank) && s == Concat(MessageLines(blanks, head, blank)) + tail
    ensures ReadHead(s) == Some(head)
  {
    ReadHeadLines(s);
    LinesAreLines(s);
    var ls := Lines(s);
    var i, j := SplitRead(ls);
    blanks, head, blank, tail := ls[..i], ls[i..j], ls[j], Concat(ls[j + 1..]);
    ConcatSplit(ls, j + 1);
  }

  lemma ConcatSplit(ls: seq<Bytes>, j: nat)
    requires j <= |ls|
    ensures Concat(ls) == Concat(ls[..j]) + Concat(ls[j..])
  {
    assert ls == ls[..j] + ls[j..];
    ConcatAppend(ls[..j], ls[j..]);
  }

  lemma SplitRead(ls: seq<Bytes>) returns (i: nat, j: nat)
    requires AreLines(ls) && UntilBlank(DropBlank(ls)).Some?
    ensures i < j < |ls| && UntilBlank(DropBlank(ls)) == Some(ls[i..j])
    ensures IsMessage(ls[..i], ls[i..j], ls[j]) && ls[..j + 1] == MessageLines(ls[..i], ls[i..j], ls[j])
  {
    i := DropBlankSplits(ls);
    j := i + |UntilBlank(ls[i..]).value|;
    assert ls[i..j] == ls[i..][..j - i];
    WholeBefore(ls, j + 1);
    MessageOf(ls, i, j);
  }

  lemma MessageOf(ls: seq<Bytes>, i: nat, j: nat)
    requires i < j < |ls| && AllBlank(ls[..i]) && NoneBlank(ls[i..j]) && Blank(ls[j]) && WholeLines(ls[..j + 1])
    ensures IsMessage(ls[..i], ls[i..j], ls[j]) && ls[..j + 1] == MessageLines(ls[..i], ls[i..j], ls[j])
  {
    assert forall k | 0 <= k < j - i :: ls[i..j][k] == ls[..j + 1][i + k];
  }

  /** All lines but the last are whole, and an empty one is whole in any case. */
  lemma WholeBefore(ls: seq<Bytes>, n: nat)
    requires AreLines(ls) && n <= |ls| && (n > 0 ==> Blank(ls[n - 1]))
    ensures WholeLines(ls[..n])
  {
    if n > 0 {
      LinesBeforeLast(ls);
      assert forall k | 0 <= k < n :: ls[..n][k] == ls[k];
    }
  }

  lemma {:induction false} LinesBeforeLast(ls: seq<Bytes>)
    requires AreLines(ls)
    ensures forall k | 0 <= k < |ls| :: IsLine(ls[k]) && (k < |ls| - 1 ==> EndsInLf(ls[k]))
  {
    if ls != [] {
      LinesBeforeLast(ls[1..]);
      assert forall k | 0 < k < |ls| :: ls[k] == ls[1..][k - 1];
    }
  }

  /** What is read of bytes: empty lines, these lines, an empty line, and anything behind. */
  lemma ReadHeadIs(s: Bytes, ls: seq<Bytes>)
    ensures ReadHead(s) == Some(ls) <==>
            && ls != []
            && (forall k | 0 <= k < |ls| ::
                  && ls[k] != [] && ls[k] != [10] && ls[k] != [13, 10] && ls[k][|ls[k]| - 1] == 10
                  && forall i | 0 <= i < |ls[k]| - 1 :: ls[k][i] != 10)
            && exists blanks: seq<Bytes>, blank: Bytes, tail: Bytes ::
                 && s == Concat(blanks + (ls + [blank])) + tail
                 && (blank == [10] || blank == [13, 10])
                 && forall k | 0 <= k < |blanks| :: blanks[k] == [10] || blanks[k] == [13, 10]
  {
    if ReadHead(s) == Some(ls) {
      var blanks, head, blank, tail := ReadSplits(s);
      assert s == Concat(blanks + (ls + [blank])) + tail;
    }
    if ls != [] && (forall k | 0 <= k < |ls| ::
                      && ls[k] != [] && ls[k] != [10] && ls[k] != [13, 10] && ls[k][|ls[k]| - 1] == 10
                      && forall i | 0 <= i < |ls[k]| - 1 :: ls[k][i] != 10) {
      if blanks: seq<Bytes>, blank: Bytes, tail: Bytes :|
           && s == Concat(blanks + (ls + [blank])) + tail
           && (blank == [10] || blank == [13, 10])
           && forall k | 0 <= k < |blanks| :: blanks[k] == [10] || blanks[k] == [13, 10] {
        assert IsMessage(blanks, ls, blank);
        ReadMessage(blanks, ls, blank, tail);
      }
    }
  }

  /** More bytes do not change a head that is there to read. */
  lemma ReadStable(s: Bytes, more: Bytes)
    requires ReadHead(s).Some?
    ensures ReadHead(s + more) == ReadHead(s)
  {
    var blanks, head, blank, tail := ReadSplits(s);
    ReadMessage(blanks, head, blank, tail + more);
    GlueAssociative(Concat(MessageLines(blanks, head, blank)), tail, more);
  }

  /** A request accepted from its `n`-th byte on is such a message up to there. */
  lemma AcceptedMessage(s: Bytes, n: nat) returns (blanks: seq<Bytes>, head: seq<Bytes>, blank: Bytes)
    requires AcceptsAt(s, HeadRule, n)
    ensures IsMessage(blanks, head, blank) && s[..n] == Concat(MessageLines(blanks, head, blank))
    ensures ReadHead(s) == Some(head)
  {
    CompleteIffRead(s[..n]);
    var tail;
    blanks, head, blank, tail := ReadSplits(s[..n]);
    var front := Concat(MessageLines(blanks, head, blank));
    ReadMessage(blanks, head, blank, []);
    assert front + [] == front;
    CompleteIffRead(front);
    assert s[..|front|] == front;
    MessageNotEmpty(blanks, head, blank);
    assert s[..n] == front;
    ReadMessage(blanks, head, blank, s[n..]);
    assert s == s[..n] + s[n..];
  }

  lemma MessageNotEmpty(blanks: seq<Bytes>, head: seq<Bytes>, blank: Bytes)
    requires IsMessage(blanks, head, blank)
    ensures Concat(MessageLines(blanks, head, blank)) != []
  {
    ConcatEnds(MessageLines(blanks, head, blank));
  }

  /** And every such message is accepted exactly from its last byte on, whatever follows. */
  lemma MessageAccepted(blanks: seq<Bytes>, head: seq<Bytes>, blank: Bytes, tail: Bytes)
    requires IsMessage(blanks, head, blank)
    ensures
      var front := Concat(MessageLines(blanks, head, blank));
      AcceptsAt(front + tail, HeadRule, |front|)
  {
    var ls := MessageLines(blanks, head, blank);
    var front := Concat(ls);
    ReadMessage(blanks, head, blank, []);
    assert front + [] == front && (front + tail)[..|front|] == front;
    CompleteIffRead(front);
    HeadRuleStable();
    MessageNotEmpty(blanks, head, blank);
    var n := AcceptedFrom(front + tail, HeadRule, |front|);
    var blanks', head', blank' := AcceptedMessage(front + tail, n);
    assert front[..n] == (front + tail)[..n];
    SameEnd(blanks, head, blank, blanks', head', blank', n);
  }

  /** Of two such messages, one in front of the other, the first is the whole of the second. */
  lemma SameEnd(blanks: seq<Bytes>, head: seq<Bytes>, blank: Bytes,
                blanks': seq<Bytes>, head': seq<Bytes>, blank': Bytes, n: nat)
    requires IsMessage(blanks, head, blank) && IsMessage(blanks', head', blank')
    requires n <= |Concat(MessageLines(blanks, head, blank))|
    requires Concat(MessageLines(blanks, head, blank))[..n] == Concat(MessageLines(blanks', head', blank'))
    ensures n == |Concat(MessageLines(blanks, head, blank))|
  {
    var ls, ls' := MessageLines(blanks, head, blank), MessageLines(blanks', head', blank');
    var front := Concat(ls);
    assert front == Concat(ls') + front[n..];
    MessageWhole(blanks, head, blank);
    MessageWhole(blanks', head', blank');
    WholeAreLines(ls);
    LinesBack(ls);
    LinesOfWhole(ls', front[n..]);
    SameMessage(blanks, head, blank, blanks', head', blank', Lines(front[n..]));
    LinesAreLines(front[n..]);
  }

  lemma SameMessage(blanks: seq<Bytes>, head: seq<Bytes>, blank: Bytes,
                    blanks': seq<Bytes>, head': seq<Bytes>, blank': Bytes, more: seq<Bytes>)
    requires IsMessage(blanks, head, blank) && IsMessage(blanks', head', blank')
    requires MessageLines(blanks, head, blank) == MessageLines(blanks', head', blank') + more
    ensures more == []
  {
    var ls, p, q := MessageLines(blanks, head, blank), |blanks'|, |blanks'| + |head'|;
    assert ls[p] == head'[0] && ls[q] == blank';
    assert forall k | 0 <= k < |blanks| :: ls[k] == blanks[k];
    assert forall k | 0 <= k < |head| :: ls[|blanks| + k] == head[k];
    assert p >= |blanks|;
    assert q == |ls| - 1;
  }

  // ---- What is read of a rewritten message ----

  lemma HeaderLinesNotBlank(hs: seq<Header>)
    requires AllLfFree(hs)
    ensures WholeLines(HeaderBlock(hs)) && NoneBlank(HeaderBlock(hs))
  {
    BlockWhole(hs);
    forall i | 0 <= i < |hs| ensures !Blank(HeaderLine(hs[i])) {
      HeaderLineIsLine(hs[i]);
    }
  }

  lemma KeptLines(ls: seq<Bytes>, names: seq<Bytes>)
    requires WholeLines(ls) && NoneBlank(ls)
    ensures WholeLines(Kept(ls, names)) && NoneBlank(Kept(ls, names))
  {
    var kept := Kept(ls, names);
    forall k | 0 <= k < |kept| ensures IsLine(kept[k]) && EndsInLf(kept[k]) && !Blank(kept[k]) {
      assert kept[k] in ls;
    }
  }

  /** Where the first CRLF CRLF lies, given the message's lines up to its blank one. */
  lemma HeadEndLines(s: Bytes, n: nat, ls: seq<Bytes>)
    requires n <= |s| && WholeLines(ls) && s[..n] == Concat(ls)
    requires FindHeadEnd(s).Some? && FindHeadEnd(s).value + 4 <= n
    ensures
      var v := FindHeadEnd(s).value;
      ls == HeadLines(s) + ([CRLF] + Lines(s[v + 4..n]))
  {
    LinesAtEmpty(s, FindHeadEnd(s).value, n);
    WholeAreLines(ls);
    LinesBack(ls);
  }

  lemma LinesAtEmpty(s: Bytes, v: nat, n: nat)
    requires EmptyLineAt(s, v) && v + 4 <= n <= |s|
    ensures Lines(s[..n]) == Lines(s[..v + 2]) + ([CRLF] + Lines(s[v + 4..n]))
  {
    CutAtEmpty(s, v, n);
    LinesAppend(s[..v + 2], CRLF + s[v + 4..n]);
    LinesCons(CRLF, s[v + 4..n]);
  }

  lemma CutAtEmpty(s: Bytes, v: nat, n: nat)
    requires EmptyLineAt(s, v) && v + 4 <= n <= |s|
    ensures s[..n] == s[..v + 2] + (CRLF + s[v + 4..n])
  {
  }

  /** An empty line that is not the message's last is one of those in front. */
  lemma EmptyInFront(blanks: seq<Bytes>, head: seq<Bytes>, blank: Bytes, front: seq<Bytes>, more: seq<Bytes>)
    requires IsMessage(blanks, head, blank) && MessageLines(blanks, head, blank) == front + ([CRLF] + more)
    ensures more != [] ==> |front| < |blanks| && front == blanks[..|front|]
    ensures more == [] ==> front == blanks + head && blank == CRLF
  {
    var ls := MessageLines(blanks, head, blank);
    assert ls[|front|] == CRLF;
    assert forall k | 0 <= k < |head| :: ls[|blanks| + k] == head[k];
    if more != [] {
      assert ls[..|front|] == blanks[..|front|];
    } else {
      assert ls[..|front|] == blanks + head;
    }
  }

  /** A first CRLF CRLF that ends where the accepted head ends: the head is read with its headers replaced. */
  lemma ReadReplaced(s: Bytes, hs: seq<Header>, blanks: seq<Bytes>, head: seq<Bytes>, tail: Bytes)
    requires FindHeadEnd(s).Some? && HeadLines(s) == blanks + head && AfterHead(s) == CRLF + tail
    requires IsMessage(blanks, head, CRLF) && IsStartLine(head[0]) && AllLfFree(hs) && SpaceFreeNames(hs)
    ensures ReadHead(Rewritten(s, hs)) == Some(Kept(head, Names(hs)) + HeaderBlock(hs))
  {
    var lines := Kept(head, Names(hs)) + HeaderBlock(hs);
    RewrittenShape(s, hs);
    ReplacedMessage(blanks, head, hs);
    MessageGlued(blanks, lines, CRLF, tail);
    ReadMessage(blanks, lines, CRLF, tail);
  }

  lemma ReplacedMessage(blanks: seq<Bytes>, head: seq<Bytes>, hs: seq<Header>)
    requires IsMessage(blanks, head, CRLF) && IsStartLine(head[0]) && AllLfFree(hs) && SpaceFreeNames(hs)
    ensures
      var lines := Kept(head, Names(hs)) + HeaderBlock(hs);
      && Kept(blanks + head, Names(hs)) + HeaderBlock(hs) == blanks + lines
      && IsMessage(blanks, lines, CRLF)
  {
    FrontKept(blanks, head, hs);
    KeptLines(head, Names(hs));
    HeaderLinesNotBlank(hs);
    GlueAssociative(blanks, Kept(head, Names(hs)), HeaderBlock(hs));
  }

  lemma MessageGlued(blanks: seq<Bytes>, head: seq<Bytes>, blank: Bytes, tail: Bytes)
    ensures Concat(blanks + head) + (blank + tail) == Concat(MessageLines(blanks, head, blank)) + tail
  {
    GlueAssociative(blanks, head, [blank]);
    ConcatAppend(blanks + head, [blank]);
    assert Concat([blank]) == blank;
    GlueAssociative(Concat(blanks + head), blank, tail);
  }

  /** One that ends among the empty lines in front: the injected lines are read for the head. */
  lemma ReadInFront(s: Bytes, hs: seq<Header>, tail: Bytes)
    requires FindHeadEnd(s).Some? && AllBlank(HeadLines(s)) && AfterHead(s) == CRLF + tail
    requires hs != [] && AllLfFree(hs)
    ensures ReadHead(Rewritten(s, hs)) == Some(HeaderBlock(hs))
  {
    RewrittenShape(s, hs);
    BlanksKept(HeadLines(s), Names(hs));
    HeaderLinesNotBlank(hs);
    MessageGlued(HeadLines(s), HeaderBlock(hs), CRLF, tail);
    ReadMessage(HeadLines(s), HeaderBlock(hs), CRLF, tail);
  }

  /** One that ends behind the accepted head: its lines are filtered, and the injected ones come too late. */
  lemma ReadBehind(s: Bytes, hs: seq<Header>, blanks: seq<Bytes>, head: seq<Bytes>, blank: Bytes, more: seq<Bytes>)
    requires FindHeadEnd(s).Some? && HeadLines(s) == MessageLines(blanks, head, blank) + more
    requires IsMessage(blanks, head, blank) && IsStartLine(head[0]) && SpaceFreeNames(hs)
    ensures ReadHead(Rewritten(s, hs)) == Some(Kept(head, Names(hs)))
  {
    var names := Names(hs);
    var kept := Kept(head, names);
    RewrittenShape(s, hs);
    FrontKept(blanks, head, hs);
    KeptLines(head, names);
    KeptMessage(blanks, head, blank, more, hs);
    var ls := MessageLines(blanks, kept, blank);
    var late := Kept(more, names) + HeaderBlock(hs);
    GlueAssociative(ls, Kept(more, names), HeaderBlock(hs));
    ConcatAppend(ls, late);
    GlueAssociative(Concat(ls), Concat(late), AfterHead(s));
    ReadMessage(blanks, kept, blank, Concat(late) + AfterHead(s));
  }

  lemma KeptMessage(blanks: seq<Bytes>, head: seq<Bytes>, blank: Bytes, more: seq<Bytes>, hs: seq<Header>)
    requires IsMessage(blanks, head, blank)
    ensures Kept(MessageLines(blanks, head, blank) + more, Names(hs)) ==
            MessageLines(blanks, Kept(head, Names(hs)), blank) + Kept(more, Names(hs))
  {
    var names := Names(hs);
    BlankNotCarried(blank, names);
    BlanksKept(blanks, names);
    KeptAppend(MessageLines(blanks, head, blank), more, names);
    KeptAppend(blanks, head + [blank], names);
    KeptAppend(head, [blank], names);
    KeptAll([blank], names);
  }

  /** No CRLF CRLF ends just one byte behind a line feed. */
  lemma HeadEndBehind(s: Bytes, n: nat)
    requires 0 < n <= |s| && s[n - 1] == LF && FindHeadEnd(s).Some? && n < FindHeadEnd(s).value + 4
    ensures n <= FindHeadEnd(s).value + 2
  {
    var v := FindHeadEnd(s).value;
    assert s[v + 2] == CR && s[v] == CR;
  }

  lemma MessageEnd(blanks: seq<Bytes>, head: seq<Bytes>, blank: Bytes)
    requires IsMessage(blanks, head, blank)
    ensures EndsInLf(Concat(MessageLines(blanks, head, blank)))
  {
    ConcatEnds(MessageLines(blanks, head, blank));
  }

  lemma LinesOfWhole(ls: seq<Bytes>, mid: Bytes)
    requires WholeLines(ls)
    ensures Lines(Concat(ls) + mid) == ls + Lines(mid)
  {
    WholeAreLines(ls);
    LinesOfConcat(ls, mid);
  }

  lemma EmptyWithin(s: Bytes, n: nat, blanks: seq<Bytes>, head: seq<Bytes>, blank: Bytes)
    requires IsMessage(blanks, head, blank) && n <= |s| && s[..n] == Concat(MessageLines(blanks, head, blank))
    requires FindHeadEnd(s).Some? && FindHeadEnd(s).value + 4 <= n
    ensures FindHeadEnd(s).value + 4 == n ==> HeadLines(s) == blanks + head && blank == CRLF
    ensures FindHeadEnd(s).value + 4 < n ==>
              |HeadLines(s)| < |blanks| && HeadLines(s) == blanks[..|HeadLines(s)|]
  {
    var v := FindHeadEnd(s).value;
    MessageWhole(blanks, head, blank);
    HeadEndLines(s, n, MessageLines(blanks, head, blank));
    LinesAreLines(s[v + 4..n]);
    EmptyInFront(blanks, head, blank, HeadLines(s), Lines(s[v + 4..n]));
  }

  lemma EmptyBeyond(s: Bytes, n: nat, blanks: seq<Bytes>, head: seq<Bytes>, blank: Bytes) returns (more: seq<Bytes>)
    requires IsMessage(blanks, head, blank) && n <= |s| && s[..n] == Concat(MessageLines(blanks, head, blank))
    requires FindHeadEnd(s).Some? && n < FindHeadEnd(s).value + 4
    ensures HeadLines(s) == MessageLines(blanks, head, blank) + more
  {
    var cut := FindHeadEnd(s).value + 2;
    MessageEnd(blanks, head, blank);
    assert s[..n][n - 1] == LF;
    HeadEndBehind(s, n);
    more := LinesBeyond(s, n, cut, blanks, head, blank);
  }

  lemma LinesBeyond(s: Bytes, n: nat, cut: nat, blanks: seq<Bytes>, head: seq<Bytes>, blank: Bytes)
    returns (more: seq<Bytes>)
    requires IsMessage(blanks, head, blank) && n <= cut <= |s|
    requires s[..n] == Concat(MessageLines(blanks, head, blank))
    ensures Lines(s[..cut]) == MessageLines(blanks, head, blank) + more
  {
    assert s[..cut] == s[..n] + s[n..cut];
    MessageWhole(blanks, head, blank);
    LinesOfWhole(MessageLines(blanks, head, blank), s[n..cut]);
    more := Lines(s[n..cut]);
  }

  /** What is read of the rewritten message, by where its first CRLF CRLF ends. */
  lemma RewrittenRead(s: Bytes, n: nat, hs: seq<Header>)
    requires AcceptsAt(s, HeadRule, n) && FindHeadEnd(s).Some? && hs != []
    requires AllLfFree(hs) && SpaceFreeNames(hs) && ReadHead(s).Some? && IsStartLine(StartLine(s))
    ensures
      var end, kept := FindHeadEnd(s).value + 4, Kept(ReadHead(s).value, Names(hs));
      ReadHead(Rewritten(s, hs)) ==
      Some(if end == n then kept + HeaderBlock(hs) else if end < n then HeaderBlock(hs) else kept)
  {
    var end := FindHeadEnd(s).value + 4;
    var blanks, head, blank := AcceptedMessage(s, n);
    AfterHeadStart(s);
    if end > n {
      var more := EmptyBeyond(s, n, blanks, head, blank);
      ReadBehind(s, hs, blanks, head, blank, more);
    } else {
      EmptyWithin(s, n, blanks, head, blank);
      if end == n {
        ReadReplaced(s, hs, blanks, head, s[end..]);
      } else {
        ReadInFront(s, hs, s[end..]);
      }
    }
  }

  // ---- Whether a header arrives ----

  /** The receiver reads this start line, and the header exactly once. */
  ghost predicate ReadAsMeant(out: Bytes, start: Bytes, h: Header) {
    ReadHead(out).Some? && StartLine(out) == start && ExactlyOnce(ReadHead(out).value, h)
  }

  /** That is: the first line read is the start line; one line is the header's, and no other begins with its name. */
  lemma ReadAsMeantIs(out: Bytes, start: Bytes, h: Header)
    ensures ReadAsMeant(out, start, h) <==>
            && ReadHead(out).Some? && ReadHead(out).value[0] == start
            && exists k ::
                 && 0 <= k < |ReadHead(out).value|
                 && ReadHead(out).value[k] == h.0 + [58, 32] + h.1 + [13, 10]
                 && forall j | 0 <= j < |ReadHead(out).value| :: j == k <==>
                      && |ReadHead(out).value[j]| > |h.0| && ReadHead(out).value[j][|h.0|] == 58
                      && EqualIgnoreCase(ReadHead(out).value[j][..|h.0|], h.0)
  {
    HeaderLineColon(h);
    if ReadHead(out).Some? {
      var ls := ReadHead(out).value;
      forall j | 0 <= j < |ls|
        ensures Carries(ls[j], h.0) <==>
                |ls[j]| > |h.0| && ls[j][|h.0|] == 58 && EqualIgnoreCase(ls[j][..|h.0|], h.0)
      {
        CarriesBefore(ls[j], h.0);
      }
      forall k | 0 <= k < |ls|
        ensures OnlyAt(ls, h, k) <==>
                && ls[k] == h.0 + [58, 32] + h.1 + [13, 10]
                && forall j | 0 <= j < |ls| :: j == k <==>
                     |ls[j]| > |h.0| && ls[j][|h.0|] == 58 && EqualIgnoreCase(ls[j][..|h.0|], h.0)
      {
      }
    }
  }

  lemma InjectedNotStart(h: Header)
    requires SPACE !in h.0
    ensures !IsStartLine(HeaderLine(h))
  {
    var l := HeaderLine(h);
    forall k | 0 <= k < |l| && l[k] == SPACE ensures COLON in l[..k] {
      assert forall j | 0 <= j < |h.0| :: l[j] == h.0[j] && h.0[j] in h.0;
      assert l[|h.0|] == COLON;
      assert k > |h.0|;
      assert l[..k][|h.0|] == COLON;
    }
  }

  lemma KeptHasNone(ls: seq<Bytes>, hs: seq<Header>, i: nat)
    requires i < |hs|
    ensures !ExactlyOnce(Kept(ls, Names(hs)), hs[i])
  {
    var kept := Kept(ls, Names(hs));
    forall k | 0 <= k < |kept| ensures !OnlyAt(kept, hs[i], k) {
      KeptCarriesNone(ls, hs, i, k);
    }
  }

  lemma OnceAmongInjected(ls: seq<Bytes>, hs: seq<Header>, i: nat)
    requires i < |hs| && ColonFree(hs[i].0)
    ensures ExactlyOnce(Kept(ls, Names(hs)) + HeaderBlock(hs), hs[i]) <==> NameUnique(hs, i)
  {
    var all, n := Kept(ls, Names(hs)) + HeaderBlock(hs), |Kept(ls, Names(hs))|;
    KnownInNewHead(ls, hs, i);
    if NameUnique(hs, i) { OnceIfUnique(all, n, hs, i); }
    if ExactlyOnce(all, hs[i]) { UniqueIfOnce(all, n, hs, i); }
  }

  /**
   * For every accepted message that is rewritten: the start line is kept and an injected header is read exactly
   * once, if and only if the first CRLF CRLF is what ends the accepted head, and no other injected name is the
   * same up to letter case.
   */
  lemma RewrittenAsMeant(s: Bytes, n: nat, hs: seq<Header>, i: nat)
    requires AcceptsAt(s, HeadRule, n) && FindHeadEnd(s).Some? && i < |hs| && ColonFree(hs[i].0)
    requires AllLfFree(hs) && SpaceFreeNames(hs) && ReadHead(s).Some? && IsStartLine(StartLine(s))
    ensures ReadHead(Rewritten(s, hs)).Some?
    ensures ReadAsMeant(Rewritten(s, hs), StartLine(s), hs[i]) <==>
            FindHeadEnd(s).value + 4 == n && NameUnique(hs, i)
  {
    RewrittenRead(s, n, hs);
    var end, head := FindHeadEnd(s).value + 4, ReadHead(s).value;
    if end == n {
      StartLineNotCarried(head[0], hs);
      OnceAmongInjected(head, hs, i);
    } else if end < n {
      InjectedNotStart(hs[0]);
    } else {
      KeptHasNone(head, hs, i);
    }
  }

  lemma AcceptedPrefix(s: Bytes, n: nat, held: nat)
    requires AcceptsAt(s, HeadRule, n) && n <= held <= |s|
    ensures AcceptsAt(s[..held], HeadRule, n) && ReadHead(s).Some? && ReadHead(s[..held]) == ReadHead(s)
  {
    forall k | 0 < k <= held ensures HeadRule(s[..held][..k]) == if k >= n then Complete else Partial {
      assert s[..held][..k] == s[..k];
    }
    CompleteIffRead(s[..held]);
    ReadStable(s[..held], s[held..]);
    assert s[..held] + s[held..] == s;
  }

  /**
   * For every request accepted from its `n`-th byte on, whatever amount of it is held when it is rewritten and
   * whatever is sent behind that: the receiver reads the request's start line and the injected header exactly
   * once, if and only if either the request's first CRLF CRLF ends the accepted head and no other injected name
   * is the same up to letter case; or the held bytes have no CRLF CRLF, so go on as they are, and the client
   * itself has sent just this header line.
   */
  lemma ReceiverReads(request: Bytes, n: nat, held: nat, hs: seq<Header>, i: nat, more: Bytes)
    requires AcceptsAt(request, HeadRule, n) && n <= held <= |request| && i < |hs| && ColonFree(hs[i].0)
    requires AllLfFree(hs) && SpaceFreeNames(hs) && ReadHead(request).Some? && IsStartLine(StartLine(request))
    ensures ReadAsMeant(Rewritten(request[..held], hs) + more, StartLine(request), hs[i]) <==>
            if FindHeadEnd(request[..held]).Some? then FindHeadEnd(request) == Some(n - 4) && NameUnique(hs, i)
            else ExactlyOnce(ReadHead(request).value, hs[i])
    ensures FindHeadEnd(request) == Some(n - 4) ==> FindHeadEnd(request[..held]).Some?
  {
    var s := request[..held];
    AcceptedPrefix(request, n, held);
    HeadEndStable(request, held);
    if FindHeadEnd(s).Some? {
      RewrittenAsMeant(s, n, hs, i);
    }
    ReadStable(Rewritten(s, hs), more);
  }

  /** The ordinary case: CR before every line feed of the accepted head, and not two empty lines in front. */
  lemma OrdinaryHeadEnd(request: Bytes, n: nat)
    requires AcceptsAt(request, HeadRule, n) && CrBeforeLf(request[..n]) && !EmptyLineAt(request, 0)
    ensures FindHeadEnd(request) == Some(n - 4)
  {
    var blanks, head, blank := AcceptedMessage(request, n);
    LastEmptyLine(request, n, blanks, head, blank);
    var v := FindHeadEnd(request).value;
    if v + 4 < n {
      EmptyWithin(request, n, blanks, head, blank);
      FirstEmptyLines(request, n, v);
    }
  }

  lemma LastEmptyLine(s: Bytes, n: nat, blanks: seq<Bytes>, head: seq<Bytes>, blank: Bytes)
    requires IsMessage(blanks, head, blank) && n <= |s| && s[..n] == Concat(MessageLines(blanks, head, blank))
    requires CrBeforeLf(s[..n])
    ensures n >= 4 && EmptyLineAt(s, n - 4)
  {
    var front := Concat(blanks + head);
    MessageGlued(blanks, head, blank, []);
    assert s[..n] == front + blank by {
      assert Concat(MessageLines(blanks, head, blank)) + [] == s[..n] && blank + [] == blank;
    }
    assert (blanks + head)[|blanks + head| - 1] == head[|head| - 1];
    ConcatEnds(blanks + head);
    var m := |front|;
    assert s[..n][m - 1] == front[m - 1] == LF;
    assert s[..n][m] == blank[0];
    assert blank[0] == CR;
    assert s[..n][m + 1] == blank[1];
    assert s[..n][m - 2] == CR;
  }

  /** Where every line feed follows a carriage return, an empty line in front is a full one. */
  lemma BlankStart(s: Bytes)
    requires CrBeforeLf(s) && Lines(s) != [] && Blank(Lines(s)[0])
    ensures |s| >= 2 && s[0] == CR && s[1] == LF && Lines(s[2..]) == Lines(s)[1..]
  {
    var l, rest := FirstAndRest(s);
    assert s[0] == l[0];
    assert l == CRLF && s[1] == l[1] && s[2..] == rest;
  }

  lemma CrBeforeLfPrefix(s: Bytes, m: nat, n: nat)
    requires m <= n <= |s| && CrBeforeLf(s[..n])
    ensures CrBeforeLf(s[..m])
  {
    assert forall i | 0 <= i < m :: s[..m][i] == s[..n][i];
  }

  /** So empty lines in front of an empty line begin the bytes with two of them. */
  lemma FirstEmptyLines(s: Bytes, n: nat, v: nat)
    requires v + 4 <= n <= |s| && EmptyLineAt(s, v) && CrBeforeLf(s[..n]) && AllBlank(Lines(s[..v + 2]))
    ensures EmptyLineAt(s, 0)
  {
    var t := s[..v + 2];
    CrBeforeLfPrefix(s, v + 2, n);
    BlankStart(t);
    if v > 0 {
      SecondBlank(t);
      assert s[0] == t[0] && s[1] == t[1] && s[2] == t[2] && s[3] == t[3];
    }
  }

  lemma SecondBlank(t: Bytes)
    requires CrBeforeLf(t) && |t| > 2 && t[1] == LF && Lines(t[2..]) != [] && Blank(Lines(t[2..])[0])
    ensures |t| >= 4 && t[2] == CR && t[3] == LF
  {
    var l, rest := FirstAndRest(t[2..]);
    assert t[2] == t[2..][0] == l[0];
    assert l == CRLF && t[3] == t[2..][1] == l[1];
  }

  /**
   * An ordinary request, all at once: its start line and every injected header are read, each header once, and
   * all bytes behind its head are sent as they are.
   */
  lemma OrdinaryRequestRead(request: Bytes, n: nat, held: nat, hs: seq<Header>)
    requires AcceptsAt(request, HeadRule, n) && CrBeforeLf(request[..n]) && !EmptyLineAt(request, 0)
    requires n <= held <= |request| && AllLfFree(hs) && SpaceFreeNames(hs)
    requires ReadHead(request).Some? && IsStartLine(StartLine(request))
    requires forall i | 0 <= i < |hs| :: ColonFree(hs[i].0) && NameUnique(hs, i)
    ensures forall i | 0 <= i < |hs| :: ReadAsMeant(Forwarded(request, held, hs), StartLine(request), hs[i])
    ensures HeadReplaced(request, hs) && Forwarded(request, held, hs) == Rewritten(request, hs)
  {
    OrdinaryHeadEnd(request, n);
    forall i | 0 <= i < |hs| ensures ReadAsMeant(Forwarded(request, held, hs), StartLine(request), hs[i]) {
      ReceiverReads(request, n, held, hs, i, request[held..]);
    }
    CrBeforeLfPrefix(request, n - 2, n);
    WellEndedReplaced(request, hs);
    ForwardedValue(request, held, hs);
  }

  // ---- The client's address, told to the upstream ----

  /** Configured names and values as a header can carry them. */
  ghost predicate TableOk(table: Table) {
    TableLfFree(table) && forall k | k in table :: SPACE !in k
  }

  /**
   * A configured header is read exactly once, with its request's start line, if and only if the first CRLF CRLF
   * ends the accepted head and no other key is its name in other letters; or the bytes go on as they are and
   * the client has sent just that line.
   */
  lemma ConfiguredOnce(request: Bytes, n: nat, held: nat, hs: seq<Header>, table: Table, key: Bytes, more: Bytes)
    requires AcceptsAt(request, HeadRule, n) && n <= held <= |request|
    requires ReadHead(request).Some? && IsStartLine(StartLine(request))
    requires IsListing(hs, table) && TableOk(table) && key in table && ColonFree(key)
    ensures ReadAsMeant(Rewritten(request[..held], hs) + more, StartLine(request), (key, table[key])) <==>
            if FindHeadEnd(request[..held]).Some? then FindHeadEnd(request) == Some(n - 4) && KeyUnique(table, key)
            else ExactlyOnce(ReadHead(request).value, (key, table[key]))
  {
    ListingLfFree(hs, table);
    assert forall j | 0 <= j < |hs| :: hs[j] in hs;
    var i: nat :| i < |hs| && hs[i] == (key, table[key]);
    ListedUnique(hs, table, i);
    ReceiverReads(request, n, held, hs, i, more);
  }

  /** So for the line that tells the upstream the client's own address, whatever the client claims. */
  lemma ForwardedForOnce(request: Bytes, n: nat, held: nat, hs: seq<Header>, more: Bytes,
                         global: Table, custom: Option<Table>, clientIp: Bytes)
    requires AcceptsAt(request, HeadRule, n) && n <= held <= |request|
    requires ReadHead(request).Some? && IsStartLine(StartLine(request))
    requires IsListing(hs, UpstreamHeaders(global, custom, clientIp))
    requires TableOk(UpstreamHeaders(global, custom, clientIp))
    ensures
      var h := (X_FORWARDED_FOR, AddressOf(clientIp));
      ReadAsMeant(Rewritten(request[..held], hs) + more, StartLine(request), h) <==>
      if FindHeadEnd(request[..held]).Some? then
        FindHeadEnd(request) == Some(n - 4) && KeyUnique(UpstreamHeaders(global, custom, clientIp), X_FORWARDED_FOR)
      else ExactlyOnce(ReadHead(request).value, h)
  {
    ConfiguredOnce(request, n, held, hs, UpstreamHeaders(global, custom, clientIp), X_FORWARDED_FOR, more);
  }

  // ---- Requests for which it fails ----

  /** Two empty lines in front of any request: the injected lines are read where the start line should be. */
  lemma EmptyLinesInFront(request: Bytes, n: nat, hs: seq<Header>)
    requires AcceptsAt(request, HeadRule, n) && hs != [] && AllLfFree(hs)
    ensures
      var s := CRLF + (CRLF + request);
      && AcceptsAt(s, HeadRule, n + 4) && ReadHead(s) == ReadHead(request)
      && FindHeadEnd(s) == Some(0)
      && Rewritten(s, hs) == CRLF + Concat(HeaderBlock(hs)) + (CRLF + request)
      && ReadHead(Rewritten(s, hs)) == Some(HeaderBlock(hs))
  {
    var s := CRLF + (CRLF + request);
    var blanks, head, blank := AcceptedMessage(request, n);
    MoreInFront(request, n, blanks, head, blank);
    assert EmptyLineAt(s, 0);
    assert s[..2] == CRLF && s[2..] == CRLF + request;
    LinesCons(CRLF, []);
    assert CRLF + [] == CRLF;
    BlanksKept([CRLF], Names(hs));
    assert Concat([CRLF]) == CRLF;
    ReadInFront(s, hs, request);
  }

  lemma MoreInFront(request: Bytes, n: nat, blanks: seq<Bytes>, head: seq<Bytes>, blank: Bytes)
    requires IsMessage(blanks, head, blank) && n <= |request| && ReadHead(request) == Some(head)
    requires request[..n] == Concat(MessageLines(blanks, head, blank))
    ensures AcceptsAt(CRLF + (CRLF + request), HeadRule, n + 4)
    ensures ReadHead(CRLF + (CRLF + request)) == ReadHead(request)
  {
    var more := [CRLF] + ([CRLF] + blanks);
    MessageAccepted(more, head, blank, request[n..]);
    ReadMessage(more, head, blank, request[n..]);
    var ls := MessageLines(blanks, head, blank);
    assert MessageLines(more, head, blank) == [CRLF] + ([CRLF] + ls);
    ConcatCons(CRLF, [CRLF] + ls);
    ConcatCons(CRLF, ls);
    assert CRLF + (CRLF + request) == (CRLF + (CRLF + request[..n])) + request[n..];
  }

  lemma PlainEnded(l: Bytes, end: Bytes)
    requires PlainLine(l) && Blank(end)
    ensures IsLine(l + end) && EndsInLf(l + end) && !Blank(l + end)
  {
    assert forall i | 0 <= i < |l| :: (l + end)[i] == l[i] && l[i] in l;
    assert (l + end)[|l + end| - 1] == end[|end| - 1];
    assert (l + end)[0] == l[0] && l[0] in l;
  }

  lemma PlainHead(start: Bytes, field: Bytes, end: Bytes)
    requires PlainLine(start) && PlainLine(field) && Blank(end)
    ensures IsMessage([], [start + end, field + end], end)
  {
    PlainEnded(start, end);
    PlainEnded(field, end);
  }

  lemma TwoLineMessage(a: Bytes, b: Bytes, blank: Bytes)
    ensures Concat(MessageLines([], [a, b], blank)) == a + (b + blank)
  {
    assert MessageLines([], [a, b], blank) == [a] + ([b] + [blank]);
    ConcatCons(a, [b] + [blank]);
    ConcatCons(b, [blank]);
    assert Concat([blank]) == blank;
  }

  /** A request of one field line with CRLF throughout is accepted from its last byte on. */
  lemma FullRequestAccepted(start: Bytes, field: Bytes, rest: Bytes)
    requires PlainLine(start) && PlainLine(field)
    ensures
      var front := (start + CRLF) + ((field + CRLF) + CRLF);
      AcceptsAt(front + rest, HeadRule, |front|) && ReadHead(front + rest) == Some([start + CRLF, field + CRLF])
  {
    var head := [start + CRLF, field + CRLF];
    PlainHead(start, field, CRLF);
    ReadMessage([], head, CRLF, rest);
    MessageAccepted([], head, CRLF, rest);
    TwoLineMessage(start + CRLF, field + CRLF, CRLF);
  }

  /** Such a request and each header injected into it are read as meant, exactly if its name is unique. */
  lemma FullRequestRead(start: Bytes, field: Bytes, hs: seq<Header>, i: nat)
    requires PlainLine(start) && PlainLine(field) && IsStartLine(start + CRLF)
    requires i < |hs| && ColonFree(hs[i].0) && AllLfFree(hs) && SpaceFreeNames(hs)
    ensures
      var request := (start + CRLF) + ((field + CRLF) + CRLF);
      ReadAsMeant(Rewritten(request, hs), start + CRLF, hs[i]) <==> NameUnique(hs, i)
  {
    var request := (start + CRLF) + ((field + CRLF) + CRLF);
    var n := |request|;
    FullRequestAccepted(start, field, []);
    assert request + [] == request && request[..n] == request;
    FullRequestEnds(start, field);
    OrdinaryHeadEnd(request, n);
    RewrittenAsMeant(request, n, hs, i);
  }

  lemma FullRequestEnds(start: Bytes, field: Bytes)
    requires PlainLine(start) && PlainLine(field)
    ensures
      var request := (start + CRLF) + ((field + CRLF) + CRLF);
      CrBeforeLf(request) && !EmptyLineAt(request, 0)
  {
    var request, m := (start + CRLF) + ((field + CRLF) + CRLF), |start| + 2;
    assert forall k | 0 <= k < |start| :: request[k] == start[k] && start[k] in start;
    assert request[m - 2] == CR && request[m - 1] == LF;
    assert forall k | 0 <= k < |field| :: request[m + k] == field[k] && field[k] in field;
    assert request[m..] == (field + CRLF) + CRLF;
    assert request[m + |field|] == CR && request[m + |field| + 1] == LF;
    assert request[m + |field| + 2] == CR && request[m + |field| + 3] == LF;
    assert request[0] == start[0];
  }

  /**
   * `GET / HTTP/1.1` with its own `X-Forwarded-For: 6.6.6.6`, behind two empty lines: what is injected is read
   * for a head, and the whole request, claim included, follows it untouched.
   */
  lemma EmptyLinesWitness(request: Bytes, hs: seq<Header>, i: nat)
    requires request == (GET_REQUEST + CRLF) + ((X_FORWARDED_FOR + CLAIM + CRLF) + CRLF)
    requires i < |hs| && AllLfFree(hs) && SpaceFreeNames(hs)
    ensures
      var s := CRLF + (CRLF + request);
      && HeadRule(s) == Complete && Rewritten(s, hs) == CRLF + Concat(HeaderBlock(hs)) + (CRLF + request)
      && ReadHead(s) == Some([GET_REQUEST + CRLF, X_FORWARDED_FOR + CLAIM + CRLF])
      && !ReadAsMeant(Rewritten(s, hs), GET_REQUEST + CRLF, hs[i])
  {
    WitnessAccepted(request);
    EmptyLinesInFront(request, |request|, hs);
    CompleteIffRead(CRLF + (CRLF + request));
    GetIsStartLine(CRLF);
    InjectedFirst(Rewritten(CRLF + (CRLF + request), hs), hs, GET_REQUEST + CRLF, hs[i]);
  }

  lemma WitnessAccepted(request: Bytes)
    requires request == (GET_REQUEST + CRLF) + ((X_FORWARDED_FOR + CLAIM + CRLF) + CRLF)
    ensures AcceptsAt(request, HeadRule, |request|)
    ensures ReadHead(request) == Some([GET_REQUEST + CRLF, X_FORWARDED_FOR + CLAIM + CRLF])
  {
    FullRequestAccepted(GET_REQUEST, X_FORWARDED_FOR + CLAIM, []);
    assert request + [] == request;
  }

  lemma InjectedFirst(out: Bytes, hs: seq<Header>, start: Bytes, h: Header)
    requires ReadHead(out) == Some(HeaderBlock(hs)) && hs != [] && SpaceFreeNames(hs) && IsStartLine(start)
    ensures !ReadAsMeant(out, start, h)
  {
    InjectedNotStart(hs[0]);
  }

  const GET_REQUEST: Bytes := [71, 69, 84, 32, 47, 32, 72, 84, 84, 80, 47, 49, 46, 49]
  const CLAIM: Bytes := [58, 32, 54, 46, 54, 46, 54, 46, 54]

  lemma GetIsStartLine(end: Bytes)
    ensures IsStartLine(GET_REQUEST + end)
  {
    var l := GET_REQUEST + end;
    assert l[3] == SPACE && l[..3] == [71, 69, 84];
  }

  lemma BareRequestRead(start: Bytes, field: Bytes, rest: Bytes)
    requires PlainLine(start) && PlainLine(field)
    ensures ReadHead(BareRequest(start, field) + rest) == Some([start + [LF], field + [LF]])
  {
    var head := [start + [LF], field + [LF]];
    PlainHead(start, field, [LF]);
    ReadMessage([], head, [LF], rest);
    TwoLineMessage(start + [LF], field + [LF], [LF]);
    BareShape(start, field);
  }

  lemma BareShape(start: Bytes, field: Bytes)
    ensures BareRequest(start, field) == (start + [LF]) + ((field + [LF]) + [LF])
  {
  }

  /** A request ended by bare line feeds with CRLF CRLF behind it, read in one go: the injected lines come too late. */
  lemma LateEmptyLineWitness(request: Bytes, hs: seq<Header>, i: nat)
    requires request == BareRequest(GET_REQUEST, [72, 111, 115, 116, 58, 32, 97]) + (CRLF + CRLF + [])
    requires i < |hs| && ColonFree(hs[i].0) && AllLfFree(hs) && SpaceFreeNames(hs)
    ensures AcceptsAt(request, HeadRule, 24) && FindHeadEnd(request) == Some(24) && ReadHead(request).Some?
    ensures ReadHead(Rewritten(request, hs)) == Some(Kept(ReadHead(request).value, Names(hs)))
    ensures !ReadAsMeant(Rewritten(request, hs), GET_REQUEST + [LF], hs[i])
  {
    var field: Bytes := [72, 111, 115, 116, 58, 32, 97];
    BareRequestAccepted(GET_REQUEST, field, CRLF + CRLF + []);
    BareHeadEnd(GET_REQUEST, field, []);
    BareRequestRead(GET_REQUEST, field, CRLF + CRLF + []);
    GetIsStartLine([LF]);
    RewrittenRead(request, 24, hs);
    RewrittenAsMeant(request, 24, hs, i);
  }

  /** A client whose lines end in bare line feeds gets its own forwarded-for line through, whatever is injected. */
  lemma BareClaimPasses(s: Bytes, claim: Bytes, hs: seq<Header>)
    requires s == BareRequest(GET_REQUEST, X_FORWARDED_FOR + [COLON] + claim) && CR !in claim && LF !in claim
    ensures AcceptsAt(s, HeadRule, |s|) && Rewritten(s, hs) == s
    ensures ReadHead(s) == Some([GET_REQUEST + [LF], X_FORWARDED_FOR + [COLON] + claim + [LF]])
    ensures Carries(X_FORWARDED_FOR + [COLON] + claim + [LF], X_FORWARDED_FOR)
    ensures forall start, value :: !ReadAsMeant(Rewritten(s, hs), start, (X_FORWARDED_FOR, value))
  {
    var field := X_FORWARDED_FOR + [COLON] + claim;
    BareRequestAccepted(GET_REQUEST, field, []);
    BareRequestRead(GET_REQUEST, field, []);
    assert s + [] == s;
    assert CR !in s;
    BareHeadPasses(s, hs);
    assert (field + [LF])[..|X_FORWARDED_FOR|] == X_FORWARDED_FOR;
    var ls := ReadHead(s).value;
    forall value, k | 0 <= k < |ls| ensures ls[k] != HeaderLine((X_FORWARDED_FOR, value)) {
      assert ls[k][|ls[k]| - 2] != CR;
    }
  }
}
