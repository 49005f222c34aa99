/** Replacing a head's headers: strip the lines that carry the injected names, then add one line for each. */
module HeaderRewrite {
  import opened Labels
  import opened HeaderLines

  type Header = (Bytes, Bytes)

  function Names(hs: seq<Header>): (ns: seq<Bytes>)
    ensures |ns| == |hs| && forall i | 0 <= i < |hs| :: ns[i] == hs[i].0
  {
    seq(|hs|, i requires 0 <= i < |hs| => hs[i].0)
  }

  /** `format!("{key}: {value}\r\n")`. */
  function HeaderLine(h: Header): Bytes {
    h.0 + [COLON, SPACE] + h.1 + CRLF
  }

  function HeaderBlock(hs: seq<Header>): (ls: seq<Bytes>)
    ensures |ls| == |hs| && forall i | 0 <= i < |hs| :: ls[i] == HeaderLine(hs[i])
  {
    if hs == [] then [] else [HeaderLine(hs[0])] + HeaderBlock(hs[1..])
  }

  /** The bytes with the head rewritten, or as they are if they hold no complete head. */
  function Rewritten(s: Bytes, hs: seq<Header>): Bytes {
    match FindHeadEnd(s)
    case None => s
    case Some(pos) => Strip(s[..pos + 2], Names(hs)) + Concat(HeaderBlock(hs)) + s[pos + 2..]
  }

  method RewriteHead(buf: Bytes, hs: seq<Header>) returns (out: Bytes)
    ensures out == Rewritten(buf, hs)
  {
    var end := FindHeadEnd(buf);
    if end.None? {
      return buf;
    }
    var newBuf := StripHeadersByName(buf[..end.value + 2], Names(hs));
    newBuf := AppendHeaders(newBuf, hs);
    out := newBuf + buf[end.value + 2..];
  }

  method AppendHeaders(front: Bytes, hs: seq<Header>) returns (newBuf: Bytes)
    ensures newBuf == front + Concat(HeaderBlock(hs))
  {
    newBuf := front;
    for i := 0 to |hs|
      invariant newBuf == front + Concat(HeaderBlock(hs[..i]))
    {
      HeaderBlockPush(hs, i);
      GlueAssociative(front, Concat(HeaderBlock(hs[..i])), HeaderLine(hs[i]));
      newBuf := newBuf + HeaderLine(hs[i]);
    }
    assert hs[..|hs|] == hs;
  }

  lemma HeaderBlockPush(hs: seq<Header>, i: nat)
    requires i < |hs|
    ensures Concat(HeaderBlock(hs[..i + 1])) == Concat(HeaderBlock(hs[..i])) + HeaderLine(hs[i])
  {
    assert HeaderBlock(hs[..i + 1]) == HeaderBlock(hs[..i]) + [HeaderLine(hs[i])];
    ConcatAppend(HeaderBlock(hs[..i]), [HeaderLine(hs[i])]);
    assert Concat([HeaderLine(hs[i])]) == HeaderLine(hs[i]);
  }

  /** With nothing to inject, rewriting changes nothing. */
  lemma NothingToInject(s: Bytes)
    ensures Rewritten(s, []) == s
  {
    if FindHeadEnd(s).Some? {
      var cut := FindHeadEnd(s).value + 2;
      StripNothing(s[..cut]);
      assert Names([]) == [];
      assert s == s[..cut] + [] + s[cut..];
    }
  }

  // ---- What a rewritten head is ----

  ghost predicate LfFree(h: Header) {
    LF !in h.0 && LF !in h.1
  }

  ghost predicate AllLfFree(hs: seq<Header>) {
    forall i | 0 <= i < |hs| :: LfFree(hs[i])
  }

  /** The lines of a message's head. */
  ghost function HeadLines(s: Bytes): seq<Bytes>
    requires FindHeadEnd(s).Some?
  {
    Lines(s[..FindHeadEnd(s).value + 2])
  }

  /** The empty line that ends the head, and all that follows it. */
  ghost function AfterHead(s: Bytes): Bytes
    requires FindHeadEnd(s).Some?
  {
    s[FindHeadEnd(s).value + 2..]
  }

  /** The lines that the rewritten head consists of: the kept ones, then the injected ones. */
  ghost function NewHead(s: Bytes, hs: seq<Header>): seq<Bytes>
    requires FindHeadEnd(s).Some?
  {
    Kept(HeadLines(s), Names(hs)) + HeaderBlock(hs)
  }

  lemma HeadLinesAreHead(s: Bytes)
    requires FindHeadEnd(s).Some?
    ensures IsHead(HeadLines(s))
  {
    LinesWhole(s[..FindHeadEnd(s).value + 2]);
  }

  lemma AfterHeadStart(s: Bytes)
    requires FindHeadEnd(s).Some?
    ensures AfterHead(s) == CRLF + s[FindHeadEnd(s).value + 4..]
  {
    FromEmptyLine(s, FindHeadEnd(s).value);
  }

  lemma FromEmptyLine(s: Bytes, pos: nat)
    requires EmptyLineAt(s, pos)
    ensures s[pos + 2..] == CRLF + s[pos + 4..]
  {
  }

  lemma HeaderLineIsLine(h: Header)
    requires LfFree(h)
    ensures IsLine(HeaderLine(h)) && EndsInCrlf(HeaderLine(h)) && HeaderLine(h) != CRLF
  {
  }

  lemma KeptWhole(ls: seq<Bytes>, names: seq<Bytes>)
    requires WholeLines(ls)
    ensures WholeLines(Kept(ls, names))
  {
    var kept := Kept(ls, names);
    forall i | 0 <= i < |kept| ensures IsLine(kept[i]) && EndsInLf(kept[i]) {
      assert kept[i] in ls;
    }
  }

  lemma BlockWhole(hs: seq<Header>)
    requires AllLfFree(hs)
    ensures WholeLines(HeaderBlock(hs)) && (hs != [] ==> IsHead(HeaderBlock(hs)))
  {
    forall i | 0 <= i < |hs| ensures IsLine(HeaderLine(hs[i])) && EndsInCrlf(HeaderLine(hs[i])) {
      HeaderLineIsLine(hs[i]);
    }
  }

  lemma LinesWithBlock(ls: seq<Bytes>, hs: seq<Header>)
    requires IsHead(ls) && AllLfFree(hs)
    ensures IsHead(Kept(ls, Names(hs)) + HeaderBlock(hs))
  {
    KeptWhole(ls, Names(hs));
    BlockWhole(hs);
    if hs == [] {
      KeptAll(ls, Names(hs));
      assert ls + HeaderBlock(hs) == ls;
    }
  }

  lemma NewHeadIsHead(s: Bytes, hs: seq<Header>)
    requires FindHeadEnd(s).Some? && AllLfFree(hs)
    ensures IsHead(NewHead(s, hs))
  {
    HeadLinesAreHead(s);
    LinesWithBlock(HeadLines(s), hs);
  }

  lemma RewrittenShape(s: Bytes, hs: seq<Header>)
    requires FindHeadEnd(s).Some?
    ensures Rewritten(s, hs) == Concat(NewHead(s, hs)) + AfterHead(s)
  {
    ConcatAppend(Kept(HeadLines(s), Names(hs)), HeaderBlock(hs));
  }

  /** The bytes sent on have exactly the new head's lines for their head, and exactly the old bytes behind it. */
  ghost predicate HeadReplaced(s: Bytes, hs: seq<Header>) {
    && FindHeadEnd(s).Some? && FindHeadEnd(Rewritten(s, hs)).Some?
    && HeadLines(Rewritten(s, hs)) == NewHead(s, hs)
    && AfterHead(Rewritten(s, hs)) == AfterHead(s)
  }

  lemma HeadReplacedHere(s: Bytes, hs: seq<Header>)
    requires FindHeadEnd(s).Some? && AllLfFree(hs) && !EmptyLineInside(NewHead(s, hs))
    ensures HeadReplaced(s, hs)
  {
    RewrittenShape(s, hs);
    AfterHeadStart(s);
    NewHeadIsHead(s, hs);
    WholeHead(NewHead(s, hs), s[FindHeadEnd(s).value + 4..]);
  }

  lemma WholeHead(ls: seq<Bytes>, rest: Bytes)
    requires IsHead(ls) && !EmptyLineInside(ls)
    ensures
      var out := Concat(ls) + (CRLF + rest);
      FindHeadEnd(out).Some? && HeadLines(out) == ls && AfterHead(out) == CRLF + rest
  {
    GluedHead(ls, rest);
  }

  lemma CutAmongKept(kept: seq<Bytes>, hs: seq<Header>, j: nat)
    requires AllLfFree(hs) && j < |kept| + |hs| && (kept + HeaderBlock(hs))[j] == CRLF
    ensures j < |kept| && (kept + HeaderBlock(hs))[..j] == kept[..j]
  {
    if j >= |kept| { HeaderLineIsLine(hs[j - |kept|]); }
  }

  lemma CutLines(ls: seq<Bytes>, rest: Bytes) returns (j: nat)
    requires WholeLines(ls) && EmptyLineInside(ls)
    ensures j < |ls| && ls[j] == CRLF
    ensures
      var out := Concat(ls) + (CRLF + rest);
      FindHeadEnd(out).Some? && HeadLines(out) == ls[..j]
  {
    j := FirstInside(ls);
    GluedHeadCut(ls, rest, j);
  }

  /** Otherwise the head sent on is cut short, before the first of the injected lines. */
  lemma HeadCutShort(s: Bytes, hs: seq<Header>) returns (j: nat)
    requires FindHeadEnd(s).Some? && AllLfFree(hs) && EmptyLineInside(NewHead(s, hs))
    ensures FindHeadEnd(Rewritten(s, hs)).Some?
    ensures j < |Kept(HeadLines(s), Names(hs))|
    ensures HeadLines(Rewritten(s, hs)) == Kept(HeadLines(s), Names(hs))[..j]
  {
    RewrittenShape(s, hs);
    AfterHeadStart(s);
    NewHeadIsHead(s, hs);
    j := CutLines(NewHead(s, hs), s[FindHeadEnd(s).value + 4..]);
    CutAmongKept(Kept(HeadLines(s), Names(hs)), hs, j);
  }

  /**
   * For every message, the head sent on is the new head and nothing else, exactly if the message has a
   * complete head and stripping leaves no empty line right behind a line ended by CRLF.
   */
  lemma RewrittenHead(s: Bytes, hs: seq<Header>)
    requires AllLfFree(hs)
    ensures HeadReplaced(s, hs) <==> FindHeadEnd(s).Some? && !EmptyLineInside(NewHead(s, hs))
  {
    if FindHeadEnd(s).Some? {
      if EmptyLineInside(NewHead(s, hs)) {
        var j := HeadCutShort(s, hs);
        assert |NewHead(s, hs)| > j;
      } else {
        HeadReplacedHere(s, hs);
      }
    }
  }

  // ---- A sufficient condition on the message alone ----

  /** Every line feed follows a carriage return. */
  ghost predicate CrBeforeLf(s: Bytes) {
    forall i | 0 <= i < |s| && s[i] == LF :: i > 0 && s[i - 1] == CR
  }

  ghost predicate NoEmptyLine(t: Bytes) {
    forall i: nat :: !EmptyLineAt(t, i)
  }

  /** A message with a complete head, in which no line feed stands without its carriage return. */
  ghost predicate WellEnded(s: Bytes) {
    FindHeadEnd(s).Some? && CrBeforeLf(s[..FindHeadEnd(s).value + 2])
  }

  /** What holds of a head still holds after its first line. */
  lemma AfterFirstLine(t: Bytes, n: nat)
    requires EndsInCrlf(t) && CrBeforeLf(t) && NoEmptyLine(t)
    requires 2 <= n < |t| && t[n - 1] == LF
    ensures EndsInCrlf(t[n..]) && CrBeforeLf(t[n..]) && NoEmptyLine(t[n..])
  {
    var rest := t[n..];
    assert t[n] != LF;
    assert rest[|rest| - 1] == t[|t| - 1] && rest[|rest| - 2] == t[|t| - 2];
    forall i | 0 <= i < |rest| && rest[i] == LF ensures i > 0 && rest[i - 1] == CR {
      assert t[n + i] == LF;
    }
    forall i: nat ensures !EmptyLineAt(rest, i) {
      assert !EmptyLineAt(t, n + i);
    }
  }

  lemma FirstNotEmpty(t: Bytes, n: nat)
    requires 2 <= n < |t| && t[n - 1] == LF && t[n - 2] == CR
    requires NoEmptyLine(t)
    ensures Lines(t[n..])[0] != CRLF
  {
    var rest := t[n..];
    var m := LineLength(rest);
    if m == 2 {
      assert rest[..m][0] == t[n] && rest[..m][1] == t[n + 1];
      assert !EmptyLineAt(t, n - 2);
    }
  }

  /** Then only the first line can be empty. */
  lemma {:induction false} OnlyFirstEmpty(t: Bytes)
    requires EndsInCrlf(t) && CrBeforeLf(t) && NoEmptyLine(t)
    ensures Lines(t) != [] && CRLF !in Lines(t)[1..]
    decreases |t|
  {
    var n := LineLength(t);
    assert Lines(t)[1..] == Lines(t[n..]);
    if n < |t| {
      AfterFirstLine(t, n);
      OnlyFirstEmpty(t[n..]);
      FirstNotEmpty(t, n);
      assert Lines(t[n..]) == [Lines(t[n..])[0]] + Lines(t[n..])[1..];
    }
  }

  lemma KeptBehindFirst(ls: seq<Bytes>, names: seq<Bytes>, j: nat)
    requires 0 < j < |Kept(ls, names)|
    ensures Kept(ls, names)[j] in ls[1..]
  {
    assert Kept(ls, names)[j] in Kept(ls[1..], names);
  }

  /** If every line feed in the head follows a carriage return, the head is replaced as a whole. */
  lemma WellEndedReplaced(s: Bytes, hs: seq<Header>)
    requires WellEnded(s) && AllLfFree(hs)
    ensures HeadReplaced(s, hs)
  {
    var pos := FindHeadEnd(s).value;
    var head := s[..pos + 2];
    forall i: nat ensures !EmptyLineAt(head, i) {
      assert i < pos ==> !EmptyLineAt(s, i);
    }
    OnlyFirstEmpty(head);
    var n := |Kept(HeadLines(s), Names(hs))|;
    forall j | 0 < j < |NewHead(s, hs)| ensures NewHead(s, hs)[j] != CRLF {
      if j < n { KeptBehindFirst(HeadLines(s), Names(hs), j); } else { HeaderLineIsLine(hs[j - n]); }
    }
    RewrittenHead(s, hs);
  }

  // ---- Which injected headers are there exactly once ----

  ghost predicate ColonFree(s: Bytes) {
    COLON !in s
  }

  /** The name under which a line is filtered: up to the first colon. */
  ghost function BeforeColon(s: Bytes): (r: Bytes)
    ensures r <= s && ColonFree(r) && (|r| < |s| ==> s[|r|] == COLON)
  {
    if s == [] || s[0] == COLON then [] else [s[0]] + BeforeColon(s[1..])
  }

  lemma LowerKeepsMarks(b: Byte)
    ensures Lower(b) == COLON <==> b == COLON
    ensures Lower(b) == SPACE <==> b == SPACE
  {
  }

  lemma HeaderLineColon(h: Header)
    ensures
      var t, c := h.0 + [58, 32] + h.1, |BeforeColon(h.0)|;
      && c < |t| && t[c] == 58 && t[..c] == BeforeColon(h.0)
      && HeaderLine(h) == t + [13, 10] && EndsInCrlf(HeaderLine(h)) && HeaderLine(h)[..|HeaderLine(h)| - 2] == t
  {
  }

  /** A colon-free name is carried by exactly the injected lines of that name. */
  lemma InjectedCarries(h: Header, name: Bytes)
    requires ColonFree(name)
    ensures Carries(HeaderLine(h), name) <==> EqualIgnoreCase(BeforeColon(h.0), name)
  {
    HeaderLineColon(h);
    var t, c := h.0 + [COLON, SPACE] + h.1, |BeforeColon(h.0)|;
    if |name| < c {
      assert t[..c][|name|] == t[|name|];
      assert t[|name|] in BeforeColon(h.0);
    } else if c < |name| {
      LowerKeepsMarks(name[c]);
      LowerKeepsMarks(COLON);
      assert name[c] in name;
      if |name| <= |t| { assert t[..|name|][c] == COLON; }
    }
  }

  lemma EqualToItself(name: Bytes)
    requires ColonFree(name)
    ensures EqualIgnoreCase(BeforeColon(name), name)
  {
    assert |BeforeColon(name)| < |name| ==> COLON in name;
  }

  /** The header's line is there, and it is the only line that carries its name. */
  ghost predicate ExactlyOnce(ls: seq<Bytes>, h: Header) {
    exists k :: 0 <= k < |ls| && OnlyAt(ls, h, k)
  }

  ghost predicate OnlyAt(ls: seq<Bytes>, h: Header, k: nat)
    requires k < |ls|
  {
    ls[k] == HeaderLine(h) && forall j | 0 <= j < |ls| :: Carries(ls[j], h.0) <==> j == k
  }

  /** No other header to be injected has this one's name, up to letter case. */
  ghost predicate NameUnique(hs: seq<Header>, i: nat)
    requires i < |hs|
  {
    forall j | 0 <= j < |hs| && j != i :: !EqualIgnoreCase(BeforeColon(hs[j].0), hs[i].0)
  }

  lemma KeptCarriesNone(ls: seq<Bytes>, hs: seq<Header>, i: nat, k: nat)
    requires i < |hs| && k < |Kept(ls, Names(hs))|
    ensures !Carries(Kept(ls, Names(hs))[k], hs[i].0)
  {
    assert Kept(ls, Names(hs))[k] in Kept(ls, Names(hs));
    assert Names(hs)[i] == hs[i].0;
  }

  /** Which lines carry this header's name, for a list of lines that ends with the injected ones. */
  ghost predicate CarriersKnown(ls: seq<Bytes>, n: nat, hs: seq<Header>, i: nat)
    requires |ls| == n + |hs| && i < |hs|
  {
    && ls[n + i] == HeaderLine(hs[i])
    && forall k | 0 <= k < |ls| ::
         Carries(ls[k], hs[i].0) <==> k >= n && EqualIgnoreCase(BeforeColon(hs[k - n].0), hs[i].0)
  }

  /** Which lines of the new head carry an injected name: only injected ones. */
  lemma KnownInNewHead(ls: seq<Bytes>, hs: seq<Header>, i: nat)
    requires i < |hs| && ColonFree(hs[i].0)
    ensures CarriersKnown(Kept(ls, Names(hs)) + HeaderBlock(hs), |Kept(ls, Names(hs))|, hs, i)
  {
    var kept := Kept(ls, Names(hs));
    forall k | 0 <= k < |kept| ensures !Carries(kept[k], hs[i].0) {
      KeptCarriesNone(ls, hs, i, k);
    }
    forall j | 0 <= j < |hs|
      ensures Carries(HeaderLine(hs[j]), hs[i].0) <==> EqualIgnoreCase(BeforeColon(hs[j].0), hs[i].0)
    {
      InjectedCarries(hs[j], hs[i].0);
    }
  }

  lemma OnceIfUnique(ls: seq<Bytes>, n: nat, hs: seq<Header>, i: nat)
    requires |ls| == n + |hs| && i < |hs| && CarriersKnown(ls, n, hs, i)
    requires ColonFree(hs[i].0) && NameUnique(hs, i)
    ensures ExactlyOnce(ls, hs[i])
  {
    EqualToItself(hs[i].0);
    assert OnlyAt(ls, hs[i], n + i);
  }

  lemma UniqueIfOnce(ls: seq<Bytes>, n: nat, hs: seq<Header>, i: nat)
    requires |ls| == n + |hs| && i < |hs| && CarriersKnown(ls, n, hs, i)
    requires ColonFree(hs[i].0) && ExactlyOnce(ls, hs[i])
    ensures NameUnique(hs, i)
  {
    EqualToItself(hs[i].0);
    var k :| 0 <= k < |ls| && OnlyAt(ls, hs[i], k);
    assert Carries(ls[n + i], hs[i].0);
    forall j | 0 <= j < |hs| && j != i ensures !EqualIgnoreCase(BeforeColon(hs[j].0), hs[i].0) {
      assert !Carries(ls[n + j], hs[i].0);
    }
  }

  /** In the new head, an injected header is there exactly once if and only if its name is unique among the injected. */
  lemma InjectedExactlyOnce(s: Bytes, hs: seq<Header>, i: nat)
    requires FindHeadEnd(s).Some? && i < |hs| && ColonFree(hs[i].0)
    ensures ExactlyOnce(NewHead(s, hs), hs[i]) <==> NameUnique(hs, i)
  {
    var ls, n := NewHead(s, hs), |Kept(HeadLines(s), Names(hs))|;
    KnownInNewHead(HeadLines(s), hs, i);
    if NameUnique(hs, i) { OnceIfUnique(ls, n, hs, i); }
    if ExactlyOnce(ls, hs[i]) { UniqueIfOnce(ls, n, hs, i); }
  }

  // ---- The start line ----

  /** A request or status line: a space comes before any colon. */
  ghost predicate IsStartLine(l: Bytes) {
    exists k :: 0 <= k < |l| && l[k] == SPACE && COLON !in l[..k]
  }

  lemma StartLineCarriesNothing(l: Bytes, name: Bytes)
    requires IsStartLine(l) && SPACE !in name
    ensures !Carries(l, name)
  {
    var k :| 0 <= k < |l| && l[k] == SPACE && COLON !in l[..k];
    var trimmed := if EndsInCrlf(l) then l[..|l| - 2] else l;
    assert trimmed[k] == SPACE;
    if |name| > k {
      LowerKeepsMarks(name[k]);
      LowerKeepsMarks(SPACE);
      assert name[k] in name;
      if |name| <= |trimmed| { assert trimmed[..|name|][k] == SPACE; }
    } else if |name| < k {
      assert l[..k][|name|] == trimmed[|name|];
    }
  }

  lemma StartLineNotCarried(l: Bytes, hs: seq<Header>)
    requires IsStartLine(l) && SpaceFreeNames(hs)
    ensures !CarriesAny(l, Names(hs))
  {
    forall i | 0 <= i < |Names(hs)| ensures !Carries(l, Names(hs)[i]) {
      StartLineCarriesNothing(l, Names(hs)[i]);
    }
  }

  lemma BlankNotCarried(l: Bytes, names: seq<Bytes>)
    requires Blank(l)
    ensures !CarriesAny(l, names)
  {
  }

  lemma BlanksKept(blanks: seq<Bytes>, names: seq<Bytes>)
    requires AllBlank(blanks)
    ensures Kept(blanks, names) == blanks
  {
    forall l | l in blanks ensures !CarriesAny(l, names) {
      BlankNotCarried(l, names);
    }
    KeptAll(blanks, names);
  }

  /** Empty lines in front and a start line behind them are kept where they are. */
  lemma FrontKept(blanks: seq<Bytes>, head: seq<Bytes>, hs: seq<Header>)
    requires AllBlank(blanks) && head != [] && IsStartLine(head[0]) && SpaceFreeNames(hs)
    ensures Kept(blanks + head, Names(hs)) == blanks + Kept(head, Names(hs))
    ensures Kept(head, Names(hs)) != [] && Kept(head, Names(hs))[0] == head[0]
  {
    KeptAppend(blanks, head, Names(hs));
    BlanksKept(blanks, Names(hs));
    StartLineNotCarried(head[0], hs);
  }

  /** Injecting headers with space-free names leaves the first line that is not empty in place. */
  lemma StartLineKept(s: Bytes, hs: seq<Header>)
    requires FindHeadEnd(s).Some? && SpaceFreeNames(hs)
    requires DropBlank(HeadLines(s)) != [] && IsStartLine(DropBlank(HeadLines(s))[0])
    ensures DropBlank(NewHead(s, hs)) != [] && DropBlank(NewHead(s, hs))[0] == DropBlank(HeadLines(s))[0]
  {
    StartLineStays(HeadLines(s), hs);
  }

  lemma StartLineStays(ls: seq<Bytes>, hs: seq<Header>)
    requires DropBlank(ls) != [] && IsStartLine(DropBlank(ls)[0]) && SpaceFreeNames(hs)
    ensures
      var more := DropBlank(Kept(ls, Names(hs)) + HeaderBlock(hs));
      more != [] && more[0] == DropBlank(ls)[0]
  {
    var i := DropBlankSplits(ls);
    assert ls == ls[..i] + ls[i..];
    FrontKept(ls[..i], ls[i..], hs);
    var kept := Kept(ls[i..], Names(hs));
    GlueAssociative(ls[..i], kept, HeaderBlock(hs));
    DropAllBlank(ls[..i], kept + HeaderBlock(hs));
  }

  ghost predicate SpaceFreeNames(hs: seq<Header>) {
    forall i | 0 <= i < |hs| :: SPACE !in hs[i].0
  }

  // ---- For a receiver that ends a head at the first CRLF CRLF, as this code does ----

  /** Such a receiver finds the header exactly once. */
  ghost predicate FoundOnce(s: Bytes, hs: seq<Header>, h: Header) {
    FindHeadEnd(Rewritten(s, hs)).Some? && ExactlyOnce(HeadLines(Rewritten(s, hs)), h)
  }

  /**
   * It does so if and only if the message has a complete head, stripping leaves no empty line right behind a
   * line ended by CRLF, and no other injected name is the same up to letter case.
   */
  lemma FoundOnceExactly(s: Bytes, hs: seq<Header>, i: nat)
    requires AllLfFree(hs) && i < |hs| && ColonFree(hs[i].0)
    ensures FoundOnce(s, hs, hs[i]) <==>
            FindHeadEnd(s).Some? && !EmptyLineInside(NewHead(s, hs)) && NameUnique(hs, i)
  {
    if FindHeadEnd(s).Some? {
      if EmptyLineInside(NewHead(s, hs)) {
        var n := HeadCutShort(s, hs);
        CutHeadCarriesNone(s, hs, i, n);
      } else {
        HeadReplacedHere(s, hs);
        InjectedExactlyOnce(s, hs, i);
      }
    }
  }

  lemma CutHeadCarriesNone(s: Bytes, hs: seq<Header>, i: nat, n: nat)
    requires FindHeadEnd(s).Some? && i < |hs| && n < |Kept(HeadLines(s), Names(hs))|
    ensures !ExactlyOnce(Kept(HeadLines(s), Names(hs))[..n], hs[i])
  {
    var kept := Kept(HeadLines(s), Names(hs));
    forall k | 0 <= k < n ensures !OnlyAt(kept[..n], hs[i], k) {
      KeptCarriesNone(HeadLines(s), hs, i, k);
    }
  }

  // ---- When rewriting changes nothing ----

  /** The lines end with just those of the block, which carry the names, and no line before them does. */
  ghost predicate EndsWithBlock(head: Bytes, names: seq<Bytes>, block: Bytes) {
    var ls, added := Lines(head), Lines(block);
    var n := |ls| - |added|;
    && n >= 0 && ls[n..] == added
    && (forall k | 0 <= k < n :: !CarriesAny(ls[k], names))
    && forall k | 0 <= k < |added| :: CarriesAny(added[k], names)
  }

  /** The head ends with just the injected lines already, and carries the names nowhere else. */
  ghost predicate AlreadyInjected(s: Bytes, hs: seq<Header>)
    requires FindHeadEnd(s).Some?
  {
    EndsWithBlock(s[..FindHeadEnd(s).value + 2], Names(hs), Concat(HeaderBlock(hs)))
  }

  lemma {:induction false} KeptNone(ls: seq<Bytes>, names: seq<Bytes>)
    ensures Kept(ls, names) == [] <==> forall k | 0 <= k < |ls| :: CarriesAny(ls[k], names)
  {
    if ls != [] {
      KeptNone(ls[1..], names);
      assert forall k | 0 <= k < |ls[1..]| :: ls[1..][k] == ls[k + 1];
    }
  }

  lemma FilterSplits(front: seq<Bytes>, added: seq<Bytes>, names: seq<Bytes>)
    requires forall k | 0 <= k < |front| :: !CarriesAny(front[k], names)
    requires forall k | 0 <= k < |added| :: CarriesAny(added[k], names)
    ensures Kept(front + added, names) == front
  {
    KeptAppend(front, added, names);
    KeptAll(front, names);
    KeptNone(added, names);
  }

  lemma BlockStays(head: Bytes, names: seq<Bytes>, block: Bytes)
    requires EndsWithBlock(head, names, block)
    ensures Strip(head, names) + block == head
  {
    var ls, added := Lines(head), Lines(block);
    var front := ls[..|ls| - |added|];
    assert ls == front + added;
    FilterSplits(front, added, names);
    ConcatAppend(front, added);
    GluedBack(head);
    GluedBack(block);
  }

  lemma GluedBack(s: Bytes)
    ensures Concat(Lines(s)) == s
  {
    LinesAreLines(s);
  }

  lemma StaysBlock(head: Bytes, names: seq<Bytes>, block: Bytes)
    requires EndsInCrlf(head) && Strip(head, names) + block == head
    ensures EndsWithBlock(head, names, block)
  {
    var front := Strip(head, names);
    FrontEnds(head, names);
    LinesAppend(front, block);
    StripIdempotent(head, names);
    StripLines(head, names);
    StripAppended(Lines(front), Lines(block), names);
    assert forall k | 0 <= k < |Lines(front)| :: Lines(head)[k] in Lines(front);
  }

  /** If filtering the lines leaves just the first part, the filter takes nothing from it and all of the second. */
  lemma StripAppended(kept: seq<Bytes>, added: seq<Bytes>, names: seq<Bytes>)
    requires Kept(kept + added, names) == kept && forall l | l in kept :: !CarriesAny(l, names)
    ensures forall k | 0 <= k < |added| :: CarriesAny(added[k], names)
  {
    KeptAppend(kept, added, names);
    KeptAll(kept, names);
    assert |Kept(added, names)| == 0;
    KeptNone(added, names);
  }

  /** What stripping leaves of a head is a whole number of lines. */
  lemma FrontEnds(head: Bytes, names: seq<Bytes>)
    requires EndsInCrlf(head)
    ensures Strip(head, names) == [] || EndsInLf(Strip(head, names))
  {
    LinesWhole(head);
    var kept := Kept(Lines(head), names);
    if kept != [] {
      assert kept[|kept| - 1] in Lines(head);
      ConcatEnds(kept);
    }
  }

  lemma {:induction false} ConcatEnds(ls: seq<Bytes>)
    requires ls != [] && EndsInLf(ls[|ls| - 1])
    ensures EndsInLf(Concat(ls))
  {
    if |ls| == 1 {
      assert Concat(ls) == ls[0];
    } else {
      ConcatEnds(ls[1..]);
      assert ls[1..][|ls| - 2] == ls[|ls| - 1];
    }
  }

  lemma SameBefore(a: Bytes, b: Bytes, rest: Bytes)
    ensures a + rest == b + rest <==> a == b
  {
    if a + rest == b + rest {
      assert |a| == |b|;
      assert a == (a + rest)[..|a|] && b == (b + rest)[..|b|];
    }
  }

  lemma HeadAndRest(s: Bytes, hs: seq<Header>)
    requires FindHeadEnd(s).Some?
    ensures
      var head := s[..FindHeadEnd(s).value + 2];
      && EndsInCrlf(head) && s == head + AfterHead(s)
      && Rewritten(s, hs) == (Strip(head, Names(hs)) + Concat(HeaderBlock(hs))) + AfterHead(s)
  {
  }

  /** Rewriting a message with a complete head leaves it as it is exactly if its head is as rewriting would leave it. */
  lemma RewritingChangesNothing(s: Bytes, hs: seq<Header>)
    requires FindHeadEnd(s).Some?
    ensures Rewritten(s, hs) == s <==> AlreadyInjected(s, hs)
  {
    var head, names, block := s[..FindHeadEnd(s).value + 2], Names(hs), Concat(HeaderBlock(hs));
    HeadAndRest(s, hs);
    SameBefore(Strip(head, names) + block, head, AfterHead(s));
    StaysExactly(head, names, block);
  }

  lemma StaysExactly(head: Bytes, names: seq<Bytes>, block: Bytes)
    requires EndsInCrlf(head)
    ensures Strip(head, names) + block == head <==> EndsWithBlock(head, names, block)
  {
    if EndsWithBlock(head, names, block) { BlockStays(head, names, block); }
    if Strip(head, names) + block == head { StaysBlock(head, names, block); }
  }

  /** For header lines free of line feeds this says that the head's lines are already those of the new head. */
  lemma AlreadyInjectedLines(s: Bytes, hs: seq<Header>)
    requires FindHeadEnd(s).Some? && AllLfFree(hs)
    ensures AlreadyInjected(s, hs) <==> HeadLines(s) == NewHead(s, hs)
  {
    var head := s[..FindHeadEnd(s).value + 2];
    StaysExactly(head, Names(hs), Concat(HeaderBlock(hs)));
    ConcatAppend(Kept(HeadLines(s), Names(hs)), HeaderBlock(hs));
    NewHeadIsHead(s, hs);
    SameLines(head, NewHead(s, hs));
  }

  lemma SameLines(head: Bytes, ls: seq<Bytes>)
    requires WholeLines(ls)
    ensures Concat(ls) == head <==> Lines(head) == ls
  {
    WholeAreLines(ls);
    LinesBack(ls);
    LinesAreLines(head);
  }

  // ---- Two messages for which more cannot be promised ----

  /** Without a CRLF CRLF a message goes on as it is. */
  lemma WithoutHead(s: Bytes, hs: seq<Header>)
    requires FindHeadEnd(s).None?
    ensures Rewritten(s, hs) == s
  {
  }

  /** A head ended by bare line feeds is not found, and the message goes on as it is. */
  lemma BareHeadPasses(s: Bytes, hs: seq<Header>)
    requires CR !in s
    ensures FindHeadEnd(s).None? && Rewritten(s, hs) == s
  {
    assert forall i | 0 <= i < |s| :: s[i] in s;
  }

  lemma SecondStripped(a: Bytes, x: Bytes, e: Bytes, b: Bytes, names: seq<Bytes>)
    requires CarriesAny(x, names) && !CarriesAny(a, names) && !CarriesAny(e, names) && !CarriesAny(b, names)
    ensures Kept([a] + ([x] + ([e] + [b])), names) == [a, e, b]
  {
    KeptCons(a, [x] + ([e] + [b]), names);
    KeptCons(x, [e] + [b], names);
    KeptCons(e, [b], names);
    KeptAll([b], names);
  }

  lemma KeptCons(l: Bytes, ls: seq<Bytes>, names: seq<Bytes>)
    ensures Kept([l] + ls, names) == (if CarriesAny(l, names) then [] else [l]) + Kept(ls, names)
  {
    assert ([l] + ls)[1..] == ls;
  }

  const GET_LINE: Bytes := [71, 69, 84, 32, 47, 32, 72, 84, 84, 80, 47, 49, 46, 49, 13, 10]

  /**
   * Stripping a line ended by a bare line feed can move an empty line up behind a line ended by CRLF:
   * `GET / HTTP/1.1`, then `X:` ended by a bare line feed, an empty line, and one more line.
   */
  lemma CutShortWitness(s: Bytes, hs: seq<Header>)
    requires s == Concat([GET_LINE, [88, 58, 10], CRLF, [66, 13, 10]]) + CRLF && hs == [([88], [49])]
    ensures FindHeadEnd(s) == Some(22) && FindHeadEnd(Rewritten(s, hs)) == Some(14)
    ensures AllLfFree(hs) && NameUnique(hs, 0) && !FoundOnce(s, hs, hs[0])
  {
    WitnessHead(s);
    WitnessKept(hs);
    assert NewHead(s, hs)[1] == CRLF && EmptyAfter(NewHead(s, hs), 1);
    FoundOnceExactly(s, hs, 0);
    RewrittenShape(s, hs);
    AfterHeadStart(s);
    NewHeadIsHead(s, hs);
    WitnessCut(NewHead(s, hs), s[26..]);
  }

  lemma WitnessHead(s: Bytes)
    requires s == Concat([GET_LINE, [88, 58, 10], CRLF, [66, 13, 10]]) + CRLF
    ensures FindHeadEnd(s) == Some(22) && HeadLines(s) == [GET_LINE, [88, 58, 10], CRLF, [66, 13, 10]]
  {
    var ls: seq<Bytes> := [GET_LINE, [88, 58, 10], CRLF, [66, 13, 10]];
    assert WholeLines(ls) && IsHead(ls);
    assert !EmptyAfter(ls, 1) && !EmptyAfter(ls, 2) && !EmptyAfter(ls, 3);
    assert CRLF + [] == CRLF;
    WholeHead(ls, []);
    GluedHead(ls, []);
    WitnessLength(ls);
  }

  lemma WitnessLength(ls: seq<Bytes>)
    requires |ls| == 4 && |ls[0]| == 16 && |ls[1]| == 3 && |ls[2]| == 2 && |ls[3]| == 3
    ensures |Concat(ls)| == 24
  {
    assert Concat(ls) == ls[0] + Concat(ls[1..]);
    assert Concat(ls[1..]) == ls[1] + Concat(ls[1..][1..]);
    assert Concat(ls[1..][1..]) == ls[2] + Concat(ls[1..][1..][1..]);
    assert Concat(ls[1..][1..][1..]) == ls[3];
  }

  lemma WitnessCut(ls: seq<Bytes>, rest: Bytes)
    requires |ls| >= 2 && WholeLines(ls) && ls[0] == GET_LINE && ls[1] == CRLF
    ensures FindHeadEnd(Concat(ls) + (CRLF + rest)) == Some(14)
  {
    assert ls[..1] == [GET_LINE];
    assert Concat([GET_LINE]) == GET_LINE;
    GluedHeadCut(ls, rest, 1);
  }

  lemma WitnessKept(hs: seq<Header>)
    requires hs == [([88], [49])]
    ensures Kept([GET_LINE, [88, 58, 10], CRLF, [66, 13, 10]], Names(hs)) == [GET_LINE, CRLF, [66, 13, 10]]
  {
    var a, x: Bytes, b: Bytes := GET_LINE, [88, 58, 10], [66, 13, 10];
    var names := Names(hs);
    assert names == [[88]] && Carries(x, names[0]);
    SecondStripped(a, x, CRLF, b, names);
    assert [a, x, CRLF, b] == [a] + ([x] + ([CRLF] + [b]));
  }
}
