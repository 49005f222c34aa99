/** Header blocks as bytes: lines, the line filter, and where a block ends. */
module HeaderLines {
  import opened Labels

  type Byte = bv8
  type Bytes = seq<Byte>

  const LF: Byte := 10
  const CR: Byte := 13
  const SPACE: Byte := 32
  const COLON: Byte := 58
  const CRLF: Bytes := [13, 10]

  function Lower(b: Byte): Byte {
    if 65 <= b <= 90 then b + 32 else b
  }

  /** `eq_ignore_ascii_case` on bytes. */
  predicate EqualIgnoreCase(a: Bytes, b: Bytes) {
    SameFolded(a, b, Lower)
  }

  predicate EndsInCrlf(s: Bytes) {
    |s| >= 2 && s[|s| - 2] == CR && s[|s| - 1] == LF
  }

  // ---- Lines ----

  function Concat(ls: seq<Bytes>): Bytes {
    if ls == [] then [] else ls[0] + Concat(ls[1..])
  }

  /** A line: not empty, and a line feed only at its end. */
  ghost predicate IsLine(l: Bytes) {
    l != [] && forall i | 0 <= i < |l| - 1 :: l[i] != LF
  }

  predicate EndsInLf(l: Bytes) {
    l != [] && l[|l| - 1] == LF
  }

  /** Lines, every one but perhaps the last ended by its line feed. */
  ghost predicate AreLines(ls: seq<Bytes>) {
    ls != [] ==> IsLine(ls[0]) && (|ls| > 1 ==> EndsInLf(ls[0])) && AreLines(ls[1..])
  }

  /** The length of the first line, with its line feed. */
  function LineLength(s: Bytes): (n: nat)
    requires s != []
    ensures 1 <= n <= |s| && (n < |s| ==> s[n - 1] == LF)
    ensures forall i | 0 <= i < n - 1 :: s[i] != LF
  {
    if s[0] == LF || |s| == 1 then 1 else 1 + LineLength(s[1..])
  }

  /** `split_inclusive(|&b| b == b'\n')`. */
  function Lines(s: Bytes): (ls: seq<Bytes>)
    decreases |s|
  {
    if s == [] then [] else [s[..LineLength(s)]] + Lines(s[LineLength(s)..])
  }

  lemma ConsLine(l: Bytes, ls: seq<Bytes>)
    requires IsLine(l) && AreLines(ls) && (ls != [] ==> EndsInLf(l))
    ensures AreLines([l] + ls)
  {
    assert ([l] + ls)[1..] == ls;
  }

  lemma ConcatCons(l: Bytes, ls: seq<Bytes>)
    ensures Concat([l] + ls) == l + Concat(ls)
  {
    assert ([l] + ls)[1..] == ls;
  }

  lemma FirstAndRest(s: Bytes) returns (l: Bytes, rest: Bytes)
    requires s != []
    ensures s == l + rest && Lines(s) == [l] + Lines(rest)
    ensures IsLine(l) && (rest != [] ==> EndsInLf(l)) && |rest| < |s|
    ensures Lines(rest) == [] <==> rest == []
  {
    l, rest := s[..LineLength(s)], s[LineLength(s)..];
  }

  lemma {:induction false} LinesAreLines(s: Bytes)
    ensures AreLines(Lines(s)) && Concat(Lines(s)) == s
    decreases |s|
  {
    if s != [] {
      var l, rest := FirstAndRest(s);
      LinesAreLines(rest);
      ConsLine(l, Lines(rest));
      ConcatCons(l, Lines(rest));
    }
  }

  /** Each line but the last ends with its line feed, and no line has one before its end. */
  lemma {:induction false} LinesEnd(s: Bytes)
    ensures forall k | 0 <= k < |Lines(s)| ::
              && Lines(s)[k] != []
              && (forall i | 0 <= i < |Lines(s)[k]| - 1 :: Lines(s)[k][i] != 10)
              && (k < |Lines(s)| - 1 ==> Lines(s)[k][|Lines(s)[k]| - 1] == 10)
    decreases |s|
  {
    if s != [] {
      var l, rest := FirstAndRest(s);
      LinesEnd(rest);
    }
  }

  lemma FirstLine(l: Bytes, rest: Bytes)
    requires IsLine(l) && (rest == [] || EndsInLf(l))
    ensures LineLength(l + rest) == |l|
  {
    var s := l + rest;
    assert forall i | 0 <= i < |l| :: s[i] == l[i];
  }

  lemma LinesCons(l: Bytes, rest: Bytes)
    requires IsLine(l) && (rest == [] || EndsInLf(l))
    ensures Lines(l + rest) == [l] + Lines(rest)
  {
    FirstLine(l, rest);
    assert (l + rest)[..|l|] == l && (l + rest)[|l|..] == rest;
  }

  /** Gluing is associative. */
  lemma GlueAssociative<T>(a: seq<T>, b: seq<T>, c: seq<T>)
    ensures (a + b) + c == a + (b + c)
  {
  }

  /** Line boundaries of glued lines, and of what follows them. */
  lemma {:induction false} LinesOfConcat(ls: seq<Bytes>, b: Bytes)
    requires AreLines(ls) && (b == [] || ls == [] || EndsInLf(ls[|ls| - 1]))
    ensures Lines(Concat(ls) + b) == ls + Lines(b)
  {
    if ls == [] {
      assert [] + b == b;
    } else {
      LinesOfConcat(ls[1..], b);
      LinesOfConcatCons(ls[0], ls[1..], b);
      assert [ls[0]] + ls[1..] == ls;
    }
  }

  lemma LinesOfConcatCons(l: Bytes, more: seq<Bytes>, b: Bytes)
    requires IsLine(l) && ((more == [] && b == []) || EndsInLf(l))
    requires Lines(Concat(more) + b) == more + Lines(b)
    ensures Lines((l + Concat(more)) + b) == ([l] + more) + Lines(b)
  {
    GlueAssociative(l, Concat(more), b);
    LinesCons(l, Concat(more) + b);
    GlueAssociative([l], more, Lines(b));
  }

  /** Cutting glued lines apart again gives the lines. */
  lemma LinesBack(ls: seq<Bytes>)
    requires AreLines(ls)
    ensures Lines(Concat(ls)) == ls
  {
    LinesOfConcat(ls, []);
    assert Concat(ls) + [] == Concat(ls);
  }

  lemma {:induction false} ConcatAppend(a: seq<Bytes>, b: seq<Bytes>)
    ensures Concat(a + b) == Concat(a) + Concat(b)
  {
    if a == [] {
      assert a + b == b;
    } else {
      assert (a + b)[1..] == a[1..] + b;
      ConcatAppend(a[1..], b);
    }
  }

  lemma EndOfGlued(a: Bytes, b: Bytes)
    requires b != []
    ensures EndsInLf(a + b) <==> EndsInLf(b)
  {
    assert (a + b)[|a + b| - 1] == b[|b| - 1];
  }

  lemma {:induction false} LastLineEnds(ls: seq<Bytes>)
    requires AreLines(ls) && ls != []
    ensures Concat(ls) != [] && (EndsInLf(Concat(ls)) ==> EndsInLf(ls[|ls| - 1]))
  {
    if |ls| == 1 {
      assert Concat(ls) == ls[0] + [];
    } else {
      LastLineEnds(ls[1..]);
      EndOfGlued(ls[0], Concat(ls[1..]));
    }
  }

  /** Line boundaries of a concatenation, when the first part is a whole number of lines. */
  lemma LinesAppend(a: Bytes, b: Bytes)
    requires a == [] || EndsInLf(a)
    ensures Lines(a + b) == Lines(a) + Lines(b)
  {
    LinesAreLines(a);
    if Lines(a) != [] { LastLineEnds(Lines(a)); }
    LinesOfConcat(Lines(a), b);
  }

  // ---- The line filter ----

  /** Does this header line carry one of these names? */
  predicate Carries(line: Bytes, name: Bytes) {
    var trimmed := if EndsInCrlf(line) then line[..|line| - 2] else line;
    && |trimmed| > |name|
    && EqualIgnoreCase(trimmed[..|name|], name)
    && trimmed[|name|] == COLON
  }

  predicate CarriesAny(line: Bytes, names: seq<Bytes>) {
    exists i :: 0 <= i < |names| && Carries(line, names[i])
  }

  /** Two bytes are the same but for case: equal, or the two cases of one ASCII letter. */
  lemma LowerIs(a: Byte, b: Byte)
    ensures Lower(a) == Lower(b) <==>
            a == b || (65 <= a <= 90 && b == a + 32) || (65 <= b <= 90 && a == b + 32)
  {
  }

  lemma EqualIgnoreCaseIs(a: Bytes, b: Bytes)
    ensures EqualIgnoreCase(a, b) <==>
            |a| == |b| && forall i | 0 <= i < |a| ::
              a[i] == b[i] || (65 <= a[i] <= 90 && b[i] == a[i] + 32) || (65 <= b[i] <= 90 && a[i] == b[i] + 32)
  {
    if |a| == |b| {
      forall i | 0 <= i < |a|
        ensures Lower(a[i]) == Lower(b[i]) <==>
                a[i] == b[i] || (65 <= a[i] <= 90 && b[i] == a[i] + 32) || (65 <= b[i] <= 90 && a[i] == b[i] + 32)
      {
        LowerIs(a[i], b[i]);
      }
    }
  }

  /** A line carries a name: it begins with the name's bytes, in any letter case, and a colon is behind them. */
  lemma CarriesIs(line: Bytes, name: Bytes)
    ensures Carries(line, name) <==>
            && |line| > |name| && line[|name|] == 58
            && forall i | 0 <= i < |name| ::
                 || line[i] == name[i]
                 || (65 <= line[i] <= 90 && name[i] == line[i] + 32)
                 || (65 <= name[i] <= 90 && line[i] == name[i] + 32)
  {
    CarriesBefore(line, name);
    if |line| > |name| { EqualIgnoreCaseIs(line[..|name|], name); }
  }

  lemma CarriesBefore(line: Bytes, name: Bytes)
    ensures Carries(line, name) <==>
            |line| > |name| && line[|name|] == COLON && EqualIgnoreCase(line[..|name|], name)
  {
    if EndsInCrlf(line) && |line| - 2 > |name| {
      assert line[..|line| - 2][..|name|] == line[..|name|];
    }
  }

  /** Stripping drops every line that begins with one of the names, in any letter case, and a colon; and no other. */
  lemma StripDrops(head: Bytes, names: seq<Bytes>, line: Bytes)
    ensures line in Lines(Strip(head, names)) <==>
            && line in Lines(head)
            && forall n | 0 <= n < |names| ::
                 !(&& |line| > |names[n]| && line[|names[n]|] == 58
                   && forall i | 0 <= i < |names[n]| ::
                        || line[i] == names[n][i]
                        || (65 <= line[i] <= 90 && names[n][i] == line[i] + 32)
                        || (65 <= names[n][i] <= 90 && line[i] == names[n][i] + 32))
  {
    StripLines(head, names);
    forall n | 0 <= n < |names|
      ensures Carries(line, names[n]) <==>
              && |line| > |names[n]| && line[|names[n]|] == 58
              && forall i | 0 <= i < |names[n]| ::
                   || line[i] == names[n][i]
                   || (65 <= line[i] <= 90 && names[n][i] == line[i] + 32)
                   || (65 <= names[n][i] <= 90 && line[i] == names[n][i] + 32)
    {
      CarriesIs(line, names[n]);
    }
  }

  function Kept(ls: seq<Bytes>, names: seq<Bytes>): (r: seq<Bytes>)
    ensures forall l :: l in r <==> l in ls && !CarriesAny(l, names)
  {
    if ls == [] then []
    else (if CarriesAny(ls[0], names) then [] else [ls[0]]) + Kept(ls[1..], names)
  }

  function Strip(head: Bytes, names: seq<Bytes>): Bytes {
    Concat(Kept(Lines(head), names))
  }

  /** `strip_headers_by_name`. */
  method StripHeadersByName(head: Bytes, names: seq<Bytes>) returns (out: Bytes)
    ensures out == Strip(head, names)
  {
    out := [];
    var lines := Lines(head);
    for i := 0 to |lines|
      invariant out == Concat(Kept(lines[..i], names))
    {
      var line := lines[i];
      StripStep(lines, i, names);
      if !CarriesAny(line, names) {
        out := out + line;
      }
    }
    assert lines[..|lines|] == lines;
  }

  lemma StripStep(lines: seq<Bytes>, i: nat, names: seq<Bytes>)
    requires i < |lines|
    ensures Concat(Kept(lines[..i + 1], names)) ==
            Concat(Kept(lines[..i], names)) + if CarriesAny(lines[i], names) then [] else lines[i]
  {
    assert lines[..i + 1] == lines[..i] + [lines[i]];
    KeptAppend(lines[..i], [lines[i]], names);
    ConcatAppend(Kept(lines[..i], names), Kept([lines[i]], names));
    assert Concat([lines[i]]) == lines[i];
  }

  lemma {:induction false} KeptAppend(a: seq<Bytes>, b: seq<Bytes>, names: seq<Bytes>)
    ensures Kept(a + b, names) == Kept(a, names) + Kept(b, names)
  {
    if a == [] {
      assert a + b == b;
    } else {
      assert (a + b)[1..] == a[1..] + b;
      KeptAppend(a[1..], b, names);
    }
  }

  lemma {:induction false} KeptAreLines(ls: seq<Bytes>, names: seq<Bytes>)
    requires AreLines(ls)
    ensures AreLines(Kept(ls, names))
  {
    if ls != [] {
      KeptAreLines(ls[1..], names);
      var kept := Kept(ls[1..], names);
      if CarriesAny(ls[0], names) {
        assert Kept(ls, names) == kept;
      } else {
        assert kept != [] ==> kept[0] in ls[1..];
        ConsLine(ls[0], kept);
      }
    }
  }

  /** The filter works on whole lines: the lines of its output are the kept lines of its input, in order. */
  lemma StripLines(head: Bytes, names: seq<Bytes>)
    ensures Lines(Strip(head, names)) == Kept(Lines(head), names)
  {
    LinesAreLines(head);
    KeptAreLines(Lines(head), names);
    LinesBack(Kept(Lines(head), names));
  }

  lemma {:induction false} KeptTwice(ls: seq<Bytes>, a: seq<Bytes>, b: seq<Bytes>)
    ensures Kept(Kept(ls, a), b) == Kept(ls, a + b)
  {
    if ls != [] {
      KeptTwice(ls[1..], a, b);
      CarriesUnion(ls[0], a, b);
      KeptAppend(if CarriesAny(ls[0], a) then [] else [ls[0]], Kept(ls[1..], a), b);
    }
  }

  lemma CarriesUnion(l: Bytes, a: seq<Bytes>, b: seq<Bytes>)
    ensures CarriesAny(l, a + b) <==> CarriesAny(l, a) || CarriesAny(l, b)
  {
    if i :| 0 <= i < |a| && Carries(l, a[i]) { assert (a + b)[i] == a[i]; }
    if i :| 0 <= i < |b| && Carries(l, b[i]) { assert (a + b)[|a| + i] == b[i]; }
  }

  lemma {:induction false} KeptSame(ls: seq<Bytes>, a: seq<Bytes>, b: seq<Bytes>)
    requires forall l | l in ls :: CarriesAny(l, a) == CarriesAny(l, b)
    ensures Kept(ls, a) == Kept(ls, b)
  {
    if ls != [] { KeptSame(ls[1..], a, b); }
  }

  /** Stripping a union of names is stripping in sequence, in either order. */
  lemma StripUnion(head: Bytes, a: seq<Bytes>, b: seq<Bytes>)
    ensures Strip(head, a + b) == Strip(Strip(head, a), b)
    ensures Strip(head, a + b) == Strip(Strip(head, b), a)
  {
    StripLines(head, a);
    StripLines(head, b);
    KeptTwice(Lines(head), a, b);
    KeptTwice(Lines(head), b, a);
    forall l | l in Lines(head) ensures CarriesAny(l, a + b) == CarriesAny(l, b + a) {
      CarriesUnion(l, a, b);
      CarriesUnion(l, b, a);
    }
    KeptSame(Lines(head), a + b, b + a);
  }

  /** Stripping twice is stripping once, and nothing strippable is left. */
  lemma StripIdempotent(head: Bytes, names: seq<Bytes>)
    ensures Strip(Strip(head, names), names) == Strip(head, names)
    ensures forall l | l in Lines(Strip(head, names)) :: !CarriesAny(l, names)
  {
    StripLines(head, names);
    KeptTwice(Lines(head), names, names);
    forall l | l in Lines(head) ensures CarriesAny(l, names + names) == CarriesAny(l, names) {
      CarriesUnion(l, names, names);
    }
    KeptSame(Lines(head), names + names, names);
  }

  lemma StripNothing(head: Bytes)
    ensures Strip(head, []) == head
  {
    LinesAreLines(head);
    KeptAll(Lines(head), []);
  }

  lemma {:induction false} KeptAll(ls: seq<Bytes>, names: seq<Bytes>)
    requires forall l | l in ls :: !CarriesAny(l, names)
    ensures Kept(ls, names) == ls
  {
    if ls != [] { KeptAll(ls[1..], names); }
  }

  /** Stripping distributes over concatenation at a line boundary. */
  lemma StripConcat(a: Bytes, b: Bytes, names: seq<Bytes>)
    requires a == [] || EndsInLf(a)
    ensures Strip(a + b, names) == Strip(a, names) + Strip(b, names)
  {
    LinesAppend(a, b);
    KeptAppend(Lines(a), Lines(b), names);
    ConcatAppend(Kept(Lines(a), names), Kept(Lines(b), names));
  }

  // ---- Where a head ends ----

  predicate EmptyLineAt(s: Bytes, i: nat) {
    i + 4 <= |s| && s[i] == CR && s[i + 1] == LF && s[i + 2] == CR && s[i + 3] == LF
  }

  /** `windows(4).position(|w| w == b"\r\n\r\n")`. */
  function FindHeadEnd(s: Bytes): (r: Option<nat>)
    ensures r.None? ==> forall i: nat :: !EmptyLineAt(s, i)
    ensures r.Some? ==> EmptyLineAt(s, r.value) && forall i: nat | i < r.value :: !EmptyLineAt(s, i)
  {
    if |s| < 4 then None
    else if EmptyLineAt(s, 0) then Some(0)
    else
      assert forall i: nat | i > 0 :: EmptyLineAt(s, i) <==> EmptyLineAt(s[1..], i - 1);
      match FindHeadEnd(s[1..])
      case None => None
      case Some(i) => Some(i + 1)
  }

  /** An empty line stands where the bytes CR LF CR LF do. */
  lemma EmptyLineIs(s: Bytes, i: nat)
    ensures EmptyLineAt(s, i) <==> i + 4 <= |s| && s[i..i + 4] == [13, 10, 13, 10]
  {
    if i + 4 <= |s| {
      var w := s[i..i + 4];
      assert w[0] == s[i] && w[1] == s[i + 1] && w[2] == s[i + 2] && w[3] == s[i + 3];
    }
  }

  /** Reading on does not move a head end already found, and finds none before the bytes already read. */
  lemma HeadEndStable(s: Bytes, n: nat)
    requires n <= |s|
    ensures FindHeadEnd(s[..n]).Some? ==> FindHeadEnd(s) == FindHeadEnd(s[..n])
    ensures FindHeadEnd(s[..n]).Some? <==> FindHeadEnd(s).Some? && FindHeadEnd(s).value + 4 <= n
  {
    assert forall i: nat :: EmptyLineAt(s[..n], i) <==> i + 4 <= n && EmptyLineAt(s, i);
  }

  predicate StartsInCrlf(s: Bytes) {
    |s| >= 2 && s[0] == CR && s[1] == LF
  }

  /** Up to its end, a line holds an empty line only if it ends in CRLF and one follows it at once. */
  lemma EmptyLineInLine(l: Bytes, tail: Bytes, i: nat)
    requires IsLine(l) && EndsInLf(l) && i < |l|
    ensures EmptyLineAt(l + tail, i) <==> i + 2 == |l| && EndsInCrlf(l) && StartsInCrlf(tail)
  {
    var o, n := l + tail, |l|;
    assert forall j | 0 <= j < n :: o[j] == l[j];
    assert forall j | 0 <= j < |tail| :: o[n + j] == tail[j];
    if i + 2 == n {
      assert |tail| >= 2 ==> o[n + 0] == tail[0] && o[n + 1] == tail[1];
    }
  }

  lemma EmptyLineBeyond(l: Bytes, tail: Bytes, i: nat)
    ensures EmptyLineAt(l + tail, |l| + i) <==> EmptyLineAt(tail, i)
  {
    assert (l + tail)[|l|..] == tail;
    assert i + 4 <= |tail| ==> forall j | i <= j < i + 4 :: (l + tail)[|l| + j] == tail[j];
  }

  /** An empty line that follows this line at once is the first one. */
  lemma HeadEndHere(l: Bytes, tail: Bytes)
    requires IsLine(l) && EndsInCrlf(l) && StartsInCrlf(tail)
    ensures FindHeadEnd(l + tail) == Some(|l| - 2)
  {
    EmptyLineInLine(l, tail, |l| - 2);
    forall i: nat | i < |l| - 2 ensures !EmptyLineAt(l + tail, i) {
      EmptyLineInLine(l, tail, i);
    }
  }

  /** Otherwise the first empty line is that of what follows. */
  lemma HeadEndBeyond(l: Bytes, tail: Bytes)
    requires IsLine(l) && EndsInLf(l) && FindHeadEnd(tail).Some?
    requires EndsInCrlf(l) ==> !StartsInCrlf(tail)
    ensures FindHeadEnd(l + tail) == Some(|l| + FindHeadEnd(tail).value)
  {
    var m := FindHeadEnd(tail).value;
    EmptyLineBeyond(l, tail, m);
    forall i: nat | i < |l| + m ensures !EmptyLineAt(l + tail, i) {
      if i < |l| { EmptyLineInLine(l, tail, i); } else { EmptyLineBeyond(l, tail, i - |l|); }
    }
    HeadEndIs(l + tail, |l| + m);
  }

  lemma HeadEndIs(s: Bytes, k: nat)
    requires EmptyLineAt(s, k) && forall i: nat | i < k :: !EmptyLineAt(s, i)
    ensures FindHeadEnd(s) == Some(k)
  {
  }

  // ---- Blocks of lines ----

  /** Every line is ended by its line feed. */
  ghost predicate WholeLines(ls: seq<Bytes>) {
    forall i | 0 <= i < |ls| :: IsLine(ls[i]) && EndsInLf(ls[i])
  }

  /** Whole lines, the last one ended by CRLF. */
  ghost predicate IsHead(ls: seq<Bytes>) {
    ls != [] && WholeLines(ls) && EndsInCrlf(ls[|ls| - 1])
  }

  /** Two lines follow each other that hold a CRLF CRLF: one ended by CRLF, and an empty one. */
  ghost predicate EmptyAfter(ls: seq<Bytes>, j: int) {
    0 < j < |ls| && EndsInCrlf(ls[j - 1]) && ls[j] == CRLF
  }

  ghost predicate EmptyLineInside(ls: seq<Bytes>) {
    exists j :: EmptyAfter(ls, j)
  }

  lemma {:induction false} WholeAreLines(ls: seq<Bytes>)
    requires WholeLines(ls)
    ensures AreLines(ls)
  {
    if ls != [] { WholeAreLines(ls[1..]); }
  }

  /** The lines of bytes that end in a line feed. */
  lemma {:induction false} LinesWhole(s: Bytes)
    requires EndsInLf(s)
    ensures Lines(s) != [] && WholeLines(Lines(s))
    ensures EndsInCrlf(s) ==> IsHead(Lines(s))
    decreases |s|
  {
    var l, rest := FirstAndRest(s);
    if rest == [] {
      assert s == l;
    } else {
      EndOfGlued(l, rest);
      LinesWhole(rest);
      if EndsInCrlf(s) { CrlfOfGlued(l, rest); }
    }
  }

  lemma CrlfOfGlued(l: Bytes, rest: Bytes)
    requires EndsInLf(l) && rest != [] && EndsInCrlf(l + rest)
    ensures EndsInCrlf(rest)
  {
    var s := l + rest;
    assert s[|l| - 1] == l[|l| - 1];
    assert s[|s| - 1] == rest[|rest| - 1];
    assert |rest| >= 2 ==> s[|s| - 2] == rest[|rest| - 2];
  }

  lemma StartOfLine(l: Bytes, rest: Bytes)
    requires IsLine(l) && EndsInLf(l) && l != CRLF
    ensures !StartsInCrlf(l + rest)
  {
    if |l| >= 2 {
      assert (l + rest)[1] == l[1] && (l + rest)[0] == l[0];
      assert l[0] == CR && l[1] == LF ==> |l| == 2;
    } else {
      assert (l + rest)[0] == l[0];
    }
  }

  /** With none inside, the first empty line after the lines of a head is the one put there, whatever comes later. */
  lemma {:induction false} HeadEndsAfterBlock(ls: seq<Bytes>, rest: Bytes)
    requires IsHead(ls) && !EmptyLineInside(ls)
    ensures |Concat(ls)| >= 2
    ensures FindHeadEnd(Concat(ls) + (CRLF + rest)) == Some(|Concat(ls)| - 2)
  {
    var l, more := ls[0], ls[1..];
    var tail := Concat(more) + (CRLF + rest);
    GlueAssociative(l, Concat(more), CRLF + rest);
    if more == [] {
      assert tail == CRLF + rest;
      HeadEndHere(l, tail);
    } else {
      InsideTail(ls);
      HeadEndsAfterBlock(more, rest);
      assert !EmptyAfter(ls, 1);
      if EndsInCrlf(l) {
        GlueAssociative(more[0], Concat(more[1..]), CRLF + rest);
        StartOfLine(more[0], Concat(more[1..]) + (CRLF + rest));
      }
      HeadEndBeyond(l, tail);
    }
  }

  lemma InsideTail(ls: seq<Bytes>)
    requires ls != []
    ensures EmptyLineInside(ls[1..]) ==> EmptyLineInside(ls)
  {
    if j :| EmptyAfter(ls[1..], j) { assert EmptyAfter(ls, j + 1); }
  }

  /** If there are empty lines inside, the lines before the first of them have none. */
  lemma {:induction false} FirstInside(ls: seq<Bytes>) returns (j: nat)
    requires WholeLines(ls) && EmptyLineInside(ls)
    ensures 0 < j < |ls| && ls[j] == CRLF && IsHead(ls[..j]) && !EmptyLineInside(ls[..j])
  {
    if EmptyAfter(ls, 1) {
      j := 1;
    } else {
      var k :| EmptyAfter(ls, k);
      assert EmptyAfter(ls[1..], k - 1);
      var i := FirstInside(ls[1..]);
      j := i + 1;
      assert ls[..j][1..] == ls[1..][..i];
      assert EmptyAfter(ls[..j], 1) ==> EmptyAfter(ls, 1);
      assert forall m | m > 1 :: EmptyAfter(ls[..j], m) ==> EmptyAfter(ls[1..][..i], m - 1);
    }
  }

  /** A head of lines with nothing empty inside, glued to an empty line and anything: cutting it off gives the lines. */
  lemma GluedHead(ls: seq<Bytes>, rest: Bytes)
    requires IsHead(ls) && !EmptyLineInside(ls)
    ensures
      var n, out := |Concat(ls)|, Concat(ls) + (CRLF + rest);
      && n >= 2 && FindHeadEnd(out) == Some(n - 2)
      && Lines(out[..n]) == ls
      && out[n..] == CRLF + rest
  {
    HeadEndsAfterBlock(ls, rest);
    WholeAreLines(ls);
    LinesBack(ls);
    assert (Concat(ls) + (CRLF + rest))[..|Concat(ls)|] == Concat(ls);
  }

  /** With an empty line inside, the head ends there, and its lines are those before it. */
  lemma GluedHeadCut(ls: seq<Bytes>, rest: Bytes, j: nat)
    requires WholeLines(ls) && 0 < j < |ls| && ls[j] == CRLF
    requires IsHead(ls[..j]) && !EmptyLineInside(ls[..j])
    ensures
      var n, out := |Concat(ls[..j])|, Concat(ls) + (CRLF + rest);
      && n >= 2 && FindHeadEnd(out) == Some(n - 2) && n <= |out|
      && Lines(out[..n]) == ls[..j]
  {
    var front, back := ls[..j], ls[j + 1..];
    assert ls == front + ([CRLF] + back);
    ConcatAppend(front, [CRLF] + back);
    assert ([CRLF] + back)[1..] == back;
    var after := Concat(back) + (CRLF + rest);
    GlueAssociative(Concat(front), CRLF + Concat(back), CRLF + rest);
    GlueAssociative(CRLF, Concat(back), CRLF + rest);
    assert Concat(ls) + (CRLF + rest) == Concat(front) + (CRLF + after);
    GluedHead(front, after);
  }

  // ---- A head as a lenient receiver reads it (section 2.2 of RFC 9112) ----

  /** An empty line, with or without its carriage return. */
  predicate Blank(l: Bytes) {
    l == [LF] || l == CRLF
  }

  ghost predicate AllBlank(ls: seq<Bytes>) {
    forall i | 0 <= i < |ls| :: Blank(ls[i])
  }

  ghost predicate NoneBlank(ls: seq<Bytes>) {
    forall i | 0 <= i < |ls| :: !Blank(ls[i])
  }

  /** The lines behind the empty ones in front. */
  function DropBlank(ls: seq<Bytes>): (r: seq<Bytes>)
    ensures r != [] ==> !Blank(r[0])
  {
    if ls != [] && Blank(ls[0]) then DropBlank(ls[1..]) else ls
  }

  /** The lines before the first empty one, if there is one. */
  function UntilBlank(ls: seq<Bytes>): (r: Option<seq<Bytes>>)
    ensures r.Some? ==> NoneBlank(r.value) && |r.value| < |ls| && r.value == ls[..|r.value|] && Blank(ls[|r.value|])
    ensures r.None? ==> NoneBlank(ls)
  {
    if ls == [] then None
    else if Blank(ls[0]) then Some([])
    else
      match UntilBlank(ls[1..])
      case None => None
      case Some(more) => Some([ls[0]] + more)
  }

  lemma {:induction false} DropAllBlank(blanks: seq<Bytes>, ls: seq<Bytes>)
    requires AllBlank(blanks) && ls != [] && !Blank(ls[0])
    ensures DropBlank(blanks + ls) == ls
  {
    if blanks == [] {
      assert blanks + ls == ls;
    } else {
      assert (blanks + ls)[1..] == blanks[1..] + ls;
      DropAllBlank(blanks[1..], ls);
    }
  }

  lemma {:induction false} DropBlankSplits(ls: seq<Bytes>) returns (i: nat)
    ensures i <= |ls| && AllBlank(ls[..i]) && DropBlank(ls) == ls[i..]
  {
    if ls != [] && Blank(ls[0]) {
      var k := DropBlankSplits(ls[1..]);
      i := k + 1;
      assert ls[..i] == [ls[0]] + ls[1..][..k];
    } else {
      i := 0;
    }
  }

  lemma {:induction false} UntilBlankFirst(head: seq<Bytes>, blank: Bytes, more: seq<Bytes>)
    requires NoneBlank(head) && Blank(blank)
    ensures UntilBlank(head + ([blank] + more)) == Some(head)
  {
    var ls := head + ([blank] + more);
    if head == [] {
      assert ls == [blank] + more;
    } else {
      assert ls[1..] == head[1..] + ([blank] + more);
      UntilBlankFirst(head[1..], blank, more);
    }
  }
}
