/** The meaning of a wildcard pattern: a relation between its labels and the labels of a host. */
module Glob {

  /** `**` consumes zero or more host labels, `*` exactly one, any other label one equal to it. */
  predicate Matches(p: seq<string>, h: seq<string>)
    decreases |p| + |h|
  {
    if p == [] then h == []
    else if p[0] == "**" then Matches(p[1..], h) || (h != [] && Matches(p, h[1..]))
    else h != [] && Accepts(p[0], h[0]) && Matches(p[1..], h[1..])
  }

  predicate Accepts(part: string, hostLabel: string) {
    part == "*" || part == hostLabel
  }

  ghost predicate NoDouble(p: seq<string>) {
    "**" !in p
  }

  ghost predicate Literal(p: seq<string>) {
    "*" !in p && "**" !in p
  }

  /** Equal length, and every host label accepted by the pattern label opposite it. */
  ghost predicate Fits(p: seq<string>, h: seq<string>) {
    |p| == |h| && forall i | 0 <= i < |p| :: Accepts(p[i], h[i])
  }

  // ---- The same relation, declaratively: a way of cutting the host into shares ----

  /** What one pattern label may consume. */
  ghost predicate Consumes(part: string, share: seq<string>) {
    part == "**" || (|share| == 1 && Accepts(part, share[0]))
  }

  ghost function Flatten(shares: seq<seq<string>>): seq<string> {
    if shares == [] then [] else shares[0] + Flatten(shares[1..])
  }

  /** The host is cut, without gaps or overlaps, into one share per pattern label. */
  ghost predicate Segmentation(p: seq<string>, h: seq<string>, shares: seq<seq<string>>) {
    && |shares| == |p|
    && Flatten(shares) == h
    && forall i | 0 <= i < |p| :: Consumes(p[i], shares[i])
  }

  /** The recursive test accepts exactly the hosts that can be cut into admissible shares. */
  lemma MatchesIffSegmentation(p: seq<string>, h: seq<string>)
    ensures Matches(p, h) <==> exists shares :: Segmentation(p, h, shares)
  {
    if Matches(p, h) {
      var shares := FindShares(p, h);
    }
    if shares :| Segmentation(p, h, shares) {
      SharesSuffice(p, h, shares);
    }
  }

  lemma {:induction false} FindShares(p: seq<string>, h: seq<string>) returns (shares: seq<seq<string>>)
    requires Matches(p, h)
    ensures Segmentation(p, h, shares)
    decreases |p| + |h|
  {
    if p == [] {
      shares := [];
    } else if p[0] == "**" && Matches(p[1..], h) {
      var rest := FindShares(p[1..], h);
      shares := [[]] + rest;
      assert shares[1..] == rest;
    } else if p[0] == "**" {
      var rest := FindShares(p, h[1..]);
      shares := [[h[0]] + rest[0]] + rest[1..];
      assert shares[1..] == rest[1..];
      assert h == [h[0]] + h[1..];
      assert Flatten(shares) == ([h[0]] + rest[0]) + Flatten(rest[1..]);
    } else {
      var rest := FindShares(p[1..], h[1..]);
      shares := [[h[0]]] + rest;
      assert shares[1..] == rest;
      assert h == [h[0]] + h[1..];
    }
  }

  lemma {:induction false} SharesSuffice(p: seq<string>, h: seq<string>, shares: seq<seq<string>>)
    requires Segmentation(p, h, shares)
    ensures Matches(p, h)
    decreases |p| + |h|
  {
    if p != [] {
      assert Consumes(p[0], shares[0]);
      if shares[0] == [] {
        assert h == Flatten(shares[1..]);
        SharesSuffice(p[1..], h, shares[1..]);
      } else if p[0] == "**" {
        var less := [shares[0][1..]] + shares[1..];
        assert less[1..] == shares[1..];
        assert h[1..] == Flatten(less);
        SharesSuffice(p, h[1..], less);
      } else {
        assert h[1..] == Flatten(shares[1..]);
        SharesSuffice(p[1..], h[1..], shares[1..]);
      }
    }
  }

  /** What a pattern's first label does: `**` takes any number of labels in front, `*` one, any other its equal. */
  lemma {:induction false} MatchesByFirst(first: string, p: seq<string>, h: seq<string>)
    ensures Matches([], h) <==> h == []
    ensures Matches(["**"] + p, h) <==> exists k :: 0 <= k <= |h| && Matches(p, h[k..])
    ensures Matches(["*"] + p, h) <==> h != [] && Matches(p, h[1..])
    ensures first != "*" && first != "**" ==>
              (Matches([first] + p, h) <==> h != [] && h[0] == first && Matches(p, h[1..]))
    decreases |h|
  {
    assert (["**"] + p)[1..] == p && (["*"] + p)[1..] == p && ([first] + p)[1..] == p;
    assert h[0..] == h;
    if h != [] {
      MatchesByFirst(first, p, h[1..]);
      assert forall k | 0 <= k <= |h| - 1 :: h[1..][k..] == h[k + 1..];
      if k :| 0 <= k <= |h| && Matches(p, h[k..]) {
        if k > 0 { assert Matches(p, h[1..][k - 1..]); }
      }
    }
  }

  // ---- Splitting a match between two parts of the pattern ----

  lemma {:induction false} MatchesConcat(p: seq<string>, q: seq<string>, h: seq<string>)
    ensures Matches(p + q, h) <==> exists k :: 0 <= k <= |h| && Matches(p, h[..k]) && Matches(q, h[k..])
    decreases |p| + |h|
  {
    if Matches(p + q, h) {
      var k := SplitMatch(p, q, h);
    }
    if k :| 0 <= k <= |h| && Matches(p, h[..k]) && Matches(q, h[k..]) {
      GlueMatch(p, q, h, k);
    }
  }

  lemma {:induction false} SplitMatch(p: seq<string>, q: seq<string>, h: seq<string>) returns (k: nat)
    requires Matches(p + q, h)
    ensures k <= |h| && Matches(p, h[..k]) && Matches(q, h[k..])
    decreases |p| + |h|
  {
    if p == [] {
      assert p + q == q && h[0..] == h;
      k := 0;
    } else {
      assert (p + q)[1..] == p[1..] + q;
      if p[0] == "**" && Matches(p[1..] + q, h) {
        k := SplitMatch(p[1..], q, h);
      } else {
        k := SplitMatch(if p[0] == "**" then p else p[1..], q, h[1..]);
        assert h[1..][..k] == h[..k + 1][1..] && h[1..][k..] == h[k + 1..];
        k := k + 1;
      }
    }
  }

  lemma {:induction false} GlueMatch(p: seq<string>, q: seq<string>, h: seq<string>, k: nat)
    requires k <= |h| && Matches(p, h[..k]) && Matches(q, h[k..])
    ensures Matches(p + q, h)
    decreases |p| + |h|
  {
    if p == [] {
      assert p + q == q && h[0..] == h;
    } else {
      assert (p + q)[1..] == p[1..] + q;
      if p[0] == "**" && Matches(p[1..], h[..k]) {
        GlueMatch(p[1..], q, h, k);
      } else {
        assert h[1..][..k - 1] == h[..k][1..] && h[1..][k - 1..] == h[k..];
        GlueMatch(if p[0] == "**" then p else p[1..], q, h[1..], k - 1);
      }
    }
  }

  // ---- Closed forms for the shapes the router gives a store of their own ----

  /** Without `**`, matching is positional. */
  lemma {:induction false} NoDoubleMatch(p: seq<string>, h: seq<string>)
    requires NoDouble(p)
    ensures Matches(p, h) <==> Fits(p, h)
  {
    if p != [] && h != [] {
      assert NoDouble(p[1..]) by { assert forall l :: l in p[1..] ==> l in p; }
      NoDoubleMatch(p[1..], h[1..]);
      assert p == [p[0]] + p[1..] && h == [h[0]] + h[1..];
      if Fits(p[1..], h[1..]) && Accepts(p[0], h[0]) {
        forall i | 0 <= i < |p| ensures Accepts(p[i], h[i]) {
          if i > 0 { assert Accepts(p[1..][i - 1], h[1..][i - 1]); }
        }
      }
      if Fits(p, h) {
        forall i | 0 <= i < |p[1..]| ensures Accepts(p[1..][i], h[1..][i]) {
          assert Accepts(p[i + 1], h[i + 1]);
        }
      }
    }
  }

  lemma LiteralFits(p: seq<string>, h: seq<string>)
    requires Literal(p)
    ensures Fits(p, h) <==> p == h
  {
    if Fits(p, h) {
      forall i | 0 <= i < |p| ensures p[i] == h[i] { assert p[i] in p; assert Accepts(p[i], h[i]); }
    }
  }

  lemma {:induction false} DoubleAlone(h: seq<string>)
    ensures Matches(["**"], h)
  {
    if h != [] { DoubleAlone(h[1..]); }
  }

  /** One `**` between two literal runs: the host starts with the one and ends, disjointly, with the other. */
  ghost predicate Around(pre: seq<string>, suf: seq<string>, h: seq<string>) {
    && |pre| + |suf| <= |h|
    && h[..|pre|] == pre
    && h[|h| - |suf|..] == suf
  }

  lemma AroundMatch(pre: seq<string>, suf: seq<string>, h: seq<string>)
    requires Literal(pre) && Literal(suf)
    ensures Matches(pre + ["**"] + suf, h) <==> Around(pre, suf, h)
  {
    var mid := ["**"];
    assert pre + mid + suf == pre + (mid + suf);
    if Matches(pre + mid + suf, h) {
      var k := SplitMatch(pre, mid + suf, h);
      var j := SplitMatch(mid, suf, h[k..]);
      assert h[k..][j..] == h[k + j..];
      LiteralMatch(pre, h[..k]);
      LiteralMatch(suf, h[k + j..]);
    }
    if Around(pre, suf, h) {
      LiteralMatch(pre, h[..|pre|]);
      LiteralMatch(suf, h[|h| - |suf|..]);
      var rest := h[|pre|..];
      var j := |rest| - |suf|;
      DoubleAlone(rest[..j]);
      assert rest[j..] == h[|h| - |suf|..];
      GlueMatch(mid, suf, rest, j);
      GlueMatch(pre, mid + suf, h, |pre|);
    }
  }

  /** One `*` between two literal runs: the host is the same with some label in its place. */
  ghost predicate AroundStar(pre: seq<string>, suf: seq<string>, h: seq<string>) {
    && |pre| + 1 + |suf| == |h|
    && h[..|pre|] == pre
    && h[|pre| + 1..] == suf
  }

  lemma AroundStarMatch(pre: seq<string>, suf: seq<string>, h: seq<string>)
    requires Literal(pre) && Literal(suf)
    ensures Matches(pre + ["*"] + suf, h) <==> AroundStar(pre, suf, h)
  {
    var mid := ["*"];
    assert pre + mid + suf == pre + (mid + suf);
    if Matches(pre + mid + suf, h) {
      var k := SplitMatch(pre, mid + suf, h);
      LiteralMatch(pre, h[..k]);
      LiteralMatch(suf, h[k..][1..]);
      assert (mid + suf)[1..] == suf && h[k..][1..] == h[k + 1..];
    }
    if AroundStar(pre, suf, h) {
      LiteralMatch(pre, h[..|pre|]);
      LiteralMatch(suf, h[|pre| + 1..]);
      assert (mid + suf)[1..] == suf && h[|pre|..][1..] == h[|pre| + 1..];
      GlueMatch(pre, mid + suf, h, |pre|);
    }
  }

  lemma LiteralMatch(p: seq<string>, h: seq<string>)
    requires Literal(p)
    ensures Matches(p, h) <==> p == h
  {
    NoDoubleMatch(p, h);
    LiteralFits(p, h);
  }

  // ---- Peeling the last pattern label, as the table-filling matcher does ----

  lemma PeelDouble(p: seq<string>, h: seq<string>)
    ensures Matches(p + ["**"], h) <==> Matches(p, h) || (h != [] && Matches(p + ["**"], h[..|h| - 1]))
  {
    if Matches(p + ["**"], h) {
      var k := SplitMatch(p, ["**"], h);
      if k == |h| {
        assert h[..k] == h;
      } else {
        var init := h[..|h| - 1];
        assert init[..k] == h[..k];
        DoubleAlone(init[k..]);
        GlueMatch(p, ["**"], init, k);
      }
    }
    if Matches(p, h) {
      assert h[..|h|] == h;
      DoubleAlone(h[|h|..]);
      GlueMatch(p, ["**"], h, |h|);
    }
    if h != [] && Matches(p + ["**"], h[..|h| - 1]) {
      var k := SplitMatch(p, ["**"], h[..|h| - 1]);
      assert h[..|h| - 1][..k] == h[..k];
      DoubleAlone(h[k..]);
      GlueMatch(p, ["**"], h, k);
    }
  }

  lemma PeelSingle(p: seq<string>, part: string, h: seq<string>)
    requires part != "**"
    ensures Matches(p + [part], h) <==>
            h != [] && Matches(p, h[..|h| - 1]) && Accepts(part, h[|h| - 1])
  {
    if Matches(p + [part], h) {
      var k := SplitMatch(p, [part], h);
      NoDoubleMatch([part], h[k..]);
      assert k == |h| - 1;
    }
    if h != [] && Matches(p, h[..|h| - 1]) && Accepts(part, h[|h| - 1]) {
      NoDoubleMatch([part], h[|h| - 1..]);
      GlueMatch(p, [part], h, |h| - 1);
    }
  }

  // ---- The order in which a lookup prefers patterns of one length ----

  /** At the first position where two patterns differ, `a` has a literal and `b` has `*`. */
  ghost predicate LiteralFirst(a: seq<string>, b: seq<string>) {
    exists i :: 0 <= i < |a| && i < |b| && DivergesAt(a, b, i)
  }

  ghost predicate DivergesAt(a: seq<string>, b: seq<string>, i: int)
    requires 0 <= i < |a| && i < |b|
  {
    a[..i] == b[..i] && a[i] != "*" && b[i] == "*"
  }

  lemma LiteralFirstTransitive(a: seq<string>, b: seq<string>, c: seq<string>)
    requires |a| == |b| == |c| && LiteralFirst(a, b) && LiteralFirst(b, c)
    ensures LiteralFirst(a, c)
  {
    var i :| 0 <= i < |a| && DivergesAt(a, b, i);
    var j :| 0 <= j < |b| && DivergesAt(b, c, j);
    var m := if i < j then i else j;
    assert a[..m] == b[..m] && b[..m] == c[..m] by {
      assert a[..i][..m] == a[..m] && b[..i][..m] == b[..m];
      assert b[..j][..m] == b[..m] && c[..j][..m] == c[..m];
    }
    if i < j {
      assert b[..j][i] == c[..j][i];
    } else if j < i {
      assert a[..i][j] == b[..i][j];
    }
    assert DivergesAt(a, c, m);
  }

  lemma LiteralFirstAsymmetric(a: seq<string>, b: seq<string>)
    requires LiteralFirst(a, b)
    ensures !LiteralFirst(b, a)
  {
    var i :| 0 <= i < |a| && i < |b| && DivergesAt(a, b, i);
    forall j | 0 <= j < |b| && j < |a| ensures !DivergesAt(b, a, j) {
      assert i < j ==> b[..j][i] == b[i] && a[..j][i] == a[i];
      assert j < i ==> a[..i][j] == a[j] && b[..i][j] == b[j];
    }
  }

  /** Two patterns that fit one host differ first where one has the host's label and the other `*`. */
  lemma {:induction false} FittingComparable(a: seq<string>, b: seq<string>, h: seq<string>, n: nat)
    requires Fits(a, h) && Fits(b, h) && n <= |h| && a[..n] == b[..n] && a != b
    ensures LiteralFirst(a, b) || LiteralFirst(b, a)
    decreases |h| - n
  {
    assert a[..|a|] == a && b[..|b|] == b;
    if a[n] == b[n] {
      assert a[..n + 1] == a[..n] + [a[n]] && b[..n + 1] == b[..n] + [b[n]];
      FittingComparable(a, b, h, n + 1);
    } else {
      assert Accepts(a[n], h[n]) && Accepts(b[n], h[n]);
      assert DivergesAt(a, b, n) || DivergesAt(b, a, n);
    }
  }
}
