/** The classification by label positions, and the order of preference, written out store by store. */
module Priorities {
  import opened Labels
  import opened Glob
  import opened Patterns
  import opened Selection
  import opened Routing

  // ---- Which shapes of pattern live in which store ----

  lemma HasStar(ls: seq<string>, i: int)
    requires 0 <= i < |ls| && (ls[i] == "*" || ls[i] == "**")
    ensures '*' in ls[i] && !StarFree(ls[i])
  {
    assert ls[i][0] == '*';
  }

  lemma AllHaveStars(ls: seq<string>)
    ensures forall i | 0 <= i < |ls| && (ls[i] == "*" || ls[i] == "**") :: '*' in ls[i]
    ensures "*" in ls ==> !AllStarFree(ls)
    ensures "**" in ls ==> !AllStarFree(ls)
  {
    forall i | 0 <= i < |ls| && (ls[i] == "*" || ls[i] == "**") ensures '*' in ls[i] {
      HasStar(ls, i);
    }
  }

  /** Exact: no label has a star. The bare wildcards alone are for every host. */
  lemma PlainShapes(ls: seq<string>)
    requires ls != []
    ensures TierOf(ls) == Exact <==> forall i | 0 <= i < |ls| :: '*' !in ls[i]
    ensures TierOf(ls) == CatchAll <==> |ls| == 1 && (ls[0] == "*" || ls[0] == "**")
  {
    AllHaveStars(ls);
    assert |ls| == 1 ==> ls == [ls[0]];
  }

  /** One star in all, and that a whole label at an edge. */
  lemma EdgeStarShapes(ls: seq<string>)
    requires ls != []
    ensures TierOf(ls) == LeadingStar <==>
            |ls| > 1 && ls[0] == "*" && forall i | 1 <= i < |ls| :: '*' !in ls[i]
    ensures TierOf(ls) == TrailingStar <==>
            |ls| > 1 && ls[|ls| - 1] == "*" && forall i | 0 <= i < |ls| - 1 :: '*' !in ls[i]
  {
    EdgeShape(ls, "*");
  }

  /** A `**` at an edge, and no star in the other labels. */
  lemma EdgeDoubleShapes(ls: seq<string>)
    requires ls != []
    ensures TierOf(ls) == LeadingDouble <==>
            |ls| > 1 && ls[0] == "**" && forall i | 1 <= i < |ls| :: '*' !in ls[i]
    ensures TierOf(ls) == TrailingDouble <==>
            |ls| > 1 && ls[|ls| - 1] == "**" && forall i | 0 <= i < |ls| - 1 :: '*' !in ls[i]
  {
    EdgeShape(ls, "**");
  }

  lemma EdgeShape(ls: seq<string>, x: string)
    requires ls != [] && (x == "*" || x == "**")
    ensures |ls| == 1 && ls[0] == x ==> Bare(ls)
    ensures AllStarFree(ls[1..]) <==> forall i | 1 <= i < |ls| :: '*' !in ls[i]
    ensures AllStarFree(ls[..|ls| - 1]) <==> forall i | 0 <= i < |ls| - 1 :: '*' !in ls[i]
    ensures ls[0] == x || ls[|ls| - 1] == x ==> !AllStarFree(ls)
  {
    AllHaveStars(ls);
    assert forall i | 1 <= i < |ls| :: ls[1..][i - 1] == ls[i];
    assert forall i | 0 <= i < |ls| - 1 :: ls[..|ls| - 1][i] == ls[i];
    assert |ls| == 1 ==> ls == [ls[0]];
  }

  lemma AroundOne(ls: seq<string>, x: string, i: int)
    requires 0 <= i < |ls| && ls[i] == x
    ensures multiset(ls)[x] == 1 + multiset(ls[..i])[x] + multiset(ls[i + 1..])[x]
  {
    assert ls == ls[..i] + [ls[i]] + ls[i + 1..];
  }

  lemma OccursTwice(ls: seq<string>, x: string, i: int, j: int)
    requires 0 <= i < j < |ls| && ls[i] == x && ls[j] == x
    ensures multiset(ls)[x] > 1
  {
    AroundOne(ls, x, i);
    assert ls[i + 1..][j - i - 1] == x;
    assert x in ls[i + 1..];
  }

  lemma OccursOnce(ls: seq<string>, x: string, i: int)
    requires 0 <= i < |ls| && ls[i] == x && forall j | 0 <= j < |ls| && j != i :: ls[j] != x
    ensures multiset(ls)[x] == 1
  {
    AroundOne(ls, x, i);
    assert x !in ls[..i] && x !in ls[i + 1..];
    assert x !in multiset(ls[..i]) && x !in multiset(ls[i + 1..]);
  }

  lemma FindsTwo(ls: seq<string>, x: string) returns (i: int, j: int)
    requires multiset(ls)[x] > 1
    ensures 0 <= i < j < |ls| && ls[i] == x && ls[j] == x
  {
    assert x in multiset(ls);
    i :| 0 <= i < |ls| && ls[i] == x;
    if k :| 0 <= k < |ls| && k != i && ls[k] == x {
      i, j := if i < k then i else k, if i < k then k else i;
    } else {
      OccursOnce(ls, x, i);
      j := i;
    }
  }

  lemma FindsOne(ls: seq<string>, x: string) returns (i: int)
    requires multiset(ls)[x] == 1
    ensures 0 <= i < |ls| && ls[i] == x && forall j | 0 <= j < |ls| && j != i :: ls[j] != x
  {
    assert x in multiset(ls);
    i :| 0 <= i < |ls| && ls[i] == x;
    if k :| 0 <= k < |ls| && k != i && ls[k] == x {
      OccursTwice(ls, x, if i < k then i else k, if i < k then k else i);
    }
  }

  lemma FirstInside(ls: seq<string>, x: string, i: int)
    requires 0 < i < |ls| - 1 && ls[i] == x && forall j | 0 <= j < i :: ls[j] != x
    ensures Interior(ls, x) && IndexOf(ls, x) == i
  {
  }

  lemma BeforeFirst(ls: seq<string>, x: string)
    requires x in ls
    ensures forall j | 0 <= j < IndexOf(ls, x) :: ls[j] != x
  {
    var p := IndexOf(ls, x);
    assert forall j | 0 <= j < p :: ls[j] in ls[..p];
  }

  /** With a whole label `*` or `**` strictly inside, or two of them, no cheaper store applies. */
  lemma NotCheaper(ls: seq<string>, i: int)
    requires 0 < i < |ls| - 1 && (ls[i] == "*" || ls[i] == "**")
    ensures TierOf(ls) == StarsTier(ls)
  {
    HasStar(ls, i);
    assert ls[1..][i - 1] == ls[i] && ls[..|ls| - 1][i] == ls[i];
  }

  lemma NotCheaperTwice(ls: seq<string>, i: int, j: int)
    requires 0 <= i < j < |ls| && (ls[i] == "*" || ls[i] == "**") && (ls[j] == "*" || ls[j] == "**")
    ensures TierOf(ls) == StarsTier(ls)
  {
    HasStar(ls, i);
    HasStar(ls, j);
    assert ls[1..][j - 1] == ls[j] && ls[..|ls| - 1][i] == ls[i];
  }

  lemma StarsTierOnly(ls: seq<string>)
    requires ls != [] && TierOf(ls) in {InnerStar, Trie, InnerDouble}
    ensures TierOf(ls) == StarsTier(ls)
  {
  }

  lemma InnerStarHas(ls: seq<string>) returns (i: int)
    requires ls != [] && TierOf(ls) == InnerStar
    ensures "**" !in ls && 0 < i < |ls| - 1 && ls[i] == "*" && forall j | 0 <= j < |ls| && j != i :: ls[j] != "*"
  {
    StarsTierOnly(ls);
    i := FindsOne(ls, "*");
    assert IndexOf(ls, "*") == i;
  }

  lemma HasInnerStar(ls: seq<string>, i: int)
    requires "**" !in ls && 0 < i < |ls| - 1 && ls[i] == "*" && forall j | 0 <= j < |ls| && j != i :: ls[j] != "*"
    ensures TierOf(ls) == InnerStar
  {
    OccursOnce(ls, "*", i);
    FirstInside(ls, "*", i);
    NotCheaper(ls, i);
  }

  /** Exactly one label `*`, strictly inside, and no `**`. */
  lemma InnerStarShape(ls: seq<string>)
    requires ls != []
    ensures TierOf(ls) == InnerStar <==>
            "**" !in ls &&
            exists i :: 0 < i < |ls| - 1 && ls[i] == "*" && forall j | 0 <= j < |ls| && j != i :: ls[j] != "*"
  {
    if TierOf(ls) == InnerStar { var i := InnerStarHas(ls); }
    if i :| && "**" !in ls && 0 < i < |ls| - 1 && ls[i] == "*"
            && forall j | 0 <= j < |ls| && j != i :: ls[j] != "*" {
      HasInnerStar(ls, i);
    }
  }

  lemma TrieHas(ls: seq<string>) returns (i: int, j: int)
    requires ls != [] && TierOf(ls) == Trie
    ensures "**" !in ls && 0 <= i < j < |ls| && ls[i] == "*" && ls[j] == "*"
  {
    StarsTierOnly(ls);
    i, j := FindsTwo(ls, "*");
  }

  lemma HasSeveralStars(ls: seq<string>, i: int, j: int)
    requires "**" !in ls && 0 <= i < j < |ls| && ls[i] == "*" && ls[j] == "*"
    ensures TierOf(ls) == Trie
  {
    OccursTwice(ls, "*", i, j);
    NotCheaperTwice(ls, i, j);
  }

  /** Several labels `*`, and no `**`. */
  lemma TrieShape(ls: seq<string>)
    requires ls != []
    ensures TierOf(ls) == Trie <==>
            "**" !in ls && exists i, j :: 0 <= i < j < |ls| && ls[i] == "*" && ls[j] == "*"
  {
    if TierOf(ls) == Trie { var i, j := TrieHas(ls); }
    if i, j :| "**" !in ls && 0 <= i < j < |ls| && ls[i] == "*" && ls[j] == "*" { HasSeveralStars(ls, i, j); }
  }

  lemma InnerDoubleHas(ls: seq<string>) returns (i: int)
    requires ls != [] && TierOf(ls) == InnerDouble
    ensures "*" !in ls && 0 < i < |ls| - 1 && ls[i] == "**" && forall j | 0 <= j < i :: ls[j] != "**"
  {
    StarsTierOnly(ls);
    i := IndexOf(ls, "**");
    BeforeFirst(ls, "**");
  }

  lemma HasInnerDouble(ls: seq<string>, i: int)
    requires "*" !in ls && 0 < i < |ls| - 1 && ls[i] == "**" && forall j | 0 <= j < i :: ls[j] != "**"
    ensures TierOf(ls) == InnerDouble
  {
    FirstInside(ls, "**", i);
    NotCheaper(ls, i);
  }

  /** No label `*`, and a first `**` strictly inside. */
  lemma InnerDoubleShape(ls: seq<string>)
    requires ls != []
    ensures TierOf(ls) == InnerDouble <==>
            "*" !in ls &&
            exists i :: 0 < i < |ls| - 1 && ls[i] == "**" && forall j | 0 <= j < i :: ls[j] != "**"
  {
    if TierOf(ls) == InnerDouble { var i := InnerDoubleHas(ls); }
    if i :| "*" !in ls && 0 < i < |ls| - 1 && ls[i] == "**" && forall j | 0 <= j < i :: ls[j] != "**" {
      HasInnerDouble(ls, i);
    }
  }

  lemma MixedComplex(ls: seq<string>, i: int, j: int)
    requires 0 <= i < |ls| && ls[i] == "*" && 0 <= j < |ls| && ls[j] == "**"
    ensures TierOf(ls) == Complex
  {
    NotCheaperTwice(ls, if i < j then i else j, if i < j then j else i);
  }

  /** With a single `*` and no `**`, or a first `**` and no `*`: complex exactly if it stands at an edge, not alone. */
  lemma EdgeComplex(ls: seq<string>, x: string, e: int)
    requires 0 <= e < |ls| && ls[e] == x && (x == "*" || x == "**")
    requires forall j | 0 <= j < e :: ls[j] != x
    requires if x == "*" then "**" !in ls && forall j | 0 <= j < |ls| && j != e :: ls[j] != x else "*" !in ls
    ensures TierOf(ls) == Complex <==>
            (e == 0 || e == |ls| - 1) && exists j :: 0 <= j < |ls| && j != e && '*' in ls[j]
  {
    if x == "*" { OccursOnce(ls, "*", e); }
    assert x in ls && IndexOf(ls, x) == e;
    HasStar(ls, e);
    AllHaveStars(ls);
    EdgeShape(ls, "*");
    EdgeShape(ls, "**");
    if 0 < e < |ls| - 1 { NotCheaper(ls, e); }
  }

  lemma PlainComplex(ls: seq<string>)
    requires ls != [] && "*" !in ls && "**" !in ls
    ensures TierOf(ls) == Complex <==> exists j :: 0 <= j < |ls| && '*' in ls[j]
  {
    assert ls[0] in ls && ls[|ls| - 1] in ls;
    assert multiset(ls)["*"] == 0;
    PlainShapes(ls);
  }

  /**
   * All the rest: labels `*` and `**` both; or a single `*` at an edge, or a first `**` at an edge without any
   * `*`, with a star in some other label; or neither, with a star inside some label.
   */
  lemma ComplexShape(ls: seq<string>)
    requires ls != []
    ensures TierOf(ls) == Complex <==>
            || ("*" in ls && "**" in ls)
            || ("**" !in ls &&
                exists e, j ::
                  && 0 <= e < |ls| && 0 <= j < |ls| && j != e && (e == 0 || e == |ls| - 1)
                  && ls[e] == "*" && '*' in ls[j] && forall k | 0 <= k < |ls| && k != e :: ls[k] != "*")
            || ("*" !in ls &&
                exists e, j ::
                  && 0 <= e < |ls| && 0 <= j < |ls| && j != e && (e == 0 || e == |ls| - 1)
                  && ls[e] == "**" && '*' in ls[j] && forall k | 0 <= k < e :: ls[k] != "**")
            || ("*" !in ls && "**" !in ls && exists j :: 0 <= j < |ls| && '*' in ls[j])
  {
    if "*" in ls && "**" in ls {
      MixedComplex(ls, IndexOf(ls, "*"), IndexOf(ls, "**"));
    } else if "*" in ls {
      ComplexByStar(ls);
    } else if "**" in ls {
      ComplexByDouble(ls);
    } else {
      PlainComplex(ls);
    }
  }

  lemma ComplexByStar(ls: seq<string>)
    requires "*" in ls && "**" !in ls
    ensures TierOf(ls) == Complex <==>
            exists e, j ::
              && 0 <= e < |ls| && 0 <= j < |ls| && j != e && (e == 0 || e == |ls| - 1)
              && ls[e] == "*" && '*' in ls[j] && forall k | 0 <= k < |ls| && k != e :: ls[k] != "*"
  {
    assert "*" in multiset(ls);
    if multiset(ls)["*"] == 1 {
      var e := FindsOne(ls, "*");
      EdgeComplex(ls, "*", e);
    } else {
      var i, j := FindsTwo(ls, "*");
      HasSeveralStars(ls, i, j);
    }
  }

  lemma ComplexByDouble(ls: seq<string>)
    requires "**" in ls && "*" !in ls
    ensures TierOf(ls) == Complex <==>
            exists e, j ::
              && 0 <= e < |ls| && 0 <= j < |ls| && j != e && (e == 0 || e == |ls| - 1)
              && ls[e] == "**" && '*' in ls[j] && forall k | 0 <= k < e :: ls[k] != "**"
  {
    BeforeFirst(ls, "**");
    EdgeComplex(ls, "**", IndexOf(ls, "**"));
  }

  // ---- Which hosts each store's patterns reach, by positions ----

  /** One interior `*`: one label in its place, all others equal. */
  lemma InnerStarReachAt(ls: seq<string>, h: seq<string>, i: int)
    requires ls != [] && TierOf(ls) == InnerStar && 0 <= i < |ls| && ls[i] == "*"
    ensures Reaches(ls, h) <==> |h| == |ls| && forall j | 0 <= j < |ls| && j != i :: h[j] == ls[j]
  {
    var p := InnerStarHas(ls);
    NoDoubleMatch(ls, h);
  }

  /** One interior `**`: the labels before and behind it, equal even where they are `**` themselves. */
  lemma InnerDoubleReachAt(ls: seq<string>, h: seq<string>, i: int)
    requires ls != [] && TierOf(ls) == InnerDouble && 0 <= i < |ls| && ls[i] == "**"
    requires forall j | 0 <= j < i :: ls[j] != "**"
    ensures Reaches(ls, h) <==> |ls| - 1 <= |h| && h[..i] == ls[..i] && h[|h| - (|ls| - 1 - i)..] == ls[i + 1..]
  {
    assert IndexOf(ls, "**") == i;
  }

  /** Several `*`: as many labels, all others equal. */
  lemma TrieReachAt(ls: seq<string>, h: seq<string>)
    requires ls != [] && TierOf(ls) == Trie
    ensures Reaches(ls, h) <==> |h| == |ls| && forall j | 0 <= j < |ls| && ls[j] != "*" :: h[j] == ls[j]
  {
    TrieReach(ls, h);
  }

  /** The rest reach what the glob relation says, and the bare wildcards every host. */
  lemma OtherReach(ls: seq<string>, h: seq<string>)
    requires ls != []
    ensures TierOf(ls) == Complex ==> (Reaches(ls, h) <==> Matches(ls, h))
    ensures TierOf(ls) == CatchAll ==> Reaches(ls, h)
  {
  }

  /** What a pattern string covers: every host if it is bare, else what the glob relation says of the labels. */
  lemma CoversIs(pattern: string, host: string)
    ensures PatternCovers(pattern, host) <==>
            pattern == "*" || pattern == "**" || Matches(Split(pattern), Split(host))
    ensures PatternReaches(pattern, host) <==> Reaches(Split(pattern), Split(host))
  {
    SplitDotFree("*");
    SplitDotFree("**");
    SplitInjective(pattern, "*");
    SplitInjective(pattern, "**");
  }

  // ---- The order of preference ----

  /**
   * The registration whose index a host is routed to: no registration that reaches the host lives in a store
   * asked earlier, and within its own store it is the one preferred there.
   */
  lemma Served(regs: seq<Registration>, host: string) returns (k: int)
    requires Route(regs, host).Some?
    ensures 0 <= k < |regs| && PatternReaches(regs[k].pattern, host) && Route(regs, host) == Some(regs[k].index)
    ensures forall j | 0 <= j < |regs| && PatternReaches(regs[j].pattern, host) ::
              var s, t := TierOf(Split(regs[k].pattern)), TierOf(Split(regs[j].pattern));
              && (t == Exact ==> s == Exact)
              && (t == LeadingDouble ==> s in {Exact, LeadingDouble})
              && (t == TrailingDouble ==> s in {Exact, LeadingDouble, TrailingDouble})
              && (t == InnerStar ==> s in {Exact, LeadingDouble, TrailingDouble, InnerStar})
              && (t == InnerDouble ==> s in {Exact, LeadingDouble, TrailingDouble, InnerStar, InnerDouble})
              && (t == Trie ==> s in {Exact, LeadingDouble, TrailingDouble, InnerStar, InnerDouble, Trie})
              && (t == Complex ==> s !in {LeadingStar, TrailingStar, CatchAll})
              && (t == LeadingStar ==> s !in {TrailingStar, CatchAll})
              && (t == TrailingStar ==> s != CatchAll)
    ensures forall j | 0 <= j < |regs| && PatternReaches(regs[j].pattern, host) && j != k ::
              var a, b := Split(regs[k].pattern), Split(regs[j].pattern);
              TierOf(a) == TierOf(b) ==>
                && (TierOf(a) in {Exact, LeadingStar, TrailingStar} ==> j < k)
                && (TierOf(a) in {LeadingDouble, TrailingDouble} ==> |b| < |a| || (|b| == |a| && j < k))
                && (TierOf(a) in {InnerStar, InnerDouble, Complex, CatchAll} ==> k < j)
                && (TierOf(a) == Trie ==>
                      || (a == b && k < j)
                      || exists i :: 0 <= i < |a| && i < |b| && a[..i] == b[..i] && a[i] != "*" && b[i] == "*")
  {
    var h := Split(host);
    k :| Serves(regs, h, k) && regs[k].index == Route(regs, host).value;
    forall j | 0 <= j < |regs| && PatternReaches(regs[j].pattern, host) && j != k
      ensures Prefers(regs[k].Tier(), regs[k].Parts(), regs[j].Tier(), regs[j].Parts(), k > j)
      ensures regs[k].Tier() == Trie ==> Fits(regs[k].Parts(), h)
      ensures regs[j].Tier() == Trie ==> Fits(regs[j].Parts(), h)
    {
      assert Reaching(h)(regs[j]) && Reaching(h)(regs[k]);
      assert ByRank()(regs[k], regs[j], k > j);
      ReachesFixed(regs[k], h);
      ReachesFixed(regs[j], h);
    }
    forall j | 0 <= j < |regs| && PatternReaches(regs[j].pattern, host)
      ensures StoreOrder(TierOf(Split(regs[k].pattern)), TierOf(Split(regs[j].pattern)))
    {
      if j != k {
        PrefersOrder(regs[k].Tier(), regs[k].Parts(), regs[j].Tier(), regs[j].Parts(), k > j);
      }
    }
    forall j | 0 <= j < |regs| && PatternReaches(regs[j].pattern, host) && j != k
               && TierOf(Split(regs[k].pattern)) == TierOf(Split(regs[j].pattern))
      ensures WithinStore(TierOf(Split(regs[k].pattern)), Split(regs[k].pattern), Split(regs[j].pattern), k, j)
    {
      PrefersWithin(regs[k].Tier(), regs[k].Parts(), regs[j].Parts(), k, j, h);
    }
  }

  /** A pattern in store `s` may serve a host that one in store `t` reaches. */
  ghost predicate StoreOrder(s: Tier, t: Tier) {
    && (t == Exact ==> s == Exact)
    && (t == LeadingDouble ==> s in {Exact, LeadingDouble})
    && (t == TrailingDouble ==> s in {Exact, LeadingDouble, TrailingDouble})
    && (t == InnerStar ==> s in {Exact, LeadingDouble, TrailingDouble, InnerStar})
    && (t == InnerDouble ==> s in {Exact, LeadingDouble, TrailingDouble, InnerStar, InnerDouble})
    && (t == Trie ==> s in {Exact, LeadingDouble, TrailingDouble, InnerStar, InnerDouble, Trie})
    && (t == Complex ==> s !in {LeadingStar, TrailingStar, CatchAll})
    && (t == LeadingStar ==> s !in {TrailingStar, CatchAll})
    && (t == TrailingStar ==> s != CatchAll)
  }

  /** Within one store, registration `k` with labels `a` comes before registration `j` with labels `b`. */
  ghost predicate WithinStore(s: Tier, a: seq<string>, b: seq<string>, k: int, j: int) {
    && (s in {Exact, LeadingStar, TrailingStar} ==> j < k)
    && (s in {LeadingDouble, TrailingDouble} ==> |b| < |a| || (|b| == |a| && j < k))
    && (s in {InnerStar, InnerDouble, Complex, CatchAll} ==> k < j)
    && (s == Trie ==>
          || (a == b && k < j)
          || exists i :: 0 <= i < |a| && i < |b| && a[..i] == b[..i] && a[i] != "*" && b[i] == "*")
  }

  lemma PrefersOrder(s: Tier, a: seq<string>, t: Tier, b: seq<string>, later: bool)
    requires Prefers(s, a, t, b, later)
    ensures StoreOrder(s, t)
  {
  }

  lemma PrefersWithin(s: Tier, a: seq<string>, b: seq<string>, k: int, j: int, h: seq<string>)
    requires Prefers(s, a, s, b, k > j) && k != j
    requires s == Trie ==> Fits(a, h) && Fits(b, h)
    ensures WithinStore(s, a, b, k, j)
  {
    if s == Trie {
      if a != b { FittingComparable(a, b, h, 0); }
      if LiteralFirst(a, b) {
        LiteralFirstAsymmetric(a, b);
        var i :| 0 <= i < |a| && i < |b| && DivergesAt(a, b, i);
      } else {
        assert a == b;
        assert !LiteralFirst(b, a);
      }
    }
  }

  /** Of two patterns with several `*` that fit a host, the one whose literals come earlier is asked first. */
  lemma EarlierLiteralFirst(regs: seq<Registration>, host: string, x: int, y: int, i: int)
    requires 0 <= x < |regs| && 0 <= y < |regs|
    requires TierOf(Split(regs[x].pattern)) == Trie && TierOf(Split(regs[y].pattern)) == Trie
    requires PatternReaches(regs[x].pattern, host) && PatternReaches(regs[y].pattern, host)
    requires
      var a, b := Split(regs[x].pattern), Split(regs[y].pattern);
      0 <= i < |a| && i < |b| && a[..i] == b[..i] && a[i] != "*" && b[i] == "*"
    ensures !Serves(regs, Split(host), y)
    ensures |regs| == 2 ==> Route(regs, host) == Some(regs[x].index)
  {
    var h := Split(host);
    assert Reaching(h)(regs[x]) && Reaching(h)(regs[y]);
    LiteralOutranks(regs[x].Parts(), regs[y].Parts(), i);
    NotServing(regs, h, x, y);
    if |regs| == 2 {
      NoServer(regs, h);
      var k := Server(regs, h).value;
      assert Serves(regs, h, k);
      RouteIs(regs, host, k);
    }
  }

  lemma NotServing(regs: seq<Registration>, h: seq<string>, x: int, y: int)
    requires 0 <= x < |regs| && 0 <= y < |regs| && x != y && Reaching(h)(regs[x])
    requires !ByRank()(regs[y], regs[x], y > x)
    ensures !Serves(regs, h, y)
  {
  }

  lemma LiteralOutranks(a: seq<string>, b: seq<string>, i: int)
    requires 0 <= i < |a| && i < |b| && a[..i] == b[..i] && a[i] != "*" && b[i] == "*"
    ensures a != b && forall later :: !Prefers(Trie, b, Trie, a, later)
  {
    assert DivergesAt(a, b, i);
    LiteralFirstAsymmetric(a, b);
  }
}
