/** How the router classifies patterns, and which hosts each class really reaches. */
module Patterns {
  import opened Labels
  import opened Glob

  datatype Tier =
    | Exact | LeadingDouble | TrailingDouble | InnerStar | InnerDouble
    | Trie | Complex | LeadingStar | TrailingStar | CatchAll
  {
    /** The order in which a lookup consults the stores. */
    function Rank(): nat {
      match this
      case Exact => 0
      case LeadingDouble => 1
      case TrailingDouble => 2
      case InnerStar => 3
      case InnerDouble => 4
      case Trie => 5
      case Complex => 6
      case LeadingStar => 7
      case TrailingStar => 8
      case CatchAll => 9
    }

    /** A hash-map store keeps the last of two registrations of one pattern; the others keep the first. */
    predicate LastWins() {
      Exact? || LeadingDouble? || TrailingDouble? || LeadingStar? || TrailingStar?
    }
  }

  /** `iter().position(..)`. */
  function IndexOf(ls: seq<string>, x: string): (i: nat)
    requires x in ls
    ensures i < |ls| && ls[i] == x && x !in ls[..i]
  {
    if ls[0] == x then 0
    else
      var i := 1 + IndexOf(ls[1..], x);
      assert ls[..i] == [ls[0]] + ls[1..][..i - 1];
      i
  }

  predicate Interior(ls: seq<string>, x: string) {
    x in ls && 0 < IndexOf(ls, x) < |ls| - 1
  }

  function Before(ls: seq<string>, x: string): seq<string>
    requires x in ls
  {
    ls[..IndexOf(ls, x)]
  }

  function After(ls: seq<string>, x: string): seq<string>
    requires x in ls
  {
    ls[IndexOf(ls, x) + 1..]
  }

  predicate Bare(ls: seq<string>) {
    ls == ["*"] || ls == ["**"]
  }

  /** The store that a pattern with these labels lives in. */
  function TierOf(ls: seq<string>): Tier
    requires ls != []
  {
    var last := |ls| - 1;
    if Bare(ls) then CatchAll
    else if AllStarFree(ls) then Exact
    else if ls[0] == "*" && AllStarFree(ls[1..]) then LeadingStar
    else if ls[last] == "*" && AllStarFree(ls[..last]) then TrailingStar
    else EdgeTier(ls)
  }

  function EdgeTier(ls: seq<string>): Tier
    requires ls != []
  {
    var last := |ls| - 1;
    if ls[0] == "**" && AllStarFree(ls[1..]) then LeadingDouble
    else if ls[last] == "**" && AllStarFree(ls[..last]) then TrailingDouble
    else StarsTier(ls)
  }

  function StarsTier(ls: seq<string>): Tier {
    if "**" in ls && "*" in ls then Complex
    else if "**" !in ls && multiset(ls)["*"] == 1 && Interior(ls, "*") then InnerStar
    else if "**" !in ls && multiset(ls)["*"] > 1 then Trie
    else if Interior(ls, "**") then InnerDouble
    else Complex
  }

  /** The documented meaning: a bare wildcard is for every host, anything else is the glob relation. */
  predicate Covers(ls: seq<string>, h: seq<string>) {
    Bare(ls) || Matches(ls, h)
  }

  /** What the stores test: as documented, except that an inner `**` makes everything around it literal. */
  ghost predicate Reaches(ls: seq<string>, h: seq<string>)
    requires ls != []
  {
    match TierOf(ls)
    case CatchAll => true
    case InnerDouble => Around(Before(ls, "**"), After(ls, "**"), h)
    case _ => Matches(ls, h)
  }

  /** No `*` label, a first `**` that is neither first nor last, and another `**` after it. */
  ghost predicate Gap(ls: seq<string>) {
    "*" !in ls && Interior(ls, "**") && "**" in After(ls, "**")
  }

  ghost predicate PatternCovers(pattern: string, host: string) {
    Covers(Split(pattern), Split(host))
  }

  ghost predicate PatternReaches(pattern: string, host: string) {
    Reaches(Split(pattern), Split(host))
  }

  // ---- What reaching a host means, tier by tier ----

  lemma StarFreeLiteral(ls: seq<string>)
    requires AllStarFree(ls)
    ensures Literal(ls)
  {
    forall l | l in ls ensures l != "*" && l != "**" {
      var i :| 0 <= i < |ls| && ls[i] == l;
      assert StarFree(ls[i]);
      assert !StarFree("*") by { assert "*"[0] == '*'; }
      assert !StarFree("**") by { assert "**"[0] == '*'; }
    }
  }

  lemma ExactReach(ls: seq<string>, h: seq<string>)
    requires ls != [] && TierOf(ls) == Exact
    ensures Reaches(ls, h) <==> ls == h
  {
    StarFreeLiteral(ls);
    LiteralMatch(ls, h);
  }

  lemma LeadingDoubleReach(ls: seq<string>, h: seq<string>)
    requires ls != [] && TierOf(ls) == LeadingDouble
    ensures |ls| > 1 && ls == ["**"] + ls[1..] && AllStarFree(ls[1..])
    ensures Reaches(ls, h) <==> |ls| - 1 <= |h| && h[|h| - (|ls| - 1)..] == ls[1..]
  {
    StarFreeLiteral(ls[1..]);
    assert ls == [] + ["**"] + ls[1..];
    AroundMatch([], ls[1..], h);
  }

  lemma TrailingDoubleReach(ls: seq<string>, h: seq<string>)
    requires ls != [] && TierOf(ls) == TrailingDouble
    ensures |ls| > 1 && ls == ls[..|ls| - 1] + ["**"] && AllStarFree(ls[..|ls| - 1])
    ensures Reaches(ls, h) <==> |ls| - 1 <= |h| && h[..|ls| - 1] == ls[..|ls| - 1]
  {
    var front := ls[..|ls| - 1];
    StarFreeLiteral(front);
    assert ls == front + ["**"] + [];
    AroundMatch(front, [], h);
  }

  lemma LeadingStarReach(ls: seq<string>, h: seq<string>)
    requires ls != [] && TierOf(ls) == LeadingStar
    ensures |ls| > 1 && ls == ["*"] + ls[1..] && AllStarFree(ls[1..])
    ensures Reaches(ls, h) <==> h != [] && h[1..] == ls[1..]
  {
    StarFreeLiteral(ls[1..]);
    assert ls == [] + ["*"] + ls[1..];
    AroundStarMatch([], ls[1..], h);
  }

  lemma TrailingStarReach(ls: seq<string>, h: seq<string>)
    requires ls != [] && TierOf(ls) == TrailingStar
    ensures |ls| > 1 && ls == ls[..|ls| - 1] + ["*"] && AllStarFree(ls[..|ls| - 1])
    ensures Reaches(ls, h) <==> h != [] && h[..|h| - 1] == ls[..|ls| - 1]
  {
    var front := ls[..|ls| - 1];
    StarFreeLiteral(front);
    assert ls == front + ["*"] + [];
    AroundStarMatch(front, [], h);
  }

  lemma InnerStarReach(ls: seq<string>, h: seq<string>)
    requires ls != [] && TierOf(ls) == InnerStar
    ensures "*" in ls
    ensures Reaches(ls, h) <==> AroundStar(Before(ls, "*"), After(ls, "*"), h)
  {
    var pre, suf := Before(ls, "*"), After(ls, "*");
    CutAt(ls, "*");
    assert multiset(ls) == multiset(pre) + multiset(["*"]) + multiset(suf);
    assert "*" !in multiset(suf);
    assert Literal(pre) && Literal(suf) by {
      assert forall l :: l in pre ==> l in ls;
      assert forall l :: l in suf ==> l in ls && l in multiset(suf);
    }
    AroundStarMatch(pre, suf, h);
  }

  lemma TrieReach(ls: seq<string>, h: seq<string>)
    requires ls != [] && TierOf(ls) == Trie
    ensures Reaches(ls, h) <==> Fits(ls, h)
  {
    NoDoubleMatch(ls, h);
  }

  // ---- Soundness of every class, and exactly which class is incomplete ----

  lemma CutAt(ls: seq<string>, x: string)
    requires x in ls
    ensures ls == Before(ls, x) + [x] + After(ls, x)
  {
  }

  lemma AroundSelf(pre: seq<string>, suf: seq<string>, h: seq<string>)
    requires Around(pre, suf, h)
    ensures Matches(pre + ["**"] + suf, h)
  {
    var mid := ["**"];
    var rest := h[|pre|..];
    var j := |rest| - |suf|;
    SelfMatch(pre);
    SelfMatch(suf);
    DoubleAlone(rest[..j]);
    assert rest[j..] == suf;
    GlueMatch(mid, suf, rest, j);
    GlueMatch(pre, mid + suf, h, |pre|);
    assert pre + mid + suf == pre + (mid + suf);
  }

  /** Read as a host, a pattern matches itself. */
  lemma {:induction false} SelfMatch(ls: seq<string>)
    ensures Matches(ls, ls)
  {
    if ls != [] {
      SelfMatch(ls[1..]);
      if ls[0] == "**" { SkipDouble(ls, ls[1..]); }
    }
  }

  lemma SkipDouble(p: seq<string>, h: seq<string>)
    requires p != [] && p[0] == "**" && Matches(p[1..], h)
    ensures Matches(p, h)
  {
  }

  /** A pattern never reaches a host that its documented meaning excludes. */
  lemma ReachesOnlyCovered(ls: seq<string>, h: seq<string>)
    requires ls != [] && Reaches(ls, h)
    ensures Covers(ls, h)
  {
    if TierOf(ls).InnerDouble? {
      CutAt(ls, "**");
      AroundSelf(Before(ls, "**"), After(ls, "**"), h);
    }
  }

  lemma GapTier(ls: seq<string>)
    requires ls != []
    ensures Gap(ls) <==> TierOf(ls).InnerDouble? && "**" in After(ls, "**")
  {
    if Gap(ls) {
      var i := IndexOf(ls, "**");
      var last := |ls| - 1;
      assert !StarFree(ls[i]);
      assert ls[1..][i - 1] == ls[i] && ls[..last][i] == ls[i];
      assert ls[0] != "**" by { assert ls[0] in ls[..i]; }
    }
  }

  lemma GapFreeReaches(ls: seq<string>, h: seq<string>)
    requires ls != [] && !Gap(ls)
    ensures Reaches(ls, h) <==> Covers(ls, h)
  {
    GapTier(ls);
    if TierOf(ls).InnerDouble? {
      var pre, suf := Before(ls, "**"), After(ls, "**");
      CutAt(ls, "**");
      assert Literal(pre) && Literal(suf) by {
        assert forall l :: l in pre ==> l in ls;
        assert forall l :: l in suf ==> l in ls;
      }
      AroundMatch(pre, suf, h);
    }
  }

  /** The labels of a pattern with every `**` taken to consume nothing. */
  function WithoutDoubles(ls: seq<string>): (r: seq<string>)
    ensures "**" !in r
    ensures forall l :: l in r ==> l in ls
  {
    if ls == [] then []
    else (if ls[0] == "**" then [] else [ls[0]]) + WithoutDoubles(ls[1..])
  }

  lemma {:induction false} WithoutDoublesMatches(ls: seq<string>)
    ensures Matches(ls, WithoutDoubles(ls))
  {
    if ls != [] {
      WithoutDoublesMatches(ls[1..]);
      if ls[0] == "**" { assert WithoutDoubles(ls) == WithoutDoubles(ls[1..]); }
      else { assert WithoutDoubles(ls)[1..] == WithoutDoubles(ls[1..]); }
    }
  }

  /** A gap pattern misses the host in which all its `**` labels are left out, though it covers it. */
  lemma GapMisses(ls: seq<string>)
    requires ls != [] && Gap(ls)
    ensures WithoutDoubles(ls) != []
    ensures Covers(ls, WithoutDoubles(ls)) && !Reaches(ls, WithoutDoubles(ls))
  {
    GapTier(ls);
    var h := WithoutDoubles(ls);
    WithoutDoublesMatches(ls);
    var suf := After(ls, "**");
    assert ls[0] != "**" by { assert ls[0] in ls[..IndexOf(ls, "**")]; }
    assert h[0] == ls[0];
  }

  /** The router reaches every host a pattern covers exactly when the pattern is not a gap pattern. */
  lemma CompleteExactlyOutsideGap(pattern: string)
    ensures (forall host :: PatternCovers(pattern, host) ==> PatternReaches(pattern, host)) <==> !Gap(Split(pattern))
  {
    var ls := Split(pattern);
    if Gap(ls) {
      GapMisses(ls);
      var h := WithoutDoubles(ls);
      assert AllDotFree(h) by {
        forall i | 0 <= i < |h| ensures DotFree(h[i]) {
          assert h[i] in ls;
        }
      }
      SplitJoin(h);
      assert PatternCovers(pattern, Join(h)) && !PatternReaches(pattern, Join(h));
    } else {
      forall host | PatternCovers(pattern, host) ensures PatternReaches(pattern, host) {
        GapFreeReaches(ls, Split(host));
      }
    }
  }

  /** A witness: `a.**.b.**.c` covers the host `a.b.c` and does not reach it. */
  lemma GapWitness()
    ensures PatternCovers("a.**.b.**.c", "a.b.c") && !PatternReaches("a.**.b.**.c", "a.b.c")
  {
    var ls := ["a", "**", "b", "**", "c"];
    SplitOfWitness(ls);
    GapOfWitness(ls);
    WithoutDoublesOfWitness(ls);
    GapMissesHost("a.**.b.**.c", "a.b.c");
  }

  lemma GapMissesHost(pattern: string, host: string)
    requires Gap(Split(pattern)) && Split(host) == WithoutDoubles(Split(pattern))
    ensures PatternCovers(pattern, host) && !PatternReaches(pattern, host)
  {
    GapMisses(Split(pattern));
  }

  lemma SplitOfWitness(ls: seq<string>)
    requires ls == ["a", "**", "b", "**", "c"]
    ensures Split("a.**.b.**.c") == ls && Split("a.b.c") == ["a", "b", "c"]
  {
    SplitJoin(ls);
    SplitJoin(["a", "b", "c"]);
    assert Join(ls[4..]) == "c";
    assert Join(ls[3..]) == "**.c" by { assert ls[3..][1..] == ls[4..]; }
    assert Join(ls[2..]) == "b.**.c" by { assert ls[2..][1..] == ls[3..]; }
    assert Join(ls[1..]) == "**.b.**.c" by { assert ls[1..][1..] == ls[2..]; }
    assert Join(["a", "b", "c"]) == "a.b.c";
  }

  lemma GapOfWitness(ls: seq<string>)
    requires ls == ["a", "**", "b", "**", "c"]
    ensures Gap(ls)
  {
    assert IndexOf(ls, "**") == 1;
    assert After(ls, "**")[1] == "**";
  }

  lemma WithoutDoublesOfWitness(ls: seq<string>)
    requires ls == ["a", "**", "b", "**", "c"]
    ensures WithoutDoubles(ls) == ["a", "b", "c"]
  {
    assert WithoutDoubles(ls[4..]) == ["c"];
    assert WithoutDoubles(ls[3..]) == ["c"] by { assert ls[3..][1..] == ls[4..]; }
    assert WithoutDoubles(ls[2..]) == ["b", "c"] by { assert ls[2..][1..] == ls[3..]; }
    assert WithoutDoubles(ls[1..]) == ["b", "c"] by { assert ls[1..][1..] == ls[2..]; }
  }
}
