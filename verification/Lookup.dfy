/** What a probe of one store says about the registrations of its tier, and how the answers combine. */
module Lookup {
  import opened Labels
  import opened Glob
  import opened Patterns
  import opened Selection
  import opened Routing
  import opened Stores

  ghost function ReachingIn(h: seq<string>, t: Tier): Registration -> bool {
    (r: Registration) => r.Tier() == t && Reaches(r.Parts(), h)
  }

  /** `r` is the index of the best registration of tier `t` that reaches the host, or None if there is none. */
  ghost predicate TierAnswer(regs: seq<Registration>, h: seq<string>, t: Tier, r: Option<nat>) {
    match r
    case None => forall k | 0 <= k < |regs| :: !ReachingIn(h, t)(regs[k])
    case Some(v) => exists k :: IsBest(regs, ReachingIn(h, t), ByRank(), k) && regs[k].index == v
  }

  ghost predicate NoneBefore(regs: seq<Registration>, h: seq<string>, n: nat) {
    forall k | 0 <= k < |regs| && Reaching(h)(regs[k]) :: n <= regs[k].Tier().Rank()
  }

  lemma TierMisses(regs: seq<Registration>, h: seq<string>, t: Tier)
    requires NoneBefore(regs, h, t.Rank()) && TierAnswer(regs, h, t, None)
    ensures NoneBefore(regs, h, t.Rank() + 1)
  {
    forall k | 0 <= k < |regs| && Reaching(h)(regs[k]) ensures t.Rank() + 1 <= regs[k].Tier().Rank() {
      assert !ReachingIn(h, t)(regs[k]);
      if regs[k].Tier().Rank() == t.Rank() { RankInjective(regs[k].Tier(), t); }
    }
  }

  lemma RankInjective(s: Tier, t: Tier)
    requires s.Rank() == t.Rank()
    ensures s == t
  {
  }

  /** The first tier with an answer has the registration that serves the host. */
  lemma TierHits(regs: seq<Registration>, host: string, t: Tier, v: nat)
    requires NoneBefore(regs, Split(host), t.Rank()) && TierAnswer(regs, Split(host), t, Some(v))
    ensures Route(regs, host) == Some(v)
  {
    var h := Split(host);
    var k :| IsBest(regs, ReachingIn(h, t), ByRank(), k) && regs[k].index == v;
    forall j | 0 <= j < |regs| && j != k && Reaching(h)(regs[j])
      ensures ByRank()(regs[k], regs[j], k > j)
    {
      if regs[j].Tier() == t {
        assert ReachingIn(h, t)(regs[j]);
      } else {
        LowerRankPreferred(regs[k], regs[j], k > j);
      }
    }
    RouteIs(regs, host, k);
  }

  lemma LowerRankPreferred(a: Registration, b: Registration, later: bool)
    requires a.Tier().Rank() <= b.Tier().Rank() && a.Tier() != b.Tier()
    ensures ByRank()(a, b, later)
  {
    if a.Tier().Rank() == b.Tier().Rank() { RankInjective(a.Tier(), b.Tier()); }
  }

  // ---- Keyed tiers: at most one pattern of the tier, or of the tier and length, can reach the host ----

  ghost function Last(regs: seq<Registration>, ls: seq<string>): Option<nat> {
    match LastOf(regs, ls)
    case None => None
    case Some(k) => Some(regs[k].index)
  }

  /** If only the pattern `ls` can answer for the tier, the last registration of `ls` does. */
  lemma OnlyPattern(regs: seq<Registration>, h: seq<string>, t: Tier, ls: seq<string>)
    requires t.LastWins()
    requires forall k | 0 <= k < |regs| && ReachingIn(h, t)(regs[k]) :: regs[k].Parts() == ls
    requires forall k | 0 <= k < |regs| && regs[k].Parts() == ls :: ReachingIn(h, t)(regs[k])
    ensures TierAnswer(regs, h, t, Last(regs, ls))
  {
    if k :| LastOf(regs, ls) == Some(k) {
      assert ReachingIn(h, t)(regs[k]);
      forall j | 0 <= j < |regs| && j != k && ReachingIn(h, t)(regs[j])
        ensures ByRank()(regs[k], regs[j], k > j)
      {
        assert regs[j].Parts() == ls;
        LaterPreferred(regs[k], regs[j]);
      }
      assert IsBest(regs, ReachingIn(h, t), ByRank(), k);
    }
  }

  lemma LaterPreferred(a: Registration, b: Registration)
    requires a.Parts() == b.Parts() && a.Tier().LastWins()
    ensures ByRank()(a, b, true)
  {
  }

  function Get(store: map<string, nat>, key: string): Option<nat> {
    if key in store then Some(store[key]) else None
  }

  lemma ExactReaching(r: Registration, host: string)
    ensures ReachingIn(Split(host), Exact)(r) <==> StarFree(host) && r.Parts() == Split(host)
  {
    StarFreeSplit(host);
    if r.Tier() == Exact { ExactReach(r.Parts(), Split(host)); }
    if StarFree(host) && r.Parts() == Split(host) {
      WrapExact(host);
      assert Wrap([], host, []) == Split(host);
    }
  }

  lemma ExactAnswer(exact: map<string, nat>, regs: seq<Registration>, host: string)
    requires KeyedOk(exact, regs, [], [])
    ensures TierAnswer(regs, Split(host), Exact, Get(exact, host))
  {
    var h := Split(host);
    assert Filed(host in exact, if host in exact then exact[host] else 0, regs, [], host, []);
    assert Wrap([], host, []) == h;
    forall k | 0 <= k < |regs| ensures ReachingIn(h, Exact)(regs[k]) <==> StarFree(host) && regs[k].Parts() == h {
      ExactReaching(regs[k], host);
    }
    if StarFree(host) { OnlyPattern(regs, h, Exact, h); }
  }

  lemma LeadingStarAnswer(leading: map<string, nat>, regs: seq<Registration>, host: string)
    requires KeyedOk(leading, regs, ["*"], [])
    ensures TierAnswer(regs, Split(host), LeadingStar,
                       match SplitOnce(host) case None => None case Some((_, rest)) => Get(leading, rest))
  {
    var h := Split(host);
    match SplitOnce(host)
    case None =>
      SplitDotFree(host);
      forall k | 0 <= k < |regs| ensures !ReachingIn(h, LeadingStar)(regs[k]) {
        if regs[k].Tier() == LeadingStar { LeadingStarReach(regs[k].Parts(), h); }
      }
    case Some((first, rest)) =>
      SplitAtDot(first, rest);
      SplitDotFree(first);
      assert h[1..] == Split(rest);
      LeadingStarProbe(leading, regs, h, rest);
  }

  lemma LeadingStarProbe(leading: map<string, nat>, regs: seq<Registration>, h: seq<string>, rest: string)
    requires KeyedOk(leading, regs, ["*"], []) && h != [] && h[1..] == Split(rest)
    ensures TierAnswer(regs, h, LeadingStar, Get(leading, rest))
  {
    var ls := Wrap(["*"], rest, []);
    assert Filed(rest in leading, if rest in leading then leading[rest] else 0, regs, ["*"], rest, []);
    forall r: Registration ensures ReachingIn(h, LeadingStar)(r) <==> StarFree(rest) && r.Parts() == ls {
      LeadingStarReaching(r, h, rest);
    }
    if StarFree(rest) { OnlyPattern(regs, h, LeadingStar, ls); }
  }

  lemma LeadingStarReaching(r: Registration, h: seq<string>, rest: string)
    requires h != [] && h[1..] == Split(rest)
    ensures ReachingIn(h, LeadingStar)(r) <==> StarFree(rest) && r.Parts() == Wrap(["*"], rest, [])
  {
    var ls := Wrap(["*"], rest, []);
    StarFreeSplit(rest);
    assert ls[1..] == Split(rest);
    if r.Tier() == LeadingStar { LeadingStarReach(r.Parts(), h); }
    if StarFree(rest) && r.Parts() == ls { WrapLeading("*", rest); LeadingStarReach(ls, h); }
  }

  lemma TrailingStarAnswer(trailing: map<string, nat>, regs: seq<Registration>, host: string)
    requires KeyedOk(trailing, regs, [], ["*"])
    ensures TierAnswer(regs, Split(host), TrailingStar,
                       match RSplitOnce(host) case None => None case Some((prefix, _)) => Get(trailing, prefix))
  {
    var h := Split(host);
    match RSplitOnce(host)
    case None =>
      SplitDotFree(host);
      forall k | 0 <= k < |regs| ensures !ReachingIn(h, TrailingStar)(regs[k]) {
        if regs[k].Tier() == TrailingStar { TrailingStarReach(regs[k].Parts(), h); }
      }
    case Some((prefix, final)) =>
      SplitAtDot(prefix, final);
      SplitDotFree(final);
      assert h[..|h| - 1] == Split(prefix);
      TrailingStarProbe(trailing, regs, h, prefix);
  }

  lemma TrailingStarProbe(trailing: map<string, nat>, regs: seq<Registration>, h: seq<string>, prefix: string)
    requires KeyedOk(trailing, regs, [], ["*"]) && h != [] && h[..|h| - 1] == Split(prefix)
    ensures TierAnswer(regs, h, TrailingStar, Get(trailing, prefix))
  {
    var ls := Wrap([], prefix, ["*"]);
    assert Filed(prefix in trailing, if prefix in trailing then trailing[prefix] else 0, regs, [], prefix, ["*"]);
    forall r: Registration ensures ReachingIn(h, TrailingStar)(r) <==> StarFree(prefix) && r.Parts() == ls {
      TrailingStarReaching(r, h, prefix);
    }
    if StarFree(prefix) { OnlyPattern(regs, h, TrailingStar, ls); }
  }

  lemma TrailingStarReaching(r: Registration, h: seq<string>, prefix: string)
    requires h != [] && h[..|h| - 1] == Split(prefix)
    ensures ReachingIn(h, TrailingStar)(r) <==> StarFree(prefix) && r.Parts() == Wrap([], prefix, ["*"])
  {
    var ls := Wrap([], prefix, ["*"]);
    StarFreeSplit(prefix);
    assert ls[..|ls| - 1] == Split(prefix);
    if r.Tier() == TrailingStar { TrailingStarReach(r.Parts(), h); }
    if StarFree(prefix) && r.Parts() == ls { WrapTrailing("*", prefix); TrailingStarReach(ls, h); }
  }

  lemma CatchAllAnswer(c: Option<nat>, regs: seq<Registration>, h: seq<string>)
    requires CatchAllOk(c, regs)
    ensures TierAnswer(regs, h, CatchAll, c)
  {
    forall k | 0 <= k < |regs| ensures ReachingIn(h, CatchAll)(regs[k]) <==> Bare(regs[k].Parts()) {
      BareTier(regs[k].Parts());
    }
    if k :| FirstBare(regs, k) && c == Some(regs[k].index) {
      forall j | 0 <= j < |regs| && j != k && ReachingIn(h, CatchAll)(regs[j])
        ensures ByRank()(regs[k], regs[j], k > j)
      {
        EarlierPreferred(regs[k], regs[j], CatchAll);
      }
      assert IsBest(regs, ReachingIn(h, CatchAll), ByRank(), k);
    }
  }

  lemma BareTier(ls: seq<string>)
    requires ls != []
    ensures TierOf(ls) == CatchAll <==> Bare(ls)
  {
  }

  lemma EarlierPreferred(a: Registration, b: Registration, t: Tier)
    requires a.Tier() == b.Tier() == t && t in {InnerStar, InnerDouble, Complex, CatchAll}
    ensures ByRank()(a, b, false)
  {
  }

  lemma NoneSkipped(regs: seq<Registration>, h: seq<string>, t: Tier, i: int, k: int)
    requires 0 <= i <= |Picked(regs, t)|
    requires forall j | 0 <= j < i :: !ReachingIn(h, t)(regs[Picked(regs, t)[j]])
    requires 0 <= k < |regs| && ReachingIn(h, t)(regs[k])
    ensures i < |Picked(regs, t)| && Picked(regs, t)[i] <= k
  {
    var j := PickedHas(regs, t, k);
    FirstHitFirst(regs, Picked(regs, t), ReachingIn(h, t), i, j);
  }

  lemma FirstHitFirst<T>(items: seq<T>, ps: seq<int>, hit: T -> bool, i: int, j: int)
    requires forall m | 0 <= m < |ps| :: 0 <= ps[m] < |items|
    requires forall m, n | 0 <= m < n < |ps| :: ps[m] < ps[n]
    requires 0 <= i <= |ps| && forall m | 0 <= m < i :: !hit(items[ps[m]])
    requires 0 <= j < |ps| && hit(items[ps[j]])
    ensures i < |ps| && ps[i] <= ps[j]
  {
  }

  lemma PickedHas(regs: seq<Registration>, t: Tier, k: int) returns (j: int)
    requires 0 <= k < |regs| && regs[k].Tier() == t
    ensures 0 <= j < |Picked(regs, t)| && Picked(regs, t)[j] == k
  {
    assert OfTier(t)(regs[k]);
    j :| 0 <= j < |Picked(regs, t)| && Picked(regs, t)[j] == k;
  }

  /** A list store's first matching entry answers for its tier. */
  lemma FirstInList(regs: seq<Registration>, h: seq<string>, t: Tier, i: int)
    requires t in {InnerStar, InnerDouble, Complex}
    requires 0 <= i <= |Picked(regs, t)|
    requires forall j | 0 <= j < i :: !ReachingIn(h, t)(regs[Picked(regs, t)[j]])
    requires i < |Picked(regs, t)| ==> ReachingIn(h, t)(regs[Picked(regs, t)[i]])
    ensures TierAnswer(regs, h, t, if i < |Picked(regs, t)| then Some(regs[Picked(regs, t)[i]].index) else None)
  {
    var ps := Picked(regs, t);
    forall k | 0 <= k < |regs| && ReachingIn(h, t)(regs[k])
      ensures i < |ps| && ps[i] <= k
    {
      NoneSkipped(regs, h, t, i, k);
    }
    if i < |ps| {
      forall k | 0 <= k < |regs| && k != ps[i] && ReachingIn(h, t)(regs[k])
        ensures ByRank()(regs[ps[i]], regs[k], ps[i] > k)
      {
        EarlierPreferred(regs[ps[i]], regs[k], t);
      }
      assert IsBest(regs, ReachingIn(h, t), ByRank(), ps[i]);
    }
  }

  /** What an entry of a list store is compared with is what its registration reaches. */
  lemma SegmentsReach(regs: seq<Registration>, h: seq<string>, t: Tier, x: string, i: int)
    requires (t == InnerStar && x == "*") || (t == InnerDouble && x == "**")
    requires 0 <= i < |Picked(regs, t)|
    ensures regs[Picked(regs, t)[i]].Tier() == t
    ensures x in regs[Picked(regs, t)[i]].Parts()
    ensures
      var ls := regs[Picked(regs, t)[i]].Parts();
      ReachingIn(h, t)(regs[Picked(regs, t)[i]]) <==>
        if t == InnerStar then AroundStar(Before(ls, x), After(ls, x), h) else Around(Before(ls, x), After(ls, x), h)
  {
    var r := regs[Picked(regs, t)[i]];
    assert OfTier(t)(r);
    if t == InnerStar { InnerStarReach(r.Parts(), h); }
  }

  lemma ComplexReach(regs: seq<Registration>, h: seq<string>, i: int)
    requires 0 <= i < |Picked(regs, Complex)|
    ensures ReachingIn(h, Complex)(regs[Picked(regs, Complex)[i]]) <==>
            Matches(regs[Picked(regs, Complex)[i]].Parts(), h)
  {
    assert OfTier(Complex)(regs[Picked(regs, Complex)[i]]);
  }

  lemma TrieAnswer(trie: map<seq<string>, nat>, regs: seq<Registration>, h: seq<string>, r: Option<nat>)
    requires TrieOk(trie, regs)
    requires r.None? ==> forall ls | ls in trie :: !Fits(ls, h)
    requires r.Some? ==> exists ls :: ls in trie && trie[ls] == r.value && Fits(ls, h) &&
                           forall other | other in trie && Fits(other, h) && other != ls :: LiteralFirst(ls, other)
    ensures TierAnswer(regs, h, Trie, r)
  {
    forall k | 0 <= k < |regs|
      ensures ReachingIn(h, Trie)(regs[k]) <==> regs[k].Parts() in trie && Fits(regs[k].Parts(), h)
    {
      assert TrieFiled(trie, regs, regs[k].Parts());
      if regs[k].Tier() == Trie { TrieReach(regs[k].Parts(), h); }
    }
    if r.Some? {
      var ls :| ls in trie && trie[ls] == r.value && Fits(ls, h) &&
        forall other | other in trie && Fits(other, h) && other != ls :: LiteralFirst(ls, other);
      assert TrieFiled(trie, regs, ls);
      var k := FirstOf(regs, ls).value;
      forall j | 0 <= j < |regs| && j != k && ReachingIn(h, Trie)(regs[j])
        ensures ByRank()(regs[k], regs[j], k > j)
      {
        assert ls != regs[j].Parts() ==> LiteralFirst(ls, regs[j].Parts());
        TriePreferred(regs[k], regs[j], k > j);
      }
      assert IsBest(regs, ReachingIn(h, Trie), ByRank(), k);
    }
  }

  lemma TriePreferred(a: Registration, b: Registration, later: bool)
    requires a.Tier() == Trie && b.Tier() == Trie
    requires if a.Parts() == b.Parts() then !later else LiteralFirst(a.Parts(), b.Parts())
    ensures ByRank()(a, b, later)
  {
    if a.Parts() == b.Parts() && LiteralFirst(a.Parts(), b.Parts()) { LiteralFirstAsymmetric(a.Parts(), b.Parts()); }
  }

  // ---- The tiers keyed by number of known labels ----

  /** The known labels of the only pattern with `n` of them that could reach the host. */
  function KnownEnd(h: seq<string>, t: Tier, n: nat): seq<string>
    requires n <= |h|
  {
    if t == LeadingDouble then h[|h| - n..] else h[..n]
  }

  ghost predicate CountedFor(store: map<nat, map<string, nat>>, regs: seq<Registration>, t: Tier) {
    if t == LeadingDouble then CountedOk(store, regs, ["**"], [])
    else t == TrailingDouble && CountedOk(store, regs, [], ["**"])
  }

  ghost function DoublePattern(known: seq<string>, t: Tier): seq<string> {
    if t == LeadingDouble then ["**"] + known else known + ["**"]
  }

  /** A double-star edge pattern reaches the host exactly if its known labels are the host's at that end. */
  lemma DoubleReach(r: Registration, h: seq<string>, t: Tier)
    requires t == LeadingDouble || t == TrailingDouble
    requires r.Tier() == t
    ensures |r.Parts()| > 1
    ensures ReachingIn(h, t)(r) <==>
            |r.Parts()| - 1 <= |h| && r.Parts() == DoublePattern(KnownEnd(h, t, |r.Parts()| - 1), t)
    ensures ReachingIn(h, t)(r) ==> AllStarFree(KnownEnd(h, t, |r.Parts()| - 1))
  {
    if t == LeadingDouble {
      LeadingDoubleReach(r.Parts(), h);
    } else {
      TrailingDoubleReach(r.Parts(), h);
      var n := |r.Parts()| - 1;
      assert n <= |h| ==> (KnownEnd(h, t, n) + ["**"])[..n] == h[..n];
    }
  }

  lemma DoublePatternTier(known: seq<string>, t: Tier)
    requires t == LeadingDouble || t == TrailingDouble
    requires known != [] && AllStarFree(known) && AllDotFree(known)
    ensures TierOf(DoublePattern(known, t)) == t
  {
    SplitJoin(known);
    StarFreeSplit(Join(known));
    if t == LeadingDouble {
      WrapLeading("**", Join(known));
      assert Wrap(["**"], Join(known), []) == DoublePattern(known, t);
    } else {
      WrapTrailing("**", Join(known));
      assert Wrap([], Join(known), ["**"]) == DoublePattern(known, t);
    }
  }

  /** Probing the map for `n` known labels finds the last registration of the one pattern it could be. */
  lemma CountedProbe(store: map<nat, map<string, nat>>, regs: seq<Registration>, h: seq<string>, t: Tier, n: nat)
    requires CountedFor(store, regs, t) && AllDotFree(h)
    requires 1 <= n <= |h|
    ensures
      var known := KnownEnd(h, t, n);
      var last := LastOf(regs, DoublePattern(known, t));
      && (n in store && Join(known) in store[n] <==> AllStarFree(known) && last.Some?)
      && (n in store && Join(known) in store[n] ==> store[n][Join(known)] == regs[last.value].index)
  {
    var known := KnownEnd(h, t, n);
    SplitJoin(known);
    var key := Join(known);
    StarFreeSplit(key);
    if t == LeadingDouble {
      assert Filed(InCounted(store, key), AtCounted(store, key), regs, ["**"], key, []);
      assert Wrap(["**"], key, []) == DoublePattern(known, t);
    } else {
      assert Filed(InCounted(store, key), AtCounted(store, key), regs, [], key, ["**"]);
      assert Wrap([], key, ["**"]) == DoublePattern(known, t);
    }
  }

  /** No registration of the tier with `n` known labels reaches the host. */
  ghost predicate NoneOfLength(regs: seq<Registration>, h: seq<string>, t: Tier, n: int) {
    forall k | 0 <= k < |regs| && ReachingIn(h, t)(regs[k]) :: |regs[k].Parts()| - 1 != n
  }

  lemma CountedMiss(store: map<nat, map<string, nat>>, regs: seq<Registration>, h: seq<string>, t: Tier, n: nat)
    requires CountedFor(store, regs, t) && AllDotFree(h)
    requires n !in store || n > |h| || Join(KnownEnd(h, t, n)) !in store[n]
    ensures NoneOfLength(regs, h, t, n)
  {
    forall k | 0 <= k < |regs| && ReachingIn(h, t)(regs[k]) ensures |regs[k].Parts()| - 1 != n {
      DoubleReach(regs[k], h, t);
      if |regs[k].Parts()| - 1 == n { CountedProbe(store, regs, h, t, n); }
    }
  }

  lemma CountedHit(store: map<nat, map<string, nat>>, regs: seq<Registration>, h: seq<string>, t: Tier, n: nat)
    requires CountedFor(store, regs, t) && AllDotFree(h)
    requires n in store && 1 <= n <= |h| && Join(KnownEnd(h, t, n)) in store[n]
    requires forall m | m > n :: NoneOfLength(regs, h, t, m)
    ensures TierAnswer(regs, h, t, Some(store[n][Join(KnownEnd(h, t, n))]))
  {
    CountedProbe(store, regs, h, t, n);
    LongestAnswers(regs, h, t, n);
  }

  /** With no longer pattern in play, the last registration of the one with `n` known labels is the best. */
  lemma LongestAnswers(regs: seq<Registration>, h: seq<string>, t: Tier, n: nat)
    requires (t == LeadingDouble || t == TrailingDouble) && AllDotFree(h) && 1 <= n <= |h|
    requires AllStarFree(KnownEnd(h, t, n))
    requires forall m | m > n :: NoneOfLength(regs, h, t, m)
    requires LastOf(regs, DoublePattern(KnownEnd(h, t, n), t)).Some?
    ensures TierAnswer(regs, h, t, Some(regs[LastOf(regs, DoublePattern(KnownEnd(h, t, n), t)).value].index))
  {
    var ls := DoublePattern(KnownEnd(h, t, n), t);
    var k := LastOf(regs, ls).value;
    DoublePatternTier(KnownEnd(h, t, n), t);
    DoubleReach(regs[k], h, t);
    forall j | 0 <= j < |regs| && j != k && ReachingIn(h, t)(regs[j])
      ensures ByRank()(regs[k], regs[j], k > j)
    {
      ShorterOrEarlier(regs, h, t, n, k, j);
    }
    assert IsBest(regs, ReachingIn(h, t), ByRank(), k);
  }

  lemma SameLengthSamePattern(r: Registration, h: seq<string>, t: Tier, n: nat)
    requires (t == LeadingDouble || t == TrailingDouble) && 1 <= n <= |h|
    requires ReachingIn(h, t)(r) && |r.Parts()| - 1 == n
    ensures r.Parts() == DoublePattern(KnownEnd(h, t, n), t)
  {
    DoubleReach(r, h, t);
  }

  lemma DoublePatternLength(h: seq<string>, t: Tier, n: nat)
    requires n <= |h|
    ensures |DoublePattern(KnownEnd(h, t, n), t)| == n + 1
  {
  }

  lemma ShorterOrEarlier(regs: seq<Registration>, h: seq<string>, t: Tier, n: nat, k: int, j: int)
    requires (t == LeadingDouble || t == TrailingDouble) && 1 <= n <= |h|
    requires forall m | m > n :: NoneOfLength(regs, h, t, m)
    requires LastOf(regs, DoublePattern(KnownEnd(h, t, n), t)) == Some(k) && regs[k].Tier() == t
    requires 0 <= j < |regs| && j != k && ReachingIn(h, t)(regs[j])
    ensures ByRank()(regs[k], regs[j], k > j)
  {
    DoublePatternLength(h, t, n);
    NotLonger(regs, h, t, n, j);
    if |regs[j].Parts()| - 1 == n {
      SameLengthSamePattern(regs[j], h, t, n);
    }
    TierInMembership(regs[j], h, t);
    DoublePreferred(regs[k], regs[j], t, k > j);
  }

  lemma TierInMembership(r: Registration, h: seq<string>, t: Tier)
    requires ReachingIn(h, t)(r)
    ensures r.Tier() == t
  {
  }

  lemma NotLonger(regs: seq<Registration>, h: seq<string>, t: Tier, n: nat, j: int)
    requires forall m | m > n :: NoneOfLength(regs, h, t, m)
    requires 0 <= j < |regs| && ReachingIn(h, t)(regs[j])
    ensures |regs[j].Parts()| - 1 <= n
  {
    var m := |regs[j].Parts()| - 1;
    assert m > n ==> NoneOfLength(regs, h, t, m);
  }

  lemma DoublePreferred(a: Registration, b: Registration, t: Tier, later: bool)
    requires t == LeadingDouble || t == TrailingDouble
    requires a.Tier() == t && b.Tier() == t
    requires |a.Parts()| > |b.Parts()| || (|a.Parts()| == |b.Parts()| && later)
    ensures ByRank()(a, b, later)
  {
  }

  lemma CountedNone(regs: seq<Registration>, h: seq<string>, t: Tier)
    requires t == LeadingDouble || t == TrailingDouble
    requires forall m :: NoneOfLength(regs, h, t, m)
    ensures TierAnswer(regs, h, t, None)
  {
    forall k | 0 <= k < |regs| ensures !ReachingIn(h, t)(regs[k]) {
      assert NoneOfLength(regs, h, t, |regs[k].Parts()| - 1);
    }
  }

  // ---- What each probe must return, in terms of its store alone ----

  /** The largest number of known labels whose map holds the host's labels at that end decides. */
  ghost predicate LargestHit(store: map<nat, map<string, nat>>, h: seq<string>, t: Tier, r: Option<nat>) {
    if r.Some? then
      exists n :: HitAt(store, h, t, n) && store[n][Join(KnownEnd(h, t, n))] == r.value
                  && forall m | m > n :: !HitAt(store, h, t, m)
    else forall n :: !HitAt(store, h, t, n)
  }

  ghost predicate HitAt(store: map<nat, map<string, nat>>, h: seq<string>, t: Tier, n: nat) {
    n <= |h| && n in store && Join(KnownEnd(h, t, n)) in store[n]
  }

  /** A linear search: `r` is the index of the first entry that satisfies `hit`. */
  ghost predicate FirstHit<E>(list: seq<E>, hit: E -> bool, index: E -> nat, r: Option<nat>) {
    if r.Some? then exists i :: IsFirstHit(list, hit, i) && index(list[i]) == r.value
    else forall i | 0 <= i < |list| :: !hit(list[i])
  }

  ghost predicate IsFirstHit<E>(list: seq<E>, hit: E -> bool, i: int) {
    0 <= i < |list| && hit(list[i]) && forall j | 0 <= j < i :: !hit(list[j])
  }

  ghost function StarHit(h: seq<string>): Segments -> bool {
    (e: Segments) => AroundStar(e.0, e.1, h)
  }

  ghost function DoubleHit(h: seq<string>): Segments -> bool {
    (e: Segments) => Around(e.0, e.1, h)
  }

  ghost function SegmentsIndex(): Segments -> nat {
    (e: Segments) => e.2
  }

  ghost function ComplexHit(h: seq<string>): ((seq<string>, nat)) -> bool {
    (e: (seq<string>, nat)) => Matches(e.0, h)
  }

  ghost function ComplexIndex(): ((seq<string>, nat)) -> nat {
    (e: (seq<string>, nat)) => e.1
  }

  /** Of the stored patterns that fit the host, the one whose literals come earliest. */
  ghost predicate EarliestLiterals(trie: map<seq<string>, nat>, h: seq<string>, r: Option<nat>) {
    && (r.None? ==> forall ls | ls in trie :: !Fits(ls, h))
    && (r.Some? ==> exists ls :: ls in trie && trie[ls] == r.value && Fits(ls, h) &&
                      forall other | other in trie && Fits(other, h) && other != ls :: LiteralFirst(ls, other))
  }

  ghost predicate Answer(st: Snapshot, host: string, t: Tier, r: Option<nat>) {
    match t
    case Exact => r == Get(st.exact, host)
    case LeadingDouble => LargestHit(st.doubleLeading, Split(host), t, r)
    case TrailingDouble => LargestHit(st.doubleTrailing, Split(host), t, r)
    case InnerStar => FirstHit(st.innerStar, StarHit(Split(host)), SegmentsIndex(), r)
    case InnerDouble => FirstHit(st.innerDouble, DoubleHit(Split(host)), SegmentsIndex(), r)
    case Trie => EarliestLiterals(st.trie, Split(host), r)
    case Complex => FirstHit(st.complex, ComplexHit(Split(host)), ComplexIndex(), r)
    case LeadingStar => r == (match SplitOnce(host) case None => None case Some((_, rest)) => Get(st.leading, rest))
    case TrailingStar =>
      r == (match RSplitOnce(host) case None => None case Some((prefix, _)) => Get(st.trailing, prefix))
    case CatchAll => r == st.catchAll
  }

  /** The stores before rank `n` have been asked and had no answer. */
  ghost predicate InVain(st: Snapshot, host: string, n: nat) {
    && (n > 0 ==> Answer(st, host, Exact, None))
    && (n > 1 ==> Answer(st, host, LeadingDouble, None))
    && (n > 2 ==> Answer(st, host, TrailingDouble, None))
    && (n > 3 ==> Answer(st, host, InnerStar, None))
    && (n > 4 ==> Answer(st, host, InnerDouble, None))
    && (n > 5 ==> Answer(st, host, Trie, None))
    && (n > 6 ==> Answer(st, host, Complex, None))
    && (n > 7 ==> Answer(st, host, LeadingStar, None))
    && (n > 8 ==> Answer(st, host, TrailingStar, None))
    && (n > 9 ==> Answer(st, host, CatchAll, None))
  }

  // ---- Each probe answers for its tier ----

  lemma LargestHitAnswers(store: map<nat, map<string, nat>>, regs: seq<Registration>, h: seq<string>, t: Tier,
                          r: Option<nat>)
    requires CountedFor(store, regs, t) && AllDotFree(h) && LargestHit(store, h, t, r)
    ensures TierAnswer(regs, h, t, r)
  {
    if r.Some? {
      var n :| HitAt(store, h, t, n) && store[n][Join(KnownEnd(h, t, n))] == r.value
               && forall m | m > n :: !HitAt(store, h, t, m);
      forall m | m > n ensures NoneOfLength(regs, h, t, m) { CountedMiss(store, regs, h, t, m); }
      HitCounts(store, regs, h, t, n);
      CountedHit(store, regs, h, t, n);
    } else {
      forall n: int ensures NoneOfLength(regs, h, t, n) {
        if n >= 0 { assert !HitAt(store, h, t, n); CountedMiss(store, regs, h, t, n); }
        else { LengthNonNegative(regs, h, t, n); }
      }
      CountedNone(regs, h, t);
    }
  }

  lemma LengthNonNegative(regs: seq<Registration>, h: seq<string>, t: Tier, n: int)
    requires n < 0
    ensures NoneOfLength(regs, h, t, n)
  {
  }

  lemma HitCounts(store: map<nat, map<string, nat>>, regs: seq<Registration>, h: seq<string>, t: Tier, n: nat)
    requires CountedFor(store, regs, t) && HitAt(store, h, t, n)
    ensures n >= 1
  {
    var key := Join(KnownEnd(h, t, n));
    assert n in store && key in store[n];
    if t == LeadingDouble {
      assert CountedOk(store, regs, ["**"], []);
    } else {
      assert CountedOk(store, regs, [], ["**"]);
    }
    assert |Split(key)| == n;
  }

  /** If the entries of a list hit exactly as their registrations reach, the first hit answers for the tier. */
  lemma FirstHitAnswers<E>(list: seq<E>, hit: E -> bool, index: E -> nat,
                           regs: seq<Registration>, h: seq<string>, t: Tier, r: Option<nat>)
    requires t in {InnerStar, InnerDouble, Complex}
    requires |list| == |Picked(regs, t)|
    requires forall i | 0 <= i < |list| ::
               (hit(list[i]) <==> ReachingIn(h, t)(regs[Picked(regs, t)[i]]))
               && index(list[i]) == regs[Picked(regs, t)[i]].index
    requires FirstHit(list, hit, index, r)
    ensures TierAnswer(regs, h, t, r)
  {
    if r.Some? {
      var i :| IsFirstHit(list, hit, i) && index(list[i]) == r.value;
      assert forall j | 0 <= j < i :: !hit(list[j]);
      FirstInList(regs, h, t, i);
    } else {
      assert forall j | 0 <= j < |list| :: !hit(list[j]);
      FirstInList(regs, h, t, |list|);
    }
  }

  lemma InnerStarAnswer(list: seq<Segments>, regs: seq<Registration>, h: seq<string>, r: Option<nat>)
    requires ListOk(list, regs, InnerStar, "*") && FirstHit(list, StarHit(h), SegmentsIndex(), r)
    ensures TierAnswer(regs, h, InnerStar, r)
  {
    forall i | 0 <= i < |list|
      ensures StarHit(h)(list[i]) <==> ReachingIn(h, InnerStar)(regs[Picked(regs, InnerStar)[i]])
      ensures SegmentsIndex()(list[i]) == regs[Picked(regs, InnerStar)[i]].index
    {
      SegmentsReach(regs, h, InnerStar, "*", i);
    }
    FirstHitAnswers(list, StarHit(h), SegmentsIndex(), regs, h, InnerStar, r);
  }

  lemma InnerDoubleAnswer(list: seq<Segments>, regs: seq<Registration>, h: seq<string>, r: Option<nat>)
    requires ListOk(list, regs, InnerDouble, "**") && FirstHit(list, DoubleHit(h), SegmentsIndex(), r)
    ensures TierAnswer(regs, h, InnerDouble, r)
  {
    forall i | 0 <= i < |list|
      ensures DoubleHit(h)(list[i]) <==> ReachingIn(h, InnerDouble)(regs[Picked(regs, InnerDouble)[i]])
      ensures SegmentsIndex()(list[i]) == regs[Picked(regs, InnerDouble)[i]].index
    {
      SegmentsReach(regs, h, InnerDouble, "**", i);
    }
    FirstHitAnswers(list, DoubleHit(h), SegmentsIndex(), regs, h, InnerDouble, r);
  }

  lemma ComplexAnswer(list: seq<(seq<string>, nat)>, regs: seq<Registration>, h: seq<string>, r: Option<nat>)
    requires ComplexOk(list, regs) && FirstHit(list, ComplexHit(h), ComplexIndex(), r)
    ensures TierAnswer(regs, h, Complex, r)
  {
    forall i | 0 <= i < |list|
      ensures ComplexHit(h)(list[i]) <==> ReachingIn(h, Complex)(regs[Picked(regs, Complex)[i]])
      ensures ComplexIndex()(list[i]) == regs[Picked(regs, Complex)[i]].index
    {
      ComplexReach(regs, h, i);
    }
    FirstHitAnswers(list, ComplexHit(h), ComplexIndex(), regs, h, Complex, r);
  }

  lemma AnswerHolds(st: Snapshot, regs: seq<Registration>, host: string, t: Tier, r: Option<nat>)
    requires StoresOk(st, regs) && Answer(st, host, t, r)
    ensures TierAnswer(regs, Split(host), t, r)
  {
    var h := Split(host);
    match t
    case Exact => ExactAnswer(st.exact, regs, host);
    case LeadingDouble => LargestHitAnswers(st.doubleLeading, regs, h, t, r);
    case TrailingDouble => LargestHitAnswers(st.doubleTrailing, regs, h, t, r);
    case InnerStar => InnerStarAnswer(st.innerStar, regs, h, r);
    case InnerDouble => InnerDoubleAnswer(st.innerDouble, regs, h, r);
    case Trie => TrieAnswer(st.trie, regs, h, r);
    case Complex => ComplexAnswer(st.complex, regs, h, r);
    case LeadingStar => LeadingStarAnswer(st.leading, regs, host);
    case TrailingStar => TrailingStarAnswer(st.trailing, regs, host);
    case CatchAll => CatchAllAnswer(st.catchAll, regs, h);
  }

  // ---- The first answer in rank order is the route ----

  function TierAt(n: nat): (t: Tier)
    requires n <= 9
    ensures t.Rank() == n
  {
    match n
    case 0 => Exact
    case 1 => LeadingDouble
    case 2 => TrailingDouble
    case 3 => InnerStar
    case 4 => InnerDouble
    case 5 => Trie
    case 6 => Complex
    case 7 => LeadingStar
    case 8 => TrailingStar
    case _ => CatchAll
  }

  lemma {:induction false} InVainReachesNothing(st: Snapshot, regs: seq<Registration>, host: string, n: nat)
    requires n <= 10 && StoresOk(st, regs) && InVain(st, host, n)
    ensures NoneBefore(regs, Split(host), n)
  {
    if n > 0 {
      InVainReachesNothing(st, regs, host, n - 1);
      var t := TierAt(n - 1);
      InVainAt(st, host, n, t);
      AnswerHolds(st, regs, host, t, None);
      TierMisses(regs, Split(host), t);
    }
  }

  lemma InVainAt(st: Snapshot, host: string, n: nat, t: Tier)
    requires InVain(st, host, n) && t.Rank() < n
    ensures Answer(st, host, t, None)
  {
  }

  /** Asking the stores in rank order and taking the first answer gives the route of the host. */
  lemma FirstAnswerIsRoute(st: Snapshot, regs: seq<Registration>, host: string, t: Tier, r: Option<nat>)
    requires StoresOk(st, regs)
    requires InVain(st, host, t.Rank()) && Answer(st, host, t, r)
    requires r.Some? || t == CatchAll
    ensures r == Route(regs, host)
  {
    RankBound(t);
    InVainReachesNothing(st, regs, host, t.Rank());
    AnswerHolds(st, regs, host, t, r);
    if r.Some? {
      TierHits(regs, host, t, r.value);
    } else {
      TierMisses(regs, Split(host), t);
      NothingLeft(regs, host);
    }
  }

  /** The same for the stores that a run of registrations leaves behind. */
  lemma ReplayedRoute(regs: seq<Registration>, host: string, t: Tier, r: Option<nat>)
    requires InVain(Replay(regs), host, t.Rank()) && Answer(Replay(regs), host, t, r)
    requires r.Some? || t == CatchAll
    ensures r == Route(regs, host)
  {
    ReplayOk(regs);
    FirstAnswerIsRoute(Replay(regs), regs, host, t, r);
  }

  /** When every tier has been asked in vain, no registration reaches the host. */
  lemma NothingLeft(regs: seq<Registration>, host: string)
    requires NoneBefore(regs, Split(host), CatchAll.Rank() + 1)
    ensures Route(regs, host) == None
  {
    forall k | 0 <= k < |regs| ensures !Reaching(Split(host))(regs[k]) {
      RankBound(regs[k].Tier());
    }
    NoServer(regs, Split(host));
  }

  lemma RankBound(t: Tier)
    ensures t.Rank() <= CatchAll.Rank()
  {
  }

  /** The counts of a sorted map are walked from the largest down. */
  lemma {:induction false} Largest(s: set<nat>) returns (n: nat)
    requires s != {}
    ensures n in s && forall m | m in s :: m <= n
  {
    var x :| x in s;
    var rest := s - {x};
    n := x;
    if rest != {} {
      var y := Largest(rest);
      if y > x { n := y; }
    }
    forall m | m in s ensures m <= n {
      if m != x { assert m in rest; }
    }
  }
}
