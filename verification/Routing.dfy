/**
 * Which registration serves a host: the best of those that reach it, under one total order.
 * Nothing here mentions how the router stores its patterns.
 */
module Routing {
  import opened Labels
  import opened Glob
  import opened Patterns
  import opened Selection

  datatype Registration = Registration(pattern: string, index: nat) {
    function Parts(): seq<string> {
      Split(pattern)
    }

    function Tier(): Tier {
      TierOf(Parts())
    }
  }

  /** Preferred on the patterns alone: an earlier tier; more known labels; earlier literals. */
  ghost predicate Outranks(s: Tier, a: seq<string>, t: Tier, b: seq<string>) {
    s.Rank() < t.Rank() ||
    (s == t &&
     match s
     case LeadingDouble => |a| > |b|
     case TrailingDouble => |a| > |b|
     case Trie => LiteralFirst(a, b)
     case _ => false)
  }

  /** Preferred, the order of registration deciding between patterns of equal rank. */
  ghost predicate Prefers(s: Tier, a: seq<string>, t: Tier, b: seq<string>, later: bool) {
    Outranks(s, a, t, b) || (!Outranks(t, b, s, a) && later == s.LastWins())
  }

  ghost function ByRank(): Preference<Registration> {
    (a: Registration, b: Registration, later: bool) => Prefers(a.Tier(), a.Parts(), b.Tier(), b.Parts(), later)
  }

  ghost function Reaching(host: seq<string>): Registration -> bool {
    (r: Registration) => Reaches(r.Parts(), host)
  }

  /** The registration that serves a host: it reaches the host and is preferred to all others that do. */
  ghost predicate Serves(regs: seq<Registration>, host: seq<string>, k: int) {
    IsBest(regs, Reaching(host), ByRank(), k)
  }

  // ---- The preference is lawful on the registrations that reach one host ----

  lemma OutranksAsymmetric(s: Tier, a: seq<string>, t: Tier, b: seq<string>)
    requires Outranks(s, a, t, b)
    ensures !Outranks(t, b, s, a)
  {
    if s == t && s.Trie? { LiteralFirstAsymmetric(a, b); }
  }

  lemma PrefersTotal(s: Tier, a: seq<string>, t: Tier, b: seq<string>, later: bool)
    ensures Prefers(s, a, t, b, later) <==> !Prefers(t, b, s, a, !later)
  {
    if Outranks(s, a, t, b) { OutranksAsymmetric(s, a, t, b); }
    if Outranks(t, b, s, a) { OutranksAsymmetric(t, b, s, a); }
  }

  lemma PrefersTransitive(host: seq<string>, s: Tier, a: seq<string>, t: Tier, b: seq<string>, u: Tier, c: seq<string>,
                          l: bool, m: bool, n: bool)
    requires s.Trie? ==> Fits(a, host)
    requires t.Trie? ==> Fits(b, host)
    requires u.Trie? ==> Fits(c, host)
    requires Prefers(s, a, t, b, l) && Prefers(t, b, u, c, m) && (l == m ==> n == l)
    ensures Prefers(s, a, u, c, n)
  {
    if s == t && s.Trie? && a != b { FittingComparable(a, b, host, 0); }
    if t == u && t.Trie? && b != c { FittingComparable(b, c, host, 0); }
    if s == t == u && s.Trie? && a != b && b != c { LiteralFirstTransitive(a, b, c); }
    if Outranks(s, a, u, c) { OutranksAsymmetric(s, a, u, c); }
  }

  lemma RankLawful(host: seq<string>)
    ensures Lawful(Reaching(host), ByRank())
  {
    var fits, beats := Reaching(host), ByRank();
    forall a, b, l | fits(a) && fits(b)
      ensures beats(a, b, l) <==> !beats(b, a, !l)
    {
      PrefersTotal(a.Tier(), a.Parts(), b.Tier(), b.Parts(), l);
    }
    forall a, b, c, l, m, n | fits(a) && fits(b) && fits(c) && (l == m ==> n == l) && beats(a, b, l) && beats(b, c, m)
      ensures beats(a, c, n)
    {
      ReachesFixed(a, host);
      ReachesFixed(b, host);
      ReachesFixed(c, host);
      PrefersTransitive(host, a.Tier(), a.Parts(), b.Tier(), b.Parts(), c.Tier(), c.Parts(), l, m, n);
    }
  }

  lemma ReachesFixed(r: Registration, host: seq<string>)
    requires Reaches(r.Parts(), host)
    ensures r.Tier().Trie? ==> Fits(r.Parts(), host)
  {
    if r.Tier().Trie? { TrieReach(r.Parts(), host); }
  }

  /** The position of the registration that serves a host. */
  ghost function Server(regs: seq<Registration>, host: seq<string>): (r: Option<int>)
    ensures forall k :: r == Some(k) <==> Serves(regs, host, k)
  {
    RankLawful(host);
    Pick(regs, Reaching(host), ByRank())
  }

  lemma NoServer(regs: seq<Registration>, host: seq<string>)
    ensures Server(regs, host).None? <==> forall k | 0 <= k < |regs| :: !Reaching(host)(regs[k])
  {
    RankLawful(host);
  }

  /** The index the registrations assign to a host: that of the registration that serves it. */
  ghost function Route(regs: seq<Registration>, host: string): (r: Option<nat>)
    ensures r.Some? ==> exists k :: Serves(regs, Split(host), k) && regs[k].index == r.value
  {
    match Server(regs, Split(host))
    case None => None
    case Some(k) => assert Serves(regs, Split(host), k); Some(regs[k].index)
  }

  lemma RouteIs(regs: seq<Registration>, host: string, k: int)
    requires Serves(regs, Split(host), k)
    ensures Route(regs, host) == Some(regs[k].index)
  {
    assert Server(regs, Split(host)) == Some(k);
  }

  /** A host is unrouted exactly when no registered pattern reaches it. */
  lemma RouteNone(regs: seq<Registration>, host: string)
    ensures Route(regs, host).None? <==> forall k | 0 <= k < |regs| :: !PatternReaches(regs[k].pattern, host)
  {
    NoServer(regs, Split(host));
    assert forall k | 0 <= k < |regs| :: Reaching(Split(host))(regs[k]) <==> PatternReaches(regs[k].pattern, host);
  }

  // ---- What every run of registrations guarantees ----

  /** A routed index always belongs to a registration whose pattern covers the host. */
  lemma RouteSound(regs: seq<Registration>, host: string)
    ensures Route(regs, host).Some? ==>
              exists k ::
                0 <= k < |regs| && regs[k].index == Route(regs, host).value && PatternCovers(regs[k].pattern, host)
  {
    if Route(regs, host).Some? {
      var k :| Serves(regs, Split(host), k) && regs[k].index == Route(regs, host).value;
      assert Reaching(Split(host))(regs[k]);
      ReachesOnlyCovered(regs[k].Parts(), Split(host));
    }
  }

  /** A host goes unrouted only when every pattern that covers it is a gap pattern. */
  lemma RouteComplete(regs: seq<Registration>, host: string)
    ensures Route(regs, host).None? ==>
              forall k | 0 <= k < |regs| && PatternCovers(regs[k].pattern, host) :: Gap(regs[k].Parts())
    ensures (forall k | 0 <= k < |regs| :: !Gap(regs[k].Parts())) ==>
              (Route(regs, host).None? <==> forall k | 0 <= k < |regs| :: !PatternCovers(regs[k].pattern, host))
  {
    forall k | 0 <= k < |regs|
      ensures PatternReaches(regs[k].pattern, host) ==> PatternCovers(regs[k].pattern, host)
      ensures PatternCovers(regs[k].pattern, host) && !Gap(regs[k].Parts()) ==> PatternReaches(regs[k].pattern, host)
    {
      if PatternReaches(regs[k].pattern, host) { ReachesOnlyCovered(regs[k].Parts(), Split(host)); }
      if !Gap(regs[k].Parts()) { GapFreeReaches(regs[k].Parts(), Split(host)); }
    }
  }

  /** The new registration reaches the host, and is preferred, as the later one, to the one that serves it. */
  ghost predicate TakesOver(regs: seq<Registration>, reg: Registration, host: seq<string>) {
    Reaching(host)(reg) &&
    match Server(regs, host)
    case None => true
    case Some(k) => assert Serves(regs, host, k); ByRank()(reg, regs[k], true)
  }

  /** One more registration serves a host exactly if it takes over; otherwise the host is served as before. */
  lemma RegistrationServes(regs: seq<Registration>, reg: Registration, host: seq<string>)
    ensures Server(regs + [reg], host) == if TakesOver(regs, reg, host) then Some(|regs|) else Server(regs, host)
  {
    RankLawful(host);
    NoServer(regs, host);
    var all := regs + [reg];
    match Server(regs, host)
    case None =>
      if Reaching(host)(reg) { assert Serves(all, host, |regs|); } else { NoServer(all, host); }
    case Some(k) =>
      assert Serves(regs, host, k);
      if TakesOver(regs, reg, host) {
        BestTaken(regs, reg, Reaching(host), ByRank(), k);
      } else {
        BestStays(regs, reg, Reaching(host), ByRank(), k);
      }
  }

  /** So a registration changes a host's route, if at all, to its own index, and exactly by taking over. */
  lemma RegistrationDecides(regs: seq<Registration>, reg: Registration, host: string)
    ensures Route(regs + [reg], host) ==
            if TakesOver(regs, reg, Split(host)) then Some(reg.index) else Route(regs, host)
  {
    RegistrationServes(regs, reg, Split(host));
    if TakesOver(regs, reg, Split(host)) {
      RouteIs(regs + [reg], host, |regs|);
    } else if Server(regs, Split(host)).Some? {
      RouteIs(regs + [reg], host, Server(regs, Split(host)).value);
    }
  }

  /** Registering a pattern that does not cover a host leaves the host's route alone. */
  lemma RegistrationFrame(regs: seq<Registration>, reg: Registration, host: string)
    requires !PatternCovers(reg.pattern, host)
    ensures Route(regs + [reg], host) == Route(regs, host)
  {
    var h, all := Split(host), regs + [reg];
    if PatternReaches(reg.pattern, host) { ReachesOnlyCovered(reg.Parts(), h); }
    if Route(regs, host).Some? {
      var k :| Serves(regs, h, k) && regs[k].index == Route(regs, host).value;
      BestFrame(regs, reg, Reaching(h), ByRank(), k);
      RouteIs(all, host, k);
    } else {
      forall k | 0 <= k < |all| ensures !PatternReaches(all[k].pattern, host) {
        if k < |regs| { assert !PatternReaches(regs[k].pattern, host); }
      }
    }
  }

  /** No registration ever turns a routed host into an unrouted one. */
  lemma RegistrationKeepsRouted(regs: seq<Registration>, reg: Registration, host: string)
    requires Route(regs, host).Some?
    ensures Route(regs + [reg], host).Some?
  {
    var k :| 0 <= k < |regs| && PatternReaches(regs[k].pattern, host);
    assert PatternReaches((regs + [reg])[k].pattern, host);
  }

  /** Registering the host's own name, last, decides its route. */
  lemma ExactRegistrationWins(regs: seq<Registration>, host: string, index: nat)
    requires StarFree(host)
    ensures Route(regs + [Registration(host, index)], host) == Some(index)
  {
    var h := Split(host);
    StarFreeSplit(host);
    var all, k := regs + [Registration(host, index)], |regs|;
    StarFreeIsExact(h);
    SelfMatch(h);
    assert Reaching(h)(all[k]);
    forall j | 0 <= j < |all| && j != k && Reaching(h)(all[j])
      ensures ByRank()(all[k], all[j], true)
    {
      var t := all[j].Tier();
      assert all[k].Tier() == Exact;
    }
    RouteIs(all, host, k);
  }

  lemma StarFreeIsExact(ls: seq<string>)
    requires ls != [] && AllStarFree(ls)
    ensures TierOf(ls) == Exact
  {
    assert StarFree(ls[0]);
  }

  // ---- Order independence ----

  /** A registration that reaches the host and that no other such registration outranks. */
  ghost predicate Top(regs: seq<Registration>, host: seq<string>, r: Registration) {
    r in regs && Reaching(host)(r) && forall x | x in regs && Reaching(host)(x) :: !Above(x, r)
  }

  ghost predicate Above(a: Registration, b: Registration) {
    Outranks(a.Tier(), a.Parts(), b.Tier(), b.Parts())
  }

  /** All registrations that could come out on top, depending on order, give the same index. */
  ghost predicate TopsAgree(regs: seq<Registration>, host: seq<string>) {
    forall a, b | Top(regs, host, a) && Top(regs, host, b) :: a.index == b.index
  }

  ghost predicate OrderIrrelevant(regs: seq<Registration>, host: string) {
    forall other | multiset(other) == multiset(regs) :: Route(other, host) == Route(regs, host)
  }

  lemma SameMembers(regs: seq<Registration>, other: seq<Registration>)
    requires multiset(regs) == multiset(other)
    ensures forall r :: r in regs <==> r in other
  {
    forall r ensures r in regs <==> r in other {
      assert r in regs <==> r in multiset(regs);
      assert r in other <==> r in multiset(other);
    }
  }

  lemma PreferredNotBelow(a: Registration, x: Registration, later: bool)
    requires ByRank()(a, x, later)
    ensures !Above(x, a)
  {
    if Above(a, x) { OutranksAsymmetric(a.Tier(), a.Parts(), x.Tier(), x.Parts()); }
  }

  lemma NotBelowPreferred(a: Registration, x: Registration)
    requires !Above(x, a)
    ensures ByRank()(a, x, a.Tier().LastWins())
  {
  }

  lemma ServerIsTop(regs: seq<Registration>, host: seq<string>, k: int)
    requires Serves(regs, host, k)
    ensures Top(regs, host, regs[k])
  {
    forall x | x in regs && Reaching(host)(x) ensures !Above(x, regs[k]) {
      var j :| 0 <= j < |regs| && regs[j] == x;
      if j == k {
        if Above(x, x) { OutranksAsymmetric(x.Tier(), x.Parts(), x.Tier(), x.Parts()); }
      } else {
        PreferredNotBelow(regs[k], x, k > j);
      }
    }
  }

  /** A top registration serves the host in some order of registration. */
  lemma TopCanServe(regs: seq<Registration>, host: string, a: Registration) returns (other: seq<Registration>)
    requires Top(regs, Split(host), a)
    ensures multiset(other) == multiset(regs) && Route(other, host) == Some(a.index)
  {
    var h := Split(host);
    var i :| 0 <= i < |regs| && regs[i] == a;
    var toBack := a.Tier().LastWins();
    other := Moved(regs, i, toBack);
    var k := if toBack then |other| - 1 else 0;
    SameMembers(regs, other);
    forall j | 0 <= j < |other| && j != k && Reaching(h)(other[j])
      ensures ByRank()(other[k], other[j], k > j)
    {
      assert other[j] in regs;
      NotBelowPreferred(a, other[j]);
    }
    RouteIs(other, host, k);
  }

  lemma TopRoutes(regs: seq<Registration>, host: string, a: Registration)
    requires Top(regs, Split(host), a)
    ensures exists b :: Top(regs, Split(host), b) && Route(regs, host) == Some(b.index)
  {
    NoServer(regs, Split(host));
    var i :| 0 <= i < |regs| && regs[i] == a;
    var k := Server(regs, Split(host)).value;
    assert Serves(regs, Split(host), k);
    ServerIsTop(regs, Split(host), k);
    RouteIs(regs, host, k);
  }

  lemma RouteHasTop(regs: seq<Registration>, host: string)
    requires Route(regs, host).Some?
    ensures exists b :: Top(regs, Split(host), b) && Route(regs, host) == Some(b.index)
  {
    var k :| Serves(regs, Split(host), k) && regs[k].index == Route(regs, host).value;
    ServerIsTop(regs, Split(host), k);
  }

  lemma TopPermuted(regs: seq<Registration>, other: seq<Registration>, host: seq<string>, r: Registration)
    requires multiset(regs) == multiset(other) && Top(regs, host, r)
    ensures Top(other, host, r)
  {
    SameMembers(regs, other);
  }

  /** The order of registration is irrelevant to a host exactly when its top registrations agree. */
  lemma OrderIrrelevantExactly(regs: seq<Registration>, host: string)
    ensures OrderIrrelevant(regs, host) <==> TopsAgree(regs, Split(host))
  {
    var h := Split(host);
    if TopsAgree(regs, h) {
      forall other | multiset(other) == multiset(regs) ensures Route(other, host) == Route(regs, host) {
        if Route(other, host).Some? {
          RouteHasTop(other, host);
          var b :| Top(other, h, b) && Route(other, host) == Some(b.index);
          TopPermuted(other, regs, h, b);
          TopRoutes(regs, host, b);
        } else if Route(regs, host).Some? {
          RouteHasTop(regs, host);
          var b :| Top(regs, h, b) && Route(regs, host) == Some(b.index);
          TopPermuted(regs, other, h, b);
          TopRoutes(other, host, b);
        }
      }
    } else {
      var a, b :| Top(regs, h, a) && Top(regs, h, b) && a.index != b.index;
      var first := TopCanServe(regs, host, a);
      var second := TopCanServe(regs, host, b);
    }
  }

  /** The tiers in which distinct patterns that reach one host are always told apart by the patterns themselves. */
  predicate Keyed(t: Tier) {
    t.LastWins() || t.Trie?
  }

  /** The labels of a pattern in a keyed tier, as far as the host and the pattern's length determine them. */
  lemma KeyedDetermined(ls: seq<string>, h: seq<string>)
    requires ls != [] && Reaches(ls, h) && Keyed(TierOf(ls)) && !TierOf(ls).Trie?
    ensures |ls| <= |h| + 1
    ensures ls == match TierOf(ls)
                  case Exact => h
                  case LeadingDouble => ["**"] + h[|h| - (|ls| - 1)..]
                  case TrailingDouble => h[..|ls| - 1] + ["**"]
                  case LeadingStar => ["*"] + h[1..]
                  case TrailingStar => h[..|h| - 1] + ["*"]
                  case _ => []
    ensures TierOf(ls) in {Exact, LeadingStar, TrailingStar} ==> |ls| == |h|
  {
    match TierOf(ls) {
      case Exact => ExactReach(ls, h);
      case LeadingDouble => LeadingDoubleReach(ls, h);
      case TrailingDouble => TrailingDoubleReach(ls, h);
      case LeadingStar => LeadingStarReach(ls, h);
      case TrailingStar => TrailingStarReach(ls, h);
      case _ =>
    }
  }

  /** Distinct patterns in keyed tiers that reach one host: one of them outranks the other. */
  lemma KeyedComparable(a: seq<string>, b: seq<string>, h: seq<string>)
    requires a != [] && b != [] && a != b
    requires Reaches(a, h) && Reaches(b, h) && Keyed(TierOf(a)) && Keyed(TierOf(b))
    ensures Outranks(TierOf(a), a, TierOf(b), b) || Outranks(TierOf(b), b, TierOf(a), a)
  {
    if TierOf(a) == TierOf(b) {
      if TierOf(a).Trie? {
        TrieReach(a, h);
        TrieReach(b, h);
        FittingComparable(a, b, h, 0);
      } else {
        KeyedDetermined(a, h);
        KeyedDetermined(b, h);
      }
    }
  }

  /** Pairwise distinct patterns of keyed tiers may be registered in any order. */
  lemma KeyedOrderIrrelevant(regs: seq<Registration>, host: string)
    requires forall i | 0 <= i < |regs| :: Keyed(regs[i].Tier())
    requires forall i, j | 0 <= i < j < |regs| :: regs[i].pattern != regs[j].pattern
    ensures OrderIrrelevant(regs, host)
  {
    var h := Split(host);
    forall a, b | Top(regs, h, a) && Top(regs, h, b) ensures a.index == b.index {
      var i :| 0 <= i < |regs| && regs[i] == a;
      var j :| 0 <= j < |regs| && regs[j] == b;
      if i != j {
        SplitInjective(a.pattern, b.pattern);
        KeyedComparable(a.Parts(), b.Parts(), h);
      }
    }
    OrderIrrelevantExactly(regs, host);
  }
}
