/** The virtual-host router: ten stores behind `add_pattern` and `matches`. */
module HostRouters {
  import opened Labels
  import opened Glob
  import opened DpMatch
  import opened LabelTries
  import opened Patterns
  import opened Routing
  import opened Stores
  import opened Lookup

  predicate StartsWith(s: string, prefix: string) {
    prefix <= s
  }

  predicate EndsWith(s: string, suffix: string) {
    |suffix| <= |s| && s[|s| - |suffix|..] == suffix
  }

  /** `zip(..).all(|(expected, actual)| expected == actual)`. */
  predicate ZipEqual(expected: seq<string>, actual: seq<string>) {
    forall i | 0 <= i < |expected| && i < |actual| :: expected[i] == actual[i]
  }

  predicate MatchesSingleInternalWildcard(pre: seq<string>, suf: seq<string>, h: seq<string>): (r: bool)
    ensures r <==> AroundStar(pre, suf, h)
  {
    if |pre| + 1 + |suf| != |h| then false
    else
      assert forall i | 0 <= i < |pre| :: h[..|pre|][i] == h[i];
      ZipEqual(pre, h) && ZipEqual(suf, h[|pre| + 1..])
  }

  predicate MatchesInternalDoubleStar(pre: seq<string>, suf: seq<string>, h: seq<string>): (r: bool)
    ensures r <==> Around(pre, suf, h)
  {
    if |pre| + |suf| > |h| then false
    else
      var start := |pre|;
      var end := |h| - |suf|;
      assert forall i | 0 <= i < |pre| :: h[..|pre|][i] == h[i];
      if start > end then false else ZipEqual(pre, h) && ZipEqual(suf, h[end..])
  }

  // ---- The tests on the pattern string agree with the tier of its labels ----

  lemma BareStrings(p: string)
    ensures p == "*" || p == "**" <==> Bare(Split(p))
  {
    SplitDotFree("*");
    SplitDotFree("**");
    SplitInjective(p, "*");
    SplitInjective(p, "**");
  }

  /** A string that starts with `*.` has the first label `*`, and the rest is the key. */
  lemma LeadingCut(p: string, d: string)
    requires p == "*." + d
    ensures Split(p) == ["*"] + Split(d) && StarCount(p) == 1 + StarCount(d)
  {
    SplitDotFree("*");
    SplitAtDot("*", d);
    assert "*" + "." + d == p;
    StarCountConcat("*.", d);
    assert StarCount("*.") == 1 by { StarCountConcat("*", "."); assert "*" + "." == "*."; }
  }

  lemma TrailingCut(p: string, d: string)
    requires p == d + ".*"
    ensures Split(p) == Split(d) + ["*"] && StarCount(p) == 1 + StarCount(d)
  {
    SplitDotFree("*");
    SplitAtDot(d, "*");
    assert d + "." + "*" == p;
    StarCountConcat(d, ".*");
    assert StarCount(".*") == 1 by { StarCountConcat(".", "*"); assert "." + "*" == ".*"; }
  }

  lemma LeadingCutStars(p: string, d: string)
    requires p == "*." + d
    ensures Split(p)[0] == "*" && Split(p)[1..] == Split(d)
    ensures StarCount(p) == 1 <==> AllStarFree(Split(d))
  {
    LeadingCut(p, d);
    StarFreeSplit(d);
  }

  lemma TrailingCutStars(p: string, d: string)
    requires p == d + ".*"
    ensures Split(p)[|Split(p)| - 1] == "*" && Split(p)[..|Split(p)| - 1] == Split(d)
    ensures StarCount(p) == 1 <==> AllStarFree(Split(d))
  {
    TrailingCut(p, d);
    StarFreeSplit(d);
  }

  /** One star, at the front: the labels are `*` and then star-free ones. */
  lemma LeadingStarString(p: string)
    requires p != "*"
    ensures StarCount(p) == 1 && StartsWith(p, "*.") <==> Split(p)[0] == "*" && AllStarFree(Split(p)[1..])
  {
    if StartsWith(p, "*.") {
      LeadingCutStars(p, p[2..]);
    } else if Split(p)[0] == "*" {
      JoinSplit(p);
    }
  }

  /** One star, at the end: the labels are star-free ones and then `*`. */
  lemma TrailingStarString(p: string)
    requires p != "*"
    ensures StarCount(p) == 1 && EndsWith(p, ".*") <==>
            Split(p)[|Split(p)| - 1] == "*" && AllStarFree(Split(p)[..|Split(p)| - 1])
  {
    if EndsWith(p, ".*") {
      TrailingCutStars(p, p[..|p| - 2]);
    } else if Split(p)[|Split(p)| - 1] == "*" {
      LastLabelStar(p);
    }
  }

  lemma LastLabelStar(p: string)
    requires p != "*" && Split(p)[|Split(p)| - 1] == "*"
    ensures EndsWith(p, ".*")
  {
    var front := Split(p)[..|Split(p)| - 1];
    JoinSplit(p);
    assert Split(p) == front + ["*"];
    assert front != [] by { assert Join(["*"]) == "*" && [] + ["*"] == ["*"]; }
    JoinLast(front, "*");
    assert p == Join(front) + ".*";
  }

  lemma {:induction false} JoinLast(ls: seq<string>, last: string)
    requires ls != []
    ensures Join(ls + [last]) == Join(ls) + "." + last
  {
    assert (ls + [last])[1..] == ls[1..] + [last];
    if |ls| > 1 {
      JoinLast(ls[1..], last);
    }
  }

  /** The tier, as the tests on the pattern string see it. */
  ghost predicate ByString(p: string, t: Tier, otherwise: Tier) {
    t == if p == "*" || p == "**" then CatchAll
         else if StarCount(p) == 0 then Exact
         else if StarCount(p) == 1 && StartsWith(p, "*.") then LeadingStar
         else if StarCount(p) == 1 && EndsWith(p, ".*") then TrailingStar
         else otherwise
  }

  /** The tier, as the tests for an edge `**` see it. */
  ghost predicate ByEdge(ls: seq<string>, t: Tier, otherwise: Tier)
    requires ls != []
  {
    var last := |ls| - 1;
    t == if ls[0] == "**" && AllStarFree(ls[1..]) then LeadingDouble
         else if ls[last] == "**" && AllStarFree(ls[..last]) then TrailingDouble
         else otherwise
  }

  /** The tests on the string agree with the tier of the labels. */
  lemma StringDecides(p: string)
    ensures ByString(p, TierOf(Split(p)), EdgeTier(Split(p)))
  {
    BareStrings(p);
    StarFreeSplit(p);
    if p != "*" && p != "**" {
      LeadingStarString(p);
      TrailingStarString(p);
    }
  }

  lemma EdgeDecides(ls: seq<string>)
    requires ls != []
    ensures ByEdge(ls, EdgeTier(ls), StarsTier(ls))
  {
  }

  lemma LeadingKeyOfString(p: string)
    requires StartsWith(p, "*.")
    ensures Join(Split(p)[1..]) == p[2..]
  {
    LeadingCut(p, p[2..]);
    assert Split(p)[1..] == Split(p[2..]);
    JoinSplit(p[2..]);
  }

  lemma TrailingKeyOfString(p: string)
    requires EndsWith(p, ".*")
    ensures Join(Split(p)[..|Split(p)| - 1]) == p[..|p| - 2]
  {
    var d := p[..|p| - 2];
    TrailingCut(p, d);
    assert Split(p)[..|Split(p)| - 1] == Split(d);
    JoinSplit(d);
  }

  class HostRouter {
    var exactMatches: map<string, nat>
    var leadingWildcards: map<string, nat>
    var trailingWildcards: map<string, nat>
    var doubleStarLeading: map<nat, map<string, nat>>
    var doubleStarTrailing: map<nat, map<string, nat>>
    var simpleInternalWildcards: seq<Segments>
    var internalDoubleStarWildcards: seq<Segments>
    const multiStarTrie: LabelTrie
    var complexPatterns: seq<(seq<string>, nat)>
    var catchAll: Option<nat>
    /** Every call of `add_pattern`, in order: the abstract value of the router. */
    ghost var regs: seq<Registration>

    ghost function Stored(): Snapshot
      reads this, multiStarTrie
    {
      Snapshot(exactMatches, leadingWildcards, trailingWildcards, doubleStarLeading, doubleStarTrailing,
               simpleInternalWildcards, internalDoubleStarWildcards, multiStarTrie.contents,
               complexPatterns, catchAll)
    }

    ghost predicate Valid()
      reads this, multiStarTrie, multiStarTrie.Repr
    {
      && this !in multiStarTrie.Repr
      && multiStarTrie.Valid()
      && Stored() == Replay(regs)
    }

    constructor ()
      ensures Valid() && fresh(multiStarTrie) && fresh(multiStarTrie.Repr)
      ensures regs == []
    {
      exactMatches, leadingWildcards, trailingWildcards := map[], map[], map[];
      doubleStarLeading, doubleStarTrailing := map[], map[];
      simpleInternalWildcards, internalDoubleStarWildcards := [], [];
      multiStarTrie := new LabelTrie();
      complexPatterns := [];
      catchAll := None;
      regs := [];
    }

    /** `add_pattern`: the router now stands for one more registration. */
    method AddPattern(pattern: string, index: nat)
      requires Valid()
      modifies this, multiStarTrie.Repr
      ensures Valid() && fresh(multiStarTrie.Repr - old(multiStarTrie.Repr))
      ensures regs == old(regs) + [Registration(pattern, index)]
    {
      Classify(pattern, index);
      ReplayAppend(regs, Registration(pattern, index));
      regs := regs + [Registration(pattern, index)];
    }

    /** The classification: put the pattern in the one store that its tier demands, and touch no other. */
    method Classify(pattern: string, index: nat)
      requires multiStarTrie.Valid() && this !in multiStarTrie.Repr
      modifies this, multiStarTrie.Repr
      ensures Stored() == Added(old(Stored()), Registration(pattern, index))
      ensures regs == old(regs)
      ensures multiStarTrie.Valid() && this !in multiStarTrie.Repr
      ensures fresh(multiStarTrie.Repr - old(multiStarTrie.Repr))
    {
      EntriesExist(Split(pattern));
      StringDecides(pattern);
      EdgeDecides(Split(pattern));
      File(pattern, index, TierOf(Split(pattern)), EdgeTier(Split(pattern)), StarsTier(Split(pattern)));
    }

    /** The branches of the classification, in order; `t` is the tier they must arrive at. */
    method File(pattern: string, index: nat, ghost t: Tier, ghost edge: Tier, ghost stars: Tier)
      requires multiStarTrie.Valid() && this !in multiStarTrie.Repr
      requires ByString(pattern, t, edge) && ByEdge(Split(pattern), edge, stars)
      requires stars == StarsTier(Split(pattern))
      requires (t == InnerStar ==> "*" in Split(pattern)) && (t == InnerDouble ==> "**" in Split(pattern))
      modifies this, multiStarTrie.Repr
      ensures Stored() == AddedAs(old(Stored()), t, Registration(pattern, index))
      ensures regs == old(regs)
      ensures multiStarTrie.Valid() && this !in multiStarTrie.Repr
      ensures fresh(multiStarTrie.Repr - old(multiStarTrie.Repr))
    {
      var filed := FileByString(pattern, index, t, edge);
      if filed {
        return;
      }
      FileByLabels(Split(pattern), pattern, index, t, stars);
    }

    method FileByLabels(labels: seq<string>, ghost pattern: string, index: nat, ghost t: Tier, ghost stars: Tier)
      requires multiStarTrie.Valid() && this !in multiStarTrie.Repr
      requires labels == Split(pattern) && ByEdge(labels, t, stars) && stars == StarsTier(labels)
      requires (t == InnerStar ==> "*" in labels) && (t == InnerDouble ==> "**" in labels)
      modifies this, multiStarTrie.Repr
      ensures Stored() == AddedAs(old(Stored()), t, Registration(pattern, index))
      ensures regs == old(regs)
      ensures multiStarTrie.Valid() && this !in multiStarTrie.Repr
      ensures fresh(multiStarTrie.Repr - old(multiStarTrie.Repr))
    {
      var filed := FileByEdge(labels, pattern, index, t, stars);
      if filed {
        return;
      }
      FileByStars(labels, pattern, index, t);
    }

    /** Bare wildcards, star-free patterns and single edge stars are recognised on the string. */
    method FileByString(pattern: string, index: nat, ghost t: Tier, ghost edge: Tier) returns (filed: bool)
      requires ByString(pattern, t, edge)
      requires (t == InnerStar ==> "*" in Split(pattern)) && (t == InnerDouble ==> "**" in Split(pattern))
      modifies this
      ensures Stored() == if filed then AddedAs(old(Stored()), t, Registration(pattern, index)) else old(Stored())
      ensures !filed ==> t == edge
      ensures regs == old(regs)
    {
      if pattern == "*" || pattern == "**" {
        FileCatchAll(pattern, index);
        return true;
      }

      var starCount := StarCount(pattern);
      if starCount == 0 {
        exactMatches := exactMatches[pattern := index];
        return true;
      }
      filed := FileEdgeStar(pattern, starCount, index, t, edge);
    }

    /** A bare wildcard; the first one stays. */
    method FileCatchAll(ghost pattern: string, index: nat)
      modifies this
      ensures Stored() == AddedAs(old(Stored()), CatchAll, Registration(pattern, index))
      ensures regs == old(regs)
    {
      if catchAll.Some? {
        return;
      }
      catchAll := Some(index);
    }

    /** A single star that is the whole first or last label. */
    method FileEdgeStar(pattern: string, starCount: nat, index: nat, ghost t: Tier, ghost edge: Tier)
      returns (filed: bool)
      requires t == if starCount == 1 && StartsWith(pattern, "*.") then LeadingStar
                    else if starCount == 1 && EndsWith(pattern, ".*") then TrailingStar
                    else edge
      requires (t == InnerStar ==> "*" in Split(pattern)) && (t == InnerDouble ==> "**" in Split(pattern))
      modifies this
      ensures Stored() == if filed then AddedAs(old(Stored()), t, Registration(pattern, index)) else old(Stored())
      ensures !filed ==> t == edge
      ensures regs == old(regs)
    {
      if starCount == 1 && StartsWith(pattern, "*.") {
        LeadingKeyOfString(pattern);
        leadingWildcards := leadingWildcards[pattern[2..] := index];
        return true;
      } else if starCount == 1 && EndsWith(pattern, ".*") {
        TrailingKeyOfString(pattern);
        trailingWildcards := trailingWildcards[pattern[..|pattern| - 2] := index];
        return true;
      }
      return false;
    }

    /** An edge `**` with otherwise star-free labels. */
    method FileByEdge(labels: seq<string>, ghost pattern: string, index: nat, ghost t: Tier, ghost stars: Tier)
      returns (filed: bool)
      requires labels == Split(pattern) && ByEdge(labels, t, stars)
      requires (t == InnerStar ==> "*" in labels) && (t == InnerDouble ==> "**" in labels)
      modifies this
      ensures Stored() == if filed then AddedAs(old(Stored()), t, Registration(pattern, index)) else old(Stored())
      ensures !filed ==> t == stars
      ensures regs == old(regs)
    {
      var last := |labels| - 1;
      if labels[0] == "**" && AllStarFree(labels[1..]) {
        FileLeadingDouble(labels, pattern, index);
        return true;
      }
      if labels[last] == "**" && AllStarFree(labels[..last]) {
        FileTrailingDouble(labels, pattern, index);
        return true;
      }
      return false;
    }

    method FileLeadingDouble(labels: seq<string>, ghost pattern: string, index: nat)
      requires labels == Split(pattern)
      modifies this
      ensures Stored() == AddedAs(old(Stored()), LeadingDouble, Registration(pattern, index))
      ensures regs == old(regs)
    {
      doubleStarLeading := PutCounted(doubleStarLeading, |labels| - 1, Join(labels[1..]), index);
    }

    method FileTrailingDouble(labels: seq<string>, ghost pattern: string, index: nat)
      requires labels == Split(pattern)
      modifies this
      ensures Stored() == AddedAs(old(Stored()), TrailingDouble, Registration(pattern, index))
      ensures regs == old(regs)
    {
      doubleStarTrailing := PutCounted(doubleStarTrailing, |labels| - 1, Join(labels[..|labels| - 1]), index);
    }

    /** Mixtures of `*` and `**`, one interior `*`, several `*`, one interior `**`, and all the rest. */
    method FileByStars(labels: seq<string>, ghost pattern: string, index: nat, ghost t: Tier)
      requires labels == Split(pattern) && t == StarsTier(labels)
      requires multiStarTrie.Valid() && this !in multiStarTrie.Repr
      modifies this, multiStarTrie.Repr
      ensures (t == InnerStar ==> "*" in labels) && (t == InnerDouble ==> "**" in labels)
      ensures Stored() == AddedAs(old(Stored()), t, Registration(pattern, index))
      ensures regs == old(regs)
      ensures multiStarTrie.Valid() && this !in multiStarTrie.Repr
      ensures fresh(multiStarTrie.Repr - old(multiStarTrie.Repr))
    {
      var hasDoubleStar := "**" in labels;
      var hasSingleStar := "*" in labels;
      if hasDoubleStar && hasSingleStar {
        FileComplex(labels, pattern, index);
        return;
      }
      var singleWildcardCount := multiset(labels)["*"];
      if singleWildcardCount == 1 && !hasDoubleStar {
        assert "*" in multiset(labels);
        FileSingleStar(labels, pattern, index, t);
        return;
      }
      if singleWildcardCount > 1 && !hasDoubleStar {
        FileInTrie(labels, pattern, index);
        return;
      }
      FileByDouble(labels, pattern, index, t);
    }

    /** Several `*` labels and no `**`. */
    method FileInTrie(labels: seq<string>, ghost pattern: string, index: nat)
      requires labels == Split(pattern)
      requires multiStarTrie.Valid() && this !in multiStarTrie.Repr
      modifies multiStarTrie.Repr
      ensures Stored() == AddedAs(old(Stored()), Trie, Registration(pattern, index))
      ensures multiStarTrie.Valid() && this !in multiStarTrie.Repr
      ensures fresh(multiStarTrie.Repr - old(multiStarTrie.Repr))
    {
      multiStarTrie.Insert(labels, index);
    }

    /** What no cheaper store can hold. */
    method FileComplex(labels: seq<string>, ghost pattern: string, index: nat)
      requires labels == Split(pattern)
      modifies this
      ensures Stored() == AddedAs(old(Stored()), Complex, Registration(pattern, index))
      ensures regs == old(regs)
    {
      complexPatterns := complexPatterns + [(labels, index)];
    }

    /** A single `*` label; with other stars around it may still stand at an edge, and then nothing cheaper fits. */
    method FileSingleStar(labels: seq<string>, ghost pattern: string, index: nat, ghost t: Tier)
      requires labels == Split(pattern) && "*" in labels
      requires t == if Interior(labels, "*") then InnerStar else Complex
      modifies this
      ensures Stored() == AddedAs(old(Stored()), t, Registration(pattern, index))
      ensures regs == old(regs)
    {
      var pos := IndexOf(labels, "*");
      if pos > 0 && pos < |labels| - 1 {
        simpleInternalWildcards := simpleInternalWildcards + [(labels[..pos], labels[pos + 1..], index)];
        return;
      }
      FileComplex(labels, pattern, index);
    }

    /** One interior `**`, and everything that no cheaper store can hold. */
    method FileByDouble(labels: seq<string>, ghost pattern: string, index: nat, ghost t: Tier)
      requires labels == Split(pattern)
      requires t == if Interior(labels, "**") then InnerDouble else Complex
      modifies this
      ensures Stored() == AddedAs(old(Stored()), t, Registration(pattern, index))
      ensures regs == old(regs)
    {
      if "**" in labels {
        var pos := IndexOf(labels, "**");
        if pos > 0 && pos < |labels| - 1 {
          internalDoubleStarWildcards := internalDoubleStarWildcards + [(labels[..pos], labels[pos + 1..], index)];
          return;
        }
      }
      FileComplex(labels, pattern, index);
    }

    /** `matches`: the index of the registration that serves the host. */
    method Matches(host: string, buf: MatchBuffer) returns (r: Option<nat>)
      requires Valid() && buf !in multiStarTrie.Repr
      modifies buf
      ensures Valid()
      ensures r == Route(regs, host)
    {
      ghost var t;
      r, t := Consult(host, buf);
      ReplayedRoute(regs, host, t, r);
    }

    /** Ask the stores in their fixed order, until one has an answer. */
    method Consult(host: string, buf: MatchBuffer) returns (r: Option<nat>, ghost t: Tier)
      requires multiStarTrie.Valid() && buf !in multiStarTrie.Repr
      modifies buf
      ensures Stored() == old(Stored())
      ensures InVain(Stored(), host, t.Rank()) && Answer(Stored(), host, t, r)
      ensures r.Some? || t == CatchAll
    {
      r, t := ConsultKnown(host);
      if r.Some? {
        return;
      }
      r, t := ConsultInner(host);
      if r.Some? {
        return;
      }
      t := Complex;
      r := FindComplex(complexPatterns, Split(host), buf);
      if r.Some? {
        return;
      }
      r, t := ConsultEdges(host);
    }

    /** Exact names, then the longest known suffix, then the longest known prefix. */
    method ConsultKnown(host: string) returns (r: Option<nat>, ghost t: Tier)
      ensures if r.Some? then InVain(Stored(), host, t.Rank()) && Answer(Stored(), host, t, r)
              else InVain(Stored(), host, InnerStar.Rank())
    {
      t := Exact;
      if exactMatches != map[] && host in exactMatches {
        return Some(exactMatches[host]), t;
      }
      if doubleStarLeading != map[] || doubleStarTrailing != map[] {
        var hostLabels := Split(host);
        t := LeadingDouble;
        r := FindDouble(doubleStarLeading, hostLabels, LeadingDouble);
        if r.Some? {
          return;
        }
        t := TrailingDouble;
        r := FindDouble(doubleStarTrailing, hostLabels, TrailingDouble);
        return;
      }
      return None, t;
    }

    /** One interior `*`, then one interior `**`, then the trie. */
    method ConsultInner(host: string) returns (r: Option<nat>, ghost t: Tier)
      requires multiStarTrie.Valid() && InVain(Stored(), host, InnerStar.Rank())
      ensures if r.Some? then InVain(Stored(), host, t.Rank()) && Answer(Stored(), host, t, r)
              else InVain(Stored(), host, Complex.Rank())
    {
      var hostLabels := Split(host);
      t := InnerStar;
      r := FindSimpleInternal(simpleInternalWildcards, hostLabels);
      if r.Some? {
        return;
      }
      t := InnerDouble;
      r := FindInternalDouble(internalDoubleStarWildcards, hostLabels);
      if r.Some? {
        return;
      }
      t := Trie;
      r := multiStarTrie.Lookup(hostLabels);
    }

    /** The edge `*` stores, then the catch-all. */
    method ConsultEdges(host: string) returns (r: Option<nat>, ghost t: Tier)
      requires InVain(Stored(), host, LeadingStar.Rank())
      ensures InVain(Stored(), host, t.Rank()) && Answer(Stored(), host, t, r)
      ensures r.Some? || t == CatchAll
    {
      t := LeadingStar;
      var cut := SplitOnce(host);
      if leadingWildcards != map[] && cut.Some? && cut.value.1 in leadingWildcards {
        return Some(leadingWildcards[cut.value.1]), t;
      }
      t := TrailingStar;
      cut := RSplitOnce(host);
      if trailingWildcards != map[] && cut.Some? && cut.value.0 in trailingWildcards {
        return Some(trailingWildcards[cut.value.0]), t;
      }
      t := CatchAll;
      return catchAll, t;
    }
  }

  /** Walk the label counts from the largest down; the first hit has the most known labels. */
  method FindDouble(store: map<nat, map<string, nat>>, hostLabels: seq<string>, t: Tier) returns (r: Option<nat>)
    ensures LargestHit(store, hostLabels, t, r)
  {
    var remaining := store.Keys;
    while remaining != {}
      invariant remaining <= store.Keys
      invariant forall n | n in store && n !in remaining :: !HitAt(store, hostLabels, t, n)
      decreases remaining
    {
      ghost var largest := Largest(remaining);
      var count :| count in remaining && forall n | n in remaining :: n <= count;
      if |hostLabels| >= count {
        var candidate := Join(KnownEnd(hostLabels, t, count));
        if candidate in store[count] {
          assert HitAt(store, hostLabels, t, count);
          return Some(store[count][candidate]);
        }
      }
      remaining := remaining - {count};
    }
    return None;
  }

  method FindSimpleInternal(list: seq<Segments>, hostLabels: seq<string>) returns (r: Option<nat>)
    ensures FirstHit(list, StarHit(hostLabels), SegmentsIndex(), r)
  {
    for i := 0 to |list|
      invariant forall j | 0 <= j < i :: !StarHit(hostLabels)(list[j])
    {
      var (prefixLabels, suffixLabels, index) := list[i];
      if MatchesSingleInternalWildcard(prefixLabels, suffixLabels, hostLabels) {
        assert IsFirstHit(list, StarHit(hostLabels), i);
        return Some(index);
      }
    }
    return None;
  }

  method FindInternalDouble(list: seq<Segments>, hostLabels: seq<string>) returns (r: Option<nat>)
    ensures FirstHit(list, DoubleHit(hostLabels), SegmentsIndex(), r)
  {
    for i := 0 to |list|
      invariant forall j | 0 <= j < i :: !DoubleHit(hostLabels)(list[j])
    {
      var (prefixLabels, suffixLabels, index) := list[i];
      if MatchesInternalDoubleStar(prefixLabels, suffixLabels, hostLabels) {
        assert IsFirstHit(list, DoubleHit(hostLabels), i);
        return Some(index);
      }
    }
    return None;
  }

  method FindComplex(list: seq<(seq<string>, nat)>, hostLabels: seq<string>, buf: MatchBuffer) returns (r: Option<nat>)
    modifies buf
    ensures FirstHit(list, ComplexHit(hostLabels), ComplexIndex(), r)
  {
    for i := 0 to |list|
      invariant forall j | 0 <= j < i :: !ComplexHit(hostLabels)(list[j])
    {
      var (patternLabels, index) := list[i];
      var hit := DpHostMatches(patternLabels, hostLabels, buf);
      if hit {
        assert IsFirstHit(list, ComplexHit(hostLabels), i);
        return Some(index);
      }
    }
    return None;
  }
}
