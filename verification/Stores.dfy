/**
 * The ten stores as values, and what each must hold of the registrations made so far for the
 * router to be right about its tier.
 */
module Stores {
  import opened Labels
  import opened Patterns
  import opened Selection
  import opened Routing

  type Segments = (seq<string>, seq<string>, nat)

  datatype Snapshot = Snapshot(
    exact: map<string, nat>,
    leading: map<string, nat>,
    trailing: map<string, nat>,
    doubleLeading: map<nat, map<string, nat>>,
    doubleTrailing: map<nat, map<string, nat>>,
    innerStar: seq<Segments>,
    innerDouble: seq<Segments>,
    trie: map<seq<string>, nat>,
    complex: seq<(seq<string>, nat)>,
    catchAll: Option<nat>)

  // ---- Positions of registrations ----

  /** The last registration with these labels. */
  ghost function LastOf(regs: seq<Registration>, ls: seq<string>): (r: Option<int>)
    ensures r.None? ==> forall j | 0 <= j < |regs| :: regs[j].Parts() != ls
    ensures r.Some? ==> 0 <= r.value < |regs| && regs[r.value].Parts() == ls
                        && forall j | r.value < j < |regs| :: regs[j].Parts() != ls
  {
    if regs == [] then None
    else if regs[|regs| - 1].Parts() == ls then Some(|regs| - 1)
    else LastOf(regs[..|regs| - 1], ls)
  }

  /** The first registration with these labels. */
  ghost function FirstOf(regs: seq<Registration>, ls: seq<string>): (r: Option<int>)
    ensures r.None? ==> forall j | 0 <= j < |regs| :: regs[j].Parts() != ls
    ensures r.Some? ==> 0 <= r.value < |regs| && regs[r.value].Parts() == ls
                        && forall j | 0 <= j < r.value :: regs[j].Parts() != ls
  {
    if regs == [] then None
    else
      var r := FirstOf(regs[..|regs| - 1], ls);
      if r.Some? then r
      else if regs[|regs| - 1].Parts() == ls then Some(|regs| - 1)
      else None
  }

  lemma LastOfAppend(regs: seq<Registration>, r: Registration, ls: seq<string>)
    ensures LastOf(regs + [r], ls) == if r.Parts() == ls then Some(|regs|) else LastOf(regs, ls)
  {
    assert (regs + [r])[..|regs|] == regs;
  }

  lemma FirstOfAppend(regs: seq<Registration>, r: Registration, ls: seq<string>)
    ensures FirstOf(regs + [r], ls) ==
            if FirstOf(regs, ls).Some? then FirstOf(regs, ls)
            else if r.Parts() == ls then Some(|regs|) else None
  {
    assert (regs + [r])[..|regs|] == regs;
  }

  ghost function OfTier(t: Tier): Registration -> bool {
    (r: Registration) => r.Tier() == t
  }

  /** The positions of the registrations of one tier, in order. */
  ghost function Picked(regs: seq<Registration>, t: Tier): (ps: seq<int>)
    ensures forall i | 0 <= i < |ps| :: 0 <= ps[i] < |regs|
  {
    Positions(regs, OfTier(t))
  }

  lemma PickedAppend(regs: seq<Registration>, r: Registration, t: Tier)
    ensures Picked(regs + [r], t) == Picked(regs, t) + if r.Tier() == t then [|regs|] else []
  {
    PositionsAppend(regs, r, OfTier(t));
  }

  // ---- What each store must hold ----

  /** The labels of the pattern that a keyed store files under `key`. */
  ghost function Wrap(front: seq<string>, key: string, back: seq<string>): seq<string> {
    front + Split(key) + back
  }

  /** A keyed store: exactly the star-free keys whose pattern was registered, with the last index given to it. */
  ghost predicate KeyedOk(store: map<string, nat>, regs: seq<Registration>, front: seq<string>, back: seq<string>) {
    forall key :: Filed(key in store, if key in store then store[key] else 0, regs, front, key, back)
  }

  ghost predicate Filed(present: bool, index: nat, regs: seq<Registration>,
                        front: seq<string>, key: string, back: seq<string>)
  {
    var last := LastOf(regs, Wrap(front, key, back));
    && (present <==> StarFree(key) && last.Some?)
    && (present ==> index == regs[last.value].index)
  }

  /** The same, with the keys spread over one map per number of labels. */
  ghost predicate CountedOk(store: map<nat, map<string, nat>>, regs: seq<Registration>,
                            front: seq<string>, back: seq<string>)
  {
    && (forall n, key | n in store && key in store[n] :: |Split(key)| == n)
    && forall key :: Filed(InCounted(store, key), AtCounted(store, key), regs, front, key, back)
  }

  ghost predicate InCounted(store: map<nat, map<string, nat>>, key: string) {
    |Split(key)| in store && key in store[|Split(key)|]
  }

  ghost function AtCounted(store: map<nat, map<string, nat>>, key: string): nat {
    if InCounted(store, key) then store[|Split(key)|][key] else 0
  }

  /** `entry(n).or_default().insert(key, index)`. */
  function PutCounted(store: map<nat, map<string, nat>>, n: nat, key: string, index: nat): map<nat, map<string, nat>> {
    store[n := (if n in store then store[n] else map[])[key := index]]
  }

  ghost predicate SegmentsOf(e: Segments, r: Registration, x: string) {
    x in r.Parts() && e == (Before(r.Parts(), x), After(r.Parts(), x), r.index)
  }

  /** A list store: one entry per registration of its tier, in order. */
  ghost predicate ListOk(list: seq<Segments>, regs: seq<Registration>, t: Tier, x: string) {
    EntriesAt(list, regs, Picked(regs, t), x)
  }

  ghost predicate EntriesAt(list: seq<Segments>, regs: seq<Registration>, ps: seq<int>, x: string) {
    && |list| == |ps|
    && forall i | 0 <= i < |list| :: 0 <= ps[i] < |regs| && SegmentsOf(list[i], regs[ps[i]], x)
  }

  ghost predicate ComplexOk(list: seq<(seq<string>, nat)>, regs: seq<Registration>) {
    LabelsAt(list, regs, Picked(regs, Complex))
  }

  ghost predicate LabelsAt(list: seq<(seq<string>, nat)>, regs: seq<Registration>, ps: seq<int>) {
    && |list| == |ps|
    && forall i | 0 <= i < |list| :: 0 <= ps[i] < |regs| && list[i] == (regs[ps[i]].Parts(), regs[ps[i]].index)
  }

  /** The trie: exactly the registered trie patterns, with the first index given to each. */
  ghost predicate TrieOk(trie: map<seq<string>, nat>, regs: seq<Registration>) {
    forall ls :: TrieFiled(trie, regs, ls)
  }

  ghost predicate TrieFiled(trie: map<seq<string>, nat>, regs: seq<Registration>, ls: seq<string>) {
    var first := FirstOf(regs, ls);
    && (ls in trie <==> ls != [] && TierOf(ls) == Trie && first.Some?)
    && (ls in trie ==> trie[ls] == regs[first.value].index)
  }

  ghost predicate CatchAllOk(c: Option<nat>, regs: seq<Registration>) {
    match c
    case None => forall j | 0 <= j < |regs| :: !Bare(regs[j].Parts())
    case Some(v) => exists k :: FirstBare(regs, k) && regs[k].index == v
  }

  ghost predicate FirstBare(regs: seq<Registration>, k: int) {
    && 0 <= k < |regs| && Bare(regs[k].Parts())
    && forall j | 0 <= j < k :: !Bare(regs[j].Parts())
  }

  ghost predicate KeyedStoresOk(st: Snapshot, regs: seq<Registration>) {
    && KeyedOk(st.exact, regs, [], [])
    && KeyedOk(st.leading, regs, ["*"], [])
    && KeyedOk(st.trailing, regs, [], ["*"])
    && CountedOk(st.doubleLeading, regs, ["**"], [])
    && CountedOk(st.doubleTrailing, regs, [], ["**"])
  }

  ghost predicate OtherStoresOk(st: Snapshot, regs: seq<Registration>) {
    && ListOk(st.innerStar, regs, InnerStar, "*")
    && ListOk(st.innerDouble, regs, InnerDouble, "**")
    && TrieOk(st.trie, regs)
    && ComplexOk(st.complex, regs)
    && CatchAllOk(st.catchAll, regs)
  }

  ghost predicate StoresOk(st: Snapshot, regs: seq<Registration>) {
    KeyedStoresOk(st, regs) && OtherStoresOk(st, regs)
  }

  // ---- Registering keeps every store right ----

  /** The known labels of an edge pattern, joined into the key it is filed under. */
  function LeadingKey(r: Registration): string {
    Join(r.Parts()[1..])
  }

  function TrailingKey(r: Registration): string {
    Join(r.Parts()[..|r.Parts()| - 1])
  }

  function Entry(r: Registration, x: string): Segments
    requires x in r.Parts()
  {
    (Before(r.Parts(), x), After(r.Parts(), x), r.index)
  }

  /** How one registration changes the stores: only the store of its tier `t`, filed by its known labels. */
  function AddedAs(st: Snapshot, t: Tier, r: Registration): Snapshot
    requires t == InnerStar ==> "*" in r.Parts()
    requires t == InnerDouble ==> "**" in r.Parts()
  {
    Snapshot(
      if t == Exact then st.exact[r.pattern := r.index] else st.exact,
      if t == LeadingStar then st.leading[LeadingKey(r) := r.index] else st.leading,
      if t == TrailingStar then st.trailing[TrailingKey(r) := r.index] else st.trailing,
      if t == LeadingDouble then PutCounted(st.doubleLeading, |r.Parts()| - 1, LeadingKey(r), r.index)
      else st.doubleLeading,
      if t == TrailingDouble then PutCounted(st.doubleTrailing, |r.Parts()| - 1, TrailingKey(r), r.index)
      else st.doubleTrailing,
      if t == InnerStar then st.innerStar + [Entry(r, "*")] else st.innerStar,
      if t == InnerDouble then st.innerDouble + [Entry(r, "**")] else st.innerDouble,
      if t == Trie && r.Parts() !in st.trie then st.trie[r.Parts() := r.index] else st.trie,
      if t == Complex then st.complex + [(r.Parts(), r.index)] else st.complex,
      if t == CatchAll && st.catchAll.None? then Some(r.index) else st.catchAll)
  }

  function Added(st: Snapshot, r: Registration): Snapshot {
    EntriesExist(r.Parts());
    AddedAs(st, r.Tier(), r)
  }

  lemma EntriesExist(ls: seq<string>)
    requires ls != []
    ensures TierOf(ls) == InnerStar ==> "*" in ls
    ensures TierOf(ls) == InnerDouble ==> "**" in ls
  {
    if TierOf(ls) == InnerStar { InnerStarReach(ls, ls); }
  }

  /** Star-free known labels, wrapped the way a keyed store expects, belong to that store's tier. */
  lemma WrapExact(key: string)
    requires StarFree(key)
    ensures TierOf(Wrap([], key, [])) == Exact
  {
    StarFreeSplit(key);
    assert Wrap([], key, []) == Split(key);
    StarFreeLiteral(Split(key));
  }

  lemma WrapLeading(star: string, key: string)
    requires StarFree(key) && (star == "*" || star == "**")
    ensures TierOf(Wrap([star], key, [])) == if star == "*" then LeadingStar else LeadingDouble
  {
    StarFreeSplit(key);
    var ls := Wrap([star], key, []);
    assert ls[1..] == Split(key);
    FrontTier(ls, star);
  }

  lemma FrontTier(ls: seq<string>, star: string)
    requires |ls| > 1 && ls[0] == star && AllStarFree(ls[1..]) && (star == "*" || star == "**")
    ensures TierOf(ls) == if star == "*" then LeadingStar else LeadingDouble
  {
    assert star[0] == '*' && !StarFree(ls[0]);
    assert ls[|ls| - 1] == ls[1..][|ls| - 2];
    assert StarFree(ls[|ls| - 1]);
  }

  lemma WrapTrailing(star: string, key: string)
    requires StarFree(key) && (star == "*" || star == "**")
    ensures TierOf(Wrap([], key, [star])) == if star == "*" then TrailingStar else TrailingDouble
  {
    StarFreeSplit(key);
    var ls := Wrap([], key, [star]);
    assert ls[..|ls| - 1] == Split(key);
    BackTier(ls, star);
  }

  lemma BackTier(ls: seq<string>, star: string)
    requires |ls| > 1 && ls[|ls| - 1] == star && AllStarFree(ls[..|ls| - 1]) && (star == "*" || star == "**")
    ensures TierOf(ls) == if star == "*" then TrailingStar else TrailingDouble
  {
    assert star[0] == '*' && !StarFree(ls[|ls| - 1]);
    assert ls[0] == ls[..|ls| - 1][0];
    assert StarFree(ls[0]);
  }

  lemma WrapInjective(front: seq<string>, back: seq<string>, a: string, b: string)
    requires Wrap(front, a, back) == Wrap(front, b, back)
    ensures a == b
  {
    var l := Wrap(front, a, back);
    assert l[|front|..|l| - |back|] == Split(a);
    assert l[|front|..|l| - |back|] == Split(b);
    SplitInjective(a, b);
  }

  /** Either the registration belongs in a keyed store, under `key`, or no star-free key stands for its pattern. */
  ghost predicate KeyFor(belongs: bool, r: Registration, front: seq<string>, key: string, back: seq<string>) {
    if belongs then StarFree(key) && r.Parts() == Wrap(front, key, back)
    else forall k | StarFree(k) :: r.Parts() != Wrap(front, k, back)
  }

  lemma ExactKey(r: Registration)
    ensures KeyFor(r.Tier() == Exact, r, [], r.pattern, [])
  {
    if r.Tier() == Exact {
      StarFreeSplit(r.pattern);
      assert Wrap([], r.pattern, []) == r.Parts();
    } else {
      forall k | StarFree(k) ensures r.Parts() != Wrap([], k, []) { WrapExact(k); }
    }
  }

  lemma FrontKeyWraps(r: Registration, x: string)
    requires |r.Parts()| > 1 && r.Parts() == [x] + r.Parts()[1..] && AllStarFree(r.Parts()[1..])
    ensures StarFree(LeadingKey(r)) && r.Parts() == Wrap([x], LeadingKey(r), [])
  {
    SplitJoin(r.Parts()[1..]);
    StarFreeSplit(LeadingKey(r));
  }

  lemma BackKeyWraps(r: Registration, x: string)
    requires |r.Parts()| > 1 && r.Parts() == r.Parts()[..|r.Parts()| - 1] + [x]
    requires AllStarFree(r.Parts()[..|r.Parts()| - 1])
    ensures StarFree(TrailingKey(r)) && r.Parts() == Wrap([], TrailingKey(r), [x])
  {
    SplitJoin(r.Parts()[..|r.Parts()| - 1]);
    StarFreeSplit(TrailingKey(r));
  }

  lemma LeadingStarKey(r: Registration)
    ensures KeyFor(r.Tier() == LeadingStar, r, ["*"], LeadingKey(r), [])
  {
    if r.Tier() == LeadingStar {
      LeadingStarKeyWraps(r);
    } else {
      forall k | StarFree(k) ensures r.Parts() != Wrap(["*"], k, []) { WrapLeading("*", k); }
    }
  }

  lemma LeadingStarKeyWraps(r: Registration)
    requires r.Tier() == LeadingStar
    ensures StarFree(LeadingKey(r)) && r.Parts() == Wrap(["*"], LeadingKey(r), [])
  {
    LeadingStarReach(r.Parts(), []);
    FrontKeyWraps(r, "*");
  }

  lemma TrailingStarKey(r: Registration)
    ensures KeyFor(r.Tier() == TrailingStar, r, [], TrailingKey(r), ["*"])
  {
    if r.Tier() == TrailingStar {
      TrailingStarKeyWraps(r);
    } else {
      forall k | StarFree(k) ensures r.Parts() != Wrap([], k, ["*"]) { WrapTrailing("*", k); }
    }
  }

  lemma TrailingStarKeyWraps(r: Registration)
    requires r.Tier() == TrailingStar
    ensures StarFree(TrailingKey(r)) && r.Parts() == Wrap([], TrailingKey(r), ["*"])
  {
    TrailingStarReach(r.Parts(), []);
    BackKeyWraps(r, "*");
  }

  lemma LeadingDoubleKey(r: Registration)
    ensures KeyFor(r.Tier() == LeadingDouble, r, ["**"], LeadingKey(r), [])
  {
    if r.Tier() == LeadingDouble {
      LeadingDoubleKeyWraps(r);
    } else {
      forall k | StarFree(k) ensures r.Parts() != Wrap(["**"], k, []) { WrapLeading("**", k); }
    }
  }

  lemma LeadingDoubleKeyWraps(r: Registration)
    requires r.Tier() == LeadingDouble
    ensures StarFree(LeadingKey(r)) && r.Parts() == Wrap(["**"], LeadingKey(r), [])
  {
    LeadingDoubleReach(r.Parts(), []);
    FrontKeyWraps(r, "**");
  }

  lemma TrailingDoubleKey(r: Registration)
    ensures KeyFor(r.Tier() == TrailingDouble, r, [], TrailingKey(r), ["**"])
  {
    if r.Tier() == TrailingDouble {
      TrailingDoubleKeyWraps(r);
    } else {
      forall k | StarFree(k) ensures r.Parts() != Wrap([], k, ["**"]) { WrapTrailing("**", k); }
    }
  }

  lemma TrailingDoubleKeyWraps(r: Registration)
    requires r.Tier() == TrailingDouble
    ensures StarFree(TrailingKey(r)) && r.Parts() == Wrap([], TrailingKey(r), ["**"])
  {
    TrailingDoubleReach(r.Parts(), []);
    BackKeyWraps(r, "**");
  }

  /** In a keyed store the last registration of a pattern wins, and other patterns leave it alone. */
  lemma KeyedAdded(store: map<string, nat>, regs: seq<Registration>, belongs: bool,
                   r: Registration, front: seq<string>, key: string, back: seq<string>)
    requires KeyedOk(store, regs, front, back) && KeyFor(belongs, r, front, key, back)
    ensures KeyedOk(if belongs then store[key := r.index] else store, regs + [r], front, back)
  {
    var store' := if belongs then store[key := r.index] else store;
    forall k
      ensures Filed(k in store', if k in store' then store'[k] else 0, regs + [r], front, k, back)
    {
      assert Filed(k in store, if k in store then store[k] else 0, regs, front, k, back);
      LastOfAppend(regs, r, Wrap(front, k, back));
      if belongs && Wrap(front, k, back) == r.Parts() { WrapInjective(front, back, k, key); }
    }
  }

  lemma CountedAdded(store: map<nat, map<string, nat>>, regs: seq<Registration>, belongs: bool,
                     r: Registration, front: seq<string>, key: string, back: seq<string>)
    requires CountedOk(store, regs, front, back) && KeyFor(belongs, r, front, key, back)
    requires |front| + |back| == 1
    ensures CountedOk(if belongs then PutCounted(store, |r.Parts()| - 1, key, r.index) else store, regs + [r],
                      front, back)
  {
    var store' := if belongs then PutCounted(store, |r.Parts()| - 1, key, r.index) else store;
    forall k
      ensures Filed(InCounted(store', k), AtCounted(store', k), regs + [r], front, k, back)
    {
      assert Filed(InCounted(store, k), AtCounted(store, k), regs, front, k, back);
      LastOfAppend(regs, r, Wrap(front, k, back));
      if belongs && Wrap(front, k, back) == r.Parts() { WrapInjective(front, back, k, key); }
    }
  }

  /** A list store gains its registrations at the end. */
  lemma EntriesGrow(list: seq<Segments>, regs: seq<Registration>, ps: seq<int>, x: string, r: Registration)
    requires EntriesAt(list, regs, ps, x)
    ensures EntriesAt(list, regs + [r], ps, x)
    ensures x in r.Parts() ==> EntriesAt(list + [Entry(r, x)], regs + [r], ps + [|regs|], x)
  {
  }

  lemma LabelsGrow(list: seq<(seq<string>, nat)>, regs: seq<Registration>, ps: seq<int>, r: Registration)
    requires LabelsAt(list, regs, ps)
    ensures LabelsAt(list, regs + [r], ps)
    ensures LabelsAt(list + [(r.Parts(), r.index)], regs + [r], ps + [|regs|])
  {
  }

  lemma ListAdded(list: seq<Segments>, regs: seq<Registration>, t: Tier, x: string, r: Registration)
    requires ListOk(list, regs, t, x) && (r.Tier() == t ==> x in r.Parts())
    ensures ListOk(if r.Tier() == t then list + [Entry(r, x)] else list, regs + [r], t, x)
  {
    PickedAppend(regs, r, t);
    EntriesGrow(list, regs, Picked(regs, t), x, r);
    assert Picked(regs, t) + [] == Picked(regs, t);
  }

  lemma ComplexAdded(list: seq<(seq<string>, nat)>, regs: seq<Registration>, r: Registration)
    requires ComplexOk(list, regs)
    ensures ComplexOk(if r.Tier() == Complex then list + [(r.Parts(), r.index)] else list, regs + [r])
  {
    PickedAppend(regs, r, Complex);
    LabelsGrow(list, regs, Picked(regs, Complex), r);
    assert Picked(regs, Complex) + [] == Picked(regs, Complex);
  }

  /** In the trie the first registration of a pattern wins. */
  lemma TrieAdded(trie: map<seq<string>, nat>, regs: seq<Registration>, r: Registration)
    requires TrieOk(trie, regs)
    ensures TrieOk(if r.Tier() == Trie && r.Parts() !in trie then trie[r.Parts() := r.index] else trie, regs + [r])
  {
    var trie' := if r.Tier() == Trie && r.Parts() !in trie then trie[r.Parts() := r.index] else trie;
    forall ls
      ensures TrieFiled(trie', regs + [r], ls)
    {
      assert TrieFiled(trie, regs, ls);
      FirstOfAppend(regs, r, ls);
    }
  }

  lemma CatchAllAdded(c: Option<nat>, regs: seq<Registration>, r: Registration)
    requires CatchAllOk(c, regs)
    ensures CatchAllOk(if r.Tier() == CatchAll && c.None? then Some(r.index) else c, regs + [r])
  {
    if k :| FirstBare(regs, k) && c == Some(regs[k].index) {
      assert FirstBare(regs + [r], k);
    } else if Bare(r.Parts()) {
      assert FirstBare(regs + [r], |regs|);
    }
  }

  lemma KeyedStoresAdded(st: Snapshot, regs: seq<Registration>, r: Registration)
    requires KeyedStoresOk(st, regs)
    ensures KeyedStoresOk(Added(st, r), regs + [r])
  {
    EntriesExist(r.Parts());
    ExactKey(r);
    LeadingStarKey(r);
    TrailingStarKey(r);
    LeadingDoubleKey(r);
    TrailingDoubleKey(r);
    KeyedStoresAddedAs(st, regs, r.Tier(), r);
  }

  lemma KeyedStoresAddedAs(st: Snapshot, regs: seq<Registration>, t: Tier, r: Registration)
    requires t == InnerStar ==> "*" in r.Parts()
    requires t == InnerDouble ==> "**" in r.Parts()
    requires KeyFor(t == Exact, r, [], r.pattern, [])
    requires KeyFor(t == LeadingStar, r, ["*"], LeadingKey(r), [])
    requires KeyFor(t == TrailingStar, r, [], TrailingKey(r), ["*"])
    requires KeyFor(t == LeadingDouble, r, ["**"], LeadingKey(r), [])
    requires KeyFor(t == TrailingDouble, r, [], TrailingKey(r), ["**"])
    requires KeyedStoresOk(st, regs)
    ensures KeyedStoresOk(AddedAs(st, t, r), regs + [r])
  {
    KeyedAdded(st.exact, regs, t == Exact, r, [], r.pattern, []);
    KeyedAdded(st.leading, regs, t == LeadingStar, r, ["*"], LeadingKey(r), []);
    KeyedAdded(st.trailing, regs, t == TrailingStar, r, [], TrailingKey(r), ["*"]);
    CountedAdded(st.doubleLeading, regs, t == LeadingDouble, r, ["**"], LeadingKey(r), []);
    CountedAdded(st.doubleTrailing, regs, t == TrailingDouble, r, [], TrailingKey(r), ["**"]);
  }

  lemma OtherStoresAdded(st: Snapshot, regs: seq<Registration>, r: Registration)
    requires OtherStoresOk(st, regs)
    ensures OtherStoresOk(Added(st, r), regs + [r])
  {
    EntriesExist(r.Parts());
    ListAdded(st.innerStar, regs, InnerStar, "*", r);
    ListAdded(st.innerDouble, regs, InnerDouble, "**", r);
    TrieAdded(st.trie, regs, r);
    ComplexAdded(st.complex, regs, r);
    CatchAllAdded(st.catchAll, regs, r);
  }

  /** Every registration, of whatever pattern, keeps all ten stores right. */
  lemma AddedKeepsStores(st: Snapshot, regs: seq<Registration>, r: Registration)
    requires StoresOk(st, regs)
    ensures StoresOk(Added(st, r), regs + [r])
  {
    KeyedStoresAdded(st, regs, r);
    OtherStoresAdded(st, regs, r);
  }

  // ---- The stores after any run of registrations ----

  const EMPTY := Snapshot(map[], map[], map[], map[], map[], [], [], map[], [], None)

  ghost function Replay(regs: seq<Registration>): Snapshot {
    if regs == [] then EMPTY else Added(Replay(regs[..|regs| - 1]), regs[|regs| - 1])
  }

  lemma ReplayAppend(regs: seq<Registration>, r: Registration)
    ensures Replay(regs + [r]) == Added(Replay(regs), r)
  {
    assert (regs + [r])[..|regs|] == regs;
  }

  /** Whatever was registered, in whatever order, all ten stores are right about it. */
  lemma {:induction false} ReplayOk(regs: seq<Registration>)
    ensures StoresOk(Replay(regs), regs)
  {
    if regs != [] {
      var n := |regs| - 1;
      ReplayOk(regs[..n]);
      ReplayOneMore(regs[..n], regs[n]);
      assert regs[..n] + [regs[n]] == regs;
    }
  }

  lemma ReplayOneMore(regs: seq<Registration>, r: Registration)
    requires StoresOk(Replay(regs), regs)
    ensures StoresOk(Replay(regs + [r]), regs + [r])
  {
    ReplayAppend(regs, r);
    AddedKeepsStores(Replay(regs), regs, r);
  }
}
