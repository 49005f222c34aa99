/** Choosing the best of a list under a preference that may look at positions to break ties. */
module Selection {
  import opened Labels

  /** `beats(a, b, later)`: `a` is preferred to `b`, where `later` says that `a` stands after `b`. */
  type Preference<!T> = (T, T, bool) -> bool

  /** On the elements that fit, the preference is total, asymmetric and transitive. */
  ghost predicate Lawful<T(!new)>(fits: T -> bool, beats: Preference<T>) {
    && (forall a, b, l | fits(a) && fits(b) :: beats(a, b, l) <==> !beats(b, a, !l))
    && (forall a, b, c, l, m, n | fits(a) && fits(b) && fits(c) && (l == m ==> n == l) ::
          beats(a, b, l) && beats(b, c, m) ==> beats(a, c, n))
  }

  ghost predicate IsBest<T>(items: seq<T>, fits: T -> bool, beats: Preference<T>, k: int) {
    && 0 <= k < |items|
    && fits(items[k])
    && forall j | 0 <= j < |items| && j != k && fits(items[j]) :: beats(items[k], items[j], k > j)
  }

  /** A lawful preference has a best element as soon as something fits. */
  lemma {:induction false} BestExists<T(!new)>(items: seq<T>, fits: T -> bool, beats: Preference<T>)
    requires Lawful(fits, beats)
    ensures (exists k :: 0 <= k < |items| && fits(items[k])) <==> exists k :: IsBest(items, fits, beats, k)
  {
    if i :| 0 <= i < |items| && fits(items[i]) {
      var n := |items| - 1;
      var front, x := items[..n], items[n];
      if j :| 0 <= j < |front| && fits(front[j]) {
        BestExists(front, fits, beats);
        var w :| IsBest(front, fits, beats, w);
        if fits(x) && beats(x, items[w], true) {
          forall k | 0 <= k < |items| && k != n && fits(items[k]) ensures beats(x, items[k], true) {
            if k != w { assert beats(front[w], front[k], w > k); }
          }
          assert IsBest(items, fits, beats, n);
        } else {
          assert fits(x) ==> beats(items[w], x, false);
          assert IsBest(items, fits, beats, w);
        }
      } else {
        assert i == n;
        assert forall k | 0 <= k < n :: !fits(front[k]);
        assert IsBest(items, fits, beats, n);
      }
    }
  }

  lemma BestUnique<T(!new)>(items: seq<T>, fits: T -> bool, beats: Preference<T>, k: int, j: int)
    requires Lawful(fits, beats)
    requires IsBest(items, fits, beats, k) && IsBest(items, fits, beats, j)
    ensures k == j
  {
  }

  /** Where the best element stands, if anything fits. */
  ghost function Pick<T(!new)>(items: seq<T>, fits: T -> bool, beats: Preference<T>): (r: Option<int>)
    requires Lawful(fits, beats)
    ensures r.None? <==> forall k | 0 <= k < |items| :: !fits(items[k])
    ensures forall k :: r == Some(k) <==> IsBest(items, fits, beats, k)
  {
    BestExists(items, fits, beats);
    if k :| IsBest(items, fits, beats, k) then
      assert forall j | IsBest(items, fits, beats, j) :: j == k by {
        forall j | IsBest(items, fits, beats, j) ensures j == k { BestUnique(items, fits, beats, j, k); }
      }
      Some(k)
    else None
  }

  /** One more item that beats the best one is the best. */
  lemma BestTaken<T(!new)>(items: seq<T>, x: T, good: T -> bool, beats: Preference<T>, k: int)
    requires Lawful(good, beats) && IsBest(items, good, beats, k) && good(x) && beats(x, items[k], true)
    ensures IsBest(items + [x], good, beats, |items|)
  {
  }

  /** One that does not, or does not count, leaves it the best. */
  lemma BestStays<T(!new)>(items: seq<T>, x: T, good: T -> bool, beats: Preference<T>, k: int)
    requires Lawful(good, beats) && IsBest(items, good, beats, k) && (good(x) ==> !beats(x, items[k], true))
    ensures IsBest(items + [x], good, beats, k)
  {
  }

  /** Appending something that does not fit leaves the best element where it was. */
  lemma BestFrame<T>(items: seq<T>, x: T, fits: T -> bool, beats: Preference<T>, k: int)
    requires !fits(x) && IsBest(items, fits, beats, k)
    ensures IsBest(items + [x], fits, beats, k)
  {
  }

  /** The list with one of its elements moved to the front or to the back. */
  function Moved<T>(items: seq<T>, i: nat, toBack: bool): (r: seq<T>)
    requires i < |items|
    ensures multiset(r) == multiset(items)
  {
    var rest := items[..i] + items[i + 1..];
    assert items == items[..i] + [items[i]] + items[i + 1..];
    if toBack then rest + [items[i]] else [items[i]] + rest
  }

  /** The positions of the elements that qualify, in order. */
  ghost function Positions<T>(items: seq<T>, good: T -> bool): (ps: seq<int>)
    ensures forall i | 0 <= i < |ps| :: 0 <= ps[i] < |items| && good(items[ps[i]])
    ensures forall i, j | 0 <= i < j < |ps| :: ps[i] < ps[j]
    ensures forall k | 0 <= k < |items| && good(items[k]) :: k in ps
  {
    if items == [] then []
    else
      var n := |items| - 1;
      var front := Positions(items[..n], good);
      assert forall k | 0 <= k < n && good(items[k]) :: good(items[..n][k]) && k in front;
      front + if good(items[n]) then [n] else []
  }

  lemma PositionsAppend<T>(items: seq<T>, x: T, good: T -> bool)
    ensures Positions(items + [x], good) == Positions(items, good) + if good(x) then [|items|] else []
  {
    assert (items + [x])[..|items|] == items;
  }
}
