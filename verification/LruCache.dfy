/**
 * The bounded least-recently-used cache, as the router relies on it: a recency list, and what
 * looking up and storing do to that list.
 */
module LruCaches {
  import opened Labels

  /** A remembered answer; `None` remembers that no pattern matched. */
  type Entry = (string, Option<nat>)

  function Lookup(entries: seq<Entry>, key: string): (r: Option<Option<nat>>)
    ensures r.None? <==> forall i | 0 <= i < |entries| :: entries[i].0 != key
    ensures r.Some? ==> (key, r.value) in entries
  {
    if entries == [] then None
    else if entries[0].0 == key then Some(entries[0].1)
    else Lookup(entries[1..], key)
  }

  function Without(entries: seq<Entry>, key: string): (r: seq<Entry>)
    ensures |r| <= |entries|
    ensures forall e :: e in r <==> e in entries && e.0 != key
    ensures Lookup(entries, key).Some? ==> |r| < |entries|
  {
    if entries == [] then []
    else (if entries[0].0 == key then [] else [entries[0]]) + Without(entries[1..], key)
  }

  /** A hit moves the entry to the front. */
  function Touched(entries: seq<Entry>, key: string): seq<Entry> {
    match Lookup(entries, key)
    case None => entries
    case Some(v) => [(key, v)] + Without(entries, key)
  }

  /** A new entry goes to the front, and the entry used longest ago makes room for it. */
  function Stored(entries: seq<Entry>, capacity: nat, key: string, value: Option<nat>): seq<Entry> {
    var longer := [(key, value)] + Without(entries, key);
    if |longer| > capacity then longer[..capacity] else longer
  }

  ghost predicate DistinctKeys(entries: seq<Entry>) {
    forall i, j | 0 <= i < j < |entries| :: entries[i].0 != entries[j].0
  }

  // ---- What looking up and storing do to a list without duplicates ----

  /** The list without the entry at this position. */
  function Dropped(entries: seq<Entry>, i: nat): seq<Entry>
    requires i < |entries|
  {
    entries[..i] + entries[i + 1..]
  }

  ghost predicate HasKey(entries: seq<Entry>, key: string) {
    exists i :: 0 <= i < |entries| && entries[i].0 == key
  }

  /** Without duplicates, a key is taken out by taking out its one position; the others stay in order. */
  lemma {:induction false} WithoutDrops(entries: seq<Entry>, key: string, i: nat)
    requires DistinctKeys(entries) && i < |entries| && entries[i].0 == key
    ensures Without(entries, key) == Dropped(entries, i)
    ensures Lookup(entries, key) == Some(entries[i].1)
  {
    if i == 0 {
      WithoutAbsent(entries[1..], key);
    } else {
      assert entries[0].0 != key;
      WithoutDrops(entries[1..], key, i - 1);
      DroppedBehindFirst(entries, i);
    }
  }

  lemma DroppedBehindFirst(entries: seq<Entry>, i: nat)
    requires 0 < i < |entries|
    ensures Dropped(entries, i) == [entries[0]] + Dropped(entries[1..], i - 1)
  {
  }

  lemma AbsentBehindFirst(entries: seq<Entry>, key: string)
    requires entries != [] && !HasKey(entries, key)
    ensures entries[0].0 != key && !HasKey(entries[1..], key)
  {
    assert forall i | 0 <= i < |entries[1..]| :: entries[1..][i] == entries[i + 1];
  }

  lemma {:induction false} WithoutAbsent(entries: seq<Entry>, key: string)
    requires !HasKey(entries, key)
    ensures Without(entries, key) == entries
  {
    if entries != [] {
      AbsentBehindFirst(entries, key);
      WithoutAbsent(entries[1..], key);
    }
  }

  /** Looking up moves the one entry of the key to the front, and nothing else. */
  lemma TouchedIs(entries: seq<Entry>, key: string)
    requires DistinctKeys(entries)
    ensures forall i | 0 <= i < |entries| && entries[i].0 == key ::
              && Lookup(entries, key) == Some(entries[i].1)
              && Touched(entries, key) == [entries[i]] + entries[..i] + entries[i + 1..]
    ensures (forall i | 0 <= i < |entries| :: entries[i].0 != key) ==>
              Lookup(entries, key) == None && Touched(entries, key) == entries
  {
    forall i | 0 <= i < |entries| && entries[i].0 == key
      ensures Lookup(entries, key) == Some(entries[i].1)
      ensures Touched(entries, key) == [entries[i]] + entries[..i] + entries[i + 1..]
    {
      WithoutDrops(entries, key, i);
    }
  }

  /**
   * Storing puts the entry in front and takes out one of the same key; the others keep their order, and only if
   * the list was full and the key is new, the last of them is gone.
   */
  lemma StoredIs(entries: seq<Entry>, capacity: nat, key: string, value: Option<nat>)
    requires DistinctKeys(entries) && |entries| <= capacity && capacity > 0
    ensures forall i | 0 <= i < |entries| && entries[i].0 == key ::
              Stored(entries, capacity, key, value) == [(key, value)] + entries[..i] + entries[i + 1..]
    ensures (forall i | 0 <= i < |entries| :: entries[i].0 != key) ==>
              Stored(entries, capacity, key, value) ==
              [(key, value)] + if |entries| < capacity then entries else entries[..|entries| - 1]
  {
    forall i | 0 <= i < |entries| && entries[i].0 == key
      ensures Stored(entries, capacity, key, value) == [(key, value)] + entries[..i] + entries[i + 1..]
    {
      StoredAgain(entries, capacity, key, value, i);
    }
    if !HasKey(entries, key) { StoredNew(entries, capacity, key, value); }
  }

  lemma StoredAgain(entries: seq<Entry>, capacity: nat, key: string, value: Option<nat>, i: nat)
    requires DistinctKeys(entries) && |entries| <= capacity && i < |entries| && entries[i].0 == key
    ensures Stored(entries, capacity, key, value) == [(key, value)] + entries[..i] + entries[i + 1..]
  {
    WithoutDrops(entries, key, i);
    assert [(key, value)] + Dropped(entries, i) == [(key, value)] + entries[..i] + entries[i + 1..];
  }

  lemma StoredNew(entries: seq<Entry>, capacity: nat, key: string, value: Option<nat>)
    requires !HasKey(entries, key) && |entries| <= capacity && capacity > 0
    ensures Stored(entries, capacity, key, value) ==
            [(key, value)] + if |entries| < capacity then entries else entries[..|entries| - 1]
  {
    WithoutAbsent(entries, key);
  }

  /** One resolution through the cache: a hit is answered from the list and touched; a miss is asked and stored. */
  lemma ThroughIs(entries: seq<Entry>, capacity: nat, key: string, asked: Option<nat>)
    requires DistinctKeys(entries) && |entries| <= capacity && capacity > 0
    ensures forall i | 0 <= i < |entries| && entries[i].0 == key ::
              Through(entries, capacity, key, asked) == ([entries[i]] + entries[..i] + entries[i + 1..], entries[i].1)
    ensures (forall i | 0 <= i < |entries| :: entries[i].0 != key) ==>
              Through(entries, capacity, key, asked) ==
              ([(key, asked)] + (if |entries| < capacity then entries else entries[..|entries| - 1]), asked)
  {
    TouchedIs(entries, key);
    StoredIs(entries, capacity, key, asked);
  }

  ghost predicate Sound(entries: seq<Entry>, capacity: nat, answer: string -> Option<nat>) {
    && |entries| <= capacity
    && DistinctKeys(entries)
    && forall i | 0 <= i < |entries| :: entries[i].1 == answer(entries[i].0)
  }

  lemma {:induction false} WithoutDistinct(entries: seq<Entry>, key: string)
    requires DistinctKeys(entries)
    ensures DistinctKeys(Without(entries, key))
  {
    if entries != [] {
      WithoutDistinct(entries[1..], key);
      var rest := Without(entries[1..], key);
      forall j | 0 <= j < |rest| ensures rest[j].0 != entries[0].0 {
        assert rest[j] in entries[1..];
      }
    }
  }

  lemma FrontDistinct(entries: seq<Entry>, key: string, value: Option<nat>)
    requires DistinctKeys(entries)
    ensures DistinctKeys([(key, value)] + Without(entries, key))
  {
    WithoutDistinct(entries, key);
    var rest := Without(entries, key);
    assert forall j | 0 <= j < |rest| :: rest[j] in rest;
  }

  lemma TouchedDistinct(entries: seq<Entry>, key: string)
    requires DistinctKeys(entries)
    ensures DistinctKeys(Touched(entries, key)) && |Touched(entries, key)| <= |entries|
  {
    if Lookup(entries, key).Some? { FrontDistinct(entries, key, Lookup(entries, key).value); }
  }

  lemma StoredDistinct(entries: seq<Entry>, capacity: nat, key: string, value: Option<nat>)
    requires DistinctKeys(entries)
    ensures DistinctKeys(Stored(entries, capacity, key, value)) && |Stored(entries, capacity, key, value)| <= capacity
  {
    FrontDistinct(entries, key, value);
  }

  /** Moving or storing a right answer keeps a sound cache sound, whatever it evicts. */
  lemma FrontSound(entries: seq<Entry>, capacity: nat, key: string, value: Option<nat>, answer: string -> Option<nat>)
    requires Sound(entries, capacity, answer) && value == answer(key)
    ensures Sound(Stored(entries, capacity, key, value), capacity, answer)
    ensures Lookup(entries, key) == Some(value) ==> Sound(Touched(entries, key), capacity, answer)
  {
    var rest := Without(entries, key);
    TouchedDistinct(entries, key);
    StoredDistinct(entries, capacity, key, value);
    forall j | 0 <= j < |rest| ensures rest[j].1 == answer(rest[j].0) {
      assert rest[j] in entries;
    }
  }

  lemma LookupSound(entries: seq<Entry>, capacity: nat, key: string, answer: string -> Option<nat>)
    requires Sound(entries, capacity, answer)
    ensures Lookup(entries, key).Some? ==> Lookup(entries, key).value == answer(key)
  {
  }

  // ---- One resolution through the cache, and whole runs of them ----

  /** `find_with_cache` on values: a hit answers from the cache, a miss asks and remembers. */
  function Through(entries: seq<Entry>, capacity: nat, key: string, asked: Option<nat>): (seq<Entry>, Option<nat>) {
    match Lookup(entries, key)
    case Some(v) => (Touched(entries, key), v)
    case None => (Stored(entries, capacity, key, asked), asked)
  }

  ghost function Run(entries: seq<Entry>, capacity: nat, keys: seq<string>, answer: string -> Option<nat>)
    : (seq<Entry>, seq<Option<nat>>)
    decreases |keys|
  {
    if keys == [] then (entries, [])
    else
      var (next, r) := Through(entries, capacity, keys[0], answer(keys[0]));
      var (final, rs) := Run(next, capacity, keys[1..], answer);
      (final, [r] + rs)
  }

  lemma ThroughSound(entries: seq<Entry>, capacity: nat, key: string, answer: string -> Option<nat>)
    requires Sound(entries, capacity, answer)
    ensures Through(entries, capacity, key, answer(key)).1 == answer(key)
    ensures Sound(Through(entries, capacity, key, answer(key)).0, capacity, answer)
  {
    LookupSound(entries, capacity, key, answer);
    FrontSound(entries, capacity, key, answer(key), answer);
  }

  /** Over any run of lookups, and any capacity, the cache is invisible in the answers. */
  lemma {:induction false} RunTransparent(entries: seq<Entry>, capacity: nat, keys: seq<string>,
                                          answer: string -> Option<nat>)
    requires Sound(entries, capacity, answer)
    ensures
      var (final, rs) := Run(entries, capacity, keys, answer);
      && |rs| == |keys|
      && (forall i | 0 <= i < |keys| :: rs[i] == answer(keys[i]))
      && Sound(final, capacity, answer)
    decreases |keys|
  {
    if keys != [] {
      ThroughSound(entries, capacity, keys[0], answer);
      RunTransparent(Through(entries, capacity, keys[0], answer(keys[0])).0, capacity, keys[1..], answer);
    }
  }

  /** With room for at least one entry, the answer just given is in the cache: asking again is a hit. */
  lemma AskedIsCached(entries: seq<Entry>, capacity: nat, key: string, asked: Option<nat>)
    requires capacity >= 1
    ensures Lookup(Through(entries, capacity, key, asked).0, key) == Some(Through(entries, capacity, key, asked).1)
  {
  }

  class LruCache {
    const capacity: nat
    var entries: seq<Entry>

    ghost predicate Valid()
      reads this
    {
      capacity > 0 && |entries| <= capacity && DistinctKeys(entries)
    }

    constructor (capacity: nat)
      requires capacity > 0
      ensures Valid() && this.capacity == capacity && entries == []
    {
      this.capacity := capacity;
      entries := [];
    }

    /** `get`: a hit moves its entry to the front; a miss changes nothing. */
    method Get(key: string) returns (r: Option<Option<nat>>)
      requires Valid()
      modifies this
      ensures Valid()
      ensures r.None? ==> entries == old(entries) && forall i | 0 <= i < |entries| :: entries[i].0 != key
      ensures r.Some? ==>
                exists i :: 0 <= i < |old(entries)| && old(entries)[i] == (key, r.value)
                            && entries == [(key, r.value)] + old(entries)[..i] + old(entries)[i + 1..]
      ensures r == Lookup(old(entries), key) && entries == Touched(old(entries), key)
    {
      TouchedIs(entries, key);
      TouchedDistinct(entries, key);
      r := Lookup(entries, key);
      entries := Touched(entries, key);
    }

    /** `put`: the entry goes to the front, and a full list makes room for a new key at its end. */
    method Put(key: string, value: Option<nat>)
      requires Valid()
      modifies this
      ensures Valid()
      ensures forall i | 0 <= i < |old(entries)| && old(entries)[i].0 == key ::
                entries == [(key, value)] + old(entries)[..i] + old(entries)[i + 1..]
      ensures (forall i | 0 <= i < |old(entries)| :: old(entries)[i].0 != key) ==>
                if |old(entries)| < capacity then entries == [(key, value)] + old(entries)
                else |old(entries)| == capacity && entries == [(key, value)] + old(entries)[..capacity - 1]
      ensures entries == Stored(old(entries), capacity, key, value)
    {
      StoredIs(entries, capacity, key, value);
      StoredDistinct(entries, capacity, key, value);
      entries := Stored(entries, capacity, key, value);
    }
  }
}
