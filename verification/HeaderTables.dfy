/** The tables of headers to inject, and the order in which a table is written out. */
module HeaderTables {
  import opened Labels
  import opened HeaderLines
  import opened HeaderRewrite

  type Table = map<Bytes, Bytes>

  /** `str::cmp`, as bytes: the first difference decides, and a proper prefix comes first. */
  predicate Less(a: Bytes, b: Bytes) {
    if b == [] then false
    else if a == [] then true
    else a[0] < b[0] || (a[0] == b[0] && Less(a[1..], b[1..]))
  }

  lemma {:induction false} LessTotal(a: Bytes, b: Bytes)
    ensures Less(a, b) || a == b || Less(b, a)
    ensures !(Less(a, b) && Less(b, a)) && (a == b ==> !Less(a, b))
  {
    if a != [] && b != [] {
      LessTotal(a[1..], b[1..]);
      assert a == [a[0]] + a[1..] && b == [b[0]] + b[1..];
    }
  }

  lemma {:induction false} LessTransitive(a: Bytes, b: Bytes, c: Bytes)
    requires Less(a, b) && Less(b, c)
    ensures Less(a, c)
  {
    if a != [] && a[0] == b[0] == c[0] { LessTransitive(a[1..], b[1..], c[1..]); }
  }

  /** The first difference decides, and a proper prefix comes first. */
  lemma LessIs(a: Bytes, b: Bytes)
    ensures Less(a, b) <==>
            exists i :: 0 <= i <= |a| && i < |b| && a[..i] == b[..i] && (i == |a| || a[i] < b[i])
  {
    if Less(a, b) { var i := FirstDifference(a, b); }
    if i :| 0 <= i <= |a| && i < |b| && a[..i] == b[..i] && (i == |a| || a[i] < b[i]) { DifferenceDecides(a, b, i); }
  }

  lemma {:induction false} FirstDifference(a: Bytes, b: Bytes) returns (i: nat)
    requires Less(a, b)
    ensures i <= |a| && i < |b| && a[..i] == b[..i] && (i == |a| || a[i] < b[i])
  {
    if a == [] || a[0] < b[0] {
      i := 0;
    } else {
      var k := FirstDifference(a[1..], b[1..]);
      i := k + 1;
      assert a[..i] == [a[0]] + a[1..][..k] && b[..i] == [b[0]] + b[1..][..k];
    }
  }

  lemma {:induction false} DifferenceDecides(a: Bytes, b: Bytes, i: nat)
    requires i <= |a| && i < |b| && a[..i] == b[..i] && (i == |a| || a[i] < b[i])
    ensures Less(a, b)
  {
    if i > 0 {
      assert a[0] == a[..i][0] && b[0] == b[..i][0];
      assert a[1..][..i - 1] == a[..i][1..] && b[1..][..i - 1] == b[..i][1..];
      DifferenceDecides(a[1..], b[1..], i - 1);
    }
  }

  ghost predicate Ascending(hs: seq<Header>) {
    forall i, j | 0 <= i < j < |hs| :: Less(hs[i].0, hs[j].0)
  }

  /** The list writes out the table: one entry for each key, with the table's value. */
  ghost predicate Lists(hs: seq<Header>, table: Table) {
    && (forall h | h in hs :: h.0 in table && table[h.0] == h.1)
    && forall k | k in table :: (k, table[k]) in hs
  }

  /** The table written out in ascending order of key. */
  ghost predicate IsListing(hs: seq<Header>, table: Table) {
    Ascending(hs) && Lists(hs, table)
  }

  /** In ascending order of key, an entry is listed exactly if the table has it. */
  lemma ListingIs(hs: seq<Header>, table: Table)
    ensures IsListing(hs, table) <==>
            && (forall m, n | 0 <= m < n < |hs| :: Less(hs[m].0, hs[n].0))
            && forall k, v :: (k, v) in hs <==> k in table && table[k] == v
  {
  }

  /** However a table was iterated, its sorted listing is the same. */
  lemma {:induction false} ListingUnique(a: seq<Header>, b: seq<Header>)
    requires Ascending(a) && Ascending(b)
    requires forall h :: h in a <==> h in b
    ensures a == b
  {
    if a == [] {
      if b != [] { SomeMember(b); }
    } else {
      assert a[0] in b && b[0] in a;
      LeastFirst(a, b[0]);
      LeastFirst(b, a[0]);
      LessTotal(a[0].0, b[0].0);
      forall h ensures h in a[1..] <==> h in b[1..] {
        InTail(a, h);
        InTail(b, h);
      }
      assert Ascending(a[1..]) && Ascending(b[1..]);
      ListingUnique(a[1..], b[1..]);
      assert a == [a[0]] + a[1..] && b == [b[0]] + b[1..];
    }
  }

  lemma SomeMember(b: seq<Header>)
    requires b != []
    ensures exists h :: h in b
  {
    assert b[0] in b;
  }

  lemma LeastFirst(a: seq<Header>, h: Header)
    requires Ascending(a) && h in a
    ensures a[0] == h || Less(a[0].0, h.0)
  {
  }

  lemma InTail(a: seq<Header>, h: Header)
    requires Ascending(a) && a != []
    ensures h in a[1..] <==> h in a && h != a[0]
  {
    if h in a[1..] {
      var i :| 0 <= i < |a[1..]| && a[1..][i] == h;
      LessTotal(a[0].0, a[i + 1].0);
    }
  }

  lemma ListingOfTable(a: seq<Header>, b: seq<Header>, table: Table)
    requires IsListing(a, table) && IsListing(b, table)
    ensures a == b
  {
    forall h ensures h in a <==> h in b {
    }
    ListingUnique(a, b);
  }

  /** One step of the sort: the sorted list with one more entry in its place. */
  function Inserted(hs: seq<Header>, h: Header): (r: seq<Header>)
    ensures forall x :: x in r <==> x in hs || x == h
  {
    if hs == [] then [h]
    else if Less(h.0, hs[0].0) then [h] + hs
    else [hs[0]] + Inserted(hs[1..], h)
  }

  lemma {:induction false} InsertedAscending(hs: seq<Header>, h: Header)
    requires Ascending(hs) && forall x | x in hs :: x.0 != h.0
    ensures Ascending(Inserted(hs, h))
  {
    if hs != [] {
      LessTotal(h.0, hs[0].0);
      if Less(h.0, hs[0].0) {
        forall j | 0 <= j < |hs| ensures Less(h.0, hs[j].0) {
          if j > 0 { LessTransitive(h.0, hs[0].0, hs[j].0); }
        }
      } else {
        InsertedAscending(hs[1..], h);
        var rest := Inserted(hs[1..], h);
        forall j | 0 <= j < |rest| ensures Less(hs[0].0, rest[j].0) {
          assert rest[j] in rest;
        }
      }
    }
  }

  /** Collecting a hash table: every entry once, in whatever order the table yields them. */
  method Collect(table: Table) returns (items: seq<Header>)
    ensures Lists(items, table)
    ensures forall i, j | 0 <= i < j < |items| :: items[i].0 != items[j].0
  {
    items := [];
    var remaining := table.Keys;
    while remaining != {}
      invariant remaining <= table.Keys
      invariant forall h | h in items :: h.0 in table && h.0 !in remaining && table[h.0] == h.1
      invariant forall k | k in table && k !in remaining :: (k, table[k]) in items
      invariant forall i, j | 0 <= i < j < |items| :: items[i].0 != items[j].0
      decreases remaining
    {
      var key :| key in remaining;
      assert forall i | 0 <= i < |items| :: items[i] in items;
      items := items + [(key, table[key])];
      remaining := remaining - {key};
    }
  }

  /** `sort_by(|a, b| a.0.cmp(&b.0))`. */
  method SortByKey(items: seq<Header>) returns (sorted: seq<Header>)
    requires forall i, j | 0 <= i < j < |items| :: items[i].0 != items[j].0
    ensures Ascending(sorted)
    ensures forall h :: h in sorted <==> h in items
  {
    sorted := [];
    for n := 0 to |items|
      invariant Ascending(sorted)
      invariant forall h :: h in sorted <==> h in items[..n]
    {
      assert forall x | x in sorted :: x.0 != items[n].0;
      InsertedAscending(sorted, items[n]);
      sorted := Inserted(sorted, items[n]);
      assert items[..n + 1] == items[..n] + [items[n]];
    }
    assert items[..|items|] == items;
  }

  /** `sorted_headers`: the table's entries, once each, in ascending order of key. */
  method SortedHeaders(table: Table) returns (sorted: seq<Header>)
    ensures IsListing(sorted, table)
    ensures forall k, v :: (k, v) in sorted <==> k in table && table[k] == v
    ensures forall m, n | 0 <= m < n < |sorted| :: Less(sorted[m].0, sorted[n].0)
  {
    var items := Collect(table);
    sorted := SortByKey(items);
  }

  // ---- The headers added to a request ----

  const X_FORWARDED_FOR: Bytes :=
    [88, 45, 70, 111, 114, 119, 97, 114, 100, 101, 100, 45, 70, 111, 114]

  lemma ForwardedForSpelled()
    ensures
      var text := "X-Forwarded-For";
      |X_FORWARDED_FOR| == |text| && forall i | 0 <= i < |text| :: X_FORWARDED_FOR[i] as int == text[i] as int
  {
  }

  /** `rsplit_once(':').map(|(ip, _)| ip).unwrap_or(client_ip)`: the address without its port. */
  function AddressOf(clientIp: Bytes): (a: Bytes)
    ensures 58 !in clientIp ==> a == clientIp
    ensures 58 in clientIp ==>
              |a| < |clientIp| && a == clientIp[..|a|] && clientIp[|a|] == 58 && 58 !in clientIp[|a| + 1..]
  {
    if clientIp == [] then clientIp
    else
      var n := |clientIp| - 1;
      assert clientIp == clientIp[..n] + [clientIp[n]];
      if clientIp[n] == COLON then clientIp[..n]
      else if COLON !in clientIp[..n] then clientIp
      else
        var a := AddressOf(clientIp[..n]);
        assert clientIp[|a| + 1..] == clientIp[..n][|a| + 1..] + [clientIp[n]];
        a
  }

  /** Global headers, overridden by the service's own. */
  function Merged(global: Table, custom: Option<Table>): (t: Table)
    ensures forall k :: k in t <==> k in global || (custom.Some? && k in custom.value)
    ensures forall k | k in t :: t[k] == if custom.Some? && k in custom.value then custom.value[k] else global[k]
  {
    match custom case None => global case Some(c) => global + c
  }

  /** These again, overridden by the forwarded address. */
  function UpstreamHeaders(global: Table, custom: Option<Table>, clientIp: Bytes): (t: Table)
    ensures forall k :: k in t <==> k == X_FORWARDED_FOR || k in global || (custom.Some? && k in custom.value)
    ensures forall k | k in t ::
              t[k] == if k == X_FORWARDED_FOR then AddressOf(clientIp)
                      else if custom.Some? && k in custom.value then custom.value[k] else global[k]
  {
    Merged(global, custom)[X_FORWARDED_FOR := AddressOf(clientIp)]
  }

  /** What the listing for the upstream holds, over the tables it is made of. */
  lemma ListedPointwise(hs: seq<Header>, global: Table, custom: Option<Table>, clientIp: Bytes)
    requires IsListing(hs, UpstreamHeaders(global, custom, clientIp))
    ensures forall m, n | 0 <= m < n < |hs| :: Less(hs[m].0, hs[n].0)
    ensures forall k, v :: (k, v) in hs <==>
              if k == X_FORWARDED_FOR then v == AddressOf(clientIp)
              else if custom.Some? && k in custom.value then v == custom.value[k]
              else k in global && v == global[k]
  {
    ListingIs(hs, UpstreamHeaders(global, custom, clientIp));
  }

  /** The rewriting block of `process_request_inner`: what is sent upstream for the bytes held. */
  method RewriteRequest(buf: Bytes, global: Table, custom: Option<Table>, clientIp: Bytes)
    returns (finalBuf: Bytes)
    ensures exists hs: seq<Header> ::
              && finalBuf == Rewritten(buf, hs)
              && (forall m, n | 0 <= m < n < |hs| :: Less(hs[m].0, hs[n].0))
              && forall k, v :: (k, v) in hs <==>
                   if k == X_FORWARDED_FOR then v == AddressOf(clientIp)
                   else if custom.Some? && k in custom.value then v == custom.value[k]
                   else k in global && v == global[k]
    ensures exists hs :: IsListing(hs, UpstreamHeaders(global, custom, clientIp))
    ensures forall hs | IsListing(hs, UpstreamHeaders(global, custom, clientIp)) ::
              finalBuf == Rewritten(buf, hs)
  {
    var table := UpstreamHeaders(global, custom, clientIp);
    var sorted := SortedHeaders(table);
    finalBuf := RewriteHead(buf, sorted);
    ListedPointwise(sorted, global, custom, clientIp);
    forall hs | IsListing(hs, table) ensures finalBuf == Rewritten(buf, hs) {
      ListingOfTable(hs, sorted, table);
    }
  }

  // ---- The client's address, told to the upstream ----

  ghost predicate TableLfFree(table: Table) {
    forall k | k in table :: LF !in k && LF !in table[k]
  }

  /** No other key of the table is this one up to letter case, as far as filtering reads it. */
  ghost predicate KeyUnique(table: Table, key: Bytes) {
    forall k | k in table && k != key :: !EqualIgnoreCase(BeforeColon(k), key)
  }

  /** In a listing a name is unique exactly if it is in the table. */
  lemma ListedUnique(hs: seq<Header>, table: Table, i: nat)
    requires IsListing(hs, table) && i < |hs|
    ensures NameUnique(hs, i) <==> KeyUnique(table, hs[i].0)
  {
    forall j | 0 <= j < |hs| && j != i ensures hs[j].0 in table && hs[j].0 != hs[i].0 {
      assert hs[j] in hs;
      LessTotal(hs[i].0, hs[j].0);
    }
    if NameUnique(hs, i) {
      forall k | k in table && k != hs[i].0 ensures !EqualIgnoreCase(BeforeColon(k), hs[i].0) {
        assert (k, table[k]) in hs;
        var j :| 0 <= j < |hs| && hs[j] == (k, table[k]);
      }
    }
  }

  lemma ListingLfFree(hs: seq<Header>, table: Table)
    requires Lists(hs, table) && TableLfFree(table)
    ensures AllLfFree(hs)
  {
    assert forall i | 0 <= i < |hs| :: hs[i] in hs;
  }
}
