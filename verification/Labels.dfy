/** Host names and patterns as strings, and as the dot-separated labels they stand for. */
module Labels {

  datatype Option<+T> = None | Some(value: T)

  ghost predicate DotFree(s: string) {
    '.' !in s
  }

  predicate StarFree(s: string) {
    '*' !in s
  }

  predicate AllStarFree(ls: seq<string>) {
    forall i | 0 <= i < |ls| :: StarFree(ls[i])
  }

  ghost predicate AllDotFree(ls: seq<string>) {
    forall i | 0 <= i < |ls| :: DotFree(ls[i])
  }

  /** Two characters are the same but for case: equal, or the two cases of one ASCII letter. */
  lemma LowerCharIs(a: char, b: char)
    ensures LowerChar(a) == LowerChar(b) <==>
            || a == b
            || ('A' <= a <= 'Z' && b as int == a as int + 32)
            || ('A' <= b <= 'Z' && a as int == b as int + 32)
  {
  }

  lemma SameIgnoringCaseIs(a: string, b: string)
    ensures SameIgnoringCase(a, b) <==>
            |a| == |b| && forall i | 0 <= i < |a| ::
              || a[i] == b[i]
              || ('A' <= a[i] <= 'Z' && b[i] as int == a[i] as int + 32)
              || ('A' <= b[i] <= 'Z' && a[i] as int == b[i] as int + 32)
  {
    if |a| == |b| {
      forall i | 0 <= i < |a|
        ensures LowerChar(a[i]) == LowerChar(b[i]) <==>
                || a[i] == b[i]
                || ('A' <= a[i] <= 'Z' && b[i] as int == a[i] as int + 32)
                || ('A' <= b[i] <= 'Z' && a[i] as int == b[i] as int + 32)
      {
        LowerCharIs(a[i], b[i]);
      }
    }
  }

  /** What one more character in front does to the labels, whatever labels follow. */
  function Prepended(c: char, ls: seq<string>): seq<string>
    requires ls != []
  {
    if c == '.' then [""] + ls else [[c] + ls[0]] + ls[1..]
  }

  /** `s.split('.')`: there is always at least one label, and the empty string has the empty label. */
  function Split(s: string): (ls: seq<string>)
    ensures |ls| >= 1
    ensures AllDotFree(ls)
  {
    if s == "" then [""] else Prepended(s[0], Split(s[1..]))
  }

  /** `labels.join(".")`. */
  function Join(ls: seq<string>): string {
    if ls == [] then ""
    else if |ls| == 1 then ls[0]
    else ls[0] + "." + Join(ls[1..])
  }

  /** `pattern.matches('*').count()`. */
  function StarCount(s: string): (n: nat)
    ensures n == 0 <==> StarFree(s)
  {
    if s == "" then 0 else (if s[0] == '*' then 1 else 0) + StarCount(s[1..])
  }

  /** `s.split_once('.')`: cut at the first dot. */
  function SplitOnce(s: string): (r: Option<(string, string)>)
    ensures r.None? <==> DotFree(s)
    ensures r.Some? ==> s == r.value.0 + "." + r.value.1 && DotFree(r.value.0)
  {
    if s == "" then None
    else if s[0] == '.' then Some(("", s[1..]))
    else
      match SplitOnce(s[1..])
      case None => None
      case Some((a, b)) => Some(([s[0]] + a, b))
  }

  /** `s.rsplit_once('.')`: cut at the last dot. */
  function RSplitOnce(s: string): (r: Option<(string, string)>)
    ensures r.None? <==> DotFree(s)
    ensures r.Some? ==> s == r.value.0 + "." + r.value.1 && DotFree(r.value.1)
  {
    if s == "" then None
    else if s[|s| - 1] == '.' then Some((s[..|s| - 1], ""))
    else
      var init := s[..|s| - 1];
      assert s == init + [s[|s| - 1]];
      match RSplitOnce(init)
      case None => None
      case Some((a, b)) => Some((a, b + [s[|s| - 1]]))
  }

  function LowerChar(c: char): char {
    if 'A' <= c <= 'Z' then (c as int + 32) as char else c
  }

  /** Equal element by element, once each is folded. */
  predicate SameFolded<T, U(==)>(a: seq<T>, b: seq<T>, fold: T -> U) {
    |a| == |b| && forall i | 0 <= i < |a| :: fold(a[i]) == fold(b[i])
  }

  /** `eq_ignore_ascii_case` on text. */
  predicate SameIgnoringCase(a: string, b: string) {
    SameFolded(a, b, LowerChar)
  }

  lemma PrependedConcat(c: char, ls: seq<string>, more: seq<string>)
    requires ls != []
    ensures Prepended(c, ls + more) == Prepended(c, ls) + more
  {
  }

  /** Splitting commutes with gluing two strings at a dot. */
  lemma {:induction false} SplitAtDot(a: string, b: string)
    ensures Split(a + "." + b) == Split(a) + Split(b)
  {
    var s := a + "." + b;
    if a == "" {
      assert s[1..] == b;
    } else {
      assert s[1..] == a[1..] + "." + b;
      SplitAtDot(a[1..], b);
      PrependedConcat(a[0], Split(a[1..]), Split(b));
    }
  }

  lemma {:induction false} SplitDotFree(s: string)
    requires DotFree(s)
    ensures Split(s) == [s]
  {
    if s != "" {
      assert forall c :: c in s[1..] ==> c in s;
      SplitDotFree(s[1..]);
      assert [s[0]] + s[1..] == s;
    }
  }

  lemma JoinPrepended(c: char, ls: seq<string>)
    requires ls != []
    ensures Join(Prepended(c, ls)) == [c] + Join(ls)
  {
    if c == '.' {
      assert ([""] + ls)[1..] == ls;
    } else {
      var more := [[c] + ls[0]] + ls[1..];
      assert more[1..] == ls[1..];
      if |ls| > 1 { assert ([c] + ls[0]) + "." + Join(ls[1..]) == [c] + (ls[0] + "." + Join(ls[1..])); }
    }
  }

  /** Joining the labels of a string gives the string back. */
  lemma {:induction false} JoinSplit(s: string)
    ensures Join(Split(s)) == s
  {
    if s != "" {
      JoinSplit(s[1..]);
      JoinPrepended(s[0], Split(s[1..]));
    }
  }

  /** Splitting joined labels gives the labels back. */
  lemma {:induction false} SplitJoin(ls: seq<string>)
    requires ls != [] && AllDotFree(ls)
    ensures Split(Join(ls)) == ls
  {
    SplitDotFree(ls[0]);
    if |ls| > 1 {
      assert AllDotFree(ls[1..]);
      SplitJoin(ls[1..]);
      SplitAtDot(ls[0], Join(ls[1..]));
      assert ls == [ls[0]] + ls[1..];
    }
  }

  /** A string-keyed comparison is a comparison of label sequences. */
  lemma SplitInjective(a: string, b: string)
    ensures a == b <==> Split(a) == Split(b)
  {
    JoinSplit(a);
    JoinSplit(b);
  }

  /** The count is that of the stars among the characters. */
  lemma {:induction false} StarCountIs(s: string)
    ensures StarCount(s) == multiset(s)['*']
  {
    if s != "" {
      StarCountIs(s[1..]);
      assert s == [s[0]] + s[1..];
    }
  }

  lemma {:induction false} StarCountConcat(a: string, b: string)
    ensures StarCount(a + b) == StarCount(a) + StarCount(b)
  {
    if a == "" {
      assert a + b == b;
    } else {
      assert (a + b)[1..] == a[1..] + b;
      StarCountConcat(a[1..], b);
    }
  }

  /** Stars are never lost or moved between labels by splitting. */
  lemma {:induction false} StarFreeSplit(s: string)
    ensures StarFree(s) <==> AllStarFree(Split(s))
  {
    if s != "" {
      StarFreeSplit(s[1..]);
      var rest := Split(s[1..]);
      assert StarFree(s) <==> s[0] != '*' && StarFree(s[1..]);
      assert rest == [rest[0]] + rest[1..];
      assert AllStarFree(rest) <==> StarFree(rest[0]) && AllStarFree(rest[1..]);
      var ls := Split(s);
      if s[0] == '.' {
        assert ls[0] == "" && ls[1..] == rest;
      } else {
        assert StarFree(ls[0]) <==> s[0] != '*' && StarFree(rest[0]);
        assert ls[1..] == rest[1..];
      }
      assert ls == [ls[0]] + ls[1..];
      assert AllStarFree(ls) <==> StarFree(ls[0]) && AllStarFree(ls[1..]);
    }
  }
}
