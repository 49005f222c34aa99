/** Comparing a certificate's names with the patterns a service is configured for. */
module CertCheck {
  import opened Labels
  import opened Glob
  import opened Patterns

  /** `domain_matches`: a leading `*.` stands for exactly one label, and case is ignored. */
  predicate DomainMatches(san: string, host: string) {
    if "*." <= san then
      match SplitOnce(host)
      case None => false
      case Some((_, remainder)) => SameIgnoringCase(remainder, san[2..])
    else SameIgnoringCase(san, host)
  }

  lemma {:induction false} CutsOnce(l: string, rest: string)
    requires DotFree(l)
    ensures SplitOnce(l + "." + rest) == Some((l, rest))
  {
    var s := l + "." + rest;
    if l == "" {
      assert s[1..] == rest;
    } else {
      assert s[1..] == l[1..] + "." + rest && s[0] == l[0] && l[0] in l;
      assert [l[0]] + l[1..] == l;
      CutsOnce(l[1..], rest);
    }
  }

  /** With a leading `*.`, what follows it is the host without its first label; else the names are the same. */
  lemma DomainMatchesIs(san: string, host: string)
    ensures |san| >= 2 && san[0] == '*' && san[1] == '.' ==>
              (DomainMatches(san, host) <==>
               exists l, rest :: host == l + "." + rest && '.' !in l && SameIgnoringCase(rest, san[2..]))
    ensures !(|san| >= 2 && san[0] == '*' && san[1] == '.') ==>
              (DomainMatches(san, host) <==> SameIgnoringCase(san, host))
  {
    assert "*." <= san <==> |san| >= 2 && san[0] == '*' && san[1] == '.';
    if l, rest :| host == l + "." + rest && '.' !in l && |san| >= 2 && SameIgnoringCase(rest, san[2..]) {
      CutsOnce(l, rest);
    }
  }

  /** A name that passes for the configured pattern passes for every host the pattern stands for. */
  ghost predicate CheckCarries(pattern: string) {
    forall san, host | DomainMatches(san, pattern) && PatternCovers(pattern, host) :: DomainMatches(san, host)
  }

  ghost predicate Wild(part: string) {
    part == "*" || part == "**"
  }

  /** No wildcard label, or a single `*` in front of at least one label without wildcards. */
  ghost predicate PlainOrLeadingStar(ls: seq<string>)
    requires ls != []
  {
    && ls[0] != "**" && ls != ["*"]
    && forall i | 1 <= i < |ls| :: !Wild(ls[i])
  }

  /** Cutting at the first dot takes off the first label. */
  lemma FirstCut(s: string)
    requires |Split(s)| > 1
    ensures SplitOnce(s) == Some((Split(s)[0], Join(Split(s)[1..])))
  {
    if SplitOnce(s).None? {
      SplitDotFree(s);
    } else {
      var (a, b) := SplitOnce(s).value;
      SplitAtDot(a, b);
      SplitDotFree(a);
      assert Split(s)[1..] == Split(b);
      JoinSplit(b);
    }
  }

  lemma SameAsItself(s: string)
    ensures SameIgnoringCase(s, s)
  {
  }

  // ---- Where the check carries over ----

  lemma PlainCarries(pattern: string)
    requires PlainOrLeadingStar(Split(pattern))
    ensures CheckCarries(pattern)
  {
    var ls := Split(pattern);
    forall san, host | DomainMatches(san, pattern) && PatternCovers(pattern, host)
      ensures DomainMatches(san, host)
    {
      if ls[0] == "*" {
        StarCarries(san, pattern, host);
      } else {
        forall l | l in ls ensures l != "*" && l != "**" {
          var i :| 0 <= i < |ls| && ls[i] == l;
          assert i > 0 ==> !Wild(ls[i]);
        }
        LiteralMatch(ls, Split(host));
        SplitInjective(pattern, host);
      }
    }
  }

  /** A host covered by a leading `*` differs from the pattern in its first label only. */
  lemma StarShape(ls: seq<string>, h: seq<string>)
    requires ls != [] && PlainOrLeadingStar(ls) && ls[0] == "*" && Matches(ls, h)
    ensures |ls| == |h| > 1 && h[1..] == ls[1..]
  {
    assert |ls| == 1 ==> ls == ["*"];
    forall l | l in ls[1..] ensures l != "*" && l != "**" {
      var i :| 0 <= i < |ls[1..]| && ls[1..][i] == l;
      assert !Wild(ls[i + 1]);
    }
    assert ls == [] + ["*"] + ls[1..];
    AroundStarMatch([], ls[1..], h);
  }

  lemma StarCarries(san: string, pattern: string, host: string)
    requires PlainOrLeadingStar(Split(pattern)) && Split(pattern)[0] == "*"
    requires DomainMatches(san, pattern) && PatternCovers(pattern, host)
    ensures DomainMatches(san, host)
  {
    StarShape(Split(pattern), Split(host));
    FirstCut(pattern);
    FirstCut(host);
    assert pattern == "*" + "." + Join(Split(pattern)[1..]);
    if SameIgnoringCase(san, pattern) { SameStart(san, pattern); }
  }

  lemma SameStart(san: string, pattern: string)
    requires "*." <= pattern && SameIgnoringCase(san, pattern)
    ensures "*." <= san
  {
    assert pattern[0] == '*' && pattern[1] == '.';
    assert LowerChar(san[0]) == LowerChar(pattern[0]) && LowerChar(san[1]) == LowerChar(pattern[1]);
  }

  // ---- Where it does not ----

  /** A host for the pattern: every wildcard stands for one plain label. */
  function Sample(ls: seq<string>): (h: seq<string>)
    ensures |h| == |ls|
    ensures forall i | 0 <= i < |ls| :: h[i] == if ls[i] == "*" || ls[i] == "**" then "x" else ls[i]
  {
    seq(|ls|, i requires 0 <= i < |ls| => if ls[i] == "*" || ls[i] == "**" then "x" else ls[i])
  }

  lemma {:induction false} SampleMatches(ls: seq<string>)
    ensures Matches(ls, Sample(ls))
  {
    if ls != [] {
      SampleMatches(ls[1..]);
      assert Sample(ls)[1..] == Sample(ls[1..]);
      if ls[0] == "**" {
        assert Matches(ls, Sample(ls)[1..]);
      }
    }
  }

  lemma SampleDotFree(ls: seq<string>)
    requires AllDotFree(ls)
    ensures AllDotFree(Sample(ls))
  {
  }

  lemma {:induction false} SameStarCount(a: string, b: string)
    requires SameIgnoringCase(a, b)
    ensures StarCount(a) == StarCount(b)
  {
    if a != "" {
      assert SameIgnoringCase(a[1..], b[1..]);
      SameStarCount(a[1..], b[1..]);
      assert LowerChar(a[0]) == LowerChar(b[0]);
    }
  }

  lemma StarsOfLabel(l: string)
    ensures StarCount("x") == 0
    ensures Wild(l) ==> StarCount(l) > 0
  {
    assert Wild(l) ==> l[0] == '*';
  }

  /** Filling in takes stars away. */
  lemma {:induction false} SampleStars(ls: seq<string>)
    ensures StarCount(Join(Sample(ls))) <= StarCount(Join(ls))
    ensures (exists i :: 0 <= i < |ls| && Wild(ls[i])) ==> StarCount(Join(Sample(ls))) < StarCount(Join(ls))
  {
    if ls != [] {
      StarsOfLabel(ls[0]);
      var f := Sample(ls);
      if |ls| == 1 {
        assert Join(f) == f[0];
      } else {
        SampleStars(ls[1..]);
        assert f[1..] == Sample(ls[1..]);
        JoinStars(ls);
        JoinStars(f);
        if i :| 0 <= i < |ls| && Wild(ls[i]) {
          assert i > 0 ==> Wild(ls[1..][i - 1]);
        }
      }
    }
  }

  lemma JoinStars(ls: seq<string>)
    requires |ls| > 1
    ensures StarCount(Join(ls)) == StarCount(ls[0]) + StarCount(Join(ls[1..]))
  {
    var rest := Join(ls[1..]);
    assert StarFree(".");
    StarCountConcat(ls[0], ".");
    StarCountConcat(ls[0] + ".", rest);
  }

  /** The name that the check accepts for a pattern with a dot, and what it says of another host. */
  lemma OwnSan(pattern: string) returns (san: string)
    requires |Split(pattern)| > 1
    ensures DomainMatches(san, pattern)
    ensures forall host | |Split(host)| > 1 ::
              DomainMatches(san, host) <==> SameIgnoringCase(Join(Split(host)[1..]), Join(Split(pattern)[1..]))
  {
    san := "*." + Join(Split(pattern)[1..]);
    FirstCut(pattern);
    assert san[2..] == Join(Split(pattern)[1..]);
    SameAsItself(san[2..]);
    forall host | |Split(host)| > 1
      ensures DomainMatches(san, host) <==> SameIgnoringCase(Join(Split(host)[1..]), Join(Split(pattern)[1..]))
    {
      FirstCut(host);
    }
  }

  lemma SampleDiffers(ls: seq<string>, i: nat)
    requires 1 <= i < |ls| && Wild(ls[i])
    ensures !SameIgnoringCase(Join(Sample(ls)[1..]), Join(ls[1..]))
  {
    assert Sample(ls)[1..] == Sample(ls[1..]);
    assert Wild(ls[1..][i - 1]);
    SampleStars(ls[1..]);
    var a, b := Join(Sample(ls[1..])), Join(ls[1..]);
    if SameIgnoringCase(a, b) { SameStarCount(a, b); }
  }

  lemma LaterWildFails(pattern: string, i: nat)
    requires 1 <= i < |Split(pattern)| && Wild(Split(pattern)[i])
    ensures !CheckCarries(pattern)
  {
    var ls := Split(pattern);
    var h := Sample(ls);
    SampleMatches(ls);
    SampleDotFree(ls);
    SplitJoin(h);
    var san := OwnSan(pattern);
    SampleDiffers(ls, i);
    assert PatternCovers(pattern, Join(h)) && !DomainMatches(san, Join(h));
  }

  lemma LeadingDoubleFails(pattern: string)
    requires |Split(pattern)| > 1 && Split(pattern)[0] == "**"
    requires forall i | 1 <= i < |Split(pattern)| :: !Wild(Split(pattern)[i])
    ensures !CheckCarries(pattern)
  {
    var ls := Split(pattern);
    var rest := ls[1..];
    var h := ["x", "x"] + rest;
    SelfMatch(rest);
    assert h[1..][1..] == rest && h[2..] == rest;
    assert Matches(ls, rest);
    assert Matches(ls, h[1..]);
    assert Matches(ls, h);
    forall k | 0 <= k < |h| ensures DotFree(h[k]) {
      if k >= 2 { assert h[k] == ls[k - 1]; }
    }
    SplitJoin(h);
    var san := OwnSan(pattern);
    assert h[1..] == ["x"] + rest;
    assert |Join(h[1..])| == 2 + |Join(rest)|;
    assert PatternCovers(pattern, Join(h)) && !DomainMatches(san, Join(h));
  }

  lemma BareFails(pattern: string)
    requires Bare(Split(pattern))
    ensures !CheckCarries(pattern)
  {
    JoinSplit(pattern);
    SameAsItself(pattern);
    SplitDotFree("x");
    assert pattern == "*" || pattern == "**";
    assert DomainMatches(pattern, pattern);
    assert LowerChar('*') != LowerChar('x');
    assert PatternCovers(pattern, "x") && !DomainMatches(pattern, "x");
  }

  /** Checking a certificate against the pattern vouches for all its hosts exactly for these patterns. */
  lemma CheckCarriesExactly(pattern: string)
    ensures CheckCarries(pattern) <==> PlainOrLeadingStar(Split(pattern))
  {
    var ls := Split(pattern);
    if PlainOrLeadingStar(ls) {
      PlainCarries(pattern);
    } else if i :| 1 <= i < |ls| && Wild(ls[i]) {
      LaterWildFails(pattern, i);
    } else if |ls| == 1 {
      assert ls == [ls[0]];
      BareFails(pattern);
    } else {
      LeadingDoubleFails(pattern);
    }
  }
}
