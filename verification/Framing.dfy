/** Which requests have an unambiguous body length (section 6.3 of RFC 9112), as the proxy judges it. */
module Framing {
  import opened Labels
  import opened HeaderLines

  /** A parsed header; the value is raw bytes. */
  datatype RawHeader = RawHeader(name: Bytes, value: Bytes)

  datatype Judgement = Accepted | DifferingLengths | LengthAndEncoding | NotChunked

  /** `str::from_utf8(value).ok()`, and `trim` followed by the comparison with "chunked", on its result. */
  type Decoder = Bytes -> Option<string>

  const CONTENT_LENGTH: Bytes := [67, 111, 110, 116, 101, 110, 116, 45, 76, 101, 110, 103, 116, 104]
  const TRANSFER_ENCODING: Bytes :=
    [84, 114, 97, 110, 115, 102, 101, 114, 45, 69, 110, 99, 111, 100, 105, 110, 103]

  predicate IsLength(h: RawHeader) {
    EqualIgnoreCase(h.name, CONTENT_LENGTH)
  }

  predicate IsEncoding(h: RawHeader) {
    EqualIgnoreCase(h.name, TRANSFER_ENCODING)
  }

  /** The characters that `str::trim` removes. */
  predicate IsSpace(c: char) {
    || '\U{9}' <= c <= '\U{D}' || c == ' ' || c == '\U{85}' || c == '\U{A0}' || c == '\U{1680}'
    || '\U{2000}' <= c <= '\U{200A}' || c == '\U{2028}' || c == '\U{2029}' || c == '\U{202F}'
    || c == '\U{205F}' || c == '\U{3000}'
  }

  function TrimStart(s: string): string {
    if s != "" && IsSpace(s[0]) then TrimStart(s[1..]) else s
  }

  function TrimEnd(s: string): string {
    if s != "" && IsSpace(s[|s| - 1]) then TrimEnd(s[..|s| - 1]) else s
  }

  predicate IsChunked(value: Bytes, decode: Decoder) {
    var text := match decode(value) case None => "" case Some(s) => s;
    SameIgnoringCase(TrimEnd(TrimStart(text)), "chunked")
  }

  // ---- What the verdict is, without the loop ----

  ghost predicate LengthsAgree(hs: seq<RawHeader>) {
    forall i, j | 0 <= i < |hs| && 0 <= j < |hs| && IsLength(hs[i]) && IsLength(hs[j]) :: hs[i].value == hs[j].value
  }

  ghost predicate HasLength(hs: seq<RawHeader>) {
    exists i :: 0 <= i < |hs| && IsLength(hs[i])
  }

  ghost predicate HasEncoding(hs: seq<RawHeader>) {
    exists i :: 0 <= i < |hs| && IsEncoding(hs[i])
  }

  ghost predicate IsLastEncoding(hs: seq<RawHeader>, i: int) {
    0 <= i < |hs| && IsEncoding(hs[i]) && forall j | i < j < |hs| :: !IsEncoding(hs[j])
  }

  ghost predicate LastEncodingChunked(hs: seq<RawHeader>, decode: Decoder) {
    forall i | IsLastEncoding(hs, i) :: IsChunked(hs[i].value, decode)
  }

  /** The verdict, and which of the three objections is raised when several apply. */
  ghost function Judge(hs: seq<RawHeader>, decode: Decoder): Judgement {
    if !LengthsAgree(hs) then DifferingLengths
    else if HasLength(hs) && HasEncoding(hs) then LengthAndEncoding
    else if !LastEncodingChunked(hs, decode) then NotChunked
    else Accepted
  }

  lemma NeverBoth(h: RawHeader)
    ensures !(IsLength(h) && IsEncoding(h))
  {
  }

  /** `validate_framing_headers`. */
  method ValidateFramingHeaders(hs: seq<RawHeader>, decode: Decoder) returns (r: Judgement)
    ensures r == Judge(hs, decode)
    ensures r == Accepted <==>
              LengthsAgree(hs) && !(HasLength(hs) && HasEncoding(hs)) && LastEncodingChunked(hs, decode)
  {
    var contentLength: Option<Bytes> := None;
    var transferEncoding: Option<Bytes> := None;
    ghost var lengthAt, encodingAt := 0, 0;
    for n := 0 to |hs|
      invariant LengthsAgree(hs[..n])
      invariant if contentLength.None? then forall i | 0 <= i < n :: !IsLength(hs[i])
                else 0 <= lengthAt < n && IsLength(hs[lengthAt]) && hs[lengthAt].value == contentLength.value
      invariant if transferEncoding.None? then forall i | 0 <= i < n :: !IsEncoding(hs[i])
                else && 0 <= encodingAt < n && IsLastEncoding(hs[..n], encodingAt)
                     && hs[encodingAt].value == transferEncoding.value
    {
      var h := hs[n];
      assert hs[..n + 1] == hs[..n] + [h];
      NeverBoth(h);
      if IsLength(h) {
        if contentLength.None? {
          contentLength, lengthAt := Some(h.value), n;
        } else if contentLength.value != h.value {
          assert hs[lengthAt].value != hs[n].value;
          return DifferingLengths;
        } else {
          assert hs[..n][lengthAt] == hs[lengthAt];
        }
      } else if IsEncoding(h) {
        transferEncoding, encodingAt := Some(h.value), n;
      }
    }
    assert hs[..|hs|] == hs;
    if transferEncoding.Some? && contentLength.Some? {
      return LengthAndEncoding;
    }
    if transferEncoding.Some? {
      assert IsLastEncoding(hs, encodingAt);
      assert forall i | IsLastEncoding(hs, i) :: i == encodingAt;
      if !IsChunked(transferEncoding.value, decode) {
        return NotChunked;
      }
    }
    return Accepted;
  }

  // ---- The names and the coding, spelled out ----

  /** The bytes of this text, each in either letter case. */
  predicate Spells(b: Bytes, text: string) {
    |b| == |text| && forall i | 0 <= i < |b| ::
      || b[i] as int == text[i] as int
      || ('A' <= text[i] <= 'Z' && b[i] as int == text[i] as int + 32)
      || ('a' <= text[i] <= 'z' && b[i] as int == text[i] as int - 32)
  }

  lemma NamesSpelled(h: RawHeader)
    ensures IsLength(h) <==> Spells(h.name, "Content-Length")
    ensures IsEncoding(h) <==> Spells(h.name, "Transfer-Encoding")
  {
    LengthSpelled(h.name);
    EncodingSpelled(h.name);
  }

  lemma LengthSpelled(name: Bytes)
    ensures EqualIgnoreCase(name, CONTENT_LENGTH) <==> Spells(name, "Content-Length")
  {
    ConstantSpelled(CONTENT_LENGTH, "Content-Length", name);
  }

  lemma EncodingSpelled(name: Bytes)
    ensures EqualIgnoreCase(name, TRANSFER_ENCODING) <==> Spells(name, "Transfer-Encoding")
  {
    ConstantSpelled(TRANSFER_ENCODING, "Transfer-Encoding", name);
  }

  lemma ConstantSpelled(constant: Bytes, text: string, name: Bytes)
    requires |constant| == |text| && forall i | 0 <= i < |text| :: constant[i] as int == text[i] as int
    ensures EqualIgnoreCase(name, constant) <==> Spells(name, text)
  {
    if |name| == |text| {
      forall i | 0 <= i < |name|
        ensures Lower(name[i]) == Lower(constant[i]) <==>
                || name[i] as int == text[i] as int
                || ('A' <= text[i] <= 'Z' && name[i] as int == text[i] as int + 32)
                || ('a' <= text[i] <= 'z' && name[i] as int == text[i] as int - 32)
      {
        CaseAt(name[i], constant[i], text[i]);
      }
    }
  }

  lemma CaseAt(a: Byte, c: Byte, t: char)
    requires c as int == t as int
    ensures Lower(a) == Lower(c) <==>
            || a as int == t as int
            || ('A' <= t <= 'Z' && a as int == t as int + 32)
            || ('a' <= t <= 'z' && a as int == t as int - 32)
  {
    LowerIs(a, c);
    UpperIs(a, c);
    UpperIs(c, a);
  }

  lemma UpperIs(a: Byte, c: Byte)
    ensures (65 <= a <= 90 && c == a + 32) <==> (65 <= a as int <= 90 && c as int == a as int + 32)
  {
  }

  /** What `Spells` says: the text's bytes, each in either letter case. */
  lemma SpellsIs(b: Bytes, text: string)
    requires forall i | 0 <= i < |text| :: text[i] as int < 256
    ensures Spells(b, text) <==>
            |b| == |text| && forall i | 0 <= i < |b| ::
              LowerChar(text[i]) == LowerChar((b[i] as int) as char)
  {
  }

  /** The white space that is trimmed: the characters Unicode calls so. */
  lemma SpaceIs(c: char)
    ensures IsSpace(c) <==>
            || c as int in {9, 10, 11, 12, 13, 32, 0x85, 0xA0, 0x1680, 0x2028, 0x2029, 0x202F, 0x205F, 0x3000}
            || 0x2000 <= c as int <= 0x200A
  {
  }

  ghost predicate AllSpace(s: string) {
    forall i | 0 <= i < |s| :: IsSpace(s[i])
  }

  lemma {:induction false} TrimStartIs(pre: string, s: string)
    requires AllSpace(pre) && (s == "" || !IsSpace(s[0]))
    ensures TrimStart(pre + s) == s
  {
    if pre == "" {
      assert pre + s == s;
    } else {
      assert (pre + s)[1..] == pre[1..] + s;
      TrimStartIs(pre[1..], s);
    }
  }

  lemma {:induction false} TrimEndIs(s: string, post: string)
    requires AllSpace(post) && (s == "" || !IsSpace(s[|s| - 1]))
    ensures TrimEnd(s + post) == s
    decreases |post|
  {
    if post == "" {
      assert s + post == s;
    } else {
      var n := |post| - 1;
      assert (s + post)[..|s| + n] == s + post[..n];
      TrimEndIs(s, post[..n]);
    }
  }

  lemma {:induction false} TrimmedFrom(s: string) returns (pre: string)
    ensures AllSpace(pre) && s == pre + TrimStart(s) && (TrimStart(s) == "" || !IsSpace(TrimStart(s)[0]))
  {
    if s != "" && IsSpace(s[0]) {
      var more := TrimmedFrom(s[1..]);
      pre := [s[0]] + more;
    } else {
      pre := "";
    }
  }

  lemma {:induction false} TrimmedTo(s: string) returns (post: string)
    ensures AllSpace(post) && s == TrimEnd(s) + post
  {
    if s != "" && IsSpace(s[|s| - 1]) {
      var more := TrimmedTo(s[..|s| - 1]);
      post := more + [s[|s| - 1]];
    } else {
      post := "";
    }
  }

  /** A text is chunked exactly if it is that word, in any letter case, with any white space around it. */
  lemma ChunkedIs(value: Bytes, decode: Decoder, text: string)
    requires decode(value) == Some(text)
    ensures IsChunked(value, decode) <==>
            exists pre, word, post ::
              && text == pre + word + post && SameIgnoringCase(word, "chunked")
              && (forall i | 0 <= i < |pre| :: IsSpace(pre[i])) && forall i | 0 <= i < |post| :: IsSpace(post[i])
  {
    if IsChunked(value, decode) {
      var pre := TrimmedFrom(text);
      var post := TrimmedTo(TrimStart(text));
      var word := TrimEnd(TrimStart(text));
      assert text == pre + word + post;
    }
    if pre, word, post :| text == pre + word + post && SameIgnoringCase(word, "chunked")
                          && AllSpace(pre) && AllSpace(post) {
      WordNotSpace(word);
      assert text == pre + (word + post);
      TrimStartIs(pre, word + post);
      TrimEndIs(word, post);
    }
  }

  lemma WordNotSpace(word: string)
    requires SameIgnoringCase(word, "chunked")
    ensures word != "" && !IsSpace(word[0]) && !IsSpace(word[|word| - 1])
  {
    assert LowerChar(word[0]) == LowerChar("chunked"[0]) == 'c';
    assert LowerChar(word[6]) == LowerChar("chunked"[6]) == 'd';
  }

  /** What is not decoded counts as empty, so is not chunked. */
  lemma UndecodedNotChunked(value: Bytes, decode: Decoder)
    requires decode(value) == None
    ensures !IsChunked(value, decode)
  {
  }

  /** One `Content-Length`, in any letter case and of any value, is accepted. */
  lemma OneLengthAccepted(h: RawHeader, decode: Decoder)
    requires Spells(h.name, "Content-Length")
    ensures Judge([h], decode) == Accepted
  {
    NamesSpelled(h);
    NeverBoth(h);
  }

  /** One `Transfer-Encoding`, in any letter case, is accepted exactly if it is chunked. */
  lemma OneEncodingJudged(h: RawHeader, decode: Decoder)
    requires Spells(h.name, "Transfer-Encoding")
    ensures Judge([h], decode) == if IsChunked(h.value, decode) then Accepted else NotChunked
  {
    NamesSpelled(h);
    NeverBoth(h);
    OnlyOneLast([h], 0, decode);
  }

  /** The verdict over the spelled names, for any headers. */
  lemma JudgeSpelled(hs: seq<RawHeader>, decode: Decoder)
    ensures
      var differ := exists i, j :: && 0 <= i < |hs| && 0 <= j < |hs| && hs[i].value != hs[j].value
                                   && Spells(hs[i].name, "Content-Length") && Spells(hs[j].name, "Content-Length");
      var both := && (exists i :: 0 <= i < |hs| && Spells(hs[i].name, "Content-Length"))
                  && (exists i :: 0 <= i < |hs| && Spells(hs[i].name, "Transfer-Encoding"));
      var last := exists i :: && 0 <= i < |hs| && Spells(hs[i].name, "Transfer-Encoding")
                              && !IsChunked(hs[i].value, decode)
                              && forall j | i < j < |hs| :: !Spells(hs[j].name, "Transfer-Encoding");
      Judge(hs, decode) ==
      if differ then DifferingLengths else if both then LengthAndEncoding else if last then NotChunked else Accepted
  {
    forall i | 0 <= i < |hs|
      ensures IsLength(hs[i]) <==> Spells(hs[i].name, "Content-Length")
      ensures IsEncoding(hs[i]) <==> Spells(hs[i].name, "Transfer-Encoding")
    {
      NamesSpelled(hs[i]);
    }
    LastSpelled(hs, decode);
  }

  lemma LastSpelled(hs: seq<RawHeader>, decode: Decoder)
    ensures !LastEncodingChunked(hs, decode) <==>
            exists i :: && 0 <= i < |hs| && IsEncoding(hs[i]) && !IsChunked(hs[i].value, decode)
                        && forall j | i < j < |hs| :: !IsEncoding(hs[j])
  {
    if i :| 0 <= i < |hs| && IsEncoding(hs[i]) && !IsChunked(hs[i].value, decode)
            && forall j | i < j < |hs| :: !IsEncoding(hs[j]) {
      assert IsLastEncoding(hs, i);
    }
  }

  // ---- When the order of the headers does not matter ----

  ghost predicate Reordered(hs: seq<RawHeader>, hs': seq<RawHeader>) {
    multiset(hs) == multiset(hs')
  }

  /** All the encodings are chunked, or none of them is. */
  ghost predicate EncodingsAgree(hs: seq<RawHeader>, decode: Decoder) {
    forall a, b | a in hs && b in hs && IsEncoding(a) && IsEncoding(b) ::
      IsChunked(a.value, decode) == IsChunked(b.value, decode)
  }

  lemma SameMembers(hs: seq<RawHeader>, hs': seq<RawHeader>)
    requires Reordered(hs, hs')
    ensures forall h :: h in hs <==> h in hs'
  {
    forall h ensures h in hs <==> h in hs' {
      assert h in hs <==> h in multiset(hs);
      assert h in hs' <==> h in multiset(hs');
    }
  }

  /** The first two objections do not depend on the order of the headers. */
  lemma MembersDecide(hs: seq<RawHeader>)
    ensures LengthsAgree(hs) <==> forall a, b | a in hs && b in hs && IsLength(a) && IsLength(b) :: a.value == b.value
    ensures HasLength(hs) <==> exists a :: a in hs && IsLength(a)
    ensures HasEncoding(hs) <==> exists a :: a in hs && IsEncoding(a)
  {
    assert forall i | 0 <= i < |hs| :: hs[i] in hs;
  }

  lemma {:induction false} LastEncodingExists(hs: seq<RawHeader>) returns (i: nat)
    requires HasEncoding(hs)
    ensures IsLastEncoding(hs, i)
  {
    var n := |hs| - 1;
    if IsEncoding(hs[n]) {
      i := n;
    } else {
      i := LastEncodingExists(hs[..n]);
    }
  }

  lemma OnlyOneLast(hs: seq<RawHeader>, i: nat, decode: Decoder)
    requires IsLastEncoding(hs, i)
    ensures LastEncodingChunked(hs, decode) <==> IsChunked(hs[i].value, decode)
  {
    assert forall j | IsLastEncoding(hs, j) :: j == i;
  }

  /** Where the encodings agree, any of them tells what the last one is. */
  lemma AgreeingDecide(hs: seq<RawHeader>, decode: Decoder, a: RawHeader)
    requires EncodingsAgree(hs, decode) && a in hs && IsEncoding(a)
    ensures LastEncodingChunked(hs, decode) <==> IsChunked(a.value, decode)
  {
    MembersDecide(hs);
    var i := LastEncodingExists(hs);
    assert hs[i] in hs;
    OnlyOneLast(hs, i, decode);
  }

  lemma AgreeingReordered(hs: seq<RawHeader>, hs': seq<RawHeader>, decode: Decoder)
    requires Reordered(hs, hs') && EncodingsAgree(hs, decode)
    ensures LastEncodingChunked(hs, decode) <==> LastEncodingChunked(hs', decode)
  {
    SameMembers(hs, hs');
    MembersDecide(hs);
    MembersDecide(hs');
    if a :| a in hs && IsEncoding(a) {
      AgreeingDecide(hs, decode, a);
      AgreeingDecide(hs', decode, a);
    }
  }

  function MovedLast(hs: seq<RawHeader>, i: nat): seq<RawHeader>
    requires i < |hs|
  {
    hs[..i] + hs[i + 1..] + [hs[i]]
  }

  /** Moving an encoding behind all other headers makes it the one that counts. */
  lemma MovedLastCounts(hs: seq<RawHeader>, i: nat, decode: Decoder)
    requires i < |hs| && IsEncoding(hs[i])
    ensures Reordered(hs, MovedLast(hs, i))
    ensures LastEncodingChunked(MovedLast(hs, i), decode) <==> IsChunked(hs[i].value, decode)
  {
    assert hs == hs[..i] + [hs[i]] + hs[i + 1..];
    OnlyOneLast(MovedLast(hs, i), |hs| - 1, decode);
  }

  /** No order of these headers is judged otherwise. */
  ghost predicate OrderIrrelevant(hs: seq<RawHeader>, decode: Decoder) {
    forall hs' | Reordered(hs, hs') :: Judge(hs', decode) == Judge(hs, decode)
  }

  /** Is there an objection that does not depend on the order? */
  ghost predicate RejectedAnyway(hs: seq<RawHeader>) {
    !LengthsAgree(hs) || (HasLength(hs) && HasEncoding(hs))
  }

  lemma RejectedAnywayReordered(hs: seq<RawHeader>, hs': seq<RawHeader>, decode: Decoder)
    requires Reordered(hs, hs')
    ensures RejectedAnyway(hs) <==> RejectedAnyway(hs')
    ensures RejectedAnyway(hs) ==> Judge(hs', decode) == Judge(hs, decode)
  {
    SameMembers(hs, hs');
    MembersDecide(hs);
    MembersDecide(hs');
  }

  /**
   * The order of the headers does not matter, neither for acceptance nor for the objection raised, if and only
   * if there is an objection that any order meets, or all the Transfer-Encodings are chunked or none is.
   */
  lemma OrderIrrelevantExactly(hs: seq<RawHeader>, decode: Decoder)
    ensures OrderIrrelevant(hs, decode) <==> RejectedAnyway(hs) || EncodingsAgree(hs, decode)
    ensures OrderIrrelevant(hs, decode) <==>
            forall hs' | Reordered(hs, hs') :: Judge(hs', decode) == Accepted <==> Judge(hs, decode) == Accepted
  {
    forall hs' | Reordered(hs, hs') && (RejectedAnyway(hs) || EncodingsAgree(hs, decode))
      ensures Judge(hs', decode) == Judge(hs, decode)
    {
      RejectedAnywayReordered(hs, hs', decode);
      if EncodingsAgree(hs, decode) { AgreeingReordered(hs, hs', decode); }
    }
    if !RejectedAnyway(hs) && !EncodingsAgree(hs, decode) {
      OrderMatters(hs, decode);
    }
  }

  /** Otherwise one order is accepted and another is not. */
  lemma OrderMatters(hs: seq<RawHeader>, decode: Decoder)
    requires !RejectedAnyway(hs) && !EncodingsAgree(hs, decode)
    ensures exists hs' :: Reordered(hs, hs') && Judge(hs', decode) == Accepted
    ensures exists hs' :: Reordered(hs, hs') && Judge(hs', decode) == NotChunked
  {
    var a, b :| a in hs && b in hs && IsEncoding(a) && IsEncoding(b)
                && IsChunked(a.value, decode) && !IsChunked(b.value, decode);
    var i: nat :| i < |hs| && hs[i] == a;
    var j: nat :| j < |hs| && hs[j] == b;
    MovedLastCounts(hs, i, decode);
    MovedLastCounts(hs, j, decode);
    RejectedAnywayReordered(hs, MovedLast(hs, i), decode);
    RejectedAnywayReordered(hs, MovedLast(hs, j), decode);
  }

  ghost predicate AtMostOneEncoding(hs: seq<RawHeader>) {
    forall i, j | 0 <= i < j < |hs| && IsEncoding(hs[i]) :: !IsEncoding(hs[j])
  }

  /** In particular it does not matter with at most one Transfer-Encoding. */
  lemma OneEncodingOrderIrrelevant(hs: seq<RawHeader>, decode: Decoder)
    requires AtMostOneEncoding(hs)
    ensures OrderIrrelevant(hs, decode)
  {
    forall a, b | a in hs && b in hs && IsEncoding(a) && IsEncoding(b) ensures a == b {
      var i: nat :| i < |hs| && hs[i] == a;
      var j: nat :| j < |hs| && hs[j] == b;
    }
    OrderIrrelevantExactly(hs, decode);
  }

  /** And it does with just two, of which one is chunked and the other is not: only the last one is looked at. */
  lemma OrderMattersForTwo(a: Bytes, b: Bytes, decode: Decoder)
    requires IsChunked(a, decode) && !IsChunked(b, decode)
    ensures !OrderIrrelevant([RawHeader(TRANSFER_ENCODING, a), RawHeader(TRANSFER_ENCODING, b)], decode)
  {
    var x, y := RawHeader(TRANSFER_ENCODING, a), RawHeader(TRANSFER_ENCODING, b);
    NeverBoth(x);
    NeverBoth(y);
    assert x in [x, y] && y in [x, y];
    OrderIrrelevantExactly([x, y], decode);
  }
}
