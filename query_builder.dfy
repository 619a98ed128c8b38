/** `build_query`: turns a price question into a search query by deleting
    the price keywords, collapsing the connector " de " and trimming. */
module QueryBuilder {
  import opened Wrappers
  import opened Text
  import Classifier

  /** The alternatives of the pattern `precio|vale|cu[aá]nto|coste|cuesta`,
      in the order the regular-expression engine tries them; the character
      class `cu[aá]nto` is written as its two literals. */
  const Keywords: seq<string> := ["precio", "vale", "cuanto", "cuánto", "coste", "cuesta"]

  /** The zero-width assertion `\b` at position `i`: exactly one of the
      characters on either side is a word character (outside `s` counts as
      a non-word character). */
  predicate Boundary(s: string, i: nat)
    requires i <= |s|
  {
    (i > 0 && IsWordChar(s[i - 1])) != (i < |s| && IsWordChar(s[i]))
  }

  /** `w` matches `s` at `i` under the IGNORECASE flag. */
  predicate MatchesIgnoringCase(s: string, w: string, i: nat) {
    i + |w| <= |s| && forall k :: 0 <= k < |w| ==> LowerChar(s[i + k]) == w[k]
  }

  /** `\b` + `w` + `\b` matches `s` at `i`. */
  predicate KeywordMatch(s: string, i: nat, w: string) {
    i <= |s| && MatchesIgnoringCase(s, w, i) && Boundary(s, i) && Boundary(s, i + |w|)
  }

  /** The length of the first alternative of `ws`, in order, that matches at `i`. */
  function FirstAlternative(s: string, i: nat, ws: seq<string>): (m: Option<nat>)
    requires forall k :: 0 <= k < |ws| ==> |ws[k]| > 0
    ensures m.Some? ==> 0 < m.value && i + m.value <= |s|
  {
    if ws == [] then None
    else if KeywordMatch(s, i, ws[0]) then Some(|ws[0]|)
    else FirstAlternative(s, i, ws[1..])
  }

  /** Alternation semantics: the result is the length of the first
      alternative that matches, and there is none exactly when no
      alternative matches. */
  lemma {:induction false} FirstAlternativeIsFirstMatch(s: string, i: nat, ws: seq<string>)
    requires forall k :: 0 <= k < |ws| ==> |ws[k]| > 0
    ensures FirstAlternative(s, i, ws).None? <==> forall k :: 0 <= k < |ws| ==> !KeywordMatch(s, i, ws[k])
    ensures FirstAlternative(s, i, ws).Some? ==>
              exists k :: 0 <= k < |ws| && KeywordMatch(s, i, ws[k]) &&
                          |ws[k]| == FirstAlternative(s, i, ws).value &&
                          (forall j :: 0 <= j < k ==> !KeywordMatch(s, i, ws[j]))
  {
    if ws != [] && !KeywordMatch(s, i, ws[0]) {
      FirstAlternativeIsFirstMatch(s, i, ws[1..]);
      assert forall k :: 1 <= k < |ws| ==> ws[k] == ws[1..][k - 1];
      if FirstAlternative(s, i, ws).Some? {
        var k :| 0 <= k < |ws[1..]| && KeywordMatch(s, i, ws[1..][k]) &&
                 |ws[1..][k]| == FirstAlternative(s, i, ws).value &&
                 (forall j :: 0 <= j < k ==> !KeywordMatch(s, i, ws[1..][j]));
        assert KeywordMatch(s, i, ws[k + 1]);
      }
    } else if ws != [] {
      assert KeywordMatch(s, i, ws[0]);
    }
  }

  /** The length of the keyword the pattern matches at `i`, if any. */
  function KeywordAt(s: string, i: nat): (m: Option<nat>)
    ensures m.Some? ==> 0 < m.value && i + m.value <= |s|
  {
    FirstAlternative(s, i, Keywords)
  }

  /** No keyword of the pattern matches anywhere in `s`. */
  predicate NoKeyword(s: string) {
    forall i, k :: 0 <= i <= |s| && 0 <= k < |Keywords| ==> !KeywordMatch(s, i, Keywords[k])
  }

  /** `re.sub` with an empty replacement, scanning from index `i`: each
      match is deleted and the scan resumes after it; otherwise the
      character is kept and the scan moves one position on. Boundaries are
      judged on the original string. */
  function DeleteKeywordsFrom(s: string, i: nat): (r: string)
    requires i <= |s|
    ensures |r| <= |s| - i
    decreases |s| - i
  {
    if i == |s| then []
    else match KeywordAt(s, i)
      case Some(n) => DeleteKeywordsFrom(s, i + n)
      case None => [s[i]] + DeleteKeywordsFrom(s, i + 1)
  }

  /** `re.sub(r"(?i)\b(precio|vale|cu[aá]nto|coste|cuesta)\b", "", s)`. */
  function DeleteKeywords(s: string): string {
    DeleteKeywordsFrom(s, 0)
  }

  /** No keyword of the pattern matches at `i` or after it. */
  predicate NoKeywordFrom(s: string, i: nat) {
    forall j, k :: i <= j <= |s| && 0 <= k < |Keywords| ==> !KeywordMatch(s, j, Keywords[k])
  }

  lemma {:induction false} DeleteKeywordsFromIdentity(s: string, i: nat)
    requires i <= |s| && NoKeywordFrom(s, i)
    ensures DeleteKeywordsFrom(s, i) == s[i..]
    decreases |s| - i
  {
    if i < |s| {
      FirstAlternativeIsFirstMatch(s, i, Keywords);
      DeleteKeywordsFromIdentity(s, i + 1);
    }
  }

  /** A keyword found at `i` is dropped and the scan resumes right after it. */
  lemma DeleteKeywordsSkip(s: string, i: nat, n: nat)
    requires i < |s| && KeywordAt(s, i) == Some(n)
    ensures DeleteKeywordsFrom(s, i) == DeleteKeywordsFrom(s, i + n)
  {
  }

  /** Deleting keywords changes nothing in a text that has none. */
  lemma DeleteKeywordsIdentity(s: string)
    requires NoKeyword(s)
    ensures DeleteKeywords(s) == s
  {
    assert NoKeywordFrom(s, 0);
    DeleteKeywordsFromIdentity(s, 0);
  }

  /** Every alternative of the pattern is made of word characters. */
  lemma KeywordsAreWords(k: nat, t: nat)
    requires k < |Keywords| && t < |Keywords[k]|
    ensures IsWordChar(Keywords[k][t])
  {
  }

  /** A keyword the pattern finds is a run of word characters with a
      non-word character, or an end of the text, on each side. */
  lemma MatchedSpan(s: string, j: nat, n: nat)
    requires KeywordAt(s, j) == Some(n)
    ensures forall t :: j <= t < j + n ==> IsWordChar(s[t])
    ensures j == 0 || !IsWordChar(s[j - 1])
    ensures j + n == |s| || !IsWordChar(s[j + n])
  {
    FirstAlternativeIsFirstMatch(s, j, Keywords);
    var k :| 0 <= k < |Keywords| && KeywordMatch(s, j, Keywords[k]) && |Keywords[k]| == n;
    forall t | j <= t < j + n
      ensures IsWordChar(s[t])
    {
      KeywordsAreWords(k, t - j);
      assert LowerChar(s[j + (t - j)]) == Keywords[k][t - j];
    }
  }

  /** The positions of `s`, from `i` on, whose characters the scan keeps. */
  ghost function KeptFrom(s: string, i: nat): seq<nat>
    requires i <= |s|
    decreases |s| - i
  {
    if i == |s| then []
    else match KeywordAt(s, i)
      case Some(n) => KeptFrom(s, i + n)
      case None => [i] + KeptFrom(s, i + 1)
  }

  /** The text left by the deletion is the characters at the kept positions, in order. */
  lemma {:induction false} KeptFromChars(s: string, i: nat)
    requires i <= |s|
    ensures |DeleteKeywordsFrom(s, i)| == |KeptFrom(s, i)|
    ensures forall k :: 0 <= k < |KeptFrom(s, i)| ==>
              KeptFrom(s, i)[k] < |s| && DeleteKeywordsFrom(s, i)[k] == s[KeptFrom(s, i)[k]]
    decreases |s| - i
  {
    if i < |s| {
      match KeywordAt(s, i)
      case Some(n) =>
        KeptFromChars(s, i + n);
      case None =>
        KeptFromChars(s, i + 1);
        KeptFromCons(s, i);
    }
  }

  /** Unfolding the scan at a position it keeps. */
  lemma KeptFromCons(s: string, i: nat)
    requires i < |s| && KeywordAt(s, i).None?
    ensures KeptFrom(s, i) == [i] + KeptFrom(s, i + 1)
    ensures DeleteKeywordsFrom(s, i) == [s[i]] + DeleteKeywordsFrom(s, i + 1)
    ensures forall k :: 1 <= k < |KeptFrom(s, i)| ==> KeptFrom(s, i)[k] == KeptFrom(s, i + 1)[k - 1]
  {
  }

  /** The kept positions lie in `i..|s|` and increase. */
  ghost predicate KeptRange(s: string, i: nat, K: seq<nat>) {
    (forall k :: 0 <= k < |K| ==> i <= K[k] < |s|) &&
    (forall k :: 0 <= k < |K| - 1 ==> K[k] < K[k + 1])
  }

  lemma {:induction false} KeptFromRange(s: string, i: nat)
    requires i <= |s|
    ensures KeptRange(s, i, KeptFrom(s, i))
    decreases |s| - i
  {
    if i < |s| {
      match KeywordAt(s, i)
      case Some(n) =>
        KeptFromRange(s, i + n);
      case None =>
        KeptFromRange(s, i + 1);
        KeptFromCons(s, i);
    }
  }

  /** The pattern matches at none of the kept positions. */
  ghost predicate KeptUnmatched(s: string, K: seq<nat>) {
    forall k :: 0 <= k < |K| ==> KeywordAt(s, K[k]).None?
  }

  lemma {:induction false} KeptFromUnmatched(s: string, i: nat)
    requires i <= |s|
    ensures KeptUnmatched(s, KeptFrom(s, i))
    decreases |s| - i
  {
    if i < |s| {
      match KeywordAt(s, i)
      case Some(n) =>
        KeptFromUnmatched(s, i + n);
      case None =>
        KeptFromUnmatched(s, i + 1);
        KeptFromCons(s, i);
    }
  }

  /** Where positions were deleted between two kept ones, both kept
      characters beside the gap are non-word characters. */
  ghost predicate KeptInnerGaps(s: string, K: seq<nat>) {
    forall k :: 0 <= k < |K| - 1 ==>
      K[k + 1] == K[k] + 1 ||
      (K[k] < |s| && K[k + 1] < |s| && !IsWordChar(s[K[k]]) && !IsWordChar(s[K[k + 1]]))
  }

  /** Where positions were deleted before the first kept one, it is a non-word character. */
  ghost predicate KeptHead(s: string, i: nat, K: seq<nat>) {
    |K| > 0 && K[0] > i ==> K[0] < |s| && !IsWordChar(s[K[0]])
  }

  /** Where positions were deleted after the last kept one, it is a non-word character. */
  ghost predicate KeptTail(s: string, K: seq<nat>) {
    |K| > 0 && K[|K| - 1] + 1 < |s| ==> !IsWordChar(s[K[|K| - 1]])
  }

  lemma {:induction false} KeptFromHead(s: string, i: nat)
    requires i <= |s|
    ensures KeptHead(s, i, KeptFrom(s, i))
    decreases |s| - i
  {
    if i < |s| {
      match KeywordAt(s, i)
      case Some(n) =>
        KeptFromHead(s, i + n);
        KeptFromRange(s, i + n);
        var K := KeptFrom(s, i + n);
        if |K| > 0 && K[0] == i + n {
          MatchedSpan(s, i, n);
        }
      case None =>
        KeptFromCons(s, i);
    }
  }

  lemma {:induction false} KeptFromTail(s: string, i: nat)
    requires i <= |s|
    ensures KeptTail(s, KeptFrom(s, i))
    decreases |s| - i
  {
    if i < |s| {
      match KeywordAt(s, i)
      case Some(n) =>
        KeptFromTail(s, i + n);
      case None =>
        KeptFromTail(s, i + 1);
        KeptFromCons(s, i);
        if i + 1 < |s| && KeywordAt(s, i + 1).Some? {
          MatchedSpan(s, i + 1, KeywordAt(s, i + 1).value);
        }
    }
  }

  lemma {:induction false} KeptFromInnerGaps(s: string, i: nat)
    requires i <= |s|
    ensures KeptInnerGaps(s, KeptFrom(s, i))
    decreases |s| - i
  {
    if i < |s| {
      match KeywordAt(s, i)
      case Some(n) =>
        KeptFromInnerGaps(s, i + n);
      case None =>
        KeptFromInnerGaps(s, i + 1);
        KeptFromCons(s, i);
        KeptFromRange(s, i + 1);
        KeptFromHead(s, i + 1);
        var K' := KeptFrom(s, i + 1);
        if |K'| > 0 && K'[0] != i + 1 {
          KeptGapAfter(s, i);
        }
    }
  }

  /** A scan from `i + 1` that keeps nothing at `i + 1` starts with a deleted
      match, so the character at `i` is a non-word character. */
  lemma KeptGapAfter(s: string, i: nat)
    requires i < |s|
    requires |KeptFrom(s, i + 1)| > 0 && KeptFrom(s, i + 1)[0] != i + 1
    ensures !IsWordChar(s[i])
  {
    if KeywordAt(s, i + 1).Some? {
      MatchedSpan(s, i + 1, KeywordAt(s, i + 1).value);
    }
  }

  /** Every position the scan does not keep lies inside a match it deleted. */
  lemma {:induction false} DeletedInsideMatch(s: string, i: nat, t: nat)
    requires i <= t < |s| && t !in KeptFrom(s, i)
    ensures exists j :: i <= j <= t && KeywordAt(s, j).Some? && t < j + KeywordAt(s, j).value
    decreases |s| - i
  {
    match KeywordAt(s, i)
    case Some(n) =>
      if t >= i + n {
        DeletedInsideMatch(s, i + n, t);
      }
    case None =>
      KeptFromCons(s, i);
      DeletedInsideMatch(s, i + 1, t);
  }

  /** Positions `lo..hi` of `K` that each follow their predecessor directly
      form one contiguous block. */
  lemma {:induction false} Contiguous(K: seq<nat>, lo: nat, hi: nat)
    requires lo <= hi < |K|
    requires forall t :: lo <= t < hi ==> K[t + 1] == K[t] + 1
    ensures forall t :: lo <= t <= hi ==> K[t] == K[lo] + (t - lo)
    decreases hi - lo
  {
    if lo < hi {
      Contiguous(K, lo, hi - 1);
      assert K[hi - 1 + 1] == K[hi - 1] + 1;
    }
  }

  /** The kept positions `K` of a whole scan and the text `r` they spell. */
  ghost predicate Spelled(s: string, K: seq<nat>, r: string) {
    KeptRange(s, 0, K) && KeptInnerGaps(s, K) && KeptHead(s, 0, K) && KeptTail(s, K) &&
    |r| == |K| && forall t :: 0 <= t < |K| ==> r[t] == s[K[t]]
  }

  /** A keyword matched anywhere is spelled with word characters. */
  lemma MatchedWords(r: string, p: nat, k: nat)
    requires k < |Keywords| && KeywordMatch(r, p, Keywords[k])
    ensures forall t :: p <= t < p + |Keywords[k]| ==> IsWordChar(r[t])
  {
    forall t | p <= t < p + |Keywords[k]|
      ensures IsWordChar(r[t])
    {
      KeywordsAreWords(k, t - p);
      assert LowerChar(r[p + (t - p)]) == Keywords[k][t - p];
    }
  }

  /** A run of word characters in the text left by the deletion is spelled
      by consecutive positions of the original text. */
  lemma KeptRun(s: string, K: seq<nat>, r: string, p: nat, n: nat)
    requires Spelled(s, K, r)
    requires 0 < n && p + n <= |K|
    requires forall t :: p <= t < p + n ==> IsWordChar(r[t])
    ensures forall t :: p <= t < p + n ==> K[t] == K[p] + (t - p)
  {
    forall t | p <= t < p + n - 1
      ensures K[t + 1] == K[t] + 1
    {
      assert IsWordChar(s[K[t]]);
    }
    Contiguous(K, p, p + n - 1);
  }

  /** The keyword is spelled at the same characters of the original text. */
  lemma KeptLetters(s: string, K: seq<nat>, r: string, p: nat, k: nat)
    requires Spelled(s, K, r)
    requires k < |Keywords| && p + |Keywords[k]| <= |K| && MatchesIgnoringCase(r, Keywords[k], p)
    requires forall t :: p <= t < p + |Keywords[k]| ==> K[t] == K[p] + (t - p)
    requires 0 < |Keywords[k]|
    ensures MatchesIgnoringCase(s, Keywords[k], K[p])
  {
    var w := Keywords[k];
    var a := K[p];
    assert K[p + |w| - 1] == a + |w| - 1 && K[p + |w| - 1] < |s|;
    forall t | 0 <= t < |w|
      ensures LowerChar(s[a + t]) == w[t]
    {
      assert K[p + t] == a + t;
      assert LowerChar(r[p + t]) == w[t];
    }
  }

  /** The start of such a run is a word boundary of the original text. */
  lemma KeptStart(s: string, K: seq<nat>, r: string, p: nat)
    requires Spelled(s, K, r)
    requires p < |K| && IsWordChar(r[p]) && Boundary(r, p)
    ensures Boundary(s, K[p])
  {
    if p > 0 {
      assert K[p - 1] < K[p];
    }
  }

  /** The end of such a run is a word boundary of the original text. */
  lemma KeptEnd(s: string, K: seq<nat>, r: string, e: nat)
    requires Spelled(s, K, r)
    requires 0 < e <= |K| && IsWordChar(r[e - 1]) && Boundary(r, e)
    ensures K[e - 1] + 1 <= |s| && Boundary(s, K[e - 1] + 1)
  {
    if e < |K| {
      assert K[e - 1] < K[e];
    }
  }

  /** A keyword match in the text left by the deletion would be a match at
      the same characters of the original text. */
  lemma KeptMatch(s: string, K: seq<nat>, r: string, p: nat, k: nat)
    requires Spelled(s, K, r)
    requires p < |K| && k < |Keywords|
    ensures KeywordMatch(r, p, Keywords[k]) ==> KeywordMatch(s, K[p], Keywords[k])
  {
    var n := |Keywords[k]|;
    if KeywordMatch(r, p, Keywords[k]) {
      KeywordsAreWords(k, 0);
      MatchedWords(r, p, k);
      KeptRun(s, K, r, p, n);
      KeptLetters(s, K, r, p, k);
      KeptStart(s, K, r, p);
      KeptEnd(s, K, r, p + n);
    }
  }

  /** `re.sub` leaves no keyword behind: a deleted match never joins two
      words, and the scan tried every position it kept. */
  lemma DeleteKeywordsRemovesAll(s: string)
    ensures NoKeyword(DeleteKeywords(s))
  {
    var r := DeleteKeywords(s);
    KeptFromChars(s, 0);
    KeptFromRange(s, 0);
    KeptFromUnmatched(s, 0);
    KeptFromInnerGaps(s, 0);
    KeptFromHead(s, 0);
    KeptFromTail(s, 0);
    var K := KeptFrom(s, 0);
    forall p, k | 0 <= p <= |r| && 0 <= k < |Keywords|
      ensures !KeywordMatch(r, p, Keywords[k])
    {
      if p < |r| {
        KeptMatch(s, K, r, p, k);
        FirstAlternativeIsFirstMatch(s, K[p], Keywords);
      }
    }
  }

  /** Deleting keywords a second time changes nothing. */
  lemma DeleteKeywordsIdempotent(s: string)
    ensures DeleteKeywords(DeleteKeywords(s)) == DeleteKeywords(s)
  {
    DeleteKeywordsRemovesAll(s);
    DeleteKeywordsIdentity(DeleteKeywords(s));
  }

  const Connector: string := " de "

  /** `s.replace(" de ", " ")`: occurrences are found left to right and do
      not overlap; the search resumes after each replaced occurrence. */
  function ReplaceConnector(s: string): (r: string)
    ensures |r| <= |s|
  {
    if |s| >= |Connector| && s[..|Connector|] == Connector then " " + ReplaceConnector(s[|Connector|..])
    else if s == [] then []
    else [s[0]] + ReplaceConnector(s[1..])
  }

  /** Replacing the connector changes nothing in a text that does not contain it. */
  lemma {:induction false} ReplaceConnectorIdentity(s: string)
    requires !Contains(s, Connector)
    ensures ReplaceConnector(s) == s
  {
    if s != [] {
      assert !OccursAt(s, Connector, 0);
      forall i: nat ensures !OccursAt(s[1..], Connector, i) {
        assert !OccursAt(s, Connector, i + 1);
        if i + |Connector| <= |s[1..]| {
          assert s[1..][i..i + |Connector|] == s[i + 1..i + 1 + |Connector|];
        }
      }
      ReplaceConnectorIdentity(s[1..]);
    }
  }

  /** Each replaced connector shortens the text by three characters. */
  lemma {:induction false} ReplaceConnectorShrinks(s: string)
    requires Contains(s, Connector)
    ensures |ReplaceConnector(s)| < |s|
    decreases |s|
  {
    var i: nat :| OccursAt(s, Connector, i);
    if !(|s| >= |Connector| && s[..|Connector|] == Connector) {
      assert i > 0;
      assert s[1..][i - 1..i - 1 + |Connector|] == s[i..i + |Connector|];
      assert OccursAt(s[1..], Connector, i - 1);
      ReplaceConnectorShrinks(s[1..]);
    }
  }

  /** The replacement leaves a text unchanged exactly when it does not contain the connector. */
  lemma ReplaceConnectorUnchanged(s: string)
    ensures ReplaceConnector(s) == s <==> !Contains(s, Connector)
  {
    if Contains(s, Connector) {
      ReplaceConnectorShrinks(s);
    } else {
      ReplaceConnectorIdentity(s);
    }
  }

  /** A scan from `i` that keeps every character found no keyword from `i` on. */
  lemma {:induction false} DeleteKeywordsFromKeepsAll(s: string, i: nat)
    requires i <= |s| && |DeleteKeywordsFrom(s, i)| == |s| - i
    ensures NoKeywordFrom(s, i)
    decreases |s| - i
  {
    if i < |s| {
      assert KeywordAt(s, i).None?;
      FirstAlternativeIsFirstMatch(s, i, Keywords);
      DeleteKeywordsFromKeepsAll(s, i + 1);
    }
  }

  /** `build_query`: the query has no surrounding whitespace and is never
      longer than the text it came from. */
  function BuildQuery(userText: string): (q: string)
    ensures NoOuterSpace(q)
    ensures |q| <= |userText|
  {
    Strip(ReplaceConnector(DeleteKeywords(userText)))
  }

  /** A trimmed text with no keyword and no connector is its own query. */
  lemma BuildQueryFixedPoint(s: string)
    requires NoOuterSpace(s) && NoKeyword(s) && !Contains(s, Connector)
    ensures BuildQuery(s) == s
  {
    DeleteKeywordsIdentity(s);
    ReplaceConnectorIdentity(s);
    StripNoOuterSpace(s);
  }

  /** The fixed points of `build_query` are exactly the trimmed texts with
      no keyword and no connector. */
  lemma BuildQueryFixedPoints(s: string)
    ensures BuildQuery(s) == s <==> NoOuterSpace(s) && NoKeyword(s) && !Contains(s, Connector)
  {
    if NoOuterSpace(s) && NoKeyword(s) && !Contains(s, Connector) {
      BuildQueryFixedPoint(s);
    }
    if BuildQuery(s) == s {
      assert |DeleteKeywords(s)| == |s|;
      DeleteKeywordsFromKeepsAll(s, 0);
      DeleteKeywordsIdentity(s);
      assert |ReplaceConnector(s)| == |s|;
      ReplaceConnectorUnchanged(s);
    }
  }

  /** The query for "precio mochila conejo jellycat" is "mochila conejo jellycat". */
  lemma BuildQueryExample(s: string)
    requires s == "precio mochila conejo jellycat"
    ensures BuildQuery(s) == "mochila conejo jellycat"
  {
    ExampleDelete(s);
    ExampleKeep(s[6..]);
  }

  lemma ExampleDelete(s: string)
    requires s == "precio mochila conejo jellycat"
    ensures DeleteKeywords(s) == " mochila conejo jellycat"
  {
    ExampleKeywordAtStart(s);
    DeleteKeywordsSkip(s, 0, 6);
    ExampleNoKeywordAfter(s);
    DeleteKeywordsFromIdentity(s, 6);
    assert s[6..] == " mochila conejo jellycat";
  }

  lemma ExampleKeep(rest: string)
    requires rest == " mochila conejo jellycat"
    ensures Strip(ReplaceConnector(rest)) == "mochila conejo jellycat"
  {
    assert ReplaceConnector(rest) == rest by {
      assert forall k :: 0 <= k < |rest| ==> rest[k] != 'd';
      forall i: nat ensures !OccursAt(rest, Connector, i) {
        if i + |Connector| <= |rest| {
          assert rest[i..i + |Connector|][1] == rest[i + 1];
        }
      }
      ReplaceConnectorIdentity(rest);
    }
    assert LeadingSpaces(rest) == 1 by {
      assert LeadingSpaces(rest) == 1 + LeadingSpaces(rest[1..]);
    }
  }

  lemma ExampleKeywordAtStart(s: string)
    requires s == "precio mochila conejo jellycat"
    ensures KeywordAt(s, 0) == Some(6)
  {
    assert KeywordMatch(s, 0, Keywords[0]);
  }

  lemma ExampleNoKeywordAfter(s: string)
    requires s == "precio mochila conejo jellycat"
    ensures NoKeywordFrom(s, 6)
  {
    // a keyword can only start where a word starts: after the spaces at 6, 14 and 21
    assert forall m :: 6 <= m < |s| && m !in {6, 14, 21} ==> IsWordChar(s[m]);
    forall j, k | 6 <= j <= |s| && 0 <= k < |Keywords| ensures !KeywordMatch(s, j, Keywords[k]) {
      var w := Keywords[k];
      if j + |w| > |s| {
        assert !MatchesIgnoringCase(s, w, j);
      } else if j in {6, 14, 21} {
        assert s[j] == ' ' && w[0] != ' ';
      } else if j in {7, 15, 22} {
        if j == 15 {
          // "con" starts no keyword
          assert LowerChar(s[15]) == 'c' && LowerChar(s[16]) == 'o' && LowerChar(s[17]) == 'n';
          assert w[0] != 'c' || w[1] != 'o' || w[2] != 'n';
        } else {
          assert LowerChar(s[j]) != w[0];
        }
      } else {
        assert IsWordChar(s[j - 1]) && IsWordChar(s[j]);
        assert !Boundary(s, j);
      }
    }
  }

  /** Every keyword except the unaccented "cuanto" is also a trigger of the
      classifier, so a text in which the pattern finds such a keyword is a price query. */
  lemma KeywordMatchIsPriceQuery(s: string, i: nat, k: nat)
    requires k < |Keywords| && Keywords[k] != "cuanto" && KeywordMatch(s, i, Keywords[k])
    ensures Classifier.IsPriceQuery(s)
  {
    var w := Keywords[k];
    var t: nat := if k < 2 then k else k - 1;
    assert Classifier.Triggers[t] == w;
    assert Lower(s)[i..i + |w|] == w;
    assert OccursAt(Lower(s), Classifier.Triggers[t], i);
  }

  /** The unaccented "cuanto" is deleted by the query builder although the
      classifier does not count it as a trigger. */
  lemma UnaccentedCuanto()
    ensures BuildQuery("cuanto") == ""
    ensures !Classifier.IsPriceQuery("cuanto")
  {
    CuantoDeleted();
    CuantoNotTrigger();
  }

  lemma CuantoDeleted()
    ensures DeleteKeywords("cuanto") == []
  {
    var s := "cuanto";
    assert KeywordMatch(s, 0, Keywords[2]);
    assert LowerChar(s[0]) == 'c' && Keywords[0][0] == 'p' && Keywords[1][0] == 'v';
    assert !KeywordMatch(s, 0, Keywords[0]) && !KeywordMatch(s, 0, Keywords[1]);
    assert KeywordAt(s, 0) == Some(6);
  }

  lemma CuantoNotTrigger()
    ensures !Classifier.IsPriceQuery("cuanto")
  {
    var s := "cuanto";
    assert Lower(s) == s;
    forall t: nat, j: nat | t < |Classifier.Triggers|
      ensures !OccursAt(s, Classifier.Triggers[t], j)
    {
      // each trigger has a character that "cuanto" lacks
      var w := Classifier.Triggers[t];
      var m := if t in {2, 3, 4} then 2 else 0;
      assert w[m] !in {'c', 'u', 'a', 'n', 't', 'o'};
    }
  }

  /** Building a query twice is not the same as once: the two connectors of
      " de de " overlap, so only the first is replaced on the first pass. */
  lemma BuildQueryNotIdempotent()
    ensures BuildQuery("a de de b") == "a de b"
    ensures BuildQuery(BuildQuery("a de de b")) == "a b"
  {
    ExampleFirstPass();
    ExampleSecondPass();
  }

  lemma ExampleFirstPass()
    ensures BuildQuery("a de de b") == "a de b"
  {
    ExampleNoKeyword("a de de b");
    ExampleReplaceOverlapping();
    StripNoOuterSpace("a de b");
  }

  lemma ExampleSecondPass()
    ensures BuildQuery("a de b") == "a b"
  {
    ExampleNoKeyword("a de b");
    ExampleReplaceSingle();
    StripNoOuterSpace("a b");
  }

  lemma ExampleNoKeyword(s: string)
    requires s in {"a de de b", "a de b"}
    ensures DeleteKeywords(s) == s
  {
    assert forall i :: 0 <= i < |s| ==> s[i] in {'a', ' ', 'd', 'e', 'b'};
    NoKeywordWithoutInitials(s);
    DeleteKeywordsIdentity(s);
  }

  lemma ExampleReplaceOverlapping()
    ensures ReplaceConnector("a de de b") == "a de b"
  {
    assert ReplaceConnector("b") == "b" by { assert "b"[1..] == []; }
    ReplaceConnectorKeep(' ', "b");
    ReplaceConnectorKeep('e', " b");
    ReplaceConnectorKeep('d', "e b");
    assert " de de b" == Connector + "de b";
    ReplaceConnectorSkip("de b");
    ReplaceConnectorKeep('a', " de de b");
  }

  lemma ExampleReplaceSingle()
    ensures ReplaceConnector("a de b") == "a b"
  {
    assert ReplaceConnector("b") == "b" by { assert "b"[1..] == []; }
    assert " de b" == Connector + "b";
    ReplaceConnectorSkip("b");
    ReplaceConnectorKeep('a', " de b");
  }

  /** One step of the replacement scan when no connector starts at the head. */
  lemma ReplaceConnectorKeep(c: char, s: string)
    requires c != ' ' || !OccursAt([c] + s, Connector, 0)
    ensures ReplaceConnector([c] + s) == [c] + ReplaceConnector(s)
  {
    assert ([c] + s)[1..] == s;
    assert ([c] + s)[0] == c;
  }

  /** One step of the replacement scan when a connector starts at the head. */
  lemma ReplaceConnectorSkip(s: string)
    ensures ReplaceConnector(Connector + s) == " " + ReplaceConnector(s)
  {
    assert (Connector + s)[..|Connector|] == Connector;
    assert (Connector + s)[|Connector|..] == s;
  }

  /** Every keyword starts with 'p', 'v' or 'c', so a text with none of
      those letters, in either case, has no keyword. */
  lemma NoKeywordWithoutInitials(s: string)
    requires forall i :: 0 <= i < |s| ==> LowerChar(s[i]) !in {'p', 'v', 'c'}
    ensures NoKeyword(s)
  {
    forall i, k | 0 <= i <= |s| && 0 <= k < |Keywords| ensures !KeywordMatch(s, i, Keywords[k]) {
      assert Keywords[k][0] in {'p', 'v', 'c'};
    }
  }
}
