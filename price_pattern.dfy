/** The price found in a result snippet: the leftmost match of
    `(\d{1,3}(?:[.,]\d{3})*(?:[.,]\d{2})?)\s*€`, as `re.search` returns it. */
module PricePattern {
  import opened Wrappers
  import opened Text

  predicate IsSep(c: char) {
    c == '.' || c == ','
  }

  /** A character the amount part of the pattern can consume. */
  predicate IsNumChar(c: char) {
    IsDigit(c) || IsSep(c)
  }

  predicate AllDigits(t: string) {
    forall k :: 0 <= k < |t| ==> IsDigit(t[k])
  }

  /** `t` matches `(?:[.,]\d{3})*(?:[.,]\d{2})?` in full. */
  predicate IsGroupTail(t: string)
    decreases |t|
  {
    || t == []
    || (|t| == 3 && IsSep(t[0]) && AllDigits(t[1..]))
    || (|t| >= 4 && IsSep(t[0]) && AllDigits(t[1..4]) && IsGroupTail(t[4..]))
  }

  /** `t` is `k` digits followed by a group tail. */
  predicate HasLead(t: string, k: nat) {
    k <= |t| && AllDigits(t[..k]) && IsGroupTail(t[k..])
  }

  /** `t` matches `\d{1,3}(?:[.,]\d{3})*(?:[.,]\d{2})?` in full. */
  predicate IsAmount(t: string) {
    HasLead(t, 1) || HasLead(t, 2) || HasLead(t, 3)
  }

  /** `s[i..j]` is a match of the whole pattern: an amount, whitespace, then '€'. */
  predicate IsMatch(s: string, i: nat, j: nat) {
    i < j <= |s| && s[j - 1] == '€' &&
    exists p :: i <= p < j && IsAmount(s[i..p]) && AllSpace(s[p..j - 1])
  }

  lemma {:induction false} GroupTailChars(t: string)
    requires IsGroupTail(t)
    ensures forall k :: 0 <= k < |t| ==> IsNumChar(t[k])
    decreases |t|
  {
    if |t| >= 4 && IsSep(t[0]) && AllDigits(t[1..4]) && IsGroupTail(t[4..]) {
      GroupTailChars(t[4..]);
      forall k | 0 <= k < |t| ensures IsNumChar(t[k]) {
        if 1 <= k < 4 {
          assert t[1..4][k - 1] == t[k];
        } else if k >= 4 {
          assert t[4..][k - 4] == t[k];
        }
      }
    } else if |t| == 3 {
      forall k | 1 <= k < 3 ensures IsDigit(t[k]) {
        assert t[1..][k - 1] == t[k];
      }
    }
  }

  /** An amount consists of digits and separators only. */
  lemma AmountChars(t: string)
    requires IsAmount(t)
    ensures forall k :: 0 <= k < |t| ==> IsNumChar(t[k])
  {
    var n: nat := if HasLead(t, 1) then 1 else if HasLead(t, 2) then 2 else 3;
    assert HasLead(t, n);
    GroupTailChars(t[n..]);
    forall k | 0 <= k < |t| ensures IsNumChar(t[k]) {
      if k < n {
        assert t[..n][k] == t[k];
      } else {
        assert t[n..][k - n] == t[k];
      }
    }
  }

  /** The end of the longest run of digits and separators starting at `i`. */
  function NumRunEnd(s: string, i: nat): (p: nat)
    requires i <= |s|
    ensures i <= p <= |s|
    ensures forall k :: i <= k < p ==> IsNumChar(s[k])
    ensures p < |s| ==> !IsNumChar(s[p])
    decreases |s| - i
  {
    if i == |s| || !IsNumChar(s[i]) then i else NumRunEnd(s, i + 1)
  }

  /** The end of the longest run of whitespace starting at `p` (what `\s*` consumes). */
  function SpaceRunEnd(s: string, p: nat): (q: nat)
    requires p <= |s|
    ensures p <= q <= |s|
    ensures AllSpace(s[p..q])
    ensures q < |s| ==> !IsSpace(s[q])
    decreases |s| - p
  {
    if p == |s| || !IsSpace(s[p]) then p
    else
      var q := SpaceRunEnd(s, p + 1);
      assert s[p..q] == [s[p]] + s[p + 1..q];
      q
  }

  /** The end of the match that starts at `i`, if there is one. Whatever the
      engine backtracks through, the amount must stop where the run of
      digits and separators stops, since it is followed by whitespace or
      '€'; so the match at `i` is unique. */
  function MatchEndAt(s: string, i: nat): (r: Option<nat>)
    requires i <= |s|
    ensures r.Some? ==> IsMatch(s, i, r.value)
    ensures forall j: nat :: IsMatch(s, i, j) ==> r == Some(j)
  {
    var p := NumRunEnd(s, i);
    var q := SpaceRunEnd(s, p);
    if IsAmount(s[i..p]) && q < |s| && s[q] == '€' then
      assert IsMatch(s, i, q + 1);
      assert forall j: nat :: IsMatch(s, i, j) ==> j == q + 1 by {
        forall j: nat | IsMatch(s, i, j) ensures j == q + 1 {
          MatchIsGreedy(s, i, j);
        }
      }
      Some(q + 1)
    else
      assert forall j: nat :: !IsMatch(s, i, j) by {
        forall j: nat | IsMatch(s, i, j) ensures false {
          MatchIsGreedy(s, i, j);
        }
      }
      None
  }

  /** Any match starting at `i` uses the whole run of digits and separators
      and the whole run of whitespace after it. */
  lemma MatchIsGreedy(s: string, i: nat, j: nat)
    requires IsMatch(s, i, j)
    ensures IsAmount(s[i..NumRunEnd(s, i)])
    ensures SpaceRunEnd(s, NumRunEnd(s, i)) == j - 1
  {
    var p :| i <= p < j && IsAmount(s[i..p]) && AllSpace(s[p..j - 1]);
    assert NumRunEnd(s, i) == p by {
      AmountChars(s[i..p]);
      forall k | i <= k < p ensures IsNumChar(s[k]) {
        assert s[i..p][k - i] == s[k];
      }
      if p < j - 1 {
        assert s[p..j - 1][0] == s[p];
      }
      NumRunEndUnique(s, i, p);
    }
    assert SpaceRunEnd(s, p) == j - 1 by {
      forall k | p <= k < j - 1 ensures IsSpace(s[k]) {
        assert s[p..j - 1][k - p] == s[k];
      }
      SpaceRunEndUnique(s, p, j - 1);
    }
  }

  lemma NumRunEndUnique(s: string, i: nat, p: nat)
    requires i <= p < |s| && !IsNumChar(s[p])
    requires forall k :: i <= k < p ==> IsNumChar(s[k])
    ensures NumRunEnd(s, i) == p
  {
  }

  lemma SpaceRunEndUnique(s: string, p: nat, q: nat)
    requires p <= q < |s| && !IsSpace(s[q])
    requires forall k :: p <= k < q ==> IsSpace(s[k])
    ensures SpaceRunEnd(s, p) == q
  {
  }

  /** `re.search` from index `i`: the match with the leftmost start. */
  function SearchFrom(s: string, i: nat): (r: Option<(nat, nat)>)
    requires i <= |s|
    ensures r.Some? ==> i <= r.value.0 && IsMatch(s, r.value.0, r.value.1)
    ensures r.Some? ==> forall k, j :: i <= k < r.value.0 ==> !IsMatch(s, k, j)
    ensures r.None? ==> forall k, j :: i <= k ==> !IsMatch(s, k, j)
    decreases |s| - i
  {
    match MatchEndAt(s, i)
    case Some(j) => Some((i, j))
    case None =>
      if i == |s| then None else SearchFrom(s, i + 1)
  }

  /** `re.search(pattern, s)`, as the pair of indices `m.start()`, `m.end()`. */
  function Search(s: string): (r: Option<(nat, nat)>)
    ensures r.Some? ==> IsMatch(s, r.value.0, r.value.1) &&
                        forall k: nat, j: nat :: k < r.value.0 ==> !IsMatch(s, k, j)
    ensures r.None? ==> forall k: nat, j: nat :: !IsMatch(s, k, j)
  {
    SearchFrom(s, 0)
  }

  /** `" · " + m.group(0)` when the snippet has a price, `""` when it has none. */
  function PriceSuffix(snippet: string): string
  {
    match Search(snippet)
    case Some((i, j)) => " · " + snippet[i..j]
    case None => ""
  }

  /** The suffix is empty exactly when the snippet holds no amount in euros;
      otherwise it shows the leftmost one. */
  lemma PriceSuffixIsLeftmostMatch(snippet: string)
    ensures PriceSuffix(snippet) == "" <==> forall k: nat, j: nat :: !IsMatch(snippet, k, j)
    ensures PriceSuffix(snippet) != "" ==>
              exists i: nat, j: nat :: IsMatch(snippet, i, j) && PriceSuffix(snippet) == " · " + snippet[i..j] &&
                                       forall k: nat, j': nat :: k < i ==> !IsMatch(snippet, k, j')
  {
  }

  /** The number of decimal digits at the start of `t`. */
  function LeadingDigits(t: string): (n: nat)
    ensures n <= |t| && AllDigits(t[..n])
    ensures n < |t| ==> !IsDigit(t[n])
  {
    if t == [] || !IsDigit(t[0]) then 0
    else
      var n := 1 + LeadingDigits(t[1..]);
      assert t[..n] == [t[0]] + t[1..][..n - 1];
      n
  }

  lemma {:induction false} LeadingDigitsUnique(t: string, n: nat)
    requires n <= |t| && AllDigits(t[..n])
    requires n < |t| ==> !IsDigit(t[n])
    ensures LeadingDigits(t) == n
  {
    if n > 0 {
      assert t[..n][0] == t[0];
      assert t[1..][..n - 1] == t[..n][1..];
      assert n - 1 < |t| - 1 ==> t[1..][n - 1] == t[n];
      LeadingDigitsUnique(t[1..], n - 1);
    }
  }

  /** Every match begins with a digit, ends with '€', and has one to three
      digits before whatever follows them (a separator, whitespace or '€'). */
  lemma MatchShape(s: string, i: nat, j: nat)
    requires IsMatch(s, i, j)
    ensures IsDigit(s[i]) && s[j - 1] == '€'
    ensures 1 <= LeadingDigits(s[i..j]) <= 3
  {
    var p :| i <= p < j && IsAmount(s[i..p]) && AllSpace(s[p..j - 1]);
    var a := s[i..p];
    var n: nat := if HasLead(a, 1) then 1 else if HasLead(a, 2) then 2 else 3;
    assert HasLead(a, n);
    assert a[..n][0] == s[i];
    var m := s[i..j];
    assert a[..n] == s[i..i + n];
    assert m[..n] == s[i..i + n];
    if n < |a| {
      assert a[n..][0] == m[n];
    } else {
      assert m[n] == s[p];
      if p < j - 1 {
        assert s[p..j - 1][0] == s[p];
      }
    }
    LeadingDigitsUnique(m, n);
  }

  /** No match can start at a character that is not a digit. */
  lemma SearchSkipsNonDigit(s: string, i: nat)
    requires i < |s| && !IsDigit(s[i])
    ensures SearchFrom(s, i) == SearchFrom(s, i + 1)
  {
    if m :| MatchEndAt(s, i) == Some(m) {
      MatchShape(s, i, m);
    }
  }

  /** A snippet without '€' yields no price suffix. */
  lemma NoEuroNoPrice(snippet: string)
    requires forall k :: 0 <= k < |snippet| ==> snippet[k] != '€'
    ensures PriceSuffix(snippet) == ""
  {
  }

  /** The amount and sign are found after other text: "19,99€" in
      "Precio: 19,99€ en tienda". */
  lemma PriceExample(s: string)
    requires s == "Precio: 19,99€ en tienda"
    ensures PriceSuffix(s) == " · 19,99€"
  {
    ExampleSkipsLabel(s);
    ExampleMatch(s);
    assert s[8..14] == "19,99€";
  }

  lemma ExampleSkipsLabel(s: string)
    requires s == "Precio: 19,99€ en tienda"
    ensures Search(s) == SearchFrom(s, 8)
  {
    assert forall k :: 0 <= k < 8 ==> s[k] in "Precio: ";
    for k := 0 to 8
      invariant SearchFrom(s, 0) == SearchFrom(s, k)
    {
      SearchSkipsNonDigit(s, k);
    }
  }

  lemma ExampleMatch(s: string)
    requires s == "Precio: 19,99€ en tienda"
    ensures MatchEndAt(s, 8) == Some(14)
  {
    assert NumRunEnd(s, 8) == 13 by {
      NumRunEndUnique(s, 8, 13);
    }
    assert SpaceRunEnd(s, 13) == 13;
    assert HasLead(s[8..13], 2) by {
      assert s[8..13] == "19,99";
      assert "19,99"[2..] == ",99";
      assert IsGroupTail(",99");
    }
  }
}
