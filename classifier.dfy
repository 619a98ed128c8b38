/** `is_price_query`: decides whether an incoming text asks for a price. */
module Classifier {
  import opened Text

  /** The literal trigger substrings, in the order the source lists them. */
  const Triggers: seq<string> := ["precio", "vale", "cuánto", "coste", "cuesta", "€", "eur"]

  /** Python's `any(t in text for t in ts)`. */
  function AnyOccurs(text: string, ts: seq<string>): (b: bool)
    ensures b <==> exists k :: 0 <= k < |ts| && Contains(text, ts[k])
  {
    if ts == [] then false
    else
      var b := Contains(text, ts[0]) || AnyOccurs(text, ts[1..]);
      assert forall k :: 1 <= k < |ts| ==> ts[k] == ts[1..][k - 1];
      b
  }

  /** Lower-cases the text, then tests it for any trigger substring. */
  function IsPriceQuery(text: string): (b: bool)
    ensures b <==> exists k: nat, i: nat :: k < |Triggers| && OccursAt(Lower(text), Triggers[k], i)
  {
    var b := AnyOccurs(Lower(text), Triggers);
    assert b ==> exists k: nat, i: nat :: k < |Triggers| && OccursAt(Lower(text), Triggers[k], i) by {
      if b {
        var k :| 0 <= k < |Triggers| && Contains(Lower(text), Triggers[k]);
        var i: nat :| OccursAt(Lower(text), Triggers[k], i);
      }
    }
    assert (exists k: nat, i: nat :: k < |Triggers| && OccursAt(Lower(text), Triggers[k], i)) ==> b by {
      if exists k: nat, i: nat :: k < |Triggers| && OccursAt(Lower(text), Triggers[k], i) {
        var k: nat, i: nat :| k < |Triggers| && OccursAt(Lower(text), Triggers[k], i);
        assert Contains(Lower(text), Triggers[k]);
      }
    }
    b
  }

  /** The classifier ignores case: a text and its lower-cased form get the same answer. */
  lemma IsPriceQueryIgnoresCase(text: string)
    ensures IsPriceQuery(Lower(text)) == IsPriceQuery(text)
  {
    LowerIdempotent(text);
  }

  /** Two texts that agree up to case get the same answer. */
  lemma IsPriceQuerySameLower(s: string, t: string)
    requires Lower(s) == Lower(t)
    ensures IsPriceQuery(s) == IsPriceQuery(t)
  {
  }
}
