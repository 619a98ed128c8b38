/** What `call_cse` does with the search endpoint's answer once the request
    has completed: keep the first `top_n` items of a successful response. */
module SearchClient {
  import opened Wrappers

  /** A decoded JSON value (numbers restricted to integers). */
  datatype Json =
    | JNull
    | JBool(b: bool)
    | JNumber(n: int)
    | JString(s: string)
    | JArray(elements: seq<Json>)
    | JObject(members: seq<(string, Json)>)

  /** Python truthiness of a decoded JSON value. */
  predicate Truthy(v: Json) {
    match v
    case JNull => false
    case JBool(b) => b
    case JNumber(n) => n != 0
    case JString(s) => s != []
    case JArray(e) => e != []
    case JObject(m) => m != []
  }

  /** One search result; a field is `None` when its key is absent. */
  datatype Item = Item(title: Option<string>, host: Option<string>, link: Option<string>, snippet: Option<string>)

  /** The decoded response body: the `ok` and `items` keys, `None` when absent. */
  datatype SearchResponse = SearchResponse(ok: Option<Json>, items: Option<seq<Item>>)

  /** `data.get("ok")` is truthy; an absent key reads as `None`, which is not. */
  predicate Succeeded(r: SearchResponse) {
    r.ok.Some? && Truthy(r.ok.value)
  }

  /** `data.get("items", [])`. */
  function ItemsOf(r: SearchResponse): seq<Item> {
    r.items.GetOr([])
  }

  function Min(a: int, b: int): int {
    if a <= b then a else b
  }

  /** Python's slice `xs[:n]`; a negative `n` counts from the end. */
  function SlicePrefix<T>(xs: seq<T>, n: int): (r: seq<T>)
    ensures r <= xs
    ensures n >= 0 ==> |r| == Min(n, |xs|)
    ensures n < 0 ==> |r| == if |xs| + n >= 0 then |xs| + n else 0
  {
    if n >= |xs| then xs
    else if n >= 0 then xs[..n]
    else if |xs| + n >= 0 then xs[..|xs| + n]
    else []
  }

  /** The result of `call_cse` given the outcome of the request: `None` when
      the request, the status check or the decoding raised. */
  function TopResults(response: Option<SearchResponse>, topN: int): (r: seq<Item>)
    ensures response.None? || !Succeeded(response.value) ==> r == []
    ensures response.Some? && Succeeded(response.value) ==> r <= ItemsOf(response.value)
    ensures response.Some? && Succeeded(response.value) && topN >= 0 ==>
              |r| == Min(topN, |ItemsOf(response.value)|)
  {
    match response
    case None => []
    case Some(data) =>
      if !Succeeded(data) then [] else SlicePrefix(ItemsOf(data), topN)
  }

  /** With a non-negative limit, never more than `topN` results, each of
      them the endpoint's item at the same position. */
  lemma TopResultsBounded(response: Option<SearchResponse>, topN: nat)
    ensures |TopResults(response, topN)| <= topN
    ensures response.Some? ==> forall k :: 0 <= k < |TopResults(response, topN)| ==>
              k < |ItemsOf(response.value)| && TopResults(response, topN)[k] == ItemsOf(response.value)[k]
  {
  }
}
