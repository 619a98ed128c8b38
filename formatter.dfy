/** The reply text built in `incoming` from a query and its search results. */
module Formatter {
  import opened Wrappers
  import opened Text
  import opened PricePattern
  import opened SearchClient

  const NotFoundPrefix: string := "No he encontrado precios para: "
  const HeaderPrefix: string := "Resultados para: "
  const BlockSeparator: string := "\n\n"
  const TitleLimit: nat := 80

  /** `it.get(key, "")`. */
  function Field(v: Option<string>): string {
    v.GetOr("")
  }

  /** The title as shown, `title[:80]`: the longest prefix of at most 80 characters. */
  function ShownTitle(it: Item): (r: string)
    ensures |r| <= TitleLimit
    ensures r <= Field(it.title)
    ensures |r| == Min(TitleLimit, |Field(it.title)|)
  {
    var title := Field(it.title);
    if |title| <= TitleLimit then title else title[..TitleLimit]
  }

  /** The block for the `n`-th item: number, title, optional price, host, link. */
  function Block(n: nat, it: Item): string {
    NatToString(n) + ". " + ShownTitle(it) + PriceSuffix(Field(it.snippet)) + "\n" +
    Field(it.host) + "\n" + Field(it.link)
  }

  /** Each of `items` as a block preceded by a blank line, numbered from `n`. */
  function BlocksFrom(items: seq<Item>, n: nat): string
    decreases |items|
  {
    if items == [] then [] else BlockSeparator + Block(n, items[0]) + BlocksFrom(items[1..], n + 1)
  }

  /** The reply for query `q`: the not-found sentence, or a header line
      followed by one block per item. */
  function Reply(q: string, items: seq<Item>): string {
    if items == [] then NotFoundPrefix + q else HeaderPrefix + q + BlocksFrom(items, 1)
  }

  lemma {:induction false} BlocksFromAppend(items: seq<Item>, it: Item, n: nat)
    ensures BlocksFrom(items + [it], n) == BlocksFrom(items, n) + BlockSeparator + Block(n + |items|, it)
    decreases |items|
  {
    if items == [] {
      assert items + [it] == [it] && [it][1..] == [];
    } else {
      var head := BlockSeparator + Block(n, items[0]);
      var last := Block(n + |items|, it);
      assert (items + [it])[0] == items[0] && (items + [it])[1..] == items[1..] + [it];
      assert BlocksFrom(items + [it], n) == head + BlocksFrom(items[1..] + [it], n + 1);
      BlocksFromAppend(items[1..], it, n + 1);
      var rest := BlocksFrom(items[1..], n + 1);
      assert BlocksFrom(items[1..] + [it], n + 1) == rest + BlockSeparator + last;
      ConcatAssociative(head, rest, BlockSeparator);
      ConcatAssociative(head, rest + BlockSeparator, last);
    }
  }

  /** With no items the reply is the not-found sentence for the query. */
  lemma ReplyNotFound(q: string)
    ensures Reply(q, []) == "No he encontrado precios para: " + q
  {
  }

  /** A single item gives the header, a blank line and block number 1. */
  lemma ReplySingle(q: string, it: Item)
    ensures Reply(q, [it]) == "Resultados para: " + q + "\n\n" + Block(1, it)
  {
    assert [it][1..] == [];
    assert BlocksFrom([it], 1) == BlockSeparator + Block(1, it);
  }

  /** One more item adds exactly one block at the end, numbered by its position. */
  lemma ReplyAppend(q: string, items: seq<Item>, it: Item)
    requires items != []
    ensures Reply(q, items + [it]) == Reply(q, items) + "\n\n" + Block(|items| + 1, it)
  {
    BlocksFromAppend(items, it, 1);
  }

  lemma {:induction false} JoinAppend(parts: seq<string>, sep: string, last: string)
    requires parts != []
    ensures Join(parts + [last], sep) == Join(parts, sep) + sep + last
    decreases |parts|
  {
    if |parts| == 1 {
      assert (parts + [last])[1..] == [last];
    } else {
      assert (parts + [last])[1..] == parts[1..] + [last];
      JoinAppend(parts[1..], sep, last);
    }
  }

  /** Appending the next item's block to the joined lines extends the reply by that block. */
  lemma JoinBlocksStep(lines: seq<string>, head: string, items: seq<Item>, i: nat, line: string)
    requires lines != [] && i < |items| && line == Block(i + 1, items[i])
    requires Join(lines, BlockSeparator) == head + BlocksFrom(items[..i], 1)
    ensures Join(lines + [line], BlockSeparator) == head + BlocksFrom(items[..i + 1], 1)
  {
    JoinAppend(lines, BlockSeparator, line);
    BlocksPrefixStep(items, i);
    ConcatAssociative(head, BlocksFrom(items[..i], 1), BlockSeparator);
    ConcatAssociative(head, BlocksFrom(items[..i], 1) + BlockSeparator, line);
  }

  lemma BlocksPrefixStep(items: seq<Item>, i: nat)
    requires i < |items|
    ensures BlocksFrom(items[..i + 1], 1) == BlocksFrom(items[..i], 1) + BlockSeparator + Block(i + 1, items[i])
  {
    assert items[..i + 1] == items[..i] + [items[i]];
    BlocksFromAppend(items[..i], items[i], 1);
  }

  /** The formatting block of `incoming`: collects the header and one line
      per item in a list, then joins the list with blank lines. */
  method FormatReply(q: string, items: seq<Item>) returns (reply: string)
    ensures reply == Reply(q, items)
  {
    if items == [] {
      return NotFoundPrefix + q;
    }
    var lines := [HeaderPrefix + q];
    var i := 0;
    while i < |items|
      invariant 0 <= i <= |items|
      invariant |lines| == i + 1
      invariant Join(lines, BlockSeparator) == HeaderPrefix + q + BlocksFrom(items[..i], 1)
    {
      var it := items[i];
      var title := ShownTitle(it);
      var host := Field(it.host);
      var link := Field(it.link);
      var snippet := Field(it.snippet);
      var price := PriceSuffix(snippet);
      var line := NatToString(i + 1) + ". " + title + price + "\n" + host + "\n" + link;
      assert line == Block(i + 1, it);
      JoinBlocksStep(lines, HeaderPrefix + q, items, i, line);
      lines := lines + [line];
      i := i + 1;
    }
    assert items[..i] == items;
    reply := Join(lines, BlockSeparator);
  }
}
