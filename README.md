# Price bot for WhatsApp: a verified model of its message handling

`bot.py` is a small WhatsApp Business webhook. A user asks for the price of a
product ("precio mochila conejo jellycat"). The bot then does four things:

- it decides whether the text is a price question;
- it turns the text into a search query;
- it asks a search endpoint for at most three results;
- it sends back a reply with one numbered block per result: the title, an
  optional euro amount taken from the snippet, the host and the link.

The webhook also answers the platform's subscription check.

This project models that logic in Dafny and proves what each step promises.
There is one module per component:

| module | file | models |
|---|---|---|
| `Wrappers` | `wrappers.dfy` | `Option`, for absent keys and parameters |
| `Text` | `text.dfy` | the alphabet, lower-casing, `str.strip`, `in` on strings, `str.join`, `str(int)` |
| `Classifier` | `classifier.dfy` | `is_price_query` |
| `QueryBuilder` | `query_builder.dfy` | `build_query`: the keyword regex, `replace(" de ", " ")`, `strip` |
| `PricePattern` | `price_pattern.dfy` | the euro-amount regex of the reply and its leftmost `re.search` |
| `SearchClient` | `search_client.dfy` | the decoded search response and the `ok`/`[:top_n]` step of `call_cse` |
| `Formatter` | `formatter.dfy` | the reply built in `incoming`: a specification function plus a `FormatReply` method with the source's loop over `lines` |
| `Webhook` | `webhook.dfy` | `verify`, the guard of `send_whatsapp`, and `incoming` as three nested loops over the payload |

Text is modelled over an explicit alphabet:

- ASCII plus `á`, `€` and `·`;
- lower-casing maps `A`–`Z` only;
- whitespace is Python's `isspace` on ASCII (`\t`–`\r`, `\x1c`–`\x1f`, space);
- `\d` is an ASCII digit;
- a word character is an ASCII letter, a digit, `_` or `á`.

The regex `cu[aá]nto` is written as its two spellings, `cuanto` and `cuánto`, in that alternation order.

The search endpoint is a parameter of type `string -> Option<SearchResponse>`. `None` stands for a request or decoding that failed, which `call_cse` turns into `[]`. The configured verify token is also a parameter.

Two properties of the code are worth knowing:

- **`build_query` is not idempotent**, not even on text with no keywords. `str.replace` scans left to right and never reuses characters. So `"a de de b"` becomes `"a de b"` on the first pass and `"a b"` on the second (`QueryBuilder.BuildQueryNotIdempotent`). Its fixed points are exactly the trimmed texts with no keyword and no " de " (`QueryBuilder.BuildQueryFixedPoints`).
- **"cuanto" without the accent** is deleted by `build_query`, but it is not a trigger of `is_price_query`, which only lists `cuánto`. The text "cuanto" is therefore not a price question, even though the builder would reduce it to the empty query (`QueryBuilder.UnaccentedCuanto`).

## Model

| member | source | states |
|---|---|---|
| Classifier.IsPriceQuery | bot.py:19-21 | true exactly when the lower-cased text contains one of "precio", "vale", "cuánto", "coste", "cuesta", "€", "eur" at some position |
| Classifier.AnyOccurs | bot.py:21 | `any(t in text for t in ts)` holds exactly when some listed string occurs in the text |
| Classifier.IsPriceQueryIgnoresCase | bot.py:19-21 | the answer for a text and for its lower-cased form is the same |
| Classifier.IsPriceQuerySameLower | bot.py:19-21 | two texts that lower-case alike get the same answer |
| Text.Lower | bot.py:20 | lower-casing keeps the length and lowers each character |
| Text.LowerChar | bot.py:20 | a lowered character is never an upper-case letter, and lowering keeps word characters word characters |
| Text.LowerIdempotent | bot.py:20 | lowering twice is lowering once |
| Text.Contains | bot.py:21 | the substring test holds exactly when the pattern occurs at some position |
| Text.Strip | bot.py:26 | the stripped text has no outer whitespace, is a contiguous slice of the input, and only whitespace was cut on each side |
| Text.LeadingSpaces | bot.py:26 | the count of leading whitespace is maximal: the next character is not whitespace |
| Text.TrailingSpaces | bot.py:26 | the count of trailing whitespace is maximal: the character before it is not whitespace |
| Text.StripNoOuterSpace | bot.py:26 | strip leaves a text without outer whitespace unchanged |
| Text.StripIdempotent | bot.py:26 | strip applied twice is strip applied once |
| Text.NatToString | bot.py:86 | the decimal rendering of the block number is all digits, with no leading zero except for 0 |
| Text.ParseNatToString | bot.py:86 | reading the decimal rendering back gives the number |
| Text.DigitValue | bot.py:86 | a digit character's value is below 10 and renders back to that character |
| Text.FlatMapAppend | bot.py:65-68 | collecting over a concatenation is the concatenation of the collections |
| Text.FlatMapSingle | bot.py:65-68 | collecting over one element is that element's collection |
| Text.FlatMapSnoc | bot.py:65-68 | collecting over one more element appends that element's collection |
| Text.IsSpace | bot.py:26 | `str.isspace` and `\s` on the alphabet; Text.Strip and PricePattern.SpaceRunEnd state what is cut or consumed |
| Text.IsDigit | bot.py:84 | `\d` on the alphabet; Text.DigitValue, PricePattern.LeadingDigits and PricePattern.MatchShape state its use |
| Text.IsWordChar | bot.py:25 | the `\w` that `\b` tests; Text.LowerChar states that lowering keeps it and QueryBuilder.MatchedSpan that found keywords consist of it |
| Text.Join | bot.py:87 | `sep.join(parts)`; Formatter.JoinAppend states that one more part adds the separator and that part |
| Text.ConcatAssociative | bot.py:86-87 | concatenation of texts and of sends is associative |
| QueryBuilder.Boundary | bot.py:25 | `\b`: exactly one side is a word character; QueryBuilder.MatchedSpan states that a found keyword is a whole word |
| QueryBuilder.MatchesIgnoringCase | bot.py:25 | `(?i)` comparison of one alternative at a position; QueryBuilder.KeptMatch and QueryBuilder.MatchedSpan state its consequences |
| QueryBuilder.KeywordMatch | bot.py:25 | `\b(w)\b` at a position; QueryBuilder.FirstAlternativeIsFirstMatch and QueryBuilder.DeleteKeywordsRemovesAll are stated with it |
| QueryBuilder.FirstAlternativeIsFirstMatch | bot.py:25 | the alternation matches exactly when some keyword matches, and it picks the first matching keyword in pattern order |
| QueryBuilder.FirstAlternative | bot.py:25 | a matched keyword is non-empty and lies inside the text |
| QueryBuilder.KeywordAt | bot.py:25 | a keyword match at a position is non-empty and lies inside the text |
| QueryBuilder.DeleteKeywordsFrom | bot.py:25 | the `re.sub` scan never makes the text longer; what it keeps and deletes is stated by QueryBuilder.KeptFromChars, QueryBuilder.KeptFromUnmatched and QueryBuilder.DeletedInsideMatch |
| QueryBuilder.DeleteKeywords | bot.py:25 | `re.sub(pattern, "", s)`; QueryBuilder.DeleteKeywordsRemovesAll states that no keyword survives it |
| QueryBuilder.MatchedSpan | bot.py:25 | a keyword the pattern finds is a run of word characters with a non-word character, or an end of the text, on each side |
| QueryBuilder.KeptFromChars | bot.py:25 | the text left by the deletion is the characters at the kept positions, in order |
| QueryBuilder.KeptFromRange | bot.py:25 | the kept positions increase and lie inside the text |
| QueryBuilder.KeptFromUnmatched | bot.py:25 | the pattern matches at none of the kept positions |
| QueryBuilder.DeletedInsideMatch | bot.py:25 | every position that is not kept lies inside a match the scan deleted |
| QueryBuilder.KeptFromInnerGaps | bot.py:25 | where a match was deleted between two kept characters, both are non-word characters |
| QueryBuilder.KeptFromHead | bot.py:25 | where matches were deleted before the first kept character, it is a non-word character |
| QueryBuilder.KeptFromTail | bot.py:25 | where matches were deleted after the last kept character, it is a non-word character |
| QueryBuilder.KeptMatch | bot.py:25 | a keyword match in the text left by the deletion would be a match at the same characters of the original text |
| QueryBuilder.DeleteKeywordsRemovesAll | bot.py:25 | no whole-word keyword is left after the deletion: a deleted match never joins two words, and the scan tried every position it kept |
| QueryBuilder.DeleteKeywordsIdempotent | bot.py:25 | deleting the keywords a second time changes nothing |
| QueryBuilder.DeleteKeywordsFromKeepsAll | bot.py:25 | a scan that keeps every character found no keyword |
| QueryBuilder.DeleteKeywordsFromIdentity | bot.py:25 | with no keyword match from a position onwards, the scan keeps the rest of the text as it is |
| QueryBuilder.DeleteKeywordsSkip | bot.py:25 | a match deletes exactly the matched keyword and the scan resumes after it |
| QueryBuilder.DeleteKeywordsIdentity | bot.py:25 | a text with no whole-word keyword is unchanged by the deletion |
| QueryBuilder.NoKeywordWithoutInitials | bot.py:25 | a text with no `p`, `v` or `c` (any case) has no keyword match |
| QueryBuilder.ReplaceConnector | bot.py:26 | replacing " de " by " " never makes the text longer |
| QueryBuilder.ReplaceConnectorShrinks | bot.py:26 | a text that contains " de " becomes strictly shorter |
| QueryBuilder.ReplaceConnectorUnchanged | bot.py:26 | the replacement leaves a text unchanged exactly when it does not contain " de " |
| QueryBuilder.ReplaceConnectorIdentity | bot.py:26 | a text without " de " is unchanged |
| QueryBuilder.ReplaceConnectorKeep | bot.py:26 | a character that does not start " de " is copied through |
| QueryBuilder.ReplaceConnectorSkip | bot.py:26 | an occurrence of " de " becomes " " and the scan resumes after all four characters |
| QueryBuilder.BuildQuery | bot.py:23-27 | the query has no leading or trailing whitespace and is never longer than the user's text |
| QueryBuilder.BuildQueryFixedPoint | bot.py:23-27 | a stripped text with no keyword and no " de " is its own query |
| QueryBuilder.BuildQueryFixedPoints | bot.py:23-27 | a text is its own query exactly when it is trimmed and has no keyword and no " de " |
| QueryBuilder.BuildQueryExample | bot.py:23-27 | "precio mochila conejo jellycat" gives the query "mochila conejo jellycat" |
| QueryBuilder.ExampleDelete | bot.py:25 | in the example, the deletion removes only the leading "precio" |
| QueryBuilder.ExampleKeep | bot.py:26 | in the example, the replacement and strip leave only the leading space to cut |
| QueryBuilder.ExampleKeywordAtStart | bot.py:25 | in the example, "precio" matches at position 0 |
| QueryBuilder.ExampleNoKeywordAfter | bot.py:25 | in the example, no keyword matches after "precio" |
| QueryBuilder.KeywordMatchIsPriceQuery | bot.py:19-25 | every keyword the builder deletes, except the unaccented "cuanto", also makes the text a price question |
| QueryBuilder.UnaccentedCuanto | bot.py:19-27 | "cuanto" is reduced to the empty query but is not a price question |
| QueryBuilder.CuantoDeleted | bot.py:25 | the unaccented "cuanto" is a keyword for the deletion |
| QueryBuilder.CuantoNotTrigger | bot.py:21 | the unaccented "cuanto" contains none of the triggers |
| QueryBuilder.BuildQueryNotIdempotent | bot.py:26 | "a de de b" gives "a de b", whose own query is "a b": a second pass changes the result |
| QueryBuilder.ExampleFirstPass | bot.py:23-27 | the query for "a de de b" is "a de b" |
| QueryBuilder.ExampleSecondPass | bot.py:23-27 | the query for "a de b" is "a b" |
| QueryBuilder.ExampleNoKeyword | bot.py:25 | the deletion leaves "a de de b" and "a de b" unchanged |
| QueryBuilder.ExampleReplaceOverlapping | bot.py:26 | the overlapping occurrences in "a de de b" are replaced once only |
| QueryBuilder.ExampleReplaceSingle | bot.py:26 | "a de b" becomes "a b" |
| PricePattern.IsMatch | bot.py:84 | the declarative meaning of the pattern: an amount, `\s*`, then '€'; PricePattern.MatchEndAt and PricePattern.SearchFrom are proved against it |
| PricePattern.IsGroupTail | bot.py:84 | `(?:[.,]\d{3})*(?:[.,]\d{2})?` in full; PricePattern.GroupTailChars states its characters |
| PricePattern.IsAmount | bot.py:84 | `\d{1,3}(?:[.,]\d{3})*(?:[.,]\d{2})?` in full; PricePattern.AmountChars and PricePattern.MatchShape state its characters and lead |
| PricePattern.GroupTailChars | bot.py:84 | every character of the `(?:[.,]\d{3})*(?:[.,]\d{2})?` part is a digit, '.' or ',' |
| PricePattern.AmountChars | bot.py:84 | every character of an amount is a digit, '.' or ',' |
| PricePattern.NumRunEnd | bot.py:84 | the end of the run of digits, '.' and ',' is maximal |
| PricePattern.SpaceRunEnd | bot.py:84 | the end of the whitespace run `\s*` is maximal |
| PricePattern.NumRunEndUnique | bot.py:84 | a run of digits, '.' and ',' that stops at a non-digit, non-separator character ends there |
| PricePattern.SpaceRunEndUnique | bot.py:84 | a whitespace run that stops at a non-space character ends there |
| PricePattern.MatchIsGreedy | bot.py:84 | every match uses the whole run of digits and separators and the whole run of whitespace before '€' |
| PricePattern.MatchEndAt | bot.py:84 | a match starting at a position is found when one exists, and it is the only one |
| PricePattern.SearchFrom | bot.py:84 | `re.search` returns the leftmost match, or no match when none exists from that position on |
| PricePattern.Search | bot.py:84 | `re.search`: the leftmost match, or none exactly when the snippet holds no match |
| PricePattern.PriceSuffix | bot.py:84-85 | `" · " + m.group(0)` or `""`; PricePattern.PriceSuffixIsLeftmostMatch states its meaning |
| PricePattern.PriceSuffixIsLeftmostMatch | bot.py:84-85 | the suffix is empty exactly when the snippet holds no amount in euros, and otherwise shows the leftmost one |
| PricePattern.LeadingDigits | bot.py:84 | the count of leading digits is maximal |
| PricePattern.LeadingDigitsUnique | bot.py:84 | any maximal prefix of digits has exactly that length |
| PricePattern.MatchShape | bot.py:84-85 | every match begins with a digit, ends with '€', and starts with 1 to 3 digits |
| PricePattern.SearchSkipsNonDigit | bot.py:84 | no match starts at a non-digit |
| PricePattern.NoEuroNoPrice | bot.py:84-85 | a snippet without '€' gets no price suffix |
| PricePattern.PriceExample | bot.py:84-85 | the snippet "Precio: 19,99€ en tienda" gets the suffix " · 19,99€" |
| PricePattern.ExampleSkipsLabel | bot.py:84 | in that snippet, no match starts before position 8 |
| PricePattern.ExampleMatch | bot.py:84 | in that snippet, the match at position 8 ends at position 14 |
| SearchClient.Truthy | bot.py:35 | Python truthiness of a JSON value: null, false, 0, "", [] and {} are falsy; SearchClient.TopResults states its effect |
| SearchClient.Succeeded | bot.py:35 | `data.get("ok")` is truthy, an absent key being falsy; SearchClient.TopResults states its effect |
| SearchClient.ItemsOf | bot.py:37 | `data.get("items", [])`; SearchClient.TopResults and SearchClient.TopResultsBounded state what is taken from it |
| SearchClient.SlicePrefix | bot.py:37 | Python's `xs[:n]` is a prefix of `xs` of length min(n, |xs|), or |xs| + n clamped at 0 for negative n |
| SearchClient.TopResults | bot.py:35-37 | a failed search or a falsy `ok` gives []; otherwise the result is a prefix of the items of length min(top_n, |items|) |
| SearchClient.TopResultsBounded | bot.py:35-37 | never more than top_n results, each one an item of the response |
| Formatter.ShownTitle | bot.py:80 | the shown title is the prefix of the title of length min(80, |title|) |
| Formatter.Field | bot.py:80-83 | `it.get(key, "")`; Formatter.ShownTitle states its use for the title |
| Formatter.BlocksFrom | bot.py:79-86 | the `enumerate(items, 1)` blocks; Formatter.BlocksFromAppend and Formatter.BlocksPrefixStep state their numbering and order |
| Formatter.Block | bot.py:80-86 | one item's block: number, shown title, price suffix, host and link; Formatter.ReplyAppend and Formatter.ReplySingle state where it goes |
| Formatter.Reply | bot.py:75-87 | the reply as a value; Formatter.ReplyNotFound, Formatter.ReplySingle and Formatter.ReplyAppend state its shape and Formatter.FormatReply is proved equal to it |
| Formatter.FormatReply | bot.py:75-87 | the loop that appends one block per item to `lines` and joins them with "\n\n" builds exactly the specified reply |
| Formatter.ReplyNotFound | bot.py:75-76 | with no items the reply is "No he encontrado precios para: " + q |
| Formatter.ReplySingle | bot.py:78-87 | with one item the reply is the header and that item's block numbered 1 |
| Formatter.ReplyAppend | bot.py:78-87 | one more item adds exactly "\n\n" and a block with the next number, so blocks follow the items in order |
| Formatter.BlocksFromAppend | bot.py:79-86 | the blocks for items + [it] are the earlier blocks, a separator and the block for `it` with the next number |
| Formatter.BlocksPrefixStep | bot.py:79-86 | the blocks of the first i + 1 items extend the blocks of the first i by one block |
| Formatter.JoinAppend | bot.py:87 | joining a list with one more part adds the separator and that part |
| Formatter.JoinBlocksStep | bot.py:86-87 | appending the next block to `lines` keeps the joined text equal to the header and the blocks so far |
| Webhook.Verify | bot.py:57-59 | status 200 with the challenge exactly when mode is "subscribe" and the token equals the configured one; otherwise ("forbidden", 403) |
| Webhook.EmptyConfiguredToken | bot.py:8-59 | with no token configured, an empty `hub.verify_token` passes and a missing one is refused |
| Webhook.SendWhatsapp | bot.py:41-50 | a message is sent exactly when both the recipient and the text are non-empty, and then it is that message |
| Webhook.EntriesOf | bot.py:63-65 | `(data or {}).get("entry", [])`; Webhook.Incoming and Webhook.MalformedBodySendsNothing state the traversal |
| Webhook.ChangesOf | bot.py:66 | `entry.get("changes", [])`; Webhook.Incoming states the traversal |
| Webhook.MessagesOf | bot.py:67-68 | `change.get("value", {}).get("messages", [])`; Webhook.Incoming states the traversal |
| Webhook.BodyOf | bot.py:71 | `(msg.get("text") or {}).get("body", "")`, "" when either key is absent; used by Webhook.MessageTexts |
| Webhook.MessageTexts | bot.py:69-71 | a message yields its sender and stripped body when its type is "text", and nothing otherwise; Webhook.Answer is proved against it |
| Webhook.TextMessages | bot.py:65-71 | all text messages of the event in payload order; Webhook.Incoming is proved against it and Text.FlatMapAppend states its order |
| Webhook.ReplyText | bot.py:72-89 | the reply to one text: the formatted results for a price question, the prompt otherwise; Webhook.ReplyTextNonEmpty, Webhook.PriceQuestionScenario and Webhook.GreetingScenario state it |
| Webhook.Answers | bot.py:65-89 | the sends for a sequence of texts; Webhook.AnswersAppend and Webhook.AnswersFollowMessages state its shape |
| Webhook.ReplyTextNonEmpty | bot.py:72-89 | every reply text is non-empty |
| Webhook.AnswersAppend | bot.py:65-89 | the sends for two runs of messages are the sends for the first followed by those for the second |
| Webhook.AnswersFollowMessages | bot.py:65-89 | there is at most one send per text message, and exactly one per message when every sender is non-empty |
| Webhook.Answer | bot.py:68-89 | the sends for one message are its reply when it is a text message, and none otherwise |
| Webhook.Incoming | bot.py:61-92 | the nested loops send exactly the replies to the text messages in payload order, and the handler returns ("ok", 200) |
| Webhook.SingleTextEventAnswered | bot.py:63-89 | an event with one text message from a non-empty sender gets exactly one send, the reply to that text |
| Webhook.PriceQuestionScenario | bot.py:72-87 | "precio mochila conejo jellycat", with two results, is answered with the header for "mochila conejo jellycat" and blocks 1 and 2 |
| Webhook.PriceQuestionClassified | bot.py:19-21 | "precio mochila conejo jellycat" is a price question |
| Webhook.ReplyTwoItems | bot.py:78-87 | with two items the reply is the header, block 1 and block 2, separated by "\n\n" |
| Webhook.GreetingScenario | bot.py:88-89 | "hola" is answered with the prompt |
| Webhook.MalformedBodySendsNothing | bot.py:63-65 | an undecodable body leads to no sends |

## Left out

- Flask routing, request and response objects, and `app.run` (bot.py:17, 52-56, 61-63, 94-95) are framework plumbing. The handlers take already-decoded arguments instead.
- The HTTP requests of `call_cse` and `send_whatsapp` (bot.py:31-34, 50) are network I/O, including the timeouts and `raise_for_status`. The search is the parameter `search`, which returns `None` on failure. A send is recorded as an `Outbound` value.
- URL quoting of the query (`urllib.parse.quote`, bot.py:31) is a foreign library. The model hands the unquoted query to `search`.
- Environment and dotenv configuration (bot.py:7-15) is process setup. The verify token is a parameter of `Verify`, and the endpoint and tokens are not modelled.
- JSON decoding (bot.py:34, 63) is left out: the model starts from typed records. An absent key is an `Option`. An undecodable POST body is `None` and is treated like `{}`.
- Exceptions are left out. A wrongly typed field (a list where a dict is expected, for example) raises in Python; the `except` then stops the loop and still answers ("ok", 200), so sends made before the error stand. The model's datatypes cannot hold wrongly typed fields. An exception raised by a send is not modelled.
- Webhook.Verify: a missing `hub.challenge` is modelled as a `None` body with status 200. What Flask then does with a `None` return value is not modelled.
- SearchClient.TopResults: `ok` is a JSON value without floating point; items are records of optional strings. JSON numbers are integers in the model, and the truthiness of a float `ok` is not captured.
- Text.Lower, Text.IsSpace, Text.IsWordChar and PricePattern: Unicode lower-casing, `\s`, `\w` and `\d` are restricted to the alphabet above. Characters outside it are not modelled, for example `Á`, `ñ`, `\x85`, `\xa0` or non-ASCII digits, even though Python treats them as letters, spaces or digits.
- Formatter: the item fields are strings or absent. A JSON `null` or a non-string field is not modelled; in Python it would render as "None" or raise on slicing.
