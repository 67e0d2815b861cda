# Fashion chatbot keyword router, in Dafny

The chatbot's backend, `backend/main.py`, defines two functions that turn a
chat message into a reply. The `/chat` endpoint calls only
`generate_response`. `fallback_response` is defined next to it, and its
docstring calls it the fallback "if model fails", but no code in
`backend/main.py` calls it: when `generate_response` raises, `/chat` answers
with an HTTP 500 error instead.

- `fallback_response` is a pure keyword router. It lower-cases the message and
  tries an ordered chain of substring tests: trends, then each style in table
  order (casual, formal, business, bohemian, athleisure), then colors, then
  accessories, then outfits. If none matches, it gives a fixed default. Each
  branch returns a fixed text built from the knowledge base
  `ENHANCED_FASHION_KNOWLEDGE`.
- `generate_response` answers a blank message and a greeting directly. Otherwise
  it picks a knowledge-base section, or none, as the search category, runs a semantic
  search, and falls back to a style lookup or to a canned reply.

This project models both. The semantic search is an abstract input: its best
text, and its score reduced to the two thresholds the code compares it with.

Files:

- `text.dfy` (module `Text`): Python's `str.lower()`, `str.strip()`, `w in s`,
  `any(w in s for w in words)` and `sep.join(parts)`, over ASCII. The
  substring test and stripping each come with a declarative definition and a
  lemma that connects the two. Lower-casing is specified character by
  character. `any` is specified as "some word of the list occurs". Joining
  comes with lemmas about its length and about each part occurring in it.
- `knowledge.dfy` (module `FashionKnowledge`): the knowledge base as constant
  sequences. The styles table is a sequence of (name, description) pairs in
  insertion order. `Section` names the five keys.
- `router.dfy` (module `Router`): the keyword lists, the fixed replies, the
  style lookup, `fallback_response` split into `ChooseFallback` (which branch
  answers) and `FallbackText` (that branch's reply), and the classification
  prefix of `generate_response` (`Classify`, `SelectCategory`).
  `GenerateResponse` is the whole function, with the search result as a
  parameter.
- `router_facts.dfy` (module `RouterFacts`): the properties. They cover branch
  priority and first-match among styles, in both directions. They also cover
  the default case and case-insensitivity. For `generate_response` they cover
  the order of the early exits, and show that stripping the message, as the
  `/chat` endpoint does, does not change the classification.

The keyword tests are stated with the executable `Text.Contains`, which
`Text.ContainsIff` proves equal to "some occurrence exists". Two of the
keyword lists are redundant, because `"trending"` contains `"trend"` and
`"colors"` contains `"color"`. The lemmas therefore state the trends test as a
test for `"trend"` and the colors test as one for `"color"` or `"colour"`.
Greeting detection is by substring, so `"this"`, `"shirt"` and `"which"` make
any message a greeting (`RouterFacts.CommonWordsGreet`).

## Model

The constants are not members and have no rows. They match the source text
character for character:
- `FashionKnowledge`'s `TrendTips`, `StyleGuide`, `ColorTips`,
  `AccessoryTips` and `OutfitIdeas` are the knowledge base at
  backend/main.py:22-56.
- `Router`'s keyword lists are the ones at backend/main.py:136-147 and
  186-199.
- `EmptyReply`, `GreetingReply` and `DefaultReply` are the literals at lines
  132, 137 and 202.
- `TrendsPrefix` and `OutfitsPrefix` are the prefixes at lines 157, 187 and
  200.
- `Fallbacks` is the list of canned replies at lines 167-172.

| member | source | states |
|---|---|---|
| `Text.Lower` | backend/main.py:184 | lower-casing keeps the length and maps each character with ASCII `lower` |
| `Text.LowerIdempotent` | backend/main.py:184 | lower-casing an already lower-cased message changes nothing |
| `Text.Contains` | backend/main.py:186 | the substring test fails when the word is longer than the message, and the empty word is contained in every message |
| `Text.ContainsIff` | backend/main.py:186 | the substring test holds exactly when the word occurs at some index, as `in` on Python strings |
| `Text.ContainsAny` | backend/main.py:186 | `any(word in message_lower for word in words)` holds exactly when some word of the list is contained in the message |
| `Text.Strip` | backend/main.py:131 | the stripped message is empty exactly when every character is whitespace; otherwise it starts and ends with non-whitespace |
| `Text.StripIsCore` | backend/main.py:131 | the stripped message is the slice left after removing the whole whitespace prefix and suffix |
| `Text.Join` | backend/main.py:187 | a join of a non-empty list starts with its first part |
| `Text.JoinLength` | backend/main.py:187 | a join's length is the parts' total length plus one separator between each neighbouring pair |
| `Text.JoinContainsEach` | backend/main.py:194 | every knowledge-base item joined into a reply occurs in that reply |
| `Router.FirstStyleFrom` | backend/main.py:189-191 | the scan from a table index returns the first style at or after it whose name occurs in the message, or none if no later style is named |
| `Router.FirstStyle` | backend/main.py:162-164 | the style lookup returns a style that is named and has no named style before it in table order; it returns nothing exactly when no style is named |
| `Router.ChooseFallback` | backend/main.py:186-202 | a style branch is taken only for the first style named in table order |
| `Router.FallbackText` | backend/main.py:186-202 | every branch's reply is one of the fixed replies |
| `Router.FallbackResponse` | backend/main.py:182-202 | the reply to any message is one of the fixed replies: trends, a style description, colors, accessories, outfits or the default |
| `RouterFacts.FallbackTextInjective` | backend/main.py:186-202 | two different branches never give the same reply, because the fixed replies all have different lengths |
| `RouterFacts.ReplyNamesBranch` | backend/main.py:182-202 | the reply to a message is a given branch's text exactly when that branch answers the message |
| `RouterFacts.TrendWordsMeanTrend` | backend/main.py:186 | the test for "trend" or "trending" holds exactly when "trend" occurs |
| `RouterFacts.ColorWordsMeanColor` | backend/main.py:193 | the test for "color", "colors" or "colour" holds exactly when "color" or "colour" occurs |
| `RouterFacts.FallbackTrends` | backend/main.py:186-187 | the trends branch is taken, and the reply is the prefixed trends joined by a vertical-bar separator, exactly when the lower-cased message contains "trend", whatever other keywords it holds |
| `RouterFacts.FallbackStyle` | backend/main.py:189-191 | the branch of style k is taken, and the reply is style k's description, exactly when "trend" is absent and style k is the first style named in table order |
| `RouterFacts.CasualBeatsOtherStyles` | backend/main.py:189-191 | without "trend", a message naming "casual" gets the casual description whatever other style it names |
| `RouterFacts.FallbackColors` | backend/main.py:193-194 | the colors branch is taken, and the reply is the space-joined color tips, exactly when no trend or style word occurs and "color" or "colour" does; so colors beat accessories and outfits |
| `RouterFacts.FallbackAccessories` | backend/main.py:196-197 | the accessories branch is taken, and the reply is the space-joined accessory tips, exactly when no trend, style or color word occurs and "accessory" or "accessories" does |
| `RouterFacts.FallbackOutfits` | backend/main.py:199-200 | the outfits branch is taken, and the reply is the prefixed outfit ideas, exactly when no earlier keyword occurs and "outfit", "wear" or "dress" does |
| `RouterFacts.FallbackDefault` | backend/main.py:202 | the default reply is given exactly when no keyword of any branch occurs |
| `RouterFacts.FallbackCaseInsensitive` | backend/main.py:184 | a message and its lower-cased form get the same reply |
| `Router.SelectCategory` | backend/main.py:140-148 | the search category is never the styles section |
| `Router.Classify` | backend/main.py:131-148 | a message is routed as empty exactly when it is all whitespace |
| `RouterFacts.ClassifyGreeting` | backend/main.py:136-137 | a message is a greeting exactly when its lower-cased form contains "hello", "hi" or "hey"; such a message is never blank |
| `RouterFacts.HiInsideWordIsGreeting` | backend/main.py:136-137 | a message that contains any word containing "hi" is a greeting |
| `RouterFacts.CommonWordsGreet` | backend/main.py:136-137 | a message containing "this", "shirt" or "which" is a greeting |
| `RouterFacts.ClassifySearch` | backend/main.py:139-151 | a message goes to search exactly when it is not blank and contains none of "hello", "hi" and "hey", and then with the category its keywords select |
| `RouterFacts.SelectTrends` | backend/main.py:141-142 | the category is trends exactly when "trend" occurs |
| `RouterFacts.SelectColors` | backend/main.py:143-144 | the category is colors exactly when "trend" is absent and "color" or "colour" occurs |
| `RouterFacts.SelectAccessories` | backend/main.py:145-146 | the category is accessories exactly when no trend or color word occurs and "accessory" or "accessories" does |
| `RouterFacts.SelectOutfits` | backend/main.py:147-148 | the category is outfits exactly when no earlier word occurs and "outfit", "wear" or "dress" does |
| `RouterFacts.SelectNone` | backend/main.py:140 | no category is chosen exactly when none of the category words occurs |
| `RouterFacts.ClassifyIgnoresSurroundingSpace` | backend/main.py:212-219 | stripping the message before `generate_response`, as the chat endpoint does, leaves its classification unchanged |
| `Router.GenerateResponse` | backend/main.py:129-180 | the reply is the empty-message reply, the greeting, the trends summary, the search's text, a style description or a canned reply |
| `Router.Accepted` | backend/main.py:154 | a search is accepted only with a present, non-empty text, and never when its score is at most 0.3 |
| `RouterFacts.GenerateBlank` | backend/main.py:131-132 | a blank message gets the "didn't receive any message" reply, whatever the search would return |
| `RouterFacts.GenerateGreeting` | backend/main.py:136-137 | a message containing "hello", "hi" or "hey" gets the greeting, whatever the search would return |
| `RouterFacts.GenerateModerateTrends` | backend/main.py:154-157 | a non-blank message with "trend" and no greeting word, whose non-empty hit scores above 0.3 but below 0.5, gets the space-joined trends summary |
| `RouterFacts.GenerateAcceptedHit` | backend/main.py:154-158 | for a non-blank message without a greeting word, an accepted hit is returned as it is when it scores at least 0.5 or the message lacks "trend" |
| `RouterFacts.GenerateStyle` | backend/main.py:160-164 | for a non-blank message with no greeting word, no category word and no accepted hit, the reply is the description of the first style named |
| `RouterFacts.GenerateNoStyleFallsBack` | backend/main.py:160-180 | for a non-blank message with no greeting word, no category word, no style named and no accepted hit, the style scan finds nothing and the reply is the chosen canned reply |
| `RouterFacts.GenerateCategoryFallsBack` | backend/main.py:161-180 | for a non-blank message with no greeting word, some category word and no accepted hit, the reply is the chosen canned reply and never a style description, even when the message names a style |

## Left out

- The sentence-transformer model, the embeddings, cosine similarity and `argmax` (lines 6-8, 17-19, 58-68, 98-127, 174-180) are left out. They are floating-point numerics inside a foreign library. `GenerateResponse` takes their outcome as parameters instead. The `SearchResult` parameter holds the best text and a three-valued `Confidence`: `Weak` means a score of at most 0.3, `Moderate` a score above 0.3 and below 0.5, and `Strong` a score of at least 0.5. A `FallbackIndex` below 4 stands for the canned reply the embeddings rank closest.
- `find_most_relevant_response` is left out, because it is entirely such a search. Its result is an input to the model, so nothing ties the text to the searched section.
- The FastAPI app, CORS, the pydantic models, the `/`, `/chat` and `/health` endpoints, logging and the launcher (lines 1-5, 10-15, 70-95, 204-238) are left out. They are HTTP and I/O plumbing. The one piece of logic in `/chat` is that it strips the message first; `RouterFacts.ClassifyIgnoresSurroundingSpace` covers it.
- `chat_history` is left out, because `generate_response` never reads it.
- `Text.Lower` models only ASCII: it maps `A`-`Z` to `a`-`z` and keeps every other character. Python's `str.lower()` also maps non-ASCII letters, and that Unicode case mapping is not modelled.
- `Text.Strip` models only ASCII whitespace: space, tab, line feed, carriage return, vertical tab, form feed and the characters 0x1C to 0x1F. Python's `str.strip()` also removes Unicode spaces such as U+00A0 and U+0085.
- The React/TypeScript chat client is not part of this model.
