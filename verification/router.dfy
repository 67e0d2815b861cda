/**
 * The deterministic keyword router of the fashion chatbot backend:
 * `fallback_response`, which maps a message to one of a fixed set of
 * replies, and `generate_response`, whose classification prefix (empty
 * message, greeting, category) is modelled exactly and whose semantic search
 * is an abstract input.
 */
module Router {
  import opened Text
  import opened FashionKnowledge

  datatype Option<T> = None | Some(value: T)

  // ---------------------------------------------------------------------
  // Keyword lists, tested as substrings of the lower-cased message

  const GreetingWords: seq<string> := ["hello", "hi", "hey"]
  const TrendWords: seq<string> := ["trend", "trending"]
  const ColorWords: seq<string> := ["color", "colors", "colour"]
  const AccessoryWords: seq<string> := ["accessory", "accessories"]
  const OutfitWords: seq<string> := ["outfit", "wear", "dress"]

  // ---------------------------------------------------------------------
  // Fixed replies

  const EmptyReply: string := "I didn't receive any message. Could you please ask me something about fashion?"
  const GreetingReply: string := "Hello! I'm your fashion assistant. How can I help you with fashion today?"
  const DefaultReply: string := "I'm a fashion assistant. I can help you with fashion trends, styles, colors, and accessories."

  const TrendsPrefix: string := "Here are some current fashion trends: "
  const OutfitsPrefix: string := "Here are some outfit ideas: "

  /** `fallback_response`'s replies built from the knowledge base. */
  const TrendsReply: string := TrendsPrefix + Join(" | ", TrendTips)
  const ColorsReply: string := Join(" ", ColorTips)
  const AccessoriesReply: string := Join(" ", AccessoryTips)
  const OutfitsReply: string := OutfitsPrefix + Join(" | ", OutfitIdeas)

  /** `generate_response`'s trends summary, joined with a single space. */
  const TrendsSummary: string := TrendsPrefix + Join(" ", TrendTips)

  /** The canned replies `generate_response` chooses among when nothing else applies. */
  const Fallbacks: seq<string> := [
    "I'm a fashion assistant. I can help you with fashion trends, styles, colors, and accessories.",
    "I'm not sure I understand. Could you rephrase your question about fashion?",
    "I'm here to help with fashion advice. Could you tell me more about what you're looking for?",
    "I specialize in fashion advice. You can ask me about trends, styles, colors, or outfit ideas."
  ]

  // ---------------------------------------------------------------------
  // Style lookup: the first style, in table order, named in the message

  predicate NamesStyle(lm: string, k: nat) {
    k < |StyleGuide| && Contains(lm, StyleName(k))
  }

  /** Style `k` is named in `lm` and no style before it in the table is. */
  predicate IsFirstStyle(lm: string, k: nat) {
    NamesStyle(lm, k) && forall j :: 0 <= j < k ==> !NamesStyle(lm, j)
  }

  predicate NoStyleNamed(lm: string) {
    forall j :: 0 <= j < |StyleGuide| ==> !NamesStyle(lm, j)
  }

  function FirstStyleFrom(lm: string, from: nat): (r: Option<nat>)
    requires from <= |StyleGuide|
    ensures r.Some? ==>
      from <= r.value && NamesStyle(lm, r.value)
      && forall j :: from <= j < r.value ==> !NamesStyle(lm, j)
    ensures r.None? ==> forall j :: from <= j < |StyleGuide| ==> !NamesStyle(lm, j)
    decreases |StyleGuide| - from
  {
    if from == |StyleGuide| then None
    else if Contains(lm, StyleName(from)) then Some(from)
    else FirstStyleFrom(lm, from + 1)
  }

  /** The first-match scan over the styles table, in table order. */
  function FirstStyle(lm: string): (r: Option<nat>)
    ensures r.Some? ==> IsFirstStyle(lm, r.value)
    ensures r.None? <==> NoStyleNamed(lm)
  {
    FirstStyleFrom(lm, 0)
  }

  // ---------------------------------------------------------------------
  // fallback_response

  /** The branches of `fallback_response`, in the order it tries them. */
  datatype FallbackBranch =
    | TrendsBranch
    | StyleBranch(style: nat)
    | ColorsBranch
    | AccessoriesBranch
    | OutfitsBranch
    | DefaultBranch

  /**
   * Which branch answers the lower-cased message: trends, then the first
   * style named, then colors, then accessories, then outfits, then the
   * default.
   */
  function ChooseFallback(lm: string): (b: FallbackBranch)
    ensures b.StyleBranch? ==> IsFirstStyle(lm, b.style)
  {
    if ContainsAny(lm, TrendWords) then TrendsBranch
    else match FirstStyle(lm)
      case Some(k) => StyleBranch(k)
      case None =>
        if ContainsAny(lm, ColorWords) then ColorsBranch
        else if ContainsAny(lm, AccessoryWords) then AccessoriesBranch
        else if ContainsAny(lm, OutfitWords) then OutfitsBranch
        else DefaultBranch
  }

  /** The fixed reply of each branch. */
  function FallbackText(b: FallbackBranch): (r: string)
    requires b.StyleBranch? ==> b.style < |StyleGuide|
    ensures IsFallbackReply(r)
  {
    match b
    case TrendsBranch => TrendsReply
    case StyleBranch(k) => StyleDescription(k)
    case ColorsBranch => ColorsReply
    case AccessoriesBranch => AccessoriesReply
    case OutfitsBranch => OutfitsReply
    case DefaultBranch => DefaultReply
  }

  /** Every reply `fallback_response` can give. */
  predicate IsFallbackReply(r: string) {
    || r == TrendsReply || r == ColorsReply || r == AccessoriesReply
    || r == OutfitsReply || r == DefaultReply
    || exists k :: 0 <= k < |StyleGuide| && r == StyleDescription(k)
  }

  /** `fallback_response`: the keyword reply to a message. */
  function FallbackResponse(message: string): (r: string)
    ensures IsFallbackReply(r)
  {
    FallbackText(ChooseFallback(Lower(message)))
  }

  // ---------------------------------------------------------------------
  // generate_response: classification prefix

  /**
   * How `generate_response` routes a message before searching: it answers
   * an empty message or a greeting directly, and otherwise searches with an
   * optional knowledge-base section.
   */
  datatype Route = Empty | Greeting | Search(category: Option<Section>)

  /** The category chosen for the search from the lower-cased message. */
  function SelectCategory(lm: string): (c: Option<Section>)
    ensures c != Some(Styles)
  {
    if ContainsAny(lm, TrendWords) then Some(Trends)
    else if ContainsAny(lm, ColorWords) then Some(Colors)
    else if ContainsAny(lm, AccessoryWords) then Some(Accessories)
    else if ContainsAny(lm, OutfitWords) then Some(Outfits)
    else None
  }

  function Classify(message: string): (r: Route)
    ensures r == Empty <==> IsBlank(message)
  {
    if Strip(message) == [] then Empty
    else
      var lm := Lower(message);
      if ContainsAny(lm, GreetingWords) then Greeting
      else Search(SelectCategory(lm))
  }

  // ---------------------------------------------------------------------
  // generate_response: after the search

  /**
   * The similarity score of the best hit, reduced to the two thresholds
   * the router compares it with: Weak is at most 0.3, Moderate is above 0.3
   * and below 0.5, Strong is at least 0.5.
   */
  datatype Confidence = Weak | Moderate | Strong

  /** What the semantic search returned: its best text (if any) and how good it was. */
  datatype SearchResult = SearchResult(best: Option<string>, confidence: Confidence)

  /** Index into `Fallbacks` of the canned reply closest to the message. */
  type FallbackIndex = i: nat | i < 4

  /**
   * `best_response and score > 0.3`: the search found a text that Python
   * treats as true (present and non-empty) and that clears the 0.3 threshold.
   */
  function Accepted(search: SearchResult): (b: bool)
    ensures b ==> search.best.Some? && |search.best.value| > 0
    ensures search.best.None? || search.best.value == "" || search.confidence == Weak ==> !b
  {
    search.best.Some? && search.best.value != "" && search.confidence != Weak
  }

  /**
   * The reply of `generate_response`, given what the semantic search
   * returned for the message and its category, and which canned reply the
   * embeddings rank closest.
   */
  function GenerateResponse(message: string, search: SearchResult, pick: FallbackIndex): (r: string)
    ensures || r == EmptyReply || r == GreetingReply || r == TrendsSummary
            || (search.best.Some? && r == search.best.value)
            || (exists k :: 0 <= k < |StyleGuide| && r == StyleDescription(k))
            || r in Fallbacks
  {
    match Classify(message)
    case Empty => EmptyReply
    case Greeting => GreetingReply
    case Search(category) =>
      if Accepted(search) then
        if category == Some(Trends) && search.confidence == Moderate then TrendsSummary
        else search.best.value
      else if category.None? && FirstStyle(Lower(message)).Some? then
        StyleDescription(FirstStyle(Lower(message)).value)
      else Fallbacks[pick]
  }
}
