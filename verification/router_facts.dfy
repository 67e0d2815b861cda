/**
 * What the keyword router promises, stated against the declarative meaning
 * of its keyword tests: branch priority, first-match among styles, the
 * default case, case-insensitivity, and the order of `generate_response`'s
 * early exits.
 */
module RouterFacts {
  import opened Text
  import opened FashionKnowledge
  import opened Router

  // ---------------------------------------------------------------------
  // Keyword lists that reduce to fewer words

  /** "trending" contains "trend", so the trends test is a test for "trend". */
  lemma {:induction false} TrendWordsMeanTrend(s: string)
    ensures ContainsAny(s, TrendWords) <==> Contains(s, "trend")
  {
    if Contains(s, "trending") {
      assert "trending"[0..5] == "trend";
      ContainsAt("trending", "trend", 0);
      ContainsTransitive(s, "trending", "trend");
    }
    if Contains(s, "trend") {
      assert Contains(s, TrendWords[0]);
    }
  }

  /** "colors" contains "color", so the colors test needs only "color" and "colour". */
  lemma {:induction false} ColorWordsMeanColor(s: string)
    ensures ContainsAny(s, ColorWords) <==> Contains(s, "color") || Contains(s, "colour")
  {
    if Contains(s, "colors") {
      assert "colors"[0..5] == "color";
      ContainsAt("colors", "color", 0);
      ContainsTransitive(s, "colors", "color");
    }
    if Contains(s, "color") {
      assert Contains(s, ColorWords[0]);
    }
    if Contains(s, "colour") {
      assert Contains(s, ColorWords[2]);
    }
  }

  lemma AccessoryWordsSpelled(s: string)
    ensures ContainsAny(s, AccessoryWords) <==> Contains(s, "accessory") || Contains(s, "accessories")
  {
    assert AccessoryWords[0] == "accessory" && AccessoryWords[1] == "accessories";
  }

  lemma OutfitWordsSpelled(s: string)
    ensures ContainsAny(s, OutfitWords) <==> Contains(s, "outfit") || Contains(s, "wear") || Contains(s, "dress")
  {
    assert OutfitWords[0] == "outfit" && OutfitWords[1] == "wear" && OutfitWords[2] == "dress";
  }

  lemma GreetingWordsSpelled(s: string)
    ensures ContainsAny(s, GreetingWords) <==> Contains(s, "hello") || Contains(s, "hi") || Contains(s, "hey")
  {
    assert GreetingWords[0] == "hello" && GreetingWords[1] == "hi" && GreetingWords[2] == "hey";
  }

  /** The lower-cased message contains a greeting word. */
  predicate HasGreetingWord(lm: string) {
    Contains(lm, "hello") || Contains(lm, "hi") || Contains(lm, "hey")
  }

  /** The lower-cased message contains a word that selects a search category. */
  predicate HasCategoryWord(lm: string) {
    || Contains(lm, "trend") || Contains(lm, "color") || Contains(lm, "colour")
    || Contains(lm, "accessory") || Contains(lm, "accessories")
    || Contains(lm, "outfit") || Contains(lm, "wear") || Contains(lm, "dress")
  }

  /** A message whose lower-cased form contains a word without spaces is not blank. */
  lemma WordMakesNonBlank(message: string, w: string)
    requires IsWord(w) && w != [] && Contains(Lower(message), w)
    ensures !IsBlank(message)
  {
    var lm := Lower(message);
    ContainsIff(lm, w);
    var i :| OccursAt(lm, w, i);
    assert lm[i] == lm[i..i + |w|][0] == w[0];
    assert !IsSpace(message[i]);
  }

  // ---------------------------------------------------------------------
  // The fixed replies are told apart by their lengths

  lemma StyleDescriptionLength(k: nat)
    requires k < |StyleGuide|
    ensures |StyleDescription(k)| == [118, 163, 166, 131, 151][k]
  {
    StyleDescriptionLengths();
  }

  lemma StyleDescriptionLengths()
    ensures |StyleDescription(0)| == 118 && |StyleDescription(1)| == 163 && |StyleDescription(2)| == 166
    ensures |StyleDescription(3)| == 131 && |StyleDescription(4)| == 151
  {
  }

  lemma {:induction false} TrendsReplyLength()
    ensures |TrendsReply| == 302
  {
    JoinLength(" | ", TrendTips);
    assert TotalLength(TrendTips[4..]) == 71;
    assert TotalLength(TrendTips[3..]) == 118;
    assert TotalLength(TrendTips[2..]) == 171;
    assert TotalLength(TrendTips[1..]) == 209;
  }

  lemma {:induction false} ColorsReplyLength()
    ensures |ColorsReply| == 304
  {
    JoinLength(" ", ColorTips);
    assert TotalLength(ColorTips[3..]) == 79;
    assert TotalLength(ColorTips[2..]) == 163;
    assert TotalLength(ColorTips[1..]) == 231;
  }

  lemma {:induction false} AccessoriesReplyLength()
    ensures |AccessoriesReply| == 244
  {
    JoinLength(" ", AccessoryTips);
    assert TotalLength(AccessoryTips[4..]) == 57;
    assert TotalLength(AccessoryTips[3..]) == 107;
    assert TotalLength(AccessoryTips[2..]) == 154;
    assert TotalLength(AccessoryTips[1..]) == 199;
  }

  lemma {:induction false} OutfitsReplyLength()
    ensures |OutfitsReply| == 385
  {
    JoinLength(" | ", OutfitIdeas);
    assert TotalLength(OutfitIdeas[3..]) == 82;
    assert TotalLength(OutfitIdeas[2..]) == 160;
    assert TotalLength(OutfitIdeas[1..]) == 263;
  }

  /** The length of each branch's reply; no two branches share one. */
  function ReplyLength(b: FallbackBranch): nat {
    match b
    case TrendsBranch => 302
    case StyleBranch(k) => if k < 5 then [118, 163, 166, 131, 151][k] else 0
    case ColorsBranch => 304
    case AccessoriesBranch => 244
    case OutfitsBranch => 385
    case DefaultBranch => 93
  }

  lemma FallbackTextLength(b: FallbackBranch)
    requires b.StyleBranch? ==> b.style < |StyleGuide|
    ensures |FallbackText(b)| == ReplyLength(b)
  {
    match b
    case TrendsBranch => TrendsReplyLength();
    case StyleBranch(k) => StyleDescriptionLength(k);
    case ColorsBranch => ColorsReplyLength();
    case AccessoriesBranch => AccessoriesReplyLength();
    case OutfitsBranch => OutfitsReplyLength();
    case DefaultBranch =>
  }

  /** Different branches of `fallback_response` give different replies. */
  lemma FallbackTextInjective(b: FallbackBranch, c: FallbackBranch)
    requires b.StyleBranch? ==> b.style < |StyleGuide|
    requires c.StyleBranch? ==> c.style < |StyleGuide|
    ensures FallbackText(b) == FallbackText(c) ==> b == c
  {
    if b != c {
      ReplyLengthInjective(b, c);
      FallbackTextLength(b);
      FallbackTextLength(c);
      assert |FallbackText(b)| != |FallbackText(c)|;
    }
  }

  lemma ReplyLengthInjective(b: FallbackBranch, c: FallbackBranch)
    requires b.StyleBranch? ==> b.style < |StyleGuide|
    requires c.StyleBranch? ==> c.style < |StyleGuide|
    requires b != c
    ensures ReplyLength(b) != ReplyLength(c)
  {
    var lengths := [118, 163, 166, 131, 151];
    assert forall i, j :: 0 <= i < j < 5 ==> lengths[i] != lengths[j];
    assert forall i :: 0 <= i < 5 ==> 100 < lengths[i] < 200;
  }

  /** The reply to a message is a branch's text exactly when that branch answers it. */
  lemma ReplyNamesBranch(message: string, b: FallbackBranch)
    requires b.StyleBranch? ==> b.style < |StyleGuide|
    ensures FallbackResponse(message) == FallbackText(b) <==> ChooseFallback(Lower(message)) == b
  {
    FallbackTextInjective(ChooseFallback(Lower(message)), b);
  }

  // ---------------------------------------------------------------------
  // fallback_response, branch by branch (both directions)

  /**
   * Any message mentioning "trend" gets the trends reply, whatever else it
   * says, and only such messages take that branch.
   */
  lemma FallbackTrends(message: string)
    ensures ChooseFallback(Lower(message)) == TrendsBranch <==> Contains(Lower(message), "trend")
    ensures FallbackResponse(message) == TrendsReply <==> Contains(Lower(message), "trend")
  {
    ReplyNamesBranch(message, TrendsBranch);
    TrendWordsMeanTrend(Lower(message));
  }

  /**
   * Without "trend", the reply is the description of style `k` exactly when
   * style `k` is named and no style before it in the table order casual,
   * formal, business, bohemian, athleisure is.
   */
  lemma FallbackStyle(message: string, k: nat)
    requires k < |StyleGuide|
    ensures ChooseFallback(Lower(message)) == StyleBranch(k)
        <==> !Contains(Lower(message), "trend") && IsFirstStyle(Lower(message), k)
    ensures FallbackResponse(message) == StyleDescription(k)
        <==> !Contains(Lower(message), "trend") && IsFirstStyle(Lower(message), k)
  {
    var lm := Lower(message);
    ReplyNamesBranch(message, StyleBranch(k));
    TrendWordsMeanTrend(lm);
    if !Contains(lm, "trend") && IsFirstStyle(lm, k) {
      FirstStyleUnique(lm, FirstStyle(lm).value, k);
    }
  }

  /** At most one style is the first one named. */
  lemma FirstStyleUnique(lm: string, j: nat, k: nat)
    requires IsFirstStyle(lm, j) && IsFirstStyle(lm, k)
    ensures j == k
  {
  }

  /** Colors win over accessories and outfits, but lose to trends and styles. */
  lemma FallbackColors(message: string)
    ensures ChooseFallback(Lower(message)) == ColorsBranch
        <==> var lm := Lower(message);
             && !Contains(lm, "trend") && NoStyleNamed(lm)
             && (Contains(lm, "color") || Contains(lm, "colour"))
    ensures FallbackResponse(message) == ColorsReply <==> ChooseFallback(Lower(message)) == ColorsBranch
  {
    var lm := Lower(message);
    ReplyNamesBranch(message, ColorsBranch);
    TrendWordsMeanTrend(lm);
    ColorWordsMeanColor(lm);
  }

  lemma FallbackAccessories(message: string)
    ensures ChooseFallback(Lower(message)) == AccessoriesBranch
        <==> var lm := Lower(message);
             && !Contains(lm, "trend") && NoStyleNamed(lm)
             && !Contains(lm, "color") && !Contains(lm, "colour")
             && (Contains(lm, "accessory") || Contains(lm, "accessories"))
    ensures FallbackResponse(message) == AccessoriesReply <==> ChooseFallback(Lower(message)) == AccessoriesBranch
  {
    var lm := Lower(message);
    ReplyNamesBranch(message, AccessoriesBranch);
    TrendWordsMeanTrend(lm);
    ColorWordsMeanColor(lm);
    AccessoryWordsSpelled(lm);
  }

  lemma FallbackOutfits(message: string)
    ensures ChooseFallback(Lower(message)) == OutfitsBranch
        <==> var lm := Lower(message);
             && !Contains(lm, "trend") && NoStyleNamed(lm)
             && !Contains(lm, "color") && !Contains(lm, "colour")
             && !Contains(lm, "accessory") && !Contains(lm, "accessories")
             && (Contains(lm, "outfit") || Contains(lm, "wear") || Contains(lm, "dress"))
    ensures FallbackResponse(message) == OutfitsReply <==> ChooseFallback(Lower(message)) == OutfitsBranch
  {
    var lm := Lower(message);
    ReplyNamesBranch(message, OutfitsBranch);
    TrendWordsMeanTrend(lm);
    ColorWordsMeanColor(lm);
    AccessoryWordsSpelled(lm);
    OutfitWordsSpelled(lm);
  }

  /** A message with no keyword of any branch gets the fixed default, and only such a message does. */
  lemma FallbackDefault(message: string)
    ensures ChooseFallback(Lower(message)) == DefaultBranch
        <==> var lm := Lower(message);
             && !Contains(lm, "trend") && NoStyleNamed(lm)
             && !Contains(lm, "color") && !Contains(lm, "colour")
             && !Contains(lm, "accessory") && !Contains(lm, "accessories")
             && !Contains(lm, "outfit") && !Contains(lm, "wear") && !Contains(lm, "dress")
    ensures FallbackResponse(message) == DefaultReply <==> ChooseFallback(Lower(message)) == DefaultBranch
  {
    var lm := Lower(message);
    ReplyNamesBranch(message, DefaultBranch);
    TrendWordsMeanTrend(lm);
    ColorWordsMeanColor(lm);
    AccessoryWordsSpelled(lm);
    OutfitWordsSpelled(lm);
  }

  /** The reply depends only on the lower-cased message. */
  lemma FallbackCaseInsensitive(message: string)
    ensures FallbackResponse(Lower(message)) == FallbackResponse(message)
  {
    LowerIdempotent(message);
  }

  // ---------------------------------------------------------------------
  // generate_response: classification

  /**
   * A message is a greeting exactly when its lower-cased form contains
   * "hello", "hi" or "hey"; such a message is never blank.
   */
  lemma ClassifyGreeting(message: string)
    ensures Classify(message) == Greeting <==> HasGreetingWord(Lower(message))
  {
    GreetingWordsSpelled(Lower(message));
    if HasGreetingWord(Lower(message)) {
      GreetingIsNotBlank(message);
    }
  }

  lemma GreetingIsNotBlank(message: string)
    requires HasGreetingWord(Lower(message))
    ensures !IsBlank(message)
  {
    var lm := Lower(message);
    RouterWordsAreWords();
    if Contains(lm, "hello") {
      WordMakesNonBlank(message, GreetingWords[0]);
    } else if Contains(lm, "hi") {
      WordMakesNonBlank(message, GreetingWords[1]);
    } else {
      WordMakesNonBlank(message, GreetingWords[2]);
    }
  }

  /** Any word that contains "hi" ("this", "shirt", "which") makes a message a greeting. */
  lemma {:induction false} HiInsideWordIsGreeting(message: string, word: string)
    requires Contains(Lower(message), word) && Contains(word, "hi")
    ensures Classify(message) == Greeting
  {
    ContainsTransitive(Lower(message), word, "hi");
    ClassifyGreeting(message);
  }

  /** "this", "shirt" and "which" all contain "hi", so they make a message a greeting. */
  lemma CommonWordsGreet(message: string)
    requires var lm := Lower(message); Contains(lm, "this") || Contains(lm, "shirt") || Contains(lm, "which")
    ensures Classify(message) == Greeting
  {
    WordsWithHi();
    var lm := Lower(message);
    if Contains(lm, "this") {
      HiInsideWordIsGreeting(message, "this");
    } else if Contains(lm, "shirt") {
      HiInsideWordIsGreeting(message, "shirt");
    } else {
      HiInsideWordIsGreeting(message, "which");
    }
  }

  lemma WordsWithHi()
    ensures Contains("this", "hi") && Contains("shirt", "hi") && Contains("which", "hi")
  {
    assert "this"[1..3] == "hi" && "shirt"[1..3] == "hi" && "which"[1..3] == "hi";
    ContainsAt("this", "hi", 1);
    ContainsAt("shirt", "hi", 1);
    ContainsAt("which", "hi", 1);
  }

  /**
   * A message is searched exactly when it is neither blank nor contains a
   * greeting word, and then with the category its keywords select.
   */
  lemma ClassifySearch(message: string)
    ensures Classify(message).Search? <==> !IsBlank(message) && !HasGreetingWord(Lower(message))
    ensures Classify(message).Search? ==> Classify(message).category == SelectCategory(Lower(message))
  {
    ClassifyGreeting(message);
  }

  lemma SelectTrends(lm: string)
    ensures SelectCategory(lm) == Some(Trends) <==> Contains(lm, "trend")
  {
    TrendWordsMeanTrend(lm);
  }

  lemma SelectColors(lm: string)
    ensures SelectCategory(lm) == Some(Colors)
        <==> !Contains(lm, "trend") && (Contains(lm, "color") || Contains(lm, "colour"))
  {
    TrendWordsMeanTrend(lm);
    ColorWordsMeanColor(lm);
  }

  lemma SelectAccessories(lm: string)
    ensures SelectCategory(lm) == Some(Accessories)
        <==> && !Contains(lm, "trend") && !Contains(lm, "color") && !Contains(lm, "colour")
             && (Contains(lm, "accessory") || Contains(lm, "accessories"))
  {
    TrendWordsMeanTrend(lm);
    ColorWordsMeanColor(lm);
    AccessoryWordsSpelled(lm);
  }

  lemma SelectOutfits(lm: string)
    ensures SelectCategory(lm) == Some(Outfits)
        <==> && !Contains(lm, "trend") && !Contains(lm, "color") && !Contains(lm, "colour")
             && !Contains(lm, "accessory") && !Contains(lm, "accessories")
             && (Contains(lm, "outfit") || Contains(lm, "wear") || Contains(lm, "dress"))
  {
    TrendWordsMeanTrend(lm);
    ColorWordsMeanColor(lm);
    AccessoryWordsSpelled(lm);
    OutfitWordsSpelled(lm);
  }

  lemma SelectNone(lm: string)
    ensures SelectCategory(lm) == None
        <==> && !Contains(lm, "trend") && !Contains(lm, "color") && !Contains(lm, "colour")
             && !Contains(lm, "accessory") && !Contains(lm, "accessories")
             && !Contains(lm, "outfit") && !Contains(lm, "wear") && !Contains(lm, "dress")
  {
    TrendWordsMeanTrend(lm);
    ColorWordsMeanColor(lm);
    AccessoryWordsSpelled(lm);
    OutfitWordsSpelled(lm);
  }

  /** Two strings contain the same words of `words`. */
  predicate AgreeOn(x: string, y: string, words: seq<string>) {
    forall k :: 0 <= k < |words| ==> (Contains(x, words[k]) <==> Contains(y, words[k]))
  }

  predicate NonEmptyWords(words: seq<string>) {
    forall k :: 0 <= k < |words| ==> words[k] != [] && IsWord(words[k])
  }

  /** Lower-casing the stripped message keeps exactly the keywords of the whole one. */
  lemma CoreAgrees(message: string, a: nat, b: nat, words: seq<string>)
    requires StrippedAt(message, a, b)
    requires NonEmptyWords(words)
    ensures AgreeOn(Lower(message[a..b]), Lower(message), words)
  {
    var lm := Lower(message);
    LowerOfSlice(message, a, b);
    assert forall i :: 0 <= i < a ==> IsSpace(lm[i]);
    assert forall i :: b <= i < |lm| ==> IsSpace(lm[i]);
    forall k | 0 <= k < |words|
      ensures Contains(lm[a..b], words[k]) <==> Contains(lm, words[k])
    {
      ContainsWordInCore(lm, a, b, words[k]);
    }
  }

  lemma RouterWordsAreWords()
    ensures NonEmptyWords(GreetingWords) && NonEmptyWords(TrendWords) && NonEmptyWords(ColorWords)
    ensures NonEmptyWords(AccessoryWords) && NonEmptyWords(OutfitWords)
  {
  }

  lemma AgreeingMessagesRouteAlike(x: string, y: string)
    requires AgreeOn(x, y, GreetingWords) && AgreeOn(x, y, TrendWords) && AgreeOn(x, y, ColorWords)
    requires AgreeOn(x, y, AccessoryWords) && AgreeOn(x, y, OutfitWords)
    ensures ContainsAny(x, GreetingWords) == ContainsAny(y, GreetingWords)
    ensures SelectCategory(x) == SelectCategory(y)
  {
    assert ContainsAny(x, TrendWords) == ContainsAny(y, TrendWords);
    assert ContainsAny(x, ColorWords) == ContainsAny(y, ColorWords);
    assert ContainsAny(x, AccessoryWords) == ContainsAny(y, AccessoryWords);
    assert ContainsAny(x, OutfitWords) == ContainsAny(y, OutfitWords);
  }

  /**
   * The `/chat` endpoint strips the message before calling
   * `generate_response`; that does not change how the message is classified.
   */
  lemma ClassifyIgnoresSurroundingSpace(message: string)
    ensures Classify(Strip(message)) == Classify(message)
  {
    StripIsCore(message);
    var a, b :| StrippedAt(message, a, b) && Strip(message) == message[a..b];
    var core := message[a..b];
    if !IsBlank(message) {
      assert !IsBlank(core) by {
        assert !IsSpace(core[0]);
      }
      RouterWordsAreWords();
      CoreAgrees(message, a, b, GreetingWords);
      CoreAgrees(message, a, b, TrendWords);
      CoreAgrees(message, a, b, ColorWords);
      CoreAgrees(message, a, b, AccessoryWords);
      CoreAgrees(message, a, b, OutfitWords);
      AgreeingMessagesRouteAlike(Lower(core), Lower(message));
    }
  }

  // ---------------------------------------------------------------------
  // generate_response: the reply

  /** A blank message is answered before anything else, whatever the search would say. */
  lemma GenerateBlank(message: string, search: SearchResult, pick: FallbackIndex)
    requires IsBlank(message)
    ensures GenerateResponse(message, search, pick) == EmptyReply
  {
  }

  /** A greeting is answered before any category is chosen or any search is used. */
  lemma GenerateGreeting(message: string, search: SearchResult, pick: FallbackIndex)
    requires HasGreetingWord(Lower(message))
    ensures GenerateResponse(message, search, pick) == GreetingReply
  {
    ClassifyGreeting(message);
  }

  /**
   * A trends question whose best hit is only moderately similar gets the
   * space-joined trends summary rather than the hit.
   */
  lemma GenerateModerateTrends(message: string, search: SearchResult, pick: FallbackIndex)
    requires !IsBlank(message) && !HasGreetingWord(Lower(message))
    requires Contains(Lower(message), "trend")
    requires Accepted(search) && search.confidence == Moderate
    ensures GenerateResponse(message, search, pick) == TrendsSummary
  {
    ClassifySearch(message);
    SelectTrends(Lower(message));
  }

  /**
   * A strong hit, or a moderate one for a message without "trend", is
   * returned as it is.
   */
  lemma GenerateAcceptedHit(message: string, search: SearchResult, pick: FallbackIndex)
    requires !IsBlank(message) && !HasGreetingWord(Lower(message))
    requires Accepted(search)
    requires search.confidence == Strong || !Contains(Lower(message), "trend")
    ensures GenerateResponse(message, search, pick) == search.best.value
  {
    ClassifySearch(message);
    SelectTrends(Lower(message));
  }

  /**
   * With no category word and no accepted hit, the first style named in the
   * message (in table order) answers.
   */
  lemma GenerateStyle(message: string, search: SearchResult, pick: FallbackIndex, k: nat)
    requires !IsBlank(message) && !HasGreetingWord(Lower(message))
    requires !HasCategoryWord(Lower(message)) && !Accepted(search)
    requires IsFirstStyle(Lower(message), k)
    ensures GenerateResponse(message, search, pick) == StyleDescription(k)
  {
    ClassifySearch(message);
    SelectNone(Lower(message));
    FirstStyleUnique(Lower(message), FirstStyle(Lower(message)).value, k);
  }

  /**
   * With no category word, no style named and no accepted hit, the style
   * scan finds nothing and the canned reply chosen by the embeddings answers.
   */
  lemma GenerateNoStyleFallsBack(message: string, search: SearchResult, pick: FallbackIndex)
    requires !IsBlank(message) && !HasGreetingWord(Lower(message))
    requires !HasCategoryWord(Lower(message)) && NoStyleNamed(Lower(message))
    requires !Accepted(search)
    ensures GenerateResponse(message, search, pick) == Fallbacks[pick]
  {
    ClassifySearch(message);
    SelectNone(Lower(message));
  }

  /** Every canned reply is shorter than every style description. */
  lemma CannedRepliesAreShort()
    ensures forall i :: 0 <= i < |Fallbacks| ==> |Fallbacks[i]| < 118
  {
  }

  /**
   * Style names are looked up only when no category word occurs: a message
   * with a category word and no accepted hit gets a canned reply, never a
   * style description, even when it names a style ("a casual dress").
   */
  lemma GenerateCategoryFallsBack(message: string, search: SearchResult, pick: FallbackIndex)
    requires !IsBlank(message) && !HasGreetingWord(Lower(message))
    requires HasCategoryWord(Lower(message)) && !Accepted(search)
    ensures GenerateResponse(message, search, pick) == Fallbacks[pick]
    ensures forall k :: 0 <= k < |StyleGuide| ==> GenerateResponse(message, search, pick) != StyleDescription(k)
  {
    ClassifySearch(message);
    SelectNone(Lower(message));
    CannedRepliesAreShort();
    StyleDescriptionLengths();
  }

  // ---------------------------------------------------------------------
  // Worked examples

  /**
   * A message naming "casual" (and not "trend") gets the casual description,
   * whatever other style it names and wherever in the message: table order
   * decides, not message order, so "business casual" is casual.
   */
  lemma CasualBeatsOtherStyles(message: string)
    requires !Contains(Lower(message), "trend") && Contains(Lower(message), "casual")
    ensures FallbackResponse(message) == StyleDescription(0)
  {
    assert IsFirstStyle(Lower(message), 0);
    FallbackStyle(message, 0);
  }
}
