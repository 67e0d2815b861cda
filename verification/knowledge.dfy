/**
 * The chatbot's fixed fashion knowledge base (`ENHANCED_FASHION_KNOWLEDGE`):
 * five sections, four of them lists of tips and one (styles) an ordered
 * table from style name to description. Python dictionaries keep insertion
 * order, so the styles are a sequence of pairs in that order.
 */
module FashionKnowledge {

  /** The keys of the knowledge base, in declaration order. */
  datatype Section = Trends | Styles | Colors | Accessories | Outfits

  const TrendTips: seq<string> := [
    "Oversized blazers are in style this season.",
    "Pastel colors are trending for spring.",
    "Sustainable fashion is becoming increasingly popular.",
    "Vintage and retro styles are making a comeback.",
    "Minimalist and capsule wardrobes are trending for their sustainability."
  ]

  /** Style name and its description, in the order the source declares them. */
  const StyleGuide: seq<(string, string)> := [
    ("casual", "Casual style is all about comfort and simplicity. Think jeans, t-shirts, and sneakers. It's perfect for everyday wear."),
    ("formal", "Formal wear typically includes suits, dress shirts, formal shoes, and accessories like ties and cufflinks. For women, this could mean elegant dresses or pantsuits."),
    ("business", "Business attire is professional and polished. For men, this means dress shirts, slacks, and blazers. For women, it could be blouses, pencil skirts, or tailored pants."),
    ("bohemian", "Bohemian style features flowy fabrics, earthy tones, and eclectic patterns. Think maxi dresses, fringed vests, and layered jewelry."),
    ("athleisure", "Athleisure combines athletic wear with casual clothing. It includes items like yoga pants, hoodies, and sneakers that are both comfortable and stylish.")
  ]

  const ColorTips: seq<string> := [
    "Neutral colors like beige, white, and gray are versatile and timeless.",
    "Bold colors can make a statement and add personality to your outfit.",
    "Earthy tones like olive green, terracotta, and mustard are great for a natural look.",
    "Jewel tones such as emerald, sapphire, and amethyst add richness to any outfit."
  ]

  const AccessoryTips: seq<string> := [
    "Statement jewelry can elevate any outfit.",
    "A good quality watch is a timeless accessory.",
    "Scarves can add color and texture to your look.",
    "A classic leather belt can tie an outfit together.",
    "Sunglasses are both stylish and practical for sunny days."
  ]

  const OutfitIdeas: seq<string> := [
    "For a casual day out, try pairing light wash jeans with a white t-shirt and sneakers.",
    "A little black dress is perfect for any formal occasion and can be dressed up or down with accessories.",
    "For a business casual look, pair tailored trousers with a blouse and a blazer.",
    "Layering is key for transitional weather - try a denim jacket over a summer dress."
  ]

  function StyleName(k: nat): string
    requires k < |StyleGuide|
  {
    StyleGuide[k].0
  }

  function StyleDescription(k: nat): string
    requires k < |StyleGuide|
  {
    StyleGuide[k].1
  }
}
