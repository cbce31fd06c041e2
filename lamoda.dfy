/** lamoda_scraper.py (Selenium): the brand whitelist, a catalogue card
    turned into a deal, and the size labels read from a product page. */
module Lamoda {
  import opened Maybe
  import opened Text
  import opened Deals
  import opened SizePatterns

  /** TARGET_BRANDS: the brands kept, in lower case. */
  const TargetBrands: set<string> := {
    "reebok", "nike", "puma", "diadora", "new balance", "converse",
    "adidas", "adidas originals", "adidas y-3", "adidas yeezy", "asics",
    "dc shoes", "element", "jordan", "karhu", "lacoste", "saucony", "vans"
  }

  /** What the card's CSS selectors find, None where a selector finds no
      element. */
  datatype Card = Card(
    brand: Option<Element>,
    name: Option<Element>,
    pic: Option<Element>,
    priceNew: Option<Element>,
    priceSingle: Option<Element>,
    priceOld: Option<Element>,
    badge: Option<Element>,
    image: Option<Element>)

  /** The brand passes the whitelist. */
  predicate Wanted(brand: string) {
    Lower(brand) in TargetBrands
  }

  /** `f"{brand} {model}".strip()` for a stripped brand that passed the
      whitelist: never empty. */
  lemma TitleNotEmpty(rawBrand: string, model: string)
    requires Wanted(Strip(rawBrand))
    ensures Strip(Strip(rawBrand) + " " + model) != ""
  {
    var brand := Strip(rawBrand);
    assert "" !in TargetBrands;
    assert brand != [];
    assert (brand + " " + model)[0] == brand[0];
    StripKeeps(brand + " " + model, 0);
  }

  /** Selenium's price lookup: price-new, else price-single, each stripped;
      None when neither exists (the card is then dropped). */
  function CardPrice(card: Card): Option<string> {
    if card.priceNew.Some? then Some(Strip(card.priceNew.value.text))
    else if card.priceSingle.Some? then Some(Strip(card.priceSingle.value.text))
    else None
  }

  /** The image: the rewritten src, None when there is no image element or
      its src is missing or empty. */
  function CardImage(card: Card): Option<string> {
    if card.image.Some? && Truthy(card.image.value.Attribute("src")) then
      Some(ResizeImage(card.image.value.Attribute("src").value))
    else None
  }

  /** `_parse_catalog_item(card)`: a missing brand, name or link element,
      a brand outside the whitelist, a missing price, an empty title or a
      missing or empty href give None. Sizes are filled in later. */
  function ParseCatalogItem(card: Card): Option<Deal> {
    if card.name.None? || card.brand.None? then None
    else
      var brand := Strip(card.brand.value.text);
      if !Wanted(brand) then None
      else
        var model := Strip(card.name.value.text);
        var title := Strip(brand + " " + model);
        if card.pic.None? then None
        else
          var link := card.pic.value.Attribute("href");
          var price := CardPrice(card);
          if price.None? then None
          else
            var oldPrice := if card.priceOld.Some? then Strip(card.priceOld.value.text) else "N/A";
            var discount := if card.badge.Some? then Strip(card.badge.value.text) else "";
            if title == "" || !Truthy(link) then None
            else Some(Deal(title, price.value, Some(oldPrice), discount, link.value, CardImage(card), [], "Lamoda"))
  }

  /** When a card is dropped: the empty-title guard never fires, because a
      whitelisted brand is not empty. */
  lemma ParseCatalogItemNone(card: Card)
    ensures ParseCatalogItem(card).None? <==>
      || card.name.None? || card.brand.None?
      || !Wanted(Strip(card.brand.value.text))
      || card.pic.None? || CardPrice(card).None?
      || !Truthy(card.pic.value.Attribute("href"))
  {
    if card.name.Some? && card.brand.Some? && Wanted(Strip(card.brand.value.text)) {
      TitleNotEmpty(card.brand.value.text, Strip(card.name.value.text));
    }
  }

  /** What a kept card carries. */
  lemma ParseCatalogItemSome(card: Card)
    requires ParseCatalogItem(card).Some?
    ensures var d := ParseCatalogItem(card).value;
      && d.title == Strip(Strip(card.brand.value.text) + " " + Strip(card.name.value.text))
      && Wanted(Strip(card.brand.value.text))
      && Some(d.link) == card.pic.value.Attribute("href") && d.link != ""
      && (card.priceNew.Some? ==> d.price == Strip(card.priceNew.value.text))
      && (card.priceNew.None? ==> d.price == Strip(card.priceSingle.value.text))
      && (card.priceOld.None? ==> d.oldPrice == Some("N/A"))
      && (card.priceOld.Some? ==> d.oldPrice == Some(Strip(card.priceOld.value.text)))
      && (card.badge.None? ==> d.discount == "")
      && (card.badge.Some? ==> d.discount == Strip(card.badge.value.text))
      && (d.imageUrl.None? <==> card.image.None? || !Truthy(card.image.value.Attribute("src")))
      && (card.image.Some? && Truthy(card.image.value.Attribute("src")) ==>
            d.imageUrl == Some(ResizeImage(card.image.value.Attribute("src").value)))
      && d.sizes == [] && d.source == "Lamoda"
  {
    ParseCatalogItemNone(card);
  }

  /** `"disabled" in class_attr.lower() or "colspanDisabled" in class_attr`. */
  predicate Disabled(cls: string) {
    Contains(Lower(cls), "disabled") || Contains(cls, "colspanDisabled")
  }

  /** The second test adds nothing: "colspanDisabled" lowers to a string
      that holds "disabled". */
  lemma DisabledLower(cls: string)
    ensures Disabled(cls) <==> Contains(Lower(cls), "disabled")
  {
    if Contains(cls, "colspanDisabled") {
      var i := ContainsWitness(cls, "colspanDisabled");
      var l := Lower(cls);
      forall x | 0 <= x < 8 ensures l[i + 7..i + 15][x] == "disabled"[x] {
        assert cls[i + 7 + x] == "colspanDisabled"[7 + x];
      }
      ContainsAt(l, "disabled", i + 7);
    }
  }

  /** The label read from a size text by the two patterns: "EU <n>" when a
      number stands before "EUR", else "<n> RUS" when one stands before
      "RUS" in any case, else None. */
  function PatternLabel(text: string): Option<string> {
    match EurSize(text)
    case Some(g) => Some("EU " + g)
    case None =>
      match RusSize(text)
      case Some(g) => Some(g + " RUS")
      case None => None
  }

  /** EUR wins: with a EUR match, the label is the group of the leftmost one. */
  lemma PatternLabelEur(text: string, i: nat, k: nat, m: nat)
    requires Matches(text, "EUR", false, i, k, m)
    requires forall i': nat, k': nat, m': nat :: Matches(text, "EUR", false, i', k', m') ==> i <= i'
    ensures PatternLabel(text) == Some("EU " + text[i..k])
  {
    SearchNone(text, "EUR", false);
    var a, b, c := SearchSome(text, "EUR", false);
  }

  /** Without any EUR match, the leftmost RUS match gives the label. */
  lemma PatternLabelRus(text: string, i: nat, k: nat, m: nat)
    requires forall i': nat, k': nat, m': nat :: !Matches(text, "EUR", false, i', k', m')
    requires Matches(text, "RUS", true, i, k, m)
    requires forall i': nat, k': nat, m': nat :: Matches(text, "RUS", true, i', k', m') ==> i <= i'
    ensures PatternLabel(text) == Some(text[i..k] + " RUS")
  {
    SearchNone(text, "EUR", false);
    SearchNone(text, "RUS", true);
    var a, b, c := SearchSome(text, "RUS", true);
  }

  /** Neither pattern matches exactly when there is no label. */
  lemma PatternLabelNone(text: string)
    ensures PatternLabel(text).None? <==>
      (forall i: nat, k: nat, m: nat :: !Matches(text, "EUR", false, i, k, m))
      && (forall i: nat, k: nat, m: nat :: !Matches(text, "RUS", true, i, k, m))
  {
    SearchNone(text, "EUR", false);
    SearchNone(text, "RUS", true);
  }

  /** The label an enabled size element adds, if any: the pattern label of
      its stripped textContent, else that text with newlines turned into
      spaces when it is not empty. */
  function ElementLabel(e: Element): Option<string> {
    var text := Strip(e.textContent);
    match PatternLabel(text)
    case Some(l) => Some(l)
    case None => if text != "" then Some(Strip(ReplaceAll(text, "\n", " "))) else None
  }

  /** What one element adds: its label when it is enabled and has one. */
  function Added(e: Element): seq<string> {
    if !Disabled(e.Attribute("class").GetOr("")) && ElementLabel(e).Some? then [ElementLabel(e).value] else []
  }

  /** The labels of the enabled elements, in element order. */
  function Labels(elems: seq<Element>): (r: seq<string>)
    ensures |r| <= |elems|
  {
    if elems == [] then [] else Labels(elems[..|elems| - 1]) + Added(elems[|elems| - 1])
  }

  /** Every element has a class attribute. */
  predicate Classed(elems: seq<Element>) {
    elems == [] || (Classed(elems[..|elems| - 1]) && elems[|elems| - 1].Attribute("class").Some?)
  }

  /** `Classed` is the property of each element. */
  lemma {:induction false} ClassedIff(elems: seq<Element>)
    ensures Classed(elems) <==> forall j :: 0 <= j < |elems| ==> elems[j].Attribute("class").Some?
  {
    if elems != [] {
      var front := elems[..|elems| - 1];
      ClassedIff(front);
      assert forall j :: 0 <= j < |front| ==> front[j] == elems[j];
    }
  }

  /** `_extract_sizes()` on the elements found: the labels, or [] when an
      element has no class attribute (`.lower()` on None raises and the
      whole extraction falls back to []). */
  function SizesOf(elems: seq<Element>): seq<string> {
    if Classed(elems) then Labels(elems) else []
  }

  /** One element without a class attribute empties the result. */
  lemma SizesOfMissing(elems: seq<Element>, i: nat)
    requires i < |elems| && elems[i].Attribute("class").None?
    ensures SizesOf(elems) == []
  {
    ClassedIff(elems);
  }

  /** When every element has a class the result is all the labels. */
  lemma SizesOfAll(elems: seq<Element>)
    requires forall j :: 0 <= j < |elems| ==> elems[j].Attribute("class").Some?
    ensures SizesOf(elems) == Labels(elems)
  {
    ClassedIff(elems);
  }

  /** Labels work element by element. */
  lemma {:induction false} LabelsConcat(a: seq<Element>, b: seq<Element>)
    ensures Labels(a + b) == Labels(a) + Labels(b)
    decreases |b|
  {
    if b == [] {
      assert a + b == a;
    } else {
      assert (a + b)[..|a + b| - 1] == a + b[..|b| - 1];
      LabelsConcat(a, b[..|b| - 1]);
    }
  }

  lemma LabelsOne(e: Element)
    ensures Labels([e]) == Added(e)
  {
    assert [e][..0] == [];
  }

  /** Every label is the label of an enabled element. */
  lemma {:induction false} LabelsForms(elems: seq<Element>)
    ensures forall l :: l in Labels(elems) ==>
      (exists e :: e in elems && ElementLabel(e) == Some(l) && !Disabled(e.Attribute("class").GetOr("")))
  {
    if elems != [] {
      LabelsForms(elems[..|elems| - 1]);
      forall l | l in Labels(elems)
        ensures exists e :: e in elems && ElementLabel(e) == Some(l) && !Disabled(e.Attribute("class").GetOr(""))
      {
        if l in Labels(elems[..|elems| - 1]) {
          var e :| e in elems[..|elems| - 1] && ElementLabel(e) == Some(l) && !Disabled(e.Attribute("class").GetOr(""));
          assert e in elems;
        } else {
          assert elems[|elems| - 1] in elems;
        }
      }
    }
  }

  /** One more element adds its label, if it is enabled and has one. */
  lemma LabelsStep(elems: seq<Element>, i: nat)
    requires i < |elems|
    ensures Labels(elems[..i + 1]) == Labels(elems[..i]) + Added(elems[i])
  {
    assert elems[..i + 1] == elems[..i] + [elems[i]];
    LabelsConcat(elems[..i], [elems[i]]);
    LabelsOne(elems[i]);
  }

  /** The loop invariant carried over one element. */
  lemma ExtendLabels(elems: seq<Element>, i: nat, sizes: seq<string>, r: seq<string>)
    requires i < |elems| && sizes == Labels(elems[..i]) && r == sizes + Added(elems[i])
    requires Classed(elems[..i]) && elems[i].Attribute("class").Some?
    ensures r == Labels(elems[..i + 1]) && Classed(elems[..i + 1])
  {
    LabelsStep(elems, i);
    assert elems[..i + 1][..i] == elems[..i];
  }

  /** The body of the loop for an element whose class is `cls`. */
  method AddLabel(sizes: seq<string>, e: Element, cls: string) returns (r: seq<string>)
    requires e.Attribute("class") == Some(cls)
    ensures r == sizes + Added(e)
  {
    r := sizes;
    if Disabled(cls) {
      return;
    }
    var text := Strip(e.textContent);
    var eur := EurSize(text);
    if eur.Some? {
      r := r + ["EU " + eur.value];
    } else {
      var rus := RusSize(text);
      if rus.Some? {
        r := r + [rus.value + " RUS"];
      } else if text != "" {
        r := r + [Strip(ReplaceAll(text, "\n", " "))];
      }
    }
  }

  /** The loop of `_extract_sizes`. */
  method ExtractSizes(elems: seq<Element>) returns (sizes: seq<string>)
    ensures sizes == SizesOf(elems)
  {
    sizes := [];
    var i := 0;
    while i < |elems|
      invariant 0 <= i <= |elems|
      invariant Classed(elems[..i])
      invariant sizes == Labels(elems[..i])
    {
      var cls := elems[i].Attribute("class");
      if cls.None? {
        SizesOfMissing(elems, i);
        return [];
      }
      var r := AddLabel(sizes, elems[i], cls.value);
      ExtendLabels(elems, i, sizes, r);
      sizes := r;
      i := i + 1;
    }
    assert elems[..i] == elems;
    assert Classed(elems);
  }
}
