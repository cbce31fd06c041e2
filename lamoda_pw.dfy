/** lamoda_scraper_pw.py (Playwright): the same catalogue cards and size
    elements as the Selenium scraper, read with different defaults. */
module LamodaPw {
  import opened Maybe
  import opened Text
  import opened Deals
  import opened SizePatterns
  import Lamoda

  const Host := "https://www.lamoda.ru"

  /** `el.inner_text().strip() if el else default`. */
  function TextOr(e: Option<Element>, default: string): string {
    if e.Some? then Strip(e.value.text) else default
  }

  /** The product link: the site's host followed by the href, "" when the
      card has no link element. */
  function CardLink(card: Lamoda.Card): string {
    if card.pic.Some? then Host + Show(card.pic.value.Attribute("href")) else ""
  }

  /** The image url: "" without an image element or a non-empty src;
      otherwise the src with its resolution rewritten, made absolute with
      "https:" when it starts with "//". */
  function CardImage(card: Lamoda.Card): string {
    if card.image.Some? && Truthy(card.image.value.Attribute("src")) then
      var src := card.image.value.Attribute("src").value;
      var url := ResizeImage(src);
      if StartsWith(src, "//") then "https:" + url else url
    else ""
  }

  /** `_parse_catalog_item(card_handle)`: a missing brand reads as "", which
      the whitelist rejects; a missing name, price or old price reads as
      "", "" and "N/A"; the card is dropped when the title or the link is
      empty. */
  function ParseCatalogItem(card: Lamoda.Card): Option<Deal> {
    var brand := TextOr(card.brand, "");
    if !Lamoda.Wanted(brand) then None
    else
      var model := TextOr(card.name, "");
      var title := Strip(brand + " " + model);
      var link := CardLink(card);
      var price := TextOr(if card.priceNew.Some? then card.priceNew else card.priceSingle, "");
      var oldPrice := TextOr(card.priceOld, "N/A");
      var image := CardImage(card);
      if title == "" || link == "" then None
      else Some(Deal(title, price, Some(oldPrice), "", link, Some(image), [], "Lamoda"))
  }

  /** A card without a brand element fails the whitelist. */
  lemma NoBrandUnwanted()
    ensures !Lamoda.Wanted("")
  {
    assert Lower("") == "";
    assert "" !in Lamoda.TargetBrands;
  }

  /** A card is dropped exactly when its brand fails the whitelist or it has
      no link element: a whitelisted brand makes the title non-empty and the
      host makes the link non-empty. */
  lemma ParseCatalogItemNone(card: Lamoda.Card)
    ensures ParseCatalogItem(card).None? <==> !Lamoda.Wanted(TextOr(card.brand, "")) || card.pic.None?
  {
    if card.brand.Some? && Lamoda.Wanted(TextOr(card.brand, "")) {
      Lamoda.TitleNotEmpty(card.brand.value.text, TextOr(card.name, ""));
    }
    NoBrandUnwanted();
  }

  /** A kept card has a brand and a link element, and its fields are read
      as described above. */
  lemma ParseCatalogItemKept(card: Lamoda.Card)
    requires ParseCatalogItem(card).Some?
    ensures card.brand.Some? && card.pic.Some?
    ensures ParseCatalogItem(card).value
      == Deal(Strip(Strip(card.brand.value.text) + " " + TextOr(card.name, "")),
              TextOr(if card.priceNew.Some? then card.priceNew else card.priceSingle, ""),
              Some(TextOr(card.priceOld, "N/A")), "", CardLink(card), Some(CardImage(card)), [], "Lamoda")
  {
    NoBrandUnwanted();
  }

  /** What a kept card carries. */
  lemma ParseCatalogItemSome(card: Lamoda.Card)
    requires ParseCatalogItem(card).Some?
    ensures var d := ParseCatalogItem(card).value;
      && card.brand.Some? && Lamoda.Wanted(Strip(card.brand.value.text))
      && d.title == Strip(Strip(card.brand.value.text) + " " + TextOr(card.name, ""))
      && card.pic.Some? && d.link == Host + Show(card.pic.value.Attribute("href"))
      && (card.priceNew.Some? ==> d.price == Strip(card.priceNew.value.text))
      && (card.priceNew.None? && card.priceSingle.Some? ==> d.price == Strip(card.priceSingle.value.text))
      && (card.priceNew.None? && card.priceSingle.None? ==> d.price == "")
      && (card.priceOld.Some? ==> d.oldPrice == Some(Strip(card.priceOld.value.text)))
      && (card.priceOld.None? ==> d.oldPrice == Some("N/A"))
      && d.discount == "" && d.imageUrl == Some(CardImage(card))
      && d.sizes == [] && d.source == "Lamoda"
  {
    ParseCatalogItemKept(card);
  }

  /** A protocol-relative src ("//host/...") becomes an https url whose
      path is the rewritten rest; any other src is only rewritten. */
  lemma CardImageAbsolute(card: Lamoda.Card)
    requires card.image.Some? && Truthy(card.image.value.Attribute("src"))
    ensures var src := card.image.value.Attribute("src").value;
      && (StartsWith(src, "//") ==> CardImage(card) == "https://" + ResizeImage(src[2..]))
      && (!StartsWith(src, "//") ==> CardImage(card) == ResizeImage(src))
  {
    var src := card.image.value.Attribute("src").value;
    if StartsWith(src, "//") {
      assert src == "//" + src[2..];
      ResizeImageKeeps("//", src[2..]);
      assert "https:" + ("//" + ResizeImage(src[2..])) == "https://" + ResizeImage(src[2..]);
    }
  }

  /** The label of an enabled size element: the pattern label of its
      stripped text, else that text with newlines turned into spaces, even
      when it is empty. */
  function Label(e: Element): string {
    var text := Strip(e.text);
    match Lamoda.PatternLabel(text)
    case Some(l) => l
    case None => ReplaceAll(text, "\n", " ")
  }

  /** `get_attribute("class") or ""`: a missing attribute reads as "". */
  function ClassOf(e: Element): string {
    e.Attribute("class").GetOr("")
  }

  /** What one element adds: nothing when it is disabled, else its label. */
  function Added(e: Element): seq<string> {
    if Lamoda.Disabled(ClassOf(e)) then [] else [Label(e)]
  }

  /** The labels of the enabled elements, in element order. The fold is
      the one of `Lamoda.Labels`; only `Added` differs: this scraper keeps
      an element without a pattern label under its text and never raises
      on a missing class. */
  function Labels(elems: seq<Element>): (r: seq<string>)
    ensures |r| <= |elems|
  {
    if elems == [] then [] else Labels(elems[..|elems| - 1]) + Added(elems[|elems| - 1])
  }

  /** One label per element, in element order. */
  function EachLabel(elems: seq<Element>): (r: seq<string>)
    ensures |r| == |elems|
  {
    if elems == [] then [] else EachLabel(elems[..|elems| - 1]) + [Label(elems[|elems| - 1])]
  }

  /** With no element disabled every element gives its label: unlike the
      Selenium scraper, an element without a pattern label or text is not
      skipped. */
  lemma {:induction false} LabelsAllEnabled(elems: seq<Element>)
    requires forall j :: 0 <= j < |elems| ==> !Lamoda.Disabled(ClassOf(elems[j]))
    ensures Labels(elems) == EachLabel(elems)
  {
    if elems != [] {
      var front := elems[..|elems| - 1];
      forall j | 0 <= j < |front| ensures !Lamoda.Disabled(ClassOf(front[j])) {
        assert front[j] == elems[j];
      }
      LabelsAllEnabled(front);
    }
  }

  /** Disabled elements add nothing, whatever their text. */
  lemma {:induction false} LabelsAllDisabled(elems: seq<Element>)
    requires forall j :: 0 <= j < |elems| ==> Lamoda.Disabled(ClassOf(elems[j]))
    ensures Labels(elems) == []
  {
    if elems != [] {
      var front := elems[..|elems| - 1];
      forall j | 0 <= j < |front| ensures Lamoda.Disabled(ClassOf(front[j])) {
        assert front[j] == elems[j];
      }
      LabelsAllDisabled(front);
    }
  }

  /** The fallback label holds no line break. */
  lemma FallbackLabel(e: Element)
    requires Lamoda.PatternLabel(Strip(e.text)).None?
    ensures Label(e) == ReplaceAll(Strip(e.text), "\n", " ") && '\n' !in Label(e)
  {
    ReplaceAllDrops(Strip(e.text), '\n', " ");
  }

  lemma LabelsStep(elems: seq<Element>, i: nat)
    requires i < |elems|
    ensures Labels(elems[..i + 1]) == Labels(elems[..i]) + Added(elems[i])
  {
    assert elems[..i + 1][..i] == elems[..i];
  }

  /** The body of the loop for one element. */
  method AddLabel(sizes: seq<string>, e: Element) returns (r: seq<string>)
    ensures r == sizes + Added(e)
  {
    var cls := e.Attribute("class").GetOr("");
    if Lamoda.Disabled(cls) {
      return sizes;
    }
    var text := Strip(e.text);
    var eur := EurSize(text);
    if eur.Some? {
      r := sizes + ["EU " + eur.value];
    } else {
      var rus := RusSize(text);
      if rus.Some? {
        r := sizes + [rus.value + " RUS"];
      } else {
        r := sizes + [ReplaceAll(text, "\n", " ")];
      }
    }
  }

  /** The loop of `_extract_sizes(page)`. */
  method ExtractSizes(elems: seq<Element>) returns (sizes: seq<string>)
    ensures sizes == Labels(elems)
  {
    sizes := [];
    var i := 0;
    while i < |elems|
      invariant 0 <= i <= |elems|
      invariant sizes == Labels(elems[..i])
    {
      LabelsStep(elems, i);
      sizes := AddLabel(sizes, elems[i]);
      i := i + 1;
    }
    assert elems[..i] == elems;
  }
}
