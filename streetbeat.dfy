/** streetbeat_scraper.py: a catalogue card turned into a deal. */
module StreetBeat {
  import opened Maybe
  import opened Text
  import opened Deals

  /** What the card's CSS selectors find: None where `find_element` finds
      nothing (and raises), the possibly empty list of size labels. */
  datatype Card = Card(
    info: Option<Element>,
    priceNew: Option<Element>,
    priceOld: Option<Element>,
    badge: Option<Element>,
    sizeLabels: seq<Element>,
    image: Option<Element>)

  /** A price text: stripped, every "rub." then every "руб." removed,
      stripped again. */
  function CleanPrice(t: string): (r: string)
    ensures r == [] || (!IsSpace(r[0]) && !IsSpace(r[|r| - 1]))
  {
    Strip(ReplaceAll(ReplaceAll(Strip(t), "rub.", ""), "руб.", ""))
  }

  /** A price without either currency marker is only stripped. */
  lemma CleanPricePlain(t: string)
    requires !Contains(Strip(t), "rub.") && !Contains(Strip(t), "руб.")
    ensures CleanPrice(t) == Strip(t)
  {
    StripStripped(Strip(t));
  }

  /** Both currency markers go: a price followed by a space and either
      marker cleans to the stripped price, provided the price itself holds
      neither marker. */
  lemma CleanPriceMarker(p: string, m: string)
    requires m == " руб." || m == " rub."
    requires !Contains(p, "rub.") && !Contains(p, "руб.")
    ensures CleanPrice(p + m) == Strip(p)
  {
    var u := StripLeft(p + m);
    StripMarked(p, m);
    assert CleanPrice(p + m) == Strip(ReplaceAll(ReplaceAll(u, "rub.", ""), "руб.", ""));
    if StripLeft(p) != [] {
      CleanPriceWord(p, m);
    } else {
      CleanPriceBlank(p, m);
    }
  }

  /** A price followed by a marker loses only leading whitespace to
      `strip()`: the text before the marker when it has a non-space
      character, all of it otherwise. */
  lemma StripMarked(p: string, m: string)
    requires m == " руб." || m == " rub."
    ensures Strip(p + m) == StripLeft(p + m)
    ensures StripLeft(p) != [] ==> StripLeft(p + m) == StripLeft(p) + m
    ensures StripLeft(p) == [] ==> StripLeft(p + m) == m[1..]
  {
    StripLeftAppend(p, m);
    assert StripLeft(m) == m[1..] by {
      assert StripLeft(m[1..]) == m[1..];
    }
    var u := StripLeft(p + m);
    assert u != [] && u[|u| - 1] == '.';
  }

  /** The case of a price with a non-space character. */
  lemma CleanPriceWord(p: string, m: string)
    requires m == " руб." || m == " rub."
    requires !Contains(p, "rub.") && !Contains(p, "руб.")
    requires StripLeft(p) != []
    ensures ReplaceAll(ReplaceAll(StripLeft(p) + m, "rub.", ""), "руб.", "") == StripLeft(p) + " "
    ensures Strip(StripLeft(p) + " ") == Strip(p)
  {
    var s := StripLeft(p);
    StripLeftSuffix(p);
    assert !Contains(s, "rub.") by {
      if Contains(s, "rub.") {
        ContainsSuffix(p, |p| - |s|, "rub.");
      }
    }
    assert !Contains(s, "руб.") by {
      if Contains(s, "руб.") {
        ContainsSuffix(p, |p| - |s|, "руб.");
      }
    }
    ReplaceMarkers(s, m);
    StripSpaceAfter(s);
  }

  /** The case of a blank price: only the marker is left to remove. */
  lemma CleanPriceBlank(p: string, m: string)
    requires m == " руб." || m == " rub."
    ensures ReplaceAll(ReplaceAll(m[1..], "rub.", ""), "руб.", "") == []
  {
    if m == " руб." {
      NotContainsFirst(m[1..], "rub.");
      MarkerGoes(' ', "руб.");
    } else {
      MarkerGoes(' ', "rub.");
    }
  }

  /** Text without either marker, followed by a space and a marker: the
      removals leave the text and the space. */
  lemma ReplaceMarkers(s: string, m: string)
    requires m == " руб." || m == " rub."
    requires !Contains(s, "rub.") && !Contains(s, "руб.")
    ensures ReplaceAll(ReplaceAll(s + m, "rub.", ""), "руб.", "") == s + " "
  {
    if m == " руб." {
      NotContainsFirst(m, "rub.");
      ReplaceAllPrefix(s, m, "rub.", "");
      ReplaceAllPrefix(s, m, "руб.", "");
      MarkerGoes(' ', "руб.");
    } else {
      ReplaceAllPrefix(s, m, "rub.", "");
      MarkerGoes(' ', "rub.");
      ReplaceAllPrefix(s, " ", "руб.", "");
    }
  }

  /** A trailing space is stripped away. */
  lemma StripSpaceAfter(s: string)
    requires s != [] && !IsSpace(s[0])
    ensures Strip(s + " ") == Strip(s)
  {
    StripLeftAppend(s, " ");
    assert (s + " ")[..|s|] == s;
  }

  /** A marker after a character outside it is removed and the character
      kept. */
  lemma MarkerGoes(c: char, w: string)
    requires |w| == 4 && c !in w
    ensures ReplaceAll([c] + w, w, "") == [c]
    ensures ReplaceAll(w, w, "") == []
  {
    assert ([c] + w)[..4][0] == c;
    assert ([c] + w)[1..] == w;
    assert w[..4] == w;
    assert w[4..] == [];
  }

  /** The size texts: each label's textContent stripped, the empty ones
      dropped, in label order. */
  function Sizes(labels: seq<Element>): (r: seq<string>)
    ensures |r| <= |labels|
    ensures forall j :: 0 <= j < |r| ==> r[j] != ""
  {
    if labels == [] then []
    else
      var s := Strip(labels[|labels| - 1].textContent);
      Sizes(labels[..|labels| - 1]) + (if s != "" then [s] else [])
  }

  /** Sizes keep label order: the labels of `a + b` give the sizes of `a`
      followed by those of `b`. */
  lemma {:induction false} SizesConcat(a: seq<Element>, b: seq<Element>)
    ensures Sizes(a + b) == Sizes(a) + Sizes(b)
    decreases |b|
  {
    if b == [] {
      assert a + b == a;
    } else {
      var front := b[..|b| - 1];
      assert (a + b)[..|a + b| - 1] == a + front;
      assert (a + b)[|a + b| - 1] == b[|b| - 1];
      SizesConcat(a, front);
    }
  }

  /** One label adds its stripped text, or nothing when that is blank. */
  lemma SizesOne(e: Element)
    ensures Sizes([e]) == if Strip(e.textContent) != "" then [Strip(e.textContent)] else []
  {
    assert [e][..0] == [];
  }

  /** No size remains exactly when every label's text is blank. */
  lemma {:induction false} SizesEmpty(labels: seq<Element>)
    ensures Sizes(labels) == [] <==> forall j :: 0 <= j < |labels| ==> Strip(labels[j].textContent) == ""
  {
    if labels != [] {
      var front := labels[..|labels| - 1];
      SizesEmpty(front);
      assert forall j :: 0 <= j < |front| ==> front[j] == labels[j];
    }
  }

  /** Every size is the stripped text of some label. */
  lemma {:induction false} SizesFrom(labels: seq<Element>)
    ensures forall s :: s in Sizes(labels) ==> exists j :: 0 <= j < |labels| && s == Strip(labels[j].textContent)
  {
    if labels != [] {
      var front := labels[..|labels| - 1];
      SizesFrom(front);
      forall s | s in Sizes(labels) ensures exists j :: 0 <= j < |labels| && s == Strip(labels[j].textContent) {
        if s in Sizes(front) {
          var j :| 0 <= j < |front| && s == Strip(front[j].textContent);
          assert front[j] == labels[j];
        } else {
          assert s == Strip(labels[|labels| - 1].textContent);
        }
      }
    }
  }

  /** The image: the src, replaced by data-src when the src is missing,
      empty or a "data:image" placeholder; None without an image element. */
  function Image(card: Card): Option<string> {
    if card.image.None? then None
    else
      var src := card.image.value.Attribute("src");
      if !Truthy(src) || Contains(src.value, "data:image") then card.image.value.Attribute("data-src")
      else src
  }

  /** The old price, cleaned, or None without an old-price element. */
  function OldPrice(card: Card): Option<string> {
    if card.priceOld.Some? then Some(CleanPrice(card.priceOld.value.text)) else None
  }

  /** The badge text, read only when the old price is non-empty. */
  function Discount(card: Card): string {
    if Truthy(OldPrice(card)) && card.badge.Some? then Strip(card.badge.value.text) else ""
  }

  /** `_parse_card(card)`: None without an info or new-price element, or
      when no size remains. A missing href reads as "". */
  function ParseCard(card: Card): Option<Deal> {
    if card.info.None? || card.priceNew.None? then None
    else
      var title := Strip(card.info.value.text);
      var link := card.info.value.Attribute("href").GetOr("");
      var price := CleanPrice(card.priceNew.value.text);
      var sizes := Sizes(card.sizeLabels);
      if sizes == [] then None
      else Some(Deal(title, price, OldPrice(card), Discount(card), link, Image(card), sizes, "StreetBeat"))
  }

  /** When a card is dropped. */
  lemma ParseCardNone(card: Card)
    ensures ParseCard(card).None? <==>
      || card.info.None? || card.priceNew.None?
      || forall j :: 0 <= j < |card.sizeLabels| ==> Strip(card.sizeLabels[j].textContent) == ""
  {
    SizesEmpty(card.sizeLabels);
  }

  /** What a kept card carries. */
  lemma ParseCardSome(card: Card)
    requires ParseCard(card).Some?
    ensures var d := ParseCard(card).value;
      && card.info.Some? && card.priceNew.Some?
      && d.title == Strip(card.info.value.text)
      && d.link == card.info.value.Attribute("href").GetOr("")
      && d.price == CleanPrice(card.priceNew.value.text)
      && (card.priceOld.None? <==> d.oldPrice.None?)
      && (card.priceOld.Some? ==> d.oldPrice == Some(CleanPrice(card.priceOld.value.text)))
      && (d.discount != "" ==> d.oldPrice.Some? && d.oldPrice.value != "" && card.badge.Some?)
      && (Truthy(d.oldPrice) && card.badge.Some? ==> d.discount == Strip(card.badge.value.text))
      && d.sizes == Sizes(card.sizeLabels)
      && d.sizes != [] && (forall j :: 0 <= j < |d.sizes| ==> d.sizes[j] != "")
      && d.imageUrl == Image(card) && d.source == "StreetBeat"
  {
  }

  /** The image fallback: a usable src is kept, otherwise data-src is read
      (and may itself be missing). */
  lemma ImageFallback(card: Card)
    requires card.image.Some?
    ensures var src := card.image.value.Attribute("src");
      && (Truthy(src) && !Contains(src.value, "data:image") ==> Image(card) == src)
      && (!Truthy(src) || Contains(src.value, "data:image") ==> Image(card) == card.image.value.Attribute("data-src"))
  {
  }
}
