/** The deal record every scraper produces and main.py consumes: a Python
    dict with the keys title, price, old_price, discount, link, image_url,
    sizes and source. */
module Deals {
  import opened Maybe

  /** `oldPrice` is None where a scraper stores None (StreetBeat without an
      old price) and `imageUrl` is None where it stores None (no image
      element); both are strings otherwise, possibly empty. */
  datatype Deal = Deal(
    title: string,
    price: string,
    oldPrice: Option<string>,
    discount: string,
    link: string,
    imageUrl: Option<string>,
    sizes: seq<string>,
    source: string)

  /** A DOM element as the browser-driven scrapers read it: its rendered
      text (Selenium's `.text`, Playwright's `inner_text()`), its DOM
      `textContent`, and its HTML attributes. */
  datatype Element = Element(text: string, textContent: string, attributes: map<string, string>) {

    /** `get_attribute(name)`: None when the element has no such attribute. */
    function Attribute(name: string): Option<string> {
      if name in attributes then Some(attributes[name]) else None
    }
  }
}
