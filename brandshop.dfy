/** scraper.py, `BrandshopScraper._parse_item`: one item of the shop's
    catalogue JSON turned into a deal, or None when it is unusable. Keys
    that may be missing are Options and `d.get(k, default)` is `GetOr`. */
module Brandshop {
  import opened Maybe
  import opened Text
  import opened Sizes
  import opened Deals

  /** One entry of `subtitles`; only its "subtitle" key is read. */
  datatype Subtitle = Subtitle(subtitle: Option<string>)

  /** The "price" object. Amounts are whole roubles. */
  datatype PriceInfo = PriceInfo(newAmount: Option<int>, amount: Option<int>, discount: Option<int>)

  /** One entry of `productImg`: the value at ["retina"]["popup"], None
      when either key is missing. */
  datatype ProductImg = ProductImg(retinaPopup: Option<string>)

  /** One entry of `sizes.size`; only its "name" key is read. */
  datatype SizeEntry = SizeEntry(name: Option<string>)

  datatype Item = Item(
    title: Option<string>,
    subtitles: seq<Subtitle>,
    fullName: Option<string>,
    price: Option<PriceInfo>,
    url: Option<string>,
    productImg: seq<ProductImg>,
    sizes: seq<SizeEntry>,
    isDiscount: bool)

  /** Brand, a space and the model (the second subtitle when it is
      non-empty, the full name otherwise), stripped. */
  function ItemTitle(item: Item): string {
    var brand := item.title.GetOr("");
    var model := if |item.subtitles| > 1 then item.subtitles[1].subtitle.GetOr("") else "";
    if model != "" then Strip(brand + " " + model)
    else Strip(brand + " " + item.fullName.GetOr(""))
  }

  /** `newAmount or amount`. */
  function CurrentPrice(p: PriceInfo): Option<int> {
    if TruthyInt(p.newAmount) then p.newAmount else p.amount
  }

  /** `amount if newAmount else None`. */
  function OldPrice(p: PriceInfo): Option<int> {
    if TruthyInt(p.newAmount) then p.amount else None
  }

  /** Three digits, with leading zeros, for 0 <= m < 1000. */
  function Three(m: nat): (r: string)
    requires m < 1000
    ensures |r| == 3 && AllDigits(r)
  {
    [DigitChar(m / 100), DigitChar(m / 10 % 10), DigitChar(m % 10)]
  }

  /** `f"{n:,}"` with every ',' replaced by ' ': the decimal digits of `n`
      grouped in threes from the right. */
  function GroupThousands(n: nat): (r: string)
    ensures r != []
  {
    if n < 1000 then NatToString(n) else GroupThousands(n / 1000) + " " + Three(n % 1000)
  }

  /** The same for any integer: a minus sign in front of a negative one. */
  function Grouped(i: int): string {
    if i < 0 then "-" + GroupThousands(-i) else GroupThousands(i)
  }

  /** `s` without the character `c`. */
  function Without(s: string, c: char): (r: string)
    ensures c !in r
  {
    if s == [] then [] else (if s[0] == c then [] else [s[0]]) + Without(s[1..], c)
  }

  lemma {:induction false} WithoutConcat(a: string, b: string, c: char)
    ensures Without(a + b, c) == Without(a, c) + Without(b, c)
  {
    if a == [] {
      assert a + b == b;
    } else {
      assert (a + b)[1..] == a[1..] + b;
      WithoutConcat(a[1..], b, c);
    }
  }

  lemma {:induction false} WithoutAbsent(s: string, c: char)
    requires c !in s
    ensures Without(s, c) == s
  {
    if s != [] {
      WithoutAbsent(s[1..], c);
    }
  }

  /** The last three digits of a number of at least 1000 are its low group. */
  lemma NatToStringSplit(n: nat)
    requires n >= 1000
    ensures NatToString(n) == NatToString(n / 1000) + Three(n % 1000)
  {
    assert n / 10 / 10 == n / 100;
    assert n / 100 / 10 == n / 1000;
    assert n % 1000 / 100 == n / 100 % 10;
    assert n % 1000 / 10 % 10 == n / 10 % 10;
    assert n % 1000 % 10 == n % 10;
    calc {
      NatToString(n);
      NatToString(n / 10) + [DigitChar(n % 10)];
      NatToString(n / 100) + [DigitChar(n / 10 % 10)] + [DigitChar(n % 10)];
      NatToString(n / 1000) + [DigitChar(n / 100 % 10)] + [DigitChar(n / 10 % 10)] + [DigitChar(n % 10)];
    }
  }

  /** Deleting the separators gives back the plain decimal of `n`. */
  lemma {:induction false} GroupThousandsDigits(n: nat)
    ensures Without(GroupThousands(n), ' ') == NatToString(n)
  {
    if n < 1000 {
      WithoutAbsent(NatToString(n), ' ');
    } else {
      GroupThousandsDigits(n / 1000);
      WithoutConcat(GroupThousands(n / 1000) + " ", Three(n % 1000), ' ');
      WithoutConcat(GroupThousands(n / 1000), " ", ' ');
      WithoutAbsent(Three(n % 1000), ' ');
      assert Without(" ", ' ') == [];
      NatToStringSplit(n);
    }
  }

  /** With the sign: deleting the separators gives Python's `str(i)`. */
  lemma GroupedDigits(i: int)
    ensures Without(Grouped(i), ' ') == IntToString(i)
  {
    if i < 0 {
      GroupThousandsDigits(-i);
      WithoutConcat("-", GroupThousands(-i), ' ');
    } else {
      GroupThousandsDigits(i);
    }
  }

  /** Between the separators: a leading group of one to three digits
      without a leading zero (unless the number is 0), then groups of
      exactly three digits. */
  lemma {:induction false} GroupThousandsShape(n: nat)
    ensures var parts := Split(GroupThousands(n), ' ');
      1 <= |parts[0]| <= 3 && AllDigits(parts[0]) && (|parts[0]| > 1 ==> parts[0][0] != '0')
      && (n > 0 ==> parts[0][0] != '0')
      && forall k :: 1 <= k < |parts| ==> |parts[k]| == 3 && AllDigits(parts[k])
  {
    if n < 1000 {
      SplitNone(NatToString(n), ' ');
      assert n < 10 ==> NatToString(n) == [DigitChar(n)];
      assert |NatToString(n)| <= 3 by {
        if n >= 10 {
          assert |NatToString(n / 10)| <= 2 by {
            if n / 10 >= 10 {
              assert |NatToString(n / 10 / 10)| == 1;
            }
          }
        }
      }
    } else {
      var a, b := GroupThousands(n / 1000), Three(n % 1000);
      GroupThousandsShape(n / 1000);
      SplitAppend(a, b, ' ');
    }
  }

  /** Splitting `a + " " + b`, where `b` has no separator, adds `b` as a
      last part. */
  lemma {:induction false} SplitAppend(a: string, b: string, c: char)
    requires c !in b
    ensures Split(a + [c] + b, c) == Split(a, c) + [b]
  {
    if a == [] {
      assert a + [c] + b == [c] + b;
      SplitNone(b, c);
      assert ([c] + b)[1..] == b;
    } else {
      assert (a + [c] + b)[1..] == a[1..] + [c] + b;
      SplitAppend(a[1..], b, c);
      if a[0] != c {
        var t := Split(a[1..], c);
        assert t == Split(a[1..], c);
        assert [[a[0]] + t[0]] + t[1..] + [b] == [[a[0]] + (t + [b])[0]] + (t + [b])[1..];
      }
    }
  }

  /** `f"{n:,} ₽"` with commas turned into spaces. */
  function PriceText(i: int): string {
    Grouped(i) + " ₽"
  }

  /** Without its spaces a price text is the integer followed by the rouble
      sign, so it is never the "N/A" placeholder. */
  lemma PriceTextPlain(v: int)
    ensures Without(PriceText(v), ' ') == IntToString(v) + "₽"
    ensures PriceText(v) != "N/A"
  {
    GroupedDigits(v);
    WithoutConcat(Grouped(v), " ₽", ' ');
    assert Without(" ₽", ' ') == "₽";
    var t := PriceText(v);
    assert t[|t| - 1] == '₽';
  }

  lemma PriceTextExample()
    ensures PriceText(12990) == "12 990 ₽"
  {
    assert NatToString(12) == "12" by {
      assert NatToString(1) == "1";
    }
    assert Three(990) == "990";
    assert GroupThousands(12990) == "12" + " " + "990";
  }

  lemma PriceTextMillion()
    ensures PriceText(1234567) == "1 234 567 ₽"
  {
    assert GroupThousands(1234) == "1 234" by {
      assert NatToString(1) == "1";
      assert Three(234) == "234";
    }
    assert Three(567) == "567";
    assert GroupThousands(1234567) == "1 234" + " " + "567";
  }

  /** The non-empty size names, in order (`if s.get("name")`). */
  function SizeNames(entries: seq<SizeEntry>): (r: seq<string>)
    ensures |r| <= |entries|
    ensures forall k :: 0 <= k < |r| ==> r[k] != ""
  {
    if entries == [] then []
    else (if Truthy(entries[0].name) then [entries[0].name.value] else []) + SizeNames(entries[1..])
  }

  /** Only entries without a usable name are dropped: when every entry has
      one, the names come back in order. */
  lemma {:induction false} SizeNamesAll(entries: seq<SizeEntry>)
    requires forall k :: 0 <= k < |entries| ==> Truthy(entries[k].name)
    ensures |SizeNames(entries)| == |entries|
    ensures forall k :: 0 <= k < |entries| ==> entries[k].name == Some(SizeNames(entries)[k])
  {
    if entries != [] {
      SizeNamesAll(entries[1..]);
    }
  }

  /** Names keep entry order: the entries of `a + b` give the names of `a`
      followed by those of `b`. */
  lemma {:induction false} SizeNamesConcat(a: seq<SizeEntry>, b: seq<SizeEntry>)
    ensures SizeNames(a + b) == SizeNames(a) + SizeNames(b)
  {
    if a != [] {
      assert (a + b)[1..] == a[1..] + b;
      SizeNamesConcat(a[1..], b);
    } else {
      assert a + b == b;
    }
  }

  /** One entry adds its name, or nothing when the name is missing or
      empty. */
  lemma SizeNamesOne(e: SizeEntry)
    ensures SizeNames([e]) == if Truthy(e.name) then [e.name.value] else []
  {
    assert [e][1..] == [];
  }

  /** `_parse_item(item)`. */
  function ParseItem(item: Item): Option<Deal> {
    var title := ItemTitle(item);
    var p := item.price.GetOr(PriceInfo(None, None, None));
    var current := CurrentPrice(p);
    var oldPrice := OldPrice(p);
    var url := item.url.GetOr("");
    var image := if |item.productImg| > 0 then Some(item.productImg[0].retinaPopup.GetOr("")) else None;
    if title == "" || !TruthyInt(current) || url == "" then None
    else
      var sizes := SizeNames(item.sizes);
      if !ValidSizeFound(sizes, DefaultMinSize) then None
      else
        Some(Deal(
          title,
          PriceText(current.value),
          Some(if TruthyInt(oldPrice) then PriceText(oldPrice.value) else "N/A"),
          if TruthyInt(p.discount) then "-" + IntToString(p.discount.value) + "%" else "",
          "https://brandshop.ru" + url,
          image,
          sizes,
          "Brandshop"))
  }

  /** An item is dropped exactly when its title is empty, its current price
      is missing or zero, its url is empty, or no size reaches 41. */
  lemma ParseItemNone(item: Item)
    ensures var p := item.price.GetOr(PriceInfo(None, None, None));
      ParseItem(item).None? <==>
        ItemTitle(item) == "" || !TruthyInt(CurrentPrice(p)) || item.url.GetOr("") == ""
        || !ValidSizeFound(SizeNames(item.sizes), DefaultMinSize)
  {
  }

  /** What a kept item carries. */
  lemma ParseItemSome(item: Item)
    requires ParseItem(item).Some?
    ensures var d := ParseItem(item).value;
      var p := item.price.GetOr(PriceInfo(None, None, None));
      && d.title == ItemTitle(item) && d.title != ""
      && d.link == "https://brandshop.ru" + item.url.GetOr("")
      && d.source == "Brandshop"
      && d.sizes == SizeNames(item.sizes)
      && Without(d.price, ' ') == IntToString(CurrentPrice(p).value) + "₽"
      && (TruthyInt(p.newAmount) ==> d.price == PriceText(p.newAmount.value))
      && (!TruthyInt(p.newAmount) ==> d.price == PriceText(p.amount.value))
      && (d.oldPrice == Some("N/A") <==> !TruthyInt(OldPrice(p)))
      && (TruthyInt(OldPrice(p)) ==> d.oldPrice == Some(PriceText(OldPrice(p).value)))
      && (d.discount == "" <==> !TruthyInt(p.discount))
      && (TruthyInt(p.discount) ==> d.discount == "-" + IntToString(p.discount.value) + "%")
      && (d.imageUrl.None? <==> item.productImg == [])
      && (item.productImg != [] ==> d.imageUrl == Some(item.productImg[0].retinaPopup.GetOr("")))
  {
    var p := item.price.GetOr(PriceInfo(None, None, None));
    PriceTextPlain(CurrentPrice(p).value);
    if TruthyInt(OldPrice(p)) {
      PriceTextPlain(OldPrice(p).value);
    }
  }
}
